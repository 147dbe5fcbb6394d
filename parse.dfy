/**
  The printer's reply decoder (custom_components/flashforge/parse.py).

  A reply is text whose lines are separated by CRLF; every line of the form
  `key:value` contributes the entry `key -> value`, split at the FIRST colon,
  with neither side trimmed. Lines without a colon are ignored and a key that
  occurs on several lines keeps the value of its last line.
 */
module Parse {

  const Crlf: string := "\r\n"

  /** True when the two-character sequence CRLF occurs somewhere in `s`. */
  predicate HasCrlf(s: string) {
    exists i | 0 <= i < |s| - 1 :: s[i] == '\r' && s[i + 1] == '\n'
  }

  /** Python's `text.split('\r\n')`: the pieces of `text` between CRLFs. */
  function Lines(text: string): (r: seq<string>)
    ensures |r| >= 1
    decreases |text|
  {
    if |text| < 2 then [text]
    else if text[0] == '\r' && text[1] == '\n' then [""] + Lines(text[2..])
    else
      var rest := Lines(text[1..]);
      [[text[0]] + rest[0]] + rest[1..]
  }

  /** Python's `'\r\n'.join(lines)`: the inverse of `Lines`. */
  function JoinLines(lines: seq<string>): string
  {
    if |lines| == 0 then ""
    else if |lines| == 1 then lines[0]
    else lines[0] + Crlf + JoinLines(lines[1..])
  }

  /**
    Python's `line.split(':', 1)`: one piece when `line` has no colon, else
    the text before and the text after its first colon.
   */
  function SplitOnce(line: string): (r: seq<string>)
    ensures |r| == 1 || |r| == 2
    ensures |r| == 2 <==> ':' in line
    ensures |r| == 1 ==> r[0] == line
    ensures |r| == 2 ==> ':' !in r[0] && line == r[0] + ":" + r[1]
  {
    if |line| == 0 then [line]
    else if line[0] == ':' then ["", line[1..]]
    else
      var rest := SplitOnce(line[1..]);
      if |rest| == 1 then [line] else [[line[0]] + rest[0], rest[1]]
  }

  /** `line` is the entry line `key:value`, with the colon after `key` its first one. */
  predicate Defines(line: string, key: string, value: string) {
    ':' !in key && line == key + ":" + value
  }

  /** The dictionary the loop of parse_values has built after the lines `lines`. */
  function FoldLines(lines: seq<string>): map<string, string>
  {
    if |lines| == 0 then map[]
    else
      var values := FoldLines(lines[..|lines| - 1]);
      var pair := SplitOnce(lines[|lines| - 1]);
      if |pair| == 2 then values[pair[0] := pair[1]] else values
  }

  /** What parse_values(text) returns. */
  function Parsed(text: string): map<string, string>
  {
    FoldLines(Lines(text))
  }

  /** parse_values: split into lines, then fill a fresh dictionary line by line. */
  method ParseValues(text: string) returns (values: map<string, string>)
    ensures values == Parsed(text)
  {
    var lines := Lines(text);
    values := map[];
    for i := 0 to |lines|
      invariant values == FoldLines(lines[..i])
    {
      assert lines[..i + 1][..i] == lines[..i];
      var pair := SplitOnce(lines[i]);
      if |pair| == 2 {
        values := values[pair[0] := pair[1]];
      }
    }
    assert lines[..|lines|] == lines;
  }

  // ---------------------------------------------------------------------------
  // Lines and JoinLines

  /** A CRLF-free text is a single line: a lone '\n' or '\r' separates nothing. */
  lemma {:induction false} LinesOfSingleLine(text: string)
    requires !HasCrlf(text)
    ensures Lines(text) == [text]
  {
    if |text| >= 2 {
      assert !(text[0] == '\r' && text[1] == '\n') by {
        if text[0] == '\r' && text[1] == '\n' {
          assert HasCrlf(text);
        }
      }
      LinesOfSingleLine(text[1..]);
      assert [text[0]] + text[1..] == text;
    }
  }

  /** A first line without CRLF is split off exactly at the CRLF that follows it. */
  lemma {:induction false} LinesOfCons(first: string, rest: string)
    requires !HasCrlf(first)
    ensures Lines(first + Crlf + rest) == [first] + Lines(rest)
    decreases |first|
  {
    var text := first + Crlf + rest;
    if |first| == 0 {
      assert text == "\r\n" + rest;
      assert text[2..] == rest;
    } else {
      var tail := first[1..];
      assert text[1..] == tail + Crlf + rest;
      assert !(text[0] == '\r' && text[1] == '\n') by {
        if |tail| > 0 {
          assert text[1] == first[1];
        } else {
          assert text[1] == '\r';
        }
      }
      LinesOfCons(tail, rest);
      assert [text[0]] + tail == first;
    }
  }

  /** Splitting then joining gives back the text. */
  lemma {:induction false} JoinLinesOfLines(text: string)
    ensures JoinLines(Lines(text)) == text
    decreases |text|
  {
    if |text| < 2 {
    } else if text[0] == '\r' && text[1] == '\n' {
      JoinLinesOfLines(text[2..]);
      var rest := Lines(text[2..]);
      assert Lines(text) == [""] + rest;
      assert ([""] + rest)[1..] == rest;
      assert text == "" + Crlf + text[2..];
    } else {
      var rest := Lines(text[1..]);
      JoinLinesOfLines(text[1..]);
      var lines := [[text[0]] + rest[0]] + rest[1..];
      assert Lines(text) == lines;
      if |rest| == 1 {
        assert lines == [[text[0]] + text[1..]];
        assert [text[0]] + text[1..] == text;
      } else {
        assert lines[1..] == rest[1..];
        assert JoinLines(rest) == rest[0] + Crlf + JoinLines(rest[1..]);
        assert text == [text[0]] + text[1..];
      }
    }
  }

  /** Joining lines free of CRLF, then splitting, gives back the lines. */
  lemma {:induction false} LinesOfJoinLines(lines: seq<string>)
    requires |lines| >= 1
    requires forall i :: 0 <= i < |lines| ==> !HasCrlf(lines[i])
    ensures Lines(JoinLines(lines)) == lines
  {
    if |lines| == 1 {
      LinesOfSingleLine(lines[0]);
    } else {
      LinesOfJoinLines(lines[1..]);
      LinesOfCons(lines[0], JoinLines(lines[1..]));
      assert [lines[0]] + lines[1..] == lines;
    }
  }

  /** No line produced by the split contains CRLF. */
  lemma {:induction false} LinesHaveNoCrlf(text: string)
    ensures forall i :: 0 <= i < |Lines(text)| ==> !HasCrlf(Lines(text)[i])
    decreases |text|
  {
    if |text| < 2 {
    } else if text[0] == '\r' && text[1] == '\n' {
      LinesHaveNoCrlf(text[2..]);
      var rest := Lines(text[2..]);
      assert Lines(text) == [""] + rest;
      forall i | 0 <= i < |Lines(text)| ensures !HasCrlf(Lines(text)[i]) {
        if i > 0 {
          assert Lines(text)[i] == rest[i - 1];
        }
      }
    } else {
      LinesHaveNoCrlf(text[1..]);
      var rest := Lines(text[1..]);
      var head := [text[0]] + rest[0];
      assert Lines(text) == [head] + rest[1..];
      assert !HasCrlf(head) by {
        forall i | 0 <= i < |head| - 1 ensures !(head[i] == '\r' && head[i + 1] == '\n') {
          if i > 0 {
            assert head[i] == rest[0][i - 1] && head[i + 1] == rest[0][i];
          }
        }
      }
      forall i | 0 <= i < |Lines(text)| ensures !HasCrlf(Lines(text)[i]) {
        if i > 0 {
          assert Lines(text)[i] == rest[i];
        }
      }
    }
  }

  /** A character other than CR and LF occurs in the joined text iff it occurs in a line. */
  lemma {:induction false} InJoinLines(lines: seq<string>, c: char)
    requires c != '\r' && c != '\n'
    ensures c in JoinLines(lines) <==> exists i :: 0 <= i < |lines| && c in lines[i]
  {
    if |lines| <= 1 {
    } else {
      InJoinLines(lines[1..], c);
      var rest := JoinLines(lines[1..]);
      assert JoinLines(lines) == lines[0] + Crlf + rest;
      if c in JoinLines(lines) {
        if c !in lines[0] {
          assert c in rest;
          var i :| 0 <= i < |lines[1..]| && c in lines[1..][i];
          assert c in lines[i + 1];
        }
      } else {
        forall i | 0 <= i < |lines| ensures c !in lines[i] {
          if i > 0 {
            assert lines[i] == lines[1..][i - 1];
          }
        }
      }
    }
  }

  // ---------------------------------------------------------------------------
  // SplitOnce and Defines

  /** A line has at most one decomposition `key:value` with a colon-free key. */
  lemma DefinesUnique(line: string, k1: string, v1: string, k2: string, v2: string)
    requires Defines(line, k1, v1) && Defines(line, k2, v2)
    ensures k1 == k2 && v1 == v2
  {
    assert line[|k1|] == ':' && line[|k2|] == ':';
    assert forall j :: 0 <= j < |k1| ==> line[j] == k1[j] != ':';
    assert forall j :: 0 <= j < |k2| ==> line[j] == k2[j] != ':';
    assert |k1| == |k2|;
    assert k1 == line[..|k1|];
    assert k2 == line[..|k2|];
    assert v1 == line[|k1| + 1..];
    assert v2 == line[|k2| + 1..];
  }

  /** The colon split of a line is its unique entry decomposition. */
  lemma SplitOnceDefines(line: string)
    requires ':' in line
    ensures Defines(line, SplitOnce(line)[0], SplitOnce(line)[1])
  {
  }

  // ---------------------------------------------------------------------------
  // FoldLines: which keys are present and which value each one gets

  /** A key is present iff some line defines it. */
  lemma {:induction false} FoldKeys(lines: seq<string>, key: string)
    ensures key in FoldLines(lines) <==>
            exists i, v :: 0 <= i < |lines| && Defines(lines[i], key, v)
  {
    if |lines| > 0 {
      var n := |lines| - 1;
      var init := lines[..n];
      FoldKeys(init, key);
      var pair := SplitOnce(lines[n]);
      if key in FoldLines(lines) {
        if |pair| == 2 && pair[0] == key {
          SplitOnceDefines(lines[n]);
          assert Defines(lines[n], key, pair[1]);
        } else {
          assert key in FoldLines(init);
          var i, v :| 0 <= i < |init| && Defines(init[i], key, v);
          assert Defines(lines[i], key, v);
        }
      } else {
        forall i, v | 0 <= i < |lines| ensures !Defines(lines[i], key, v) {
          if i < n {
            assert lines[i] == init[i];
          } else if Defines(lines[n], key, v) {
            assert ':' in lines[n];
            SplitOnceDefines(lines[n]);
            DefinesUnique(lines[n], key, v, pair[0], pair[1]);
          }
        }
      }
    }
  }

  /** A key gets the value of the last line that defines it. */
  lemma {:induction false} FoldValue(lines: seq<string>, i: nat, key: string, value: string)
    requires i < |lines| && Defines(lines[i], key, value)
    requires forall j, v :: i < j < |lines| ==> !Defines(lines[j], key, v)
    ensures key in FoldLines(lines) && FoldLines(lines)[key] == value
  {
    var n := |lines| - 1;
    var pair := SplitOnce(lines[n]);
    assert ':' in lines[n] ==> Defines(lines[n], pair[0], pair[1]);
    if i == n {
      DefinesUnique(lines[n], key, value, pair[0], pair[1]);
    } else {
      var init := lines[..n];
      assert init[i] == lines[i];
      FoldValue(init, i, key, value);
    }
  }

  /** A line without a colon adds nothing, wherever it stands. */
  lemma {:induction false} NoColonLineIgnored(lines: seq<string>, i: nat)
    requires i < |lines| && ':' !in lines[i]
    ensures FoldLines(lines[..i] + lines[i + 1..]) == FoldLines(lines)
  {
    var n := |lines| - 1;
    if i == n {
      assert lines[..i] + lines[i + 1..] == lines[..n];
    } else {
      var init := lines[..n];
      NoColonLineIgnored(init, i);
      var shorter := lines[..i] + lines[i + 1..];
      assert shorter[..|shorter| - 1] == init[..i] + init[i + 1..];
      assert shorter[|shorter| - 1] == lines[n];
    }
  }

  // ---------------------------------------------------------------------------
  // Parsed: properties of parse_values(text)

  /** Every key of the result is colon-free and comes from a line `key:value` of the text. */
  lemma ParsedKeys(text: string, key: string)
    ensures key in Parsed(text) <==>
            exists i, v :: 0 <= i < |Lines(text)| && Defines(Lines(text)[i], key, v)
    ensures key in Parsed(text) ==> ':' !in key
  {
    FoldKeys(Lines(text), key);
    if key in Parsed(text) {
      var i, v :| 0 <= i < |Lines(text)| && Defines(Lines(text)[i], key, v);
    }
  }

  /** The value of a key is the text after the first colon of the last line defining it. */
  lemma ParsedValue(text: string, i: nat, key: string, value: string)
    requires i < |Lines(text)| && Defines(Lines(text)[i], key, value)
    requires forall j, v :: i < j < |Lines(text)| ==> !Defines(Lines(text)[j], key, v)
    ensures key in Parsed(text) && Parsed(text)[key] == value
  {
    FoldValue(Lines(text), i, key, value);
  }

  /** No key of the result contains CRLF. */
  lemma ParsedKeysHaveNoCrlf(text: string)
    ensures forall k :: k in Parsed(text) ==> !HasCrlf(k)
  {
    forall k | k in Parsed(text) ensures !HasCrlf(k) {
      FoldKeys(Lines(text), k);
      var i, v :| 0 <= i < |Lines(text)| && Defines(Lines(text)[i], k, v);
      LinesHaveNoCrlf(text);
      var line := Lines(text)[i];
      forall j | 0 <= j < |k| - 1 ensures !(k[j] == '\r' && k[j + 1] == '\n') {
        assert k[j] == line[j] && k[j + 1] == line[j + 1];
      }
    }
  }

  /** The result is empty exactly when the text has no colon at all. */
  lemma ParsedEmpty(text: string)
    ensures Parsed(text) == map[] <==> ':' !in text
  {
    var lines := Lines(text);
    JoinLinesOfLines(text);
    InJoinLines(lines, ':');
    if ':' in text {
      var i :| 0 <= i < |lines| && ':' in lines[i];
      SplitOnceDefines(lines[i]);
      var pair := SplitOnce(lines[i]);
      FoldKeys(lines, pair[0]);
      assert pair[0] in Parsed(text);
    } else {
      forall k ensures k !in Parsed(text) {
        FoldKeys(lines, k);
      }
      assert Parsed(text).Keys == {};
    }
  }

  // ---------------------------------------------------------------------------
  // Round trip

  /** The reply text for a list of entries: one `key:value` line each, CRLF-joined. */
  function Render(pairs: seq<(string, string)>): string
  {
    JoinLines(EntryLines(pairs))
  }

  function EntryLines(pairs: seq<(string, string)>): (lines: seq<string>)
    ensures |lines| == |pairs|
    ensures forall i :: 0 <= i < |pairs| ==> lines[i] == pairs[i].0 + ":" + pairs[i].1
  {
    seq(|pairs|, i requires 0 <= i < |pairs| => pairs[i].0 + ":" + pairs[i].1)
  }

  /** Entries that survive rendering: distinct colon-free, CRLF-free keys, CRLF-free values. */
  predicate Renderable(pairs: seq<(string, string)>) {
    && (forall i :: 0 <= i < |pairs| ==> ':' !in pairs[i].0 && !HasCrlf(pairs[i].0) && !HasCrlf(pairs[i].1))
    && (forall i, j :: 0 <= i < j < |pairs| ==> pairs[i].0 != pairs[j].0)
  }

  lemma EntryLineHasNoCrlf(key: string, value: string)
    requires ':' !in key && !HasCrlf(key) && !HasCrlf(value)
    ensures !HasCrlf(key + ":" + value)
  {
    var line := key + ":" + value;
    forall j | 0 <= j < |line| - 1 ensures !(line[j] == '\r' && line[j + 1] == '\n') {
      if j + 1 < |key| {
        assert line[j] == key[j] && line[j + 1] == key[j + 1];
      } else if j >= |key| + 1 {
        assert line[j] == value[j - |key| - 1] && line[j + 1] == value[j - |key|];
      }
    }
  }

  /** Rendered entries split back into their entry lines. */
  lemma LinesOfRender(pairs: seq<(string, string)>)
    requires Renderable(pairs) && |pairs| > 0
    ensures Lines(Render(pairs)) == EntryLines(pairs)
  {
    var lines := EntryLines(pairs);
    forall i | 0 <= i < |lines| ensures !HasCrlf(lines[i]) {
      EntryLineHasNoCrlf(pairs[i].0, pairs[i].1);
    }
    LinesOfJoinLines(lines);
  }

  /** In the entry lines of distinct keys, each entry's line is the last one defining its key. */
  lemma EntryLinesValue(pairs: seq<(string, string)>, i: nat)
    requires Renderable(pairs) && i < |pairs|
    ensures pairs[i].0 in FoldLines(EntryLines(pairs))
    ensures FoldLines(EntryLines(pairs))[pairs[i].0] == pairs[i].1
  {
    var lines := EntryLines(pairs);
    var key := pairs[i].0;
    forall j, v | i < j < |lines| ensures !Defines(lines[j], key, v) {
      assert Defines(lines[j], pairs[j].0, pairs[j].1);
      if Defines(lines[j], key, v) {
        DefinesUnique(lines[j], key, v, pairs[j].0, pairs[j].1);
      }
    }
    FoldValue(lines, i, key, pairs[i].1);
  }

  /** Every key parsed from entry lines is the key of one of the entries. */
  lemma EntryLinesKey(pairs: seq<(string, string)>, key: string)
    requires Renderable(pairs) && key in FoldLines(EntryLines(pairs))
    ensures exists i :: 0 <= i < |pairs| && pairs[i].0 == key
  {
    var lines := EntryLines(pairs);
    FoldKeys(lines, key);
    var i, v :| 0 <= i < |lines| && Defines(lines[i], key, v);
    assert Defines(lines[i], pairs[i].0, pairs[i].1);
    DefinesUnique(lines[i], key, v, pairs[i].0, pairs[i].1);
  }

  /** Parsing rendered entries gives back exactly those entries. */
  lemma RoundTrip(pairs: seq<(string, string)>)
    requires Renderable(pairs)
    ensures Parsed(Render(pairs)).Keys == set i | 0 <= i < |pairs| :: pairs[i].0
    ensures forall i :: 0 <= i < |pairs| ==> Parsed(Render(pairs))[pairs[i].0] == pairs[i].1
  {
    var m := Parsed(Render(pairs));
    if |pairs| == 0 {
      assert Lines("") == [""];
      assert m == map[];
    } else {
      LinesOfRender(pairs);
      assert m == FoldLines(EntryLines(pairs));
      forall i | 0 <= i < |pairs| ensures pairs[i].0 in m && m[pairs[i].0] == pairs[i].1 {
        EntryLinesValue(pairs, i);
      }
      forall k | k in m ensures k in set i | 0 <= i < |pairs| :: pairs[i].0 {
        EntryLinesKey(pairs, k);
      }
    }
  }

  // ---------------------------------------------------------------------------
  // Small cases

  /** A text without CRLF that has a colon is one entry: the text before and after its first colon. */
  lemma ParsedSingleLine(line: string, key: string, value: string)
    requires !HasCrlf(line) && Defines(line, key, value)
    ensures Parsed(line) == map[key := value]
  {
    LinesOfSingleLine(line);
    assert ':' in line by { assert line[|key|] == ':'; }
    SplitOnceDefines(line);
    DefinesUnique(line, key, value, SplitOnce(line)[0], SplitOnce(line)[1]);
    assert FoldLines([line]) == FoldLines([])[key := value];
  }

  /** A line that is only a colon yields the empty key with the empty value. */
  lemma ColonOnly()
    ensures Parsed(":") == map["" := ""]
  {
    assert Lines(":") == [":"];
    assert SplitOnce(":") == ["", ""];
  }

  /** Nothing is trimmed: spaces around the colon stay in the key and the value. */
  lemma NoTrimming()
    ensures Parsed(" X : 1 ") == map[" X " := " 1 "]
  {
    var line := " X : 1 ";
    assert '\r' !in line;
    assert Defines(line, " X ", " 1 ");
    ParsedSingleLine(line, " X ", " 1 ");
  }

  /** A lone line feed separates nothing: it stays inside the value. */
  lemma LoneLineFeedKept()
    ensures Parsed("a:1\nb:2") == map["a" := "1\nb:2"]
  {
    var line := "a:1\nb:2";
    assert '\r' !in line;
    assert Defines(line, "a", "1\nb:2");
    ParsedSingleLine(line, "a", "1\nb:2");
  }
}
