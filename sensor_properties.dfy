/**
  What one poll of the sensor leaves in its attributes, stated against
  independent definitions: the left-to-right merge of the parsed replies, the
  debug entries, and the error entry of each failure case.
 */
module SensorProperties {
  import Parse
  import opened Sensor

  /** The parsed replies merged from first to last, a later reply's key winning. */
  function MergeReplies(replies: seq<string>): map<string, string>
  {
    if |replies| == 0 then map[] else Parse.Parsed(replies[0]) + MergeReplies(replies[1..])
  }

  /** The entries `Debug(message) -> reply` a debug poll records. */
  function DebugEntries(messages: seq<Command>, replies: seq<string>, debug: bool): map<string, string>
    requires |messages| == |replies|
  {
    if !debug || |replies| == 0 then map[]
    else map[DebugKey(messages[0]) := replies[0]] + DebugEntries(messages[1..], replies[1..], debug)
  }

  /** A socket that delivered `replies`, one per request, in order. */
  function Delivered(replies: seq<string>): (exchanges: seq<Exchange>)
    ensures |exchanges| == |replies|
    ensures forall i :: 0 <= i < |replies| ==> exchanges[i] == Received(replies[i])
  {
    seq(|replies|, i requires 0 <= i < |replies| => Received(replies[i]))
  }

  predicate NoCrlfKeys(m: map<string, string>)
  {
    forall k :: k in m ==> !Parse.HasCrlf(k)
  }

  // ---------------------------------------------------------------------------
  // MergeReplies

  /** A key of the merge comes from some reply. */
  lemma {:induction false} MergeRepliesKeys(replies: seq<string>, key: string)
    ensures key in MergeReplies(replies) <==> exists i :: 0 <= i < |replies| && key in Parse.Parsed(replies[i])
  {
    if |replies| > 0 {
      MergeRepliesKeys(replies[1..], key);
      if key in MergeReplies(replies) && key !in Parse.Parsed(replies[0]) {
        var i :| 0 <= i < |replies[1..]| && key in Parse.Parsed(replies[1..][i]);
        assert replies[i + 1] == replies[1..][i];
      }
      if exists i :: 0 <= i < |replies| && key in Parse.Parsed(replies[i]) {
        var i :| 0 <= i < |replies| && key in Parse.Parsed(replies[i]);
        if i > 0 {
          assert replies[1..][i - 1] == replies[i];
        }
      }
    }
  }

  /** A key of the merge has its value from the last reply that has the key. */
  lemma {:induction false} MergeRepliesValue(replies: seq<string>, i: nat, key: string)
    requires i < |replies| && key in Parse.Parsed(replies[i])
    requires forall j :: i < j < |replies| ==> key !in Parse.Parsed(replies[j])
    ensures key in MergeReplies(replies) && MergeReplies(replies)[key] == Parse.Parsed(replies[i])[key]
  {
    if i == 0 {
      MergeRepliesKeys(replies[1..], key);
    } else {
      forall j | i - 1 < j < |replies[1..]| ensures key !in Parse.Parsed(replies[1..][j]) {
        assert replies[1..][j] == replies[j + 1];
      }
      MergeRepliesValue(replies[1..], i - 1, key);
    }
  }

  /** No key of the merge contains CRLF. */
  lemma {:induction false} MergeRepliesNoCrlf(replies: seq<string>)
    ensures NoCrlfKeys(MergeReplies(replies))
  {
    if |replies| > 0 {
      Parse.ParsedKeysHaveNoCrlf(replies[0]);
      MergeRepliesNoCrlf(replies[1..]);
    }
  }

  lemma DebugKeyHasCrlf(message: Command)
    ensures Parse.HasCrlf(DebugKey(message))
  {
    WireHasCrlf(message);
    var w := Wire(message);
    var i :| 0 <= i < |w| - 1 && w[i] == '\r' && w[i + 1] == '\n';
    var key := DebugKey(message);
    assert key[i + 6] == '\r' && key[i + 6 + 1] == '\n';
  }

  /** Every debug key contains CRLF, so no parsed key can collide with one. */
  lemma {:induction false} DebugEntriesKeys(messages: seq<Command>, replies: seq<string>, debug: bool)
    requires |messages| == |replies|
    ensures forall k :: k in DebugEntries(messages, replies, debug) ==> Parse.HasCrlf(k)
  {
    if debug && |replies| > 0 {
      DebugKeyHasCrlf(messages[0]);
      DebugEntriesKeys(messages[1..], replies[1..], debug);
    }
  }

  // ---------------------------------------------------------------------------
  // The request loop over delivered replies

  lemma Reassociate(debugs: map<string, string>, values: map<string, string>, key: string, reply: string,
                    parsed: map<string, string>)
    requires key !in values && key !in parsed
    ensures (debugs + values)[key := reply] + parsed == (debugs + map[key := reply]) + (values + parsed)
  {
  }

  /** One turn of the loop with parse.py's parser: record, merge, go on with the next request. */
  lemma ExchangesStep(messages: seq<Command>, reply: string, rest: seq<Exchange>, debug: bool,
                      data: map<string, string>, last: Option<string>)
    requires |messages| > 0
    ensures Exchanges(messages, [Received(reply)] + rest, debug, ResolvedParser, Poll(data, last, false))
            == Exchanges(messages[1..], rest, debug, ResolvedParser,
                         Poll((if debug then data[DebugKey(messages[0]) := reply] else data) + Parse.Parsed(reply),
                              Some(reply), false))
  {
    assert ([Received(reply)] + rest)[1..] == rest;
  }

  lemma UnionAssoc(a: map<string, string>, b: map<string, string>, c: map<string, string>)
    ensures (a + b) + c == a + (b + c)
  {
  }

  lemma DebugEntriesCons(messages: seq<Command>, replies: seq<string>, debug: bool)
    requires 0 < |replies| <= |messages|
    ensures DebugEntries(messages[..|replies|], replies, debug)
            == (if debug then map[DebugKey(messages[0]) := replies[0]] else map[])
               + DebugEntries(messages[1..][..|replies| - 1], replies[1..], debug)
  {
    assert messages[1..][..|replies| - 1] == messages[..|replies|][1..];
  }

  lemma DeliveredCons(replies: seq<string>, rest: seq<Exchange>)
    requires |replies| > 0
    ensures Delivered(replies) + rest == [Received(replies[0])] + (Delivered(replies[1..]) + rest)
  {
    assert Delivered(replies) == [Received(replies[0])] + Delivered(replies[1..]);
  }

  /**
    The loop over replies `replies` delivered in order, then `rest`: the debug
    entries and the merged replies accumulate, and the loop fails exactly when
    a request is left without a reply.
   */
  lemma {:induction false} ExchangesDelivered(messages: seq<Command>, replies: seq<string>, rest: seq<Exchange>,
                                              debug: bool, debugs: map<string, string>, values: map<string, string>,
                                              last: Option<string>)
    requires |replies| <= |messages|
    requires |replies| < |messages| ==> rest == [] || rest[0].Failed?
    requires NoCrlfKeys(values)
    ensures Exchanges(messages, Delivered(replies) + rest, debug, ResolvedParser, Poll(debugs + values, last, false))
            == Poll((debugs + DebugEntries(messages[..|replies|], replies, debug)) + (values + MergeReplies(replies)),
                    if |replies| == 0 then last else Some(replies[|replies| - 1]),
                    |replies| < |messages|)
  {
    if |replies| == 0 {
      assert Delivered(replies) + rest == rest;
      assert debugs + map[] == debugs && values + map[] == values;
    } else {
      var reply := replies[0];
      var parsed := Parse.Parsed(reply);
      var debugs' := if debug then debugs + map[DebugKey(messages[0]) := reply] else debugs;
      var values' := values + parsed;
      DeliveredCons(replies, rest);
      ExchangesStep(messages, reply, Delivered(replies[1..]) + rest, debug, debugs + values, last);
      Parse.ParsedKeysHaveNoCrlf(reply);
      if debug {
        DebugKeyHasCrlf(messages[0]);
        Reassociate(debugs, values, DebugKey(messages[0]), reply, parsed);
      }
      assert (if debug then (debugs + values)[DebugKey(messages[0]) := reply] else debugs + values) + parsed
          == debugs' + values';
      ExchangesDelivered(messages[1..], replies[1..], rest, debug, debugs', values', Some(reply));
      DebugEntriesCons(messages, replies, debug);
      if debug {
        UnionAssoc(debugs, map[DebugKey(messages[0]) := reply], DebugEntries(messages[1..][..|replies| - 1], replies[1..], debug));
      } else {
        assert DebugEntries(messages[..|replies|], replies, debug) == map[];
      }
      UnionAssoc(values, parsed, MergeReplies(replies[1..]));
    }
  }

  // ---------------------------------------------------------------------------
  // What update leaves in the attributes (with parse.py's parse_values)

  lemma EmptyUnion(m: map<string, string>)
    ensures map[] + m == m
  {
  }

  /** The request loop of a poll that opened its connection, over replies delivered in order, then `rest`. */
  lemma ExchangesFromStart(messages: seq<Command>, replies: seq<string>, rest: seq<Exchange>, debug: bool)
    requires |replies| <= |messages|
    requires |replies| < |messages| ==> rest == [] || rest[0].Failed?
    ensures Exchanges(messages, Delivered(replies) + rest, debug, ResolvedParser, Poll(map[], None, false))
            == Poll(DebugEntries(messages[..|replies|], replies, debug) + MergeReplies(replies),
                    if |replies| == 0 then None else Some(replies[|replies| - 1]),
                    |replies| < |messages|)
  {
    var none: map<string, string> := map[];
    ExchangesDelivered(messages, replies, rest, debug, none, none, None);
    EmptyUnion(none);
    EmptyUnion(DebugEntries(messages[..|replies|], replies, debug));
    EmptyUnion(MergeReplies(replies));
  }

  /** The attributes after replies `replies` delivered in order, then `rest`. */
  lemma PollDataDelivered(messages: seq<Command>, replies: seq<string>, rest: seq<Exchange>, shutsDown: bool, debug: bool)
    requires |replies| <= |messages|
    requires |replies| < |messages| ==> rest == [] || rest[0].Failed?
    ensures var merged := DebugEntries(messages[..|replies|], replies, debug) + MergeReplies(replies);
            PollData(messages, Transport(true, Delivered(replies) + rest, shutsDown), debug, ResolvedParser)
            == if |replies| < |messages| || !shutsDown
               then merged[ErrorKey := ErrorText(if |replies| == 0 then None else Some(replies[|replies| - 1]))]
               else merged
  {
    ExchangesFromStart(messages, replies, rest, debug);
  }

  /**
    Every request answered and the socket shut down: the attributes are the
    debug entries (when debug is on) and the left-to-right merge of the
    parsed replies, and the two never share a key.
   */
  lemma PollSucceeds(messages: seq<Command>, replies: seq<string>, debug: bool)
    requires |replies| == |messages|
    ensures PollData(messages, Transport(true, Delivered(replies), true), debug, ResolvedParser)
            == DebugEntries(messages, replies, debug) + MergeReplies(replies)
    ensures debug ==> DebugEntries(messages, replies, debug).Keys !! MergeReplies(replies).Keys
  {
    PollDataDelivered(messages, replies, [], true, debug);
    assert Delivered(replies) + [] == Delivered(replies);
    assert messages[..|replies|] == messages;
    if debug {
      DebugEntriesKeys(messages, replies, debug);
      MergeRepliesNoCrlf(replies);
    }
  }

  /**
    A failure after at least one reply (no reply to a later request, or the
    final shutdown raising): the attributes keep everything merged from the
    replies received and add `error` with the last reply received.
   */
  lemma PollFailsAfterReplies(messages: seq<Command>, replies: seq<string>, rest: seq<Exchange>,
                              shutsDown: bool, debug: bool)
    requires 1 <= |replies| <= |messages|
    requires |replies| < |messages| ==> rest == [] || rest[0].Failed?
    requires |replies| == |messages| ==> !shutsDown
    ensures PollData(messages, Transport(true, Delivered(replies) + rest, shutsDown), debug, ResolvedParser)
            == (DebugEntries(messages[..|replies|], replies, debug) + MergeReplies(replies))
               [ErrorKey := RawDataPrefix + replies[|replies| - 1]]
  {
    PollDataDelivered(messages, replies, rest, shutsDown, debug);
  }

  /**
    A failure before any reply (no connection, or no reply to the first
    request): the attributes hold only `error: Connection failed.`, and the
    state is UNAVAILABLE, whatever the parser.
   */
  lemma PollFailsBeforeAnyReply(messages: seq<Command>, transport: Transport, debug: bool, parse: Parser)
    requires !transport.connects || (|messages| > 0 && (transport.exchanges == [] || transport.exchanges[0].Failed?))
    ensures PollData(messages, transport, debug, parse) == map[ErrorKey := ConnectionFailed]
    ensures StateOf(PollData(messages, transport, debug, parse)) == Unavailable
  {
  }

  // ---------------------------------------------------------------------------
  // What update leaves in the attributes as written (parse_values unresolved)

  /**
    As written, the first parse raises: the poll ends at the first reply,
    which is reported as raw data, and no reply is ever merged.
   */
  lemma UnresolvedParserPoll(messages: seq<Command>, transport: Transport, debug: bool)
    ensures PollData(messages, transport, debug, UnresolvedParser) ==
            if transport.connects && |messages| > 0 && |transport.exchanges| > 0 && transport.exchanges[0].Received? then
              var reply := transport.exchanges[0].reply;
              (if debug then map[DebugKey(messages[0]) := reply] else map[])[ErrorKey := RawDataPrefix + reply]
            else if transport.connects && |messages| == 0 && transport.shutsDown then map[]
            else map[ErrorKey := ConnectionFailed]
    ensures StateOf(PollData(messages, transport, debug, UnresolvedParser)) == Unavailable
  {
    if |messages| > 0 {
      assert DebugKey(messages[0])[0] == 'D';
    }
  }

  lemma ParsedStatusReply()
    ensures Parse.Parsed("Status:READY") == map["Status" := "READY"]
  {
    var line := "Status:READY";
    assert '\r' !in line;
    assert Parse.Defines(line, "Status", "READY");
    Parse.ParsedSingleLine(line, "Status", "READY");
  }

  /**
    A control reply `ok` followed by a status reply `Status:READY`, with
    parse.py's parse_values: the state is READY.
   */
  lemma StatusReported()
    ensures StateOf(PollData([Control, Status], Transport(true, [Received("ok"), Received("Status:READY")], true),
                             false, ResolvedParser)) == "READY"
  {
    var replies := ["ok", "Status:READY"];
    assert Delivered(replies) == [Received("ok"), Received("Status:READY")];
    PollSucceeds([Control, Status], replies, false);
    Parse.ParsedEmpty("ok");
    ParsedStatusReply();
    assert replies[1..] == ["Status:READY"] && replies[1..][1..] == [];
    assert MergeReplies(replies) == Parse.Parsed("ok") + (Parse.Parsed("Status:READY") + MergeReplies([]));
  }

  /**
    The same poll as written: the first parse raises, so the attributes hold
    only the control reply as raw data and the state is UNAVAILABLE.
   */
  lemma StatusLostAsWritten()
    ensures PollData([Control, Status], Transport(true, [Received("ok"), Received("Status:READY")], true),
                     false, UnresolvedParser) == map[ErrorKey := "Raw data: ok"]
    ensures StateOf(PollData([Control, Status], Transport(true, [Received("ok"), Received("Status:READY")], true),
                             false, UnresolvedParser)) == Unavailable
  {
    UnresolvedParserPoll([Control, Status], Transport(true, [Received("ok"), Received("Status:READY")], true), false);
    assert RawDataPrefix + "ok" == "Raw data: ok";
  }
}
