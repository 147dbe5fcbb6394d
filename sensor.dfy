/**
  The printer sensor (custom_components/flashforge/sensor.py): which commands
  one poll sends, how the replies of a poll are folded into the sensor's
  attribute dictionary, and which state the sensor then reports.

  The socket is not modelled: a `Transport` value says what it did during one
  poll (whether the connection opened, what each request got back, whether
  the final shutdown succeeded).
 */
module Sensor {
  import Parse

  /** The commands of the printer's protocol (the REQUEST_* constants). */
  datatype Command = Control | Info | HeadPosition | Temp | Progress | Status

  /** The exact text sent for a command. */
  function Wire(command: Command): string
  {
    match command
    case Control => "~M601 S1\r\n"
    case Info => "~M115\r\n"
    case HeadPosition => "~M114\r\n"
    case Temp => "~M105\r\n"
    case Progress => "~M27\r\n"
    case Status => "~M119\r\n"
  }

  /** The state reported when the last poll produced no `Status` entry. */
  const Unavailable: string := "UNAVAILABLE"

  const ErrorKey: string := "error"
  const ConnectionFailed: string := "Connection failed."
  const RawDataPrefix: string := "Raw data: "

  datatype Option<T> = None | Some(value: T)

  // ---------------------------------------------------------------------------
  // The request list built by setup_platform

  /** Where an optional command stands in the fixed order info, head, temperature, progress. */
  function OptionalRank(command: Command): int
  {
    match command
    case Info => 0
    case HeadPosition => 1
    case Temp => 2
    case Progress => 3
    case _ => -1
  }

  function Count(flag: bool): nat { if flag then 1 else 0 }

  /** `[command]` when its flag is set, otherwise nothing. */
  function Include(flag: bool, command: Command): (r: seq<Command>)
    ensures |r| == Count(flag)
    ensures forall c :: c in r <==> flag && c == command
  {
    if flag then [command] else []
  }

  /**
    The request list of setup_platform: control and status first, then each
    optional command whose flag is set, in the fixed order.
   */
  function RequestList(includeInfo: bool, includeHead: bool, includeTemp: bool, includeProgress: bool): seq<Command>
  {
    [Control, Status] + OptionalRequests(includeInfo, includeHead, includeTemp, includeProgress)
  }

  /** The optional commands whose flags are set, in the fixed order. */
  function OptionalRequests(includeInfo: bool, includeHead: bool, includeTemp: bool, includeProgress: bool): seq<Command>
  {
    Include(includeInfo, Info) + Include(includeHead, HeadPosition)
    + Include(includeTemp, Temp) + Include(includeProgress, Progress)
  }

  /** setup_platform's loop-free construction of the request list, one append per set flag. */
  method BuildRequestData(includeInfo: bool, includeHead: bool, includeTemp: bool, includeProgress: bool)
    returns (requestData: seq<Command>)
    ensures requestData == RequestList(includeInfo, includeHead, includeTemp, includeProgress)
  {
    requestData := [Control, Status];
    if includeInfo {
      requestData := requestData + [Info];
    }
    if includeHead {
      requestData := requestData + [HeadPosition];
    }
    if includeTemp {
      requestData := requestData + [Temp];
    }
    if includeProgress {
      requestData := requestData + [Progress];
    }
  }

  /** The list starts with control then status, and holds each optional command exactly when its flag is set. */
  lemma RequestListMembers(includeInfo: bool, includeHead: bool, includeTemp: bool, includeProgress: bool)
    ensures var r := RequestList(includeInfo, includeHead, includeTemp, includeProgress);
      && |r| == 2 + Count(includeInfo) + Count(includeHead) + Count(includeTemp) + Count(includeProgress)
      && r[0] == Control && r[1] == Status
      && (Info in r <==> includeInfo)
      && (HeadPosition in r <==> includeHead)
      && (Temp in r <==> includeTemp)
      && (Progress in r <==> includeProgress)
  {
  }

  /** Optional commands only, in strictly increasing rank. */
  ghost predicate Ascending(commands: seq<Command>)
  {
    && (forall i :: 0 <= i < |commands| ==> 0 <= OptionalRank(commands[i]))
    && (forall i, j :: 0 <= i < j < |commands| ==> OptionalRank(commands[i]) < OptionalRank(commands[j]))
  }

  /** Every command's rank is below `bound`. */
  ghost predicate RanksBelow(commands: seq<Command>, bound: int)
  {
    forall i :: 0 <= i < |commands| ==> OptionalRank(commands[i]) < bound
  }

  /** Appending a command ranked above everything so far keeps the order. */
  lemma IncludeAbove(commands: seq<Command>, flag: bool, command: Command)
    requires Ascending(commands) && RanksBelow(commands, OptionalRank(command)) && 0 <= OptionalRank(command)
    ensures Ascending(commands + Include(flag, command))
    ensures RanksBelow(commands + Include(flag, command), OptionalRank(command) + 1)
  {
    var r := commands + Include(flag, command);
    forall i | 0 <= i < |r|
      ensures 0 <= OptionalRank(r[i]) <= OptionalRank(command)
    {
      if i >= |commands| {
        assert r[i] == command;
      }
    }
    forall i, j | 0 <= i < j < |r|
      ensures OptionalRank(r[i]) < OptionalRank(r[j])
    {
      if j >= |commands| {
        assert r[i] == commands[i] && r[j] == command;
      }
    }
  }

  lemma OptionalRequestsAscending(includeInfo: bool, includeHead: bool, includeTemp: bool, includeProgress: bool)
    ensures Ascending(OptionalRequests(includeInfo, includeHead, includeTemp, includeProgress))
  {
    var a := Include(includeInfo, Info);
    var b := a + Include(includeHead, HeadPosition);
    var c := b + Include(includeTemp, Temp);
    IncludeAbove([], includeInfo, Info);
    assert [] + a == a;
    IncludeAbove(a, includeHead, HeadPosition);
    IncludeAbove(b, includeTemp, Temp);
    IncludeAbove(c, includeProgress, Progress);
  }

  /** After control and status, the optional commands come in the order info, head, temperature, progress. */
  lemma RequestListOrder(includeInfo: bool, includeHead: bool, includeTemp: bool, includeProgress: bool)
    ensures var r := RequestList(includeInfo, includeHead, includeTemp, includeProgress);
      forall i, j :: 2 <= i < j < |r| ==> 0 <= OptionalRank(r[i]) < OptionalRank(r[j])
  {
    var d := OptionalRequests(includeInfo, includeHead, includeTemp, includeProgress);
    OptionalRequestsAscending(includeInfo, includeHead, includeTemp, includeProgress);
    var r := RequestList(includeInfo, includeHead, includeTemp, includeProgress);
    forall i, j | 2 <= i < j < |r|
      ensures 0 <= OptionalRank(r[i]) < OptionalRank(r[j])
    {
      assert r[i] == d[i - 2] && r[j] == d[j - 2];
    }
  }

  /** Every command's text ends with CRLF. */
  lemma WireHasCrlf(command: Command)
    ensures |Wire(command)| >= 2 && Wire(command)[|Wire(command)| - 2..] == Parse.Crlf
    ensures Parse.HasCrlf(Wire(command))
  {
    var w := Wire(command);
    assert w[|w| - 2] == '\r' && w[|w| - 2 + 1] == '\n';
  }

  /** Distinct commands are sent as distinct texts. */
  lemma WireInjective(c1: Command, c2: Command)
    requires c1 != c2
    ensures Wire(c1) != Wire(c2)
  {
    var w1, w2 := Wire(c1), Wire(c2);
    if |w1| == |w2| {
      assert w1[3] != w2[3] || w1[4] != w2[4];
    }
  }

  // ---------------------------------------------------------------------------
  // One poll

  /** What the socket did for one request: a reply arrived, or send or recv raised. */
  datatype Exchange = Received(reply: string) | Failed

  /**
    The socket's behaviour during one poll. A request beyond the end of
    `exchanges` gets no reply (recv timed out).
   */
  datatype Transport = Transport(connects: bool, exchanges: seq<Exchange>, shutsDown: bool)

  /**
    The name the poll calls to parse a reply: `Some(values)` when the call
    returns, `None` when it raises.
   */
  type Parser = string -> Option<map<string, string>>

  /** The name bound to parse.py's parse_values. */
  const ResolvedParser: Parser := text => Some(Parse.Parsed(text))

  /** The name left unbound, so that every call raises NameError. */
  const UnresolvedParser: Parser := text => None

  /** The local state of update: the dictionary, the last reply (`None`: still ''), and whether it raised. */
  datatype Poll = Poll(data: map<string, string>, rawData: Option<string>, failed: bool)

  /** The key under which a debug poll records the reply to `message`. */
  function DebugKey(message: Command): string
  {
    "Debug(" + Wire(message) + ")"
  }

  /** The request loop of update, from request `messages[0]` on, starting from `acc`. */
  function Exchanges(messages: seq<Command>, exchanges: seq<Exchange>, debug: bool, parse: Parser, acc: Poll): Poll
    decreases |messages|
  {
    if |messages| == 0 then acc
    else if |exchanges| == 0 || exchanges[0].Failed? then acc.(failed := true)
    else
      var reply := exchanges[0].reply;
      var data := if debug then acc.data[DebugKey(messages[0]) := reply] else acc.data;
      match parse(reply)
      case None => Poll(data, Some(reply), true)
      case Some(values) => Exchanges(messages[1..], exchanges[1..], debug, parse, Poll(data + values, Some(reply), false))
  }

  /** The error text written when the poll raised. */
  function ErrorText(rawData: Option<string>): string
  {
    match rawData
    case None => ConnectionFailed
    case Some(reply) => RawDataPrefix + reply
  }

  /** The dictionary update() leaves in the sensor's attributes. */
  function PollData(messages: seq<Command>, transport: Transport, debug: bool, parse: Parser): map<string, string>
  {
    var poll :=
      if transport.connects then Exchanges(messages, transport.exchanges, debug, parse, Poll(map[], None, false))
      else Poll(map[], None, true);
    if poll.failed || !transport.shutsDown then poll.data[ErrorKey := ErrorText(poll.rawData)]
    else poll.data
  }

  /** The sensor's state for an attribute dictionary. */
  function StateOf(data: map<string, string>): (state: string)
    ensures "Status" in data ==> state == data["Status"]
    ensures "Status" !in data ==> state == Unavailable
  {
    if "Status" in data then data["Status"] else Unavailable
  }

  datatype Address = Address(ip: string, port: int)

  class FlashforgePrinter {
    var data: map<string, string>
    const name: string
    const request: seq<Command>
    const printer: Address
    const debug: bool

    constructor (sensorName: string, printerAddress: Address, requestData: seq<Command>, debug: bool)
      ensures data == map[]
      ensures name == sensorName && request == requestData && printer == printerAddress && this.debug == debug
    {
      data := map[];
      name := sensorName;
      request := requestData;
      printer := printerAddress;
      this.debug := debug;
    }

    /** The state property: the `Status` entry, or UNAVAILABLE. */
    function State(): string
      reads this
    {
      StateOf(data)
    }

    /**
      update(): send every request in turn, merging each parsed reply into a
      fresh dictionary; on any failure record the error; then replace the
      attributes wholesale.
     */
    method Update(transport: Transport, parse: Parser)
      modifies this
      ensures data == PollData(request, transport, debug, parse)
    {
      var d: map<string, string> := map[];
      var rawData: Option<string> := None;
      var failed := false;
      ghost var start := Poll(map[], None, false);
      if !transport.connects {
        failed := true;
      } else {
        var i := 0;
        while i < |request| && !failed
          invariant 0 <= i <= |request| && i <= |transport.exchanges|
          invariant !failed ==> Exchanges(request, transport.exchanges, debug, parse, start)
                                == Exchanges(request[i..], transport.exchanges[i..], debug, parse, Poll(d, rawData, false))
          invariant failed ==> Exchanges(request, transport.exchanges, debug, parse, start) == Poll(d, rawData, true)
          decreases |request| - i, !failed
        {
          var message := request[i];
          if i == |transport.exchanges| || transport.exchanges[i].Failed? {
            failed := true;
          } else {
            var reply := transport.exchanges[i].reply;
            rawData := Some(reply);
            if debug {
              d := d[DebugKey(message) := reply];
            }
            var parsed := parse(reply);
            if parsed.None? {
              failed := true;
            } else {
              d := d + parsed.value;
              i := i + 1;
            }
          }
        }
        if !failed && !transport.shutsDown {
          failed := true;
        }
      }
      if failed {
        d := d[ErrorKey := ErrorText(rawData)];
      }
      data := d;
    }

    /** The class-body copy of parse_values; its text is that of parse.py's. */
    static method ParseValues(text: string) returns (values: map<string, string>)
      ensures values == Parse.Parsed(text)
    {
      values := Parse.ParseValues(text);
    }
  }
}
