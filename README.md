# Flashforge printer sensor: line protocol model

A Dafny model of the core of a Home Assistant sensor that polls a Flashforge
3D printer over its text protocol. The model covers three parts:

- **The reply decoder** `parse_values` (module `Parse`, file `parse.dfy`). It splits
  a reply on CRLF and splits each line at its first colon. Every line with a
  colon writes `key -> value` into a fresh dictionary. Nothing is trimmed. A
  later line overwrites an earlier line with the same key.
- **The request list** built by `setup_platform` (module `Sensor`, file `sensor.dfy`).
  It starts with the control command `~M601 S1` and the status command `~M119`.
  Then come the optional info, head-position, temperature and progress
  commands, in that order, each one when its flag is set. Each command is a
  `Command` value, and `Wire` gives the exact text sent for it, CRLF included.
- **One poll**, `FlashforgePrinter.update` (class `Sensor.FlashforgePrinter`), and the `state`
  property. The method sends the requests in turn and merges each parsed
  reply into a fresh dictionary. With debug on, it also records
  `Debug(<command>) -> reply`. On any failure it writes `error`. The value is
  `Connection failed.` if nothing was received yet, otherwise
  `Raw data: ` followed by the last reply received. Finally it replaces the
  sensor's attributes wholesale. `state` is the `Status` entry, or
  `UNAVAILABLE`.

The socket is modelled as a `Transport` value with three parts: whether the
connection opened, what each request got back (`Received(reply)` or `Failed`),
and whether the final shutdown succeeded. A request past the end of the
outcome list gets no reply, which stands for a timeout. The source tests
"nothing received yet" with `raw_data == ''`. A received reply is bytes, and in
Python 3 bytes never equal `''`, so even an empty reply leads to the
`Raw data: ` branch. The model keeps the last reply as an `Option`.
`None` means nothing has been received.

The function that `update` calls to parse a reply is a parameter of the fold,
of type `string -> Option<map>`, where `None` means the call raises.
`ResolvedParser` is parse.py's `parse_values`. `UnresolvedParser` is the code
as written (see Findings). Module `SensorProperties` (file `sensor_properties.dfy`)
states what a poll leaves in the attributes. It compares the result with
independent definitions: the left-to-right merge of the parsed replies
(`MergeReplies`) and the debug entries (`DebugEntries`).

The code trims no key or value and keeps lines with an empty side. It
applies no per-command transforms (`MaxSize`, `HeadPosition`, temperature or
progress fields) and records no time stamp. The error entry is a single
`error` key whose text carries the raw data. On failure the raw data is the
last reply received, which may belong to the previous command rather than to
the command in flight.

## Model

| member | source | states |
|---|---|---|
| `Parse.Lines` | custom_components/flashforge/parse.py:2 | splitting on CRLF always yields at least one line |
| `Parse.JoinLinesOfLines` | custom_components/flashforge/parse.py:2 | re-joining the lines with CRLF gives back the reply text exactly |
| `Parse.LinesOfJoinLines` | custom_components/flashforge/parse.py:2 | CRLF-free lines joined with CRLF split back into exactly those lines |
| `Parse.LinesHaveNoCrlf` | custom_components/flashforge/parse.py:2 | no line produced by the split contains CRLF |
| `Parse.LinesOfSingleLine` | custom_components/flashforge/parse.py:2 | only the exact sequence CRLF separates lines: a text without it is one line, lone CR or LF included |
| `Parse.SplitOnce` | custom_components/flashforge/parse.py:5-6 | the split gives two parts iff the line has a colon; then the first part is colon-free and part + ':' + rest is the line; otherwise the single part is the whole line |
| `Parse.DefinesUnique` | custom_components/flashforge/parse.py:5 | a line has only one split into colon-free key, ':' and value |
| `Parse.ParseValues` | custom_components/flashforge/parse.py:1-8 | the dictionary built line by line is the fold of the lines, a function of the text alone (a fresh dictionary, no state kept between calls) |
| `Parse.ParsedKeys` | custom_components/flashforge/parse.py:5-7 | a key is in the result iff some line is `key:value` with that key before its first colon; every key is colon-free |
| `Parse.ParsedValue` | custom_components/flashforge/parse.py:4-7 | a key's value is the untrimmed text after the first colon of the last line with that key (last line wins, later colons stay in the value) |
| `Parse.NoColonLineIgnored` | custom_components/flashforge/parse.py:5-6 | removing a line without a colon, wherever it stands, leaves the result unchanged |
| `Parse.ParsedKeysHaveNoCrlf` | custom_components/flashforge/parse.py:2-7 | no key of the result contains CRLF |
| `Parse.ParsedEmpty` | custom_components/flashforge/parse.py:2-8 | the result is empty iff the text contains no colon (so empty text gives the empty map) |
| `Parse.RoundTrip` | custom_components/flashforge/parse.py:1-8 | entries with distinct colon-free, CRLF-free keys and CRLF-free values, rendered as `key:value` lines joined by CRLF, parse back to exactly those keys with exactly those values |
| `Parse.ParsedSingleLine` | custom_components/flashforge/parse.py:2-7 | a CRLF-free text with a colon gives exactly one entry, the text before its first colon mapped to the text after it |
| `Parse.ColonOnly` | custom_components/flashforge/parse.py:7 | the line `:` yields the entry `'' -> ''` |
| `Parse.NoTrimming` | custom_components/flashforge/parse.py:7 | spaces around the colon stay in the key and the value |
| `Parse.LoneLineFeedKept` | custom_components/flashforge/parse.py:2 | a lone LF does not split lines: `a:1\nb:2` gives the single entry `a -> 1\nb:2` |
| `Sensor.WireHasCrlf` | custom_components/flashforge/sensor.py:10-15 | the text of every command ends with CRLF (so it contains CRLF) |
| `Sensor.WireInjective` | custom_components/flashforge/sensor.py:10-15 | distinct commands are sent as distinct texts |
| `Sensor.BuildRequestData` | custom_components/flashforge/sensor.py:46-54 | the list built by the appends is the request list: control and status, then each optional command whose flag is set, in the fixed order |
| `Sensor.RequestListMembers` | custom_components/flashforge/sensor.py:46-54 | the list starts with control then status; each optional command is present iff its flag is set; the length is 2 plus the number of set flags |
| `Sensor.RequestListOrder` | custom_components/flashforge/sensor.py:47-54 | after control and status, the optional commands come in the order info, head position, temperature, progress |
| `Sensor.StateOf` | custom_components/flashforge/sensor.py:79-82 | the state is the `Status` entry when present, otherwise `UNAVAILABLE` |
| `Sensor.FlashforgePrinter.constructor` | custom_components/flashforge/sensor.py:63-69 | a new sensor has empty attributes and keeps its name, address, request list and debug flag |
| `Sensor.FlashforgePrinter.Update` | custom_components/flashforge/sensor.py:101-121 | the attributes after a poll are exactly what the request loop computes from the request list, the transport and the parser; nothing of the previous attributes survives |
| `Sensor.FlashforgePrinter.ParseValues` | custom_components/flashforge/sensor.py:123-130 | the class-body copy returns the same dictionary as parse.py's `parse_values` |
| `SensorProperties.MergeRepliesKeys` | custom_components/flashforge/sensor.py:113 | a key of the merged replies comes from some reply's parsed map |
| `SensorProperties.MergeRepliesValue` | custom_components/flashforge/sensor.py:108-113 | a merged key has the value from the last reply whose parsed map has it |
| `SensorProperties.DebugEntriesKeys` | custom_components/flashforge/sensor.py:111-112 | every `Debug(<command>)` key contains CRLF, so it never collides with a parsed key |
| `SensorProperties.ExchangesDelivered` | custom_components/flashforge/sensor.py:108-113 | over replies delivered in order, the loop accumulates the debug entries and the merged replies, keeps the last reply, and fails exactly when a request gets no reply |
| `SensorProperties.ExchangesFromStart` | custom_components/flashforge/sensor.py:101-113 | starting from an empty dictionary, the loop over replies delivered in order ends with the debug entries plus the merged replies, the last reply as raw data, and failure exactly when a request is left unanswered |
| `SensorProperties.PollDataDelivered` | custom_components/flashforge/sensor.py:101-120 | the attributes after replies delivered in order: the merged entries, plus the error entry exactly when a request went unanswered or the shutdown raised |
| `SensorProperties.PollSucceeds` | custom_components/flashforge/sensor.py:108-113 | if every request is answered and the shutdown succeeds, the attributes are the debug entries (debug on) plus the left-to-right merge of the parsed replies, with disjoint keys |
| `SensorProperties.PollFailsAfterReplies` | custom_components/flashforge/sensor.py:108-120 | after a failure that follows at least one reply, the attributes keep everything merged from the replies received and add `error: Raw data: <last reply received>` |
| `SensorProperties.PollFailsBeforeAnyReply` | custom_components/flashforge/sensor.py:101-118 | if the poll fails before any reply, for any parser, the attributes are exactly `error: Connection failed.` and the state is `UNAVAILABLE` |
| `SensorProperties.UnresolvedParserPoll` | custom_components/flashforge/sensor.py:108-120 | as written, the poll ends at the first reply, which is reported as raw data; no reply is merged and the state is always `UNAVAILABLE` |
| `SensorProperties.StatusReported` | custom_components/flashforge/sensor.py:79-82 | with parse.py's parser, replies `ok` and `Status:READY` give the state `READY` |
| `SensorProperties.StatusLostAsWritten` | custom_components/flashforge/sensor.py:113 | as written, the same replies leave only `error: Raw data: ok` and the state `UNAVAILABLE` |

## Left out

- Socket mechanics (`socket`, `settimeout`, `connect`, `send`, `shutdown`, `close`): network I/O, replaced by the `Transport` value.
- The 1024-byte bound on `recv`: a longer reply would be cut, and its rest read as the next reply. A `Transport` reply is whatever `recv` returned, so this is covered only as input.
- Timeouts and wall-clock behaviour: a timeout is a `Failed` or missing outcome.
- Byte encoding and decoding: replies are strings. An undecodable reply would raise again inside the `except` handler and leave the attributes unchanged. That path is not modelled.
- Home Assistant plumbing: `PLATFORM_SCHEMA` and its defaults, the `name` and `device_state_attributes` properties, `add_entities`, and the reading of the configuration in `setup_platform`. `BuildRequestData` takes the four include flags directly.
- The `update` method's parser is a parameter. The module-level name `parse_values` is not bound in sensor.py, so the behaviour as written is the instance `UnresolvedParser`.

## Findings

| source | as written | input that shows it | evidently intended | confidence | as-written member | corrected member |
|---|---|---|---|---|---|---|
| custom_components/flashforge/sensor.py:113 | The bare name `parse_values` does not resolve. The class attribute at line 123 is not visible inside a method, and parse.py is not imported. The first parse raises NameError, the bare `except` catches it, and the poll ends with `error: Raw data: <first reply>`. No reply is ever merged, so the state is always `UNAVAILABLE`. | connection ok, replies `ok` to the control command and `Status:READY` to the status command | each reply is parsed by parse.py's `parse_values` and merged, so the state is `READY` | high, not executed | `SensorProperties.StatusLostAsWritten` | `SensorProperties.PollSucceeds` |
