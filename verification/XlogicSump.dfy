/**
 The SUMP command parser of the logic analyser: fed one byte at a time, it carries out
 exactly the commands the byte stream spells, however the stream is cut into packets.
 */
module XlogicSump {
  import opened Bytes
  import opened Options
  import opened XlogicDefs

  const CMD_RESET: byte := 0x00
  const CMD_RUN: byte := 0x01
  const CMD_ID_QUERY: byte := 0x02
  const CMD_METADATA: byte := 0x04
  const CMD_SET_DIVIDER: byte := 0x80
  const CMD_SET_COUNTS: byte := 0x81
  const CMD_SET_FLAGS: byte := 0x82
  const CMD_SET_TMASK0: byte := 0xC0
  const CMD_SET_TVALUE0: byte := 0xC1
  const CMD_SET_TCONFIG0: byte := 0xC4

  const LONG_CMD_ARG_BYTES: nat := 4

  /** The decoded capture configuration. */
  datatype Config = Config(divider: u32, readCount: u32, delayCount: u32, flags: u32, triggerMask: u32,
                           triggerValue: u32, triggerMode: TriggerMode)

  const DEFAULT_CONFIG: Config := Config(0, 0, 0, 0, 0, 0, NoTrigger)

  datatype ParseState = Cmd | Arg

  datatype Event = NoEvent | ResetEvent | RunEvent | QueryId | Metadata | ConfigSet

  datatype Parser = Parser(state: ParseState, pendingCmd: byte, argBytes: seq<byte>, argCount: nat, config: Config)

  function InitialParser(): Parser {
    Parser(Cmd, 0, [0, 0, 0, 0], 0, DEFAULT_CONFIG)
  }

  /** What every reachable parser satisfies: while collecting, the index is below 4. */
  ghost predicate Reachable(p: Parser) {
    |p.argBytes| == LONG_CMD_ARG_BYTES && (p.state == Arg ==> p.argCount < LONG_CMD_ARG_BYTES && p.pendingCmd >= 0x80)
  }

  // ----- The parser ------------------------------------------------------------------

  /** `assemble_arg`: shifts and bitwise or. */
  function AssembleArg(b: seq<byte>): nat
    requires |b| == 4
  {
    BitOr(BitOr(BitOr(b[0], b[1] as int * 0x100), b[2] as int * 0x1_0000), b[3] as int * 0x100_0000)
  }

  function ShortCommand(p: Parser, cmd: byte): (Parser, Event) {
    if cmd == CMD_RESET then (InitialParser(), ResetEvent)
    else if cmd == CMD_RUN then (p, RunEvent)
    else if cmd == CMD_ID_QUERY then (p, QueryId)
    else if cmd == CMD_METADATA then (p, Metadata)
    else (p, NoEvent)
  }

  /** The counts and the divider use parts of the argument; unknown commands change nothing. */
  function LongCommand(c: Config, cmd: byte, arg: u32): (Config, Event) {
    if cmd == CMD_SET_DIVIDER then (c.(divider := arg % 0x100_0000), ConfigSet)
    else if cmd == CMD_SET_COUNTS then
      (c.(readCount := (arg % 0x1_0000 + 1) * 4, delayCount := (arg / 0x1_0000 + 1) * 4), ConfigSet)
    else if cmd == CMD_SET_FLAGS then (c.(flags := arg), ConfigSet)
    else if cmd == CMD_SET_TMASK0 then (c.(triggerMask := arg), ConfigSet)
    else if cmd == CMD_SET_TVALUE0 then (c.(triggerValue := arg), ConfigSet)
    else if cmd == CMD_SET_TCONFIG0 then (c.(triggerMode := if arg % 2 != 0 then Level else Edge), ConfigSet)
    else (c, NoEvent)
  }

  /** One byte through `xLOGIC_SUMP_Feed_Byte`. */
  ghost function Fed(p: Parser, b: byte): (r: (Parser, Event))
    requires Reachable(p)
    ensures Reachable(r.0)
  {
    if p.state == Cmd then
      if b >= 0x80 then (p.(state := Arg, pendingCmd := b, argCount := 0), NoEvent) else ShortCommand(p, b)
    else
      var q := p.(argBytes := p.argBytes[p.argCount := b], argCount := p.argCount + 1);
      if q.argCount == LONG_CMD_ARG_BYTES then
        AssembledIsValue(q.argBytes);
        var (config, event) := LongCommand(p.config, p.pendingCmd, ArgValue(q.argBytes));
        (q.(state := Cmd, config := config), event)
      else (q, NoEvent)
  }

  /** The number a little-endian argument stands for. */
  function ArgValue(b: seq<byte>): u32
    requires |b| == 4
  {
    b[0] as int + 0x100 * (b[1] as int + 0x100 * (b[2] as int + 0x100 * (b[3] as int)))
  }

  lemma AssembledIsValue(b: seq<byte>)
    requires |b| == 4
    ensures AssembleArg(b) == ArgValue(b)
  {
    hide BitOr, Pow2;
    Powers();
    var b0: nat, b1: nat, b2: nat, b3: nat := b[0], b[1], b[2], b[3];
    OrIsSum(b0, b1, 8);
    OrIsSum(b0 + b1 * 0x100, b2, 16);
    OrIsSum(b0 + b1 * 0x100 + b2 * 0x1_0000, b3, 24);
  }

  lemma Powers()
    ensures Pow2(8) == 0x100 && Pow2(16) == 0x1_0000 && Pow2(24) == 0x100_0000
  {
    assert Pow2(4) == 0x10;
    PowSum(4, 4);
    PowSum(8, 8);
    PowSum(16, 8);
  }

  class SumpContext {
    var parseState: ParseState
    var pendingCmd: byte
    const argBytes: array<byte>
    var argCount: nat
    var config: Config

    ghost function View(): Parser
      reads this, argBytes
    {
      Parser(parseState, pendingCmd, argBytes[..], argCount, config)
    }

    constructor ()
      ensures View() == InitialParser() == Parser(Cmd, 0, [0, 0, 0, 0], 0, Config(0, 0, 0, 0, 0, 0, NoTrigger))
      ensures fresh(argBytes)
    {
      parseState, pendingCmd, argCount, config := Cmd, 0, 0, DEFAULT_CONFIG;
      argBytes := new byte[4](_ => 0);
    }

    /** `xLOGIC_SUMP_Init` */
    method Init()
      requires argBytes.Length == 4
      modifies this, argBytes
      ensures View() == InitialParser() == Parser(Cmd, 0, [0, 0, 0, 0], 0, Config(0, 0, 0, 0, 0, 0, NoTrigger))
    {
      parseState, pendingCmd := Cmd, 0;
      argBytes[0], argBytes[1], argBytes[2], argBytes[3] := 0, 0, 0, 0;
      argCount, config := 0, DEFAULT_CONFIG;
    }

    /** `xLOGIC_SUMP_Feed_Byte` */
    method FeedByte(b: byte) returns (event: Event)
      requires Reachable(View())
      modifies this, argBytes
      ensures (View(), event) == Fed(old(View()), b)
    {
      hide BitOr;
      event := NoEvent;
      if parseState == Cmd {
        if b >= 0x80 {
          pendingCmd := b;
          argCount := 0;
          parseState := Arg;
        } else {
          event := ProcessShortCommand(b);
        }
      } else {
        argBytes[argCount] := b;
        argCount := argCount + 1;
        if argCount == LONG_CMD_ARG_BYTES {
          event := ProcessLongCommand();
          parseState := Cmd;
        }
      }
    }

    /** `process_short_command` */
    method ProcessShortCommand(cmd: byte) returns (event: Event)
      requires argBytes.Length == 4
      modifies this, argBytes
      ensures (View(), event) == ShortCommand(old(View()), cmd)
    {
      event := NoEvent;
      if cmd == CMD_RESET {
        Init();
        event := ResetEvent;
      } else if cmd == CMD_RUN {
        event := RunEvent;
      } else if cmd == CMD_ID_QUERY {
        event := QueryId;
      } else if cmd == CMD_METADATA {
        event := Metadata;
      }
    }

    /** `process_long_command` */
    method ProcessLongCommand() returns (event: Event)
      requires argBytes.Length == 4
      modifies this`config
      ensures (config, event) == LongCommand(old(config), pendingCmd, ArgValue(argBytes[..]))
    {
      hide BitOr;
      AssembledIsValue(argBytes[..]);
      var arg: u32 := AssembleArg(argBytes[..]);
      event := ConfigSet;
      if pendingCmd == CMD_SET_DIVIDER {
        config := config.(divider := arg % 0x100_0000);
      } else if pendingCmd == CMD_SET_COUNTS {
        config := config.(readCount := (arg % 0x1_0000 + 1) * 4);
        config := config.(delayCount := (arg / 0x1_0000 + 1) * 4);
      } else if pendingCmd == CMD_SET_FLAGS {
        config := config.(flags := arg);
      } else if pendingCmd == CMD_SET_TMASK0 {
        config := config.(triggerMask := arg);
      } else if pendingCmd == CMD_SET_TVALUE0 {
        config := config.(triggerValue := arg);
      } else if pendingCmd == CMD_SET_TCONFIG0 {
        if arg % 2 != 0 {
          config := config.(triggerMode := Level);
        } else {
          config := config.(triggerMode := Edge);
        }
      } else {
        event := NoEvent;
      }
    }
  }

  // ----- The transport ---------------------------------------------------------------

  /** Parser, request flags, and the replies sent so far. */
  datatype Link = Link(parser: Parser, runRequest: bool, resetRequest: bool, sent: seq<seq<byte>>)

  function SumpId(): seq<byte> { [0x31, 0x41, 0x4C, 0x53] }

  /** `handle_event`, when sending succeeds. */
  function Handled(link: Link, event: Event): Link {
    match event
    case ResetEvent => link.(runRequest := false, resetRequest := true)
    case QueryId => link.(sent := link.sent + [SumpId()])
    case Metadata => link.(sent := link.sent + [MetadataBlock()])
    case RunEvent => link.(runRequest := true)
    case _ => link
  }

  ghost function Received(link: Link, b: byte): (r: Link)
    requires Reachable(link.parser)
    ensures Reachable(r.parser)
  {
    var (parser, event) := Fed(link.parser, b);
    Handled(link.(parser := parser), event)
  }

  ghost function ReceivedAll(link: Link, data: seq<byte>): (r: Link)
    requires Reachable(link.parser)
    ensures Reachable(r.parser)
    decreases |data|
  {
    if data == [] then link else ReceivedAll(Received(link, data[0]), data[1..])
  }

  class TransportContext {
    const sump: SumpContext
    var hasRunRequest: bool
    var hasResetRequest: bool
    ghost var sent: seq<seq<byte>>

    ghost function View(): Link
      reads this, sump, sump.argBytes
    {
      Link(sump.View(), hasRunRequest, hasResetRequest, sent)
    }

    /** `xLOGIC_Transport_Init` */
    constructor ()
      ensures View() == Link(InitialParser(), false, false, []) && fresh(sump) && fresh(sump.argBytes)
    {
      sump := new SumpContext();
      hasRunRequest, hasResetRequest, sent := false, false, [];
    }

    /** `handle_event`, over a sender that never fails. */
    method HandleEvent(event: Event)
      modifies this
      ensures View() == Handled(old(View()), event)
    {
      match event
      case ResetEvent =>
        hasRunRequest := false;
        hasResetRequest := true;
      case QueryId =>
        sent := sent + [SumpId()];
      case Metadata =>
        var buffer := new byte[METADATA_BUF_BYTES](_ => 0);
        var ok, length := BuildMetadata(buffer, METADATA_BUF_BYTES);
        assert buffer[..length] == MetadataBlock();
        sent := sent + [buffer[..length]];
      case RunEvent =>
        hasRunRequest := true;
      case _ =>
    }

    /** `xLOGIC_Transport_Process_RX`, over a sender that never fails. */
    method ProcessRx(data: seq<byte>)
      requires Reachable(View().parser)
      modifies this, sump, sump.argBytes
      ensures View() == ReceivedAll(old(View()), data)
      ensures Reachable(View().parser)
    {
      hide Fed, Handled;
      assert data[0..] == data;
      for i := 0 to |data|
        invariant Reachable(View().parser)
        invariant ReceivedAll(View(), data[i..]) == ReceivedAll(old(View()), data)
      {
        assert data[i..][1..] == data[i + 1..];
        var event := sump.FeedByte(data[i]);
        if event != NoEvent {
          HandleEvent(event);
        }
        NoEventNoChange(View());
      }
    }
  }

  lemma NoEventNoChange(link: Link)
    ensures Handled(link, NoEvent) == link
  {
  }

  /** How the stream is cut into packets makes no difference. */
  lemma {:induction false} ReceivedInPieces(link: Link, a: seq<byte>, b: seq<byte>)
    requires Reachable(link.parser)
    ensures ReceivedAll(link, a + b) == ReceivedAll(ReceivedAll(link, a), b)
    decreases |a|
  {
    hide Received;
    if a == [] {
      assert a + b == b;
    } else {
      assert (a + b)[1..] == a[1..] + b;
      ReceivedInPieces(Received(link, a[0]), a[1..], b);
    }
  }

  // ----- Resynchronisation -----------------------------------------------------------

  function Zeros(n: nat): (z: seq<byte>)
    ensures |z| == n
  {
    if n == 0 then [] else [0] + Zeros(n - 1)
  }

  /** How many zero bytes it takes to be heard as a reset. */
  ghost function ZerosNeeded(p: Parser): nat
    requires Reachable(p)
  {
    if p.state == Cmd then 1 else LONG_CMD_ARG_BYTES - p.argCount + 1
  }

  /** Zero bytes request a reset, and leave the initial parser, from exactly the needed number on. */
  lemma {:induction false} ZerosReset(link: Link, n: nat)
    requires Reachable(link.parser)
    ensures var after := ReceivedAll(link, Zeros(n));
      if n >= ZerosNeeded(link.parser) then after == Link(InitialParser(), false, true, link.sent)
      else after.runRequest == link.runRequest && after.resetRequest == link.resetRequest && after.sent == link.sent
    decreases n
  {
    hide LongCommand;
    if n > 0 {
      assert Zeros(n)[1..] == Zeros(n - 1);
      if link.parser.state == Arg {
        LongCommandEvent(link.parser);
      }
      ZerosReset(Received(link, 0), n - 1);
    }
  }

  lemma LongEvent(c: Config, cmd: byte, arg: u32)
    ensures LongCommand(c, cmd, arg).1 in {NoEvent, ConfigSet}
  {
  }

  lemma LongCommandEvent(p: Parser)
    requires Reachable(p) && p.state == Arg
    ensures Fed(p, 0).1 in {NoEvent, ConfigSet}
  {
    hide ArgValue, AssembleArg;
  }

  /** Five zero bytes reset the analyser from every reachable state; four need not. */
  lemma FiveZerosReset(link: Link)
    requires Reachable(link.parser)
    ensures ReceivedAll(link, [0, 0, 0, 0, 0]) == Link(InitialParser(), false, true, link.sent)
    ensures link.parser.state == Arg && link.parser.argCount == 0 && !link.resetRequest ==>
      !ReceivedAll(link, [0, 0, 0, 0]).resetRequest
  {
    assert Zeros(5) == [0, 0, 0, 0, 0] && Zeros(4) == [0, 0, 0, 0] by {
      assert Zeros(0) == [];
      assert Zeros(1) == [0];
      assert Zeros(2) == [0, 0];
      assert Zeros(3) == [0, 0, 0];
      assert Zeros(4) == [0, 0, 0, 0];
      assert Zeros(5) == [0] + Zeros(4);
    }
    ZerosReset(link, 5);
    ZerosReset(link, 4);
  }

  // ----- The command stream ----------------------------------------------------------

  datatype Command = Short(op: byte) | Long(op: byte, arg: u32)

  ghost predicate Sendable(c: Command) {
    c.Short? <==> c.op < 0x80
  }

  function EncodeArg(arg: u32): (b: seq<byte>)
    ensures |b| == 4 && ArgValue(b) == arg
  {
    var q1 := arg / 0x100;
    var q2 := q1 / 0x100;
    [arg % 0x100, q1 % 0x100, q2 % 0x100, q2 / 0x100]
  }

  lemma DropDigit(r: byte, q: nat)
    ensures (r as int + 0x100 * q) / 0x100 == q && (r as int + 0x100 * q) % 0x100 == r
  {
  }

  lemma EncodeArgOf(b: seq<byte>)
    requires |b| == 4
    ensures EncodeArg(ArgValue(b)) == b
  {
    var q2: nat := b[2] as int + 0x100 * (b[3] as int);
    var q1: nat := b[1] as int + 0x100 * q2;
    DropDigit(b[0], q1);
    DropDigit(b[1], q2);
    DropDigit(b[2], b[3]);
  }

  function Encode(c: Command): seq<byte> {
    if c.Short? then [c.op] else [c.op] + EncodeArg(c.arg)
  }

  /** What a command means, without any parser. */
  ghost function Executed(config: Config, run: bool, reset: bool, sent: seq<seq<byte>>, c: Command)
    : (Config, bool, bool, seq<seq<byte>>)
  {
    if c.Long? then (LongCommand(config, c.op, c.arg).0, run, reset, sent)
    else if c.op == CMD_RESET then (DEFAULT_CONFIG, false, true, sent)
    else if c.op == CMD_RUN then (config, true, reset, sent)
    else if c.op == CMD_ID_QUERY then (config, run, reset, sent + [SumpId()])
    else if c.op == CMD_METADATA then (config, run, reset, sent + [MetadataBlock()])
    else (config, run, reset, sent)
  }

  ghost function ExecutedAll(config: Config, run: bool, reset: bool, sent: seq<seq<byte>>, cs: seq<Command>)
    : (Config, bool, bool, seq<seq<byte>>)
    decreases |cs|
  {
    if cs == [] then (config, run, reset, sent)
    else
      var (config1, run1, reset1, sent1) := Executed(config, run, reset, sent, cs[0]);
      ExecutedAll(config1, run1, reset1, sent1, cs[1..])
  }

  /** Between commands, what the analyser holds besides leftovers of old arguments. */
  ghost predicate Holds(link: Link, config: Config, run: bool, reset: bool, sent: seq<seq<byte>>) {
    Reachable(link.parser) && link.parser.config == config && link.runRequest == run && link.resetRequest == reset
      && link.sent == sent
  }

  lemma OneCommand(link: Link, c: Command)
    requires Reachable(link.parser) && link.parser.state == Cmd && Sendable(c)
    ensures var after := ReceivedAll(link, Encode(c));
      var (config, run, reset, sent) := Executed(link.parser.config, link.runRequest, link.resetRequest, link.sent, c);
      after.parser.state == Cmd && Holds(after, config, run, reset, sent)
  {
    hide LongCommand, EncodeArg, ArgValue, MetadataBlock;
    if c.Short? {
      assert Encode(c)[1..] == [];
    } else {
      OneLongCommand(link, c);
    }
  }

  lemma OneLongCommand(link: Link, c: Command)
    requires Reachable(link.parser) && link.parser.state == Cmd && Sendable(c) && c.Long?
    ensures var after := ReceivedAll(link, Encode(c));
      && after == link.(parser := after.parser) && after.parser.state == Cmd && Reachable(after.parser)
      && after.parser.config == LongCommand(link.parser.config, c.op, c.arg).0
  {
    hide LongCommand, EncodeArg, ArgValue, MetadataBlock;
    var data := Encode(c);
    PendingPrefix(link, data, 4);
    assert data[..4] + [data[4]] == data;
    ReceivedInPieces(link, data[..4], [data[4]]);
    assert [data[4]][1..] == [];
    var l4 := ReceivedAll(link, data[..4]);
    assert l4.parser.argBytes[3 := data[4]] == EncodeArg(c.arg);
    LongEvent(l4.parser.config, c.op, c.arg);
  }

  /** A long command that has not arrived completely changes nothing but the collected bytes. */
  lemma {:induction false} PendingPrefix(link: Link, data: seq<byte>, n: nat)
    requires Reachable(link.parser) && link.parser.state == Cmd && 1 <= n <= 4 && n <= |data| && data[0] >= 0x80
    ensures var after := ReceivedAll(link, data[..n]);
      && after == link.(parser := after.parser) && after.parser.config == link.parser.config && Reachable(after.parser)
      && after.parser.state == Arg && after.parser.pendingCmd == data[0] && after.parser.argCount == n - 1
      && after.parser.argBytes[..n - 1] == data[1..n]
    decreases n
  {
    hide LongCommand, ArgValue, MetadataBlock;
    var last := data[n - 1];
    assert data[..n] == data[..n - 1] + [last];
    ReceivedInPieces(link, data[..n - 1], [last]);
    assert [last][1..] == [];
    if n == 1 {
      assert data[..0] == [];
    } else {
      PendingPrefix(link, data, n - 1);
      var before := ReceivedAll(link, data[..n - 1]).parser;
      assert before.argBytes[n - 2 := last][..n - 1] == before.argBytes[..n - 2] + [last] == data[1..n];
    }
  }

  function EncodeAll(cs: seq<Command>): seq<byte> {
    if cs == [] then [] else Encode(cs[0]) + EncodeAll(cs[1..])
  }

  /** The commands a byte stream spells, and the incomplete one at its end. */
  ghost function Spelled(data: seq<byte>): (seq<Command>, seq<byte>)
    decreases |data|
  {
    if data == [] || (data[0] >= 0x80 && |data| < 5) then ([], data)
    else if data[0] < 0x80 then
      var rest := Spelled(data[1..]);
      ([Short(data[0])] + rest.0, rest.1)
    else
      var rest := Spelled(data[5..]);
      ([Long(data[0], ArgValue(data[1..5]))] + rest.0, rest.1)
  }

  /** `Spelled` splits the stream into whole commands and at most four bytes of another. */
  lemma {:induction false} SpelledIsStream(data: seq<byte>)
    ensures var (cs, tail) := Spelled(data);
      && EncodeAll(cs) + tail == data && (forall c :: c in cs ==> Sendable(c))
      && |tail| <= 4 && (tail != [] ==> tail[0] >= 0x80)
    decreases |data|
  {
    hide Encode, EncodeAll, ArgValue;
    if data == [] || (data[0] >= 0x80 && |data| < 5) {
      NoCommands();
    } else {
      var c := if data[0] < 0x80 then Short(data[0]) else Long(data[0], ArgValue(data[1..5]));
      var n := if data[0] < 0x80 then 1 else 5;
      EncodeHead(c, data);
      SpelledIsStream(data[n..]);
      OneMoreCommand(c, data, n, Spelled(data[n..]).0, Spelled(data[n..]).1);
    }
  }

  lemma NoCommands()
    ensures EncodeAll([]) == []
  {
  }

  lemma OneMoreCommand(c: Command, data: seq<byte>, n: nat, cs: seq<Command>, tail: seq<byte>)
    requires n <= |data| && Encode(c) == data[..n] && EncodeAll(cs) + tail == data[n..]
    ensures EncodeAll([c] + cs) + tail == data
  {
    hide Encode;
    assert ([c] + cs)[1..] == cs;
    assert data == data[..n] + data[n..];
  }

  lemma EncodeHead(c: Command, data: seq<byte>)
    requires data != [] && (data[0] >= 0x80 ==> |data| >= 5)
    requires c == if data[0] < 0x80 then Short(data[0]) else Long(data[0], ArgValue(data[1..5]))
    ensures |Encode(c)| == (if data[0] < 0x80 then 1 else 5) <= |data| && Encode(c) == data[..|Encode(c)|]
  {
    if c.Long? {
      EncodeArgOf(data[1..5]);
      hide EncodeArg, ArgValue;
      assert data[..5] == [data[0]] + data[1..5];
    }
  }

  /**
   For every byte stream arriving between commands, in any packets: the analyser has
   carried out exactly the commands it spells, in order, and an incomplete last command
   has had no effect yet.
   */
  lemma {:induction false} StreamMeaning(link: Link, data: seq<byte>)
    requires Reachable(link.parser) && link.parser.state == Cmd
    ensures var (cs, tail) := Spelled(data);
      var after := ReceivedAll(link, data);
      var (config, run, reset, sent) :=
        ExecutedAll(link.parser.config, link.runRequest, link.resetRequest, link.sent, cs);
      Holds(after, config, run, reset, sent) && (after.parser.state == Cmd <==> tail == [])
    decreases |data|
  {
    hide Encode, Executed, Received, LongCommand;
    if data == [] {
    } else if data[0] >= 0x80 && |data| < 5 {
      assert data[..|data|] == data;
      PendingPrefix(link, data, |data|);
    } else {
      var c := if data[0] < 0x80 then Short(data[0]) else Long(data[0], ArgValue(data[1..5]));
      var n := |Encode(c)|;
      EncodeHead(c, data);
      assert data == data[..n] + data[n..];
      ReceivedInPieces(link, data[..n], data[n..]);
      OneCommand(link, c);
      var (cs, tail) := Spelled(data[n..]);
      assert Spelled(data).0 == [c] + cs && ([c] + cs)[1..] == cs;
      StreamMeaning(ReceivedAll(link, Encode(c)), data[n..]);
    }
  }

  lemma {:induction false} SpelledCommands(cs: seq<Command>)
    requires forall c :: c in cs ==> Sendable(c) && (c.Long? ==> c.arg < TWO32)
    ensures Spelled(EncodeAll(cs)) == (cs, [])
    decreases |cs|
  {
    hide ArgValue, EncodeArg;
    if cs != [] {
      var c, data := cs[0], EncodeAll(cs);
      assert c in cs && forall x :: x in cs[1..] ==> x in cs;
      SpelledCommands(cs[1..]);
      assert data == Encode(c) + EncodeAll(cs[1..]);
      if c.Short? {
        assert data[1..] == EncodeAll(cs[1..]);
      } else {
        assert data[1..5] == EncodeArg(c.arg) && data[5..] == EncodeAll(cs[1..]);
      }
      assert [c] + cs[1..] == cs;
    }
  }

  // ----- Configuring from the host ---------------------------------------------------

  /** Configurations the commands can express. */
  ghost predicate Settable(c: Config) {
    && c.divider < 0x100_0000 && c.triggerMode != NoTrigger
    && c.readCount % 4 == 0 && 4 <= c.readCount <= 0x4_0000 && c.delayCount % 4 == 0 && 4 <= c.delayCount <= 0x4_0000
  }

  /** The counts travel as quarters less one, sixteen bits each. */
  function ConfigCommands(c: Config): seq<Command>
    requires 4 <= c.readCount <= 0x4_0000 && 4 <= c.delayCount <= 0x4_0000
  {
    [Long(CMD_SET_DIVIDER, c.divider), Long(CMD_SET_COUNTS, (c.readCount / 4 - 1) + 0x1_0000 * (c.delayCount / 4 - 1)),
     Long(CMD_SET_FLAGS, c.flags), Long(CMD_SET_TMASK0, c.triggerMask), Long(CMD_SET_TVALUE0, c.triggerValue),
     Long(CMD_SET_TCONFIG0, if c.triggerMode == Level then 1 else 0)]
  }

  lemma ExecuteFirst(config: Config, run: bool, reset: bool, sent: seq<seq<byte>>, cs: seq<Command>)
    requires cs != [] && cs[0].Long?
    ensures ExecutedAll(config, run, reset, sent, cs)
      == ExecutedAll(LongCommand(config, cs[0].op, cs[0].arg).0, run, reset, sent, cs[1..])
  {
    hide LongCommand;
  }

  /** The argument of the counts command carries both counts. */
  lemma CountsSet(c: Config, read: nat, delay: nat)
    requires 4 <= read <= 0x4_0000 && 4 <= delay <= 0x4_0000 && read % 4 == 0 && delay % 4 == 0
    ensures var arg: u32 := (read / 4 - 1) + 0x1_0000 * (delay / 4 - 1);
      LongCommand(c, CMD_SET_COUNTS, arg).0 == c.(readCount := read, delayCount := delay)
  {
    var low, high := read / 4 - 1, delay / 4 - 1;
    assert read == 4 * (low + 1) && delay == 4 * (high + 1);
    Halves(low, high);
  }

  lemma Halves(low: nat, high: nat)
    requires low < 0x1_0000
    ensures (low + 0x1_0000 * high) % 0x1_0000 == low && (low + 0x1_0000 * high) / 0x1_0000 == high
  {
  }

  /** Every other command sets one field. */
  lemma FieldSet(c: Config, op: byte, arg: u32)
    ensures op == CMD_SET_DIVIDER && arg < 0x100_0000 ==> LongCommand(c, op, arg).0 == c.(divider := arg)
    ensures op == CMD_SET_FLAGS ==> LongCommand(c, op, arg).0 == c.(flags := arg)
    ensures op == CMD_SET_TMASK0 ==> LongCommand(c, op, arg).0 == c.(triggerMask := arg)
    ensures op == CMD_SET_TVALUE0 ==> LongCommand(c, op, arg).0 == c.(triggerValue := arg)
    ensures op == CMD_SET_TCONFIG0 && arg < 2 ==>
      LongCommand(c, op, arg).0 == c.(triggerMode := if arg == 1 then Level else Edge)
  {
  }

  lemma SixCommands(initial: Config, c: Config)
    requires Settable(c)
    ensures var cs := ConfigCommands(c);
      && |cs| == 6 && (forall i :: 0 <= i < 6 ==> cs[i].Long?)
      && var c1 := LongCommand(initial, cs[0].op, cs[0].arg).0;
         var c2 := LongCommand(c1, cs[1].op, cs[1].arg).0;
         var c3 := LongCommand(c2, cs[2].op, cs[2].arg).0;
         var c4 := LongCommand(c3, cs[3].op, cs[3].arg).0;
         var c5 := LongCommand(c4, cs[4].op, cs[4].arg).0;
         LongCommand(c5, cs[5].op, cs[5].arg).0 == c
  {
    hide LongCommand;
    var cs := ConfigCommands(c);
    FieldSet(initial, cs[0].op, cs[0].arg);
    var c1 := LongCommand(initial, cs[0].op, cs[0].arg).0;
    CountsSet(c1, c.readCount, c.delayCount);
    var c2 := LongCommand(c1, cs[1].op, cs[1].arg).0;
    FieldSet(c2, cs[2].op, cs[2].arg);
    var c3 := LongCommand(c2, cs[2].op, cs[2].arg).0;
    FieldSet(c3, cs[3].op, cs[3].arg);
    var c4 := LongCommand(c3, cs[3].op, cs[3].arg).0;
    FieldSet(c4, cs[4].op, cs[4].arg);
    var c5 := LongCommand(c4, cs[4].op, cs[4].arg).0;
    FieldSet(c5, cs[5].op, cs[5].arg);
  }

  /** Every expressible configuration is set exactly, whatever was set before. */
  lemma ConfigIsSet(initial: Config, run: bool, reset: bool, sent: seq<seq<byte>>, c: Config)
    requires Settable(c)
    ensures ExecutedAll(initial, run, reset, sent, ConfigCommands(c)) == (c, run, reset, sent)
  {
    hide LongCommand, ExecutedAll, ConfigCommands;
    SixCommands(initial, c);
    var cs := ConfigCommands(c);
    var c1 := LongCommand(initial, cs[0].op, cs[0].arg).0;
    var c2 := LongCommand(c1, cs[1].op, cs[1].arg).0;
    var c3 := LongCommand(c2, cs[2].op, cs[2].arg).0;
    var c4 := LongCommand(c3, cs[3].op, cs[3].arg).0;
    var c5 := LongCommand(c4, cs[4].op, cs[4].arg).0;
    assert cs[1..][1..] == cs[2..] && cs[2..][1..] == cs[3..] && cs[3..][1..] == cs[4..] && cs[4..][1..] == cs[5..];
    assert cs[5..][1..] == [];
    ExecuteFirst(initial, run, reset, sent, cs);
    ExecuteFirst(c1, run, reset, sent, cs[1..]);
    ExecuteFirst(c2, run, reset, sent, cs[2..]);
    ExecuteFirst(c3, run, reset, sent, cs[3..]);
    ExecuteFirst(c4, run, reset, sent, cs[4..]);
    ExecuteFirst(c5, run, reset, sent, cs[5..]);
    NothingExecuted(c, run, reset, sent);
  }

  lemma NothingExecuted(c: Config, run: bool, reset: bool, sent: seq<seq<byte>>)
    ensures ExecutedAll(c, run, reset, sent, []) == (c, run, reset, sent)
  {
  }

  /** The host's commands, in any packets, leave the analyser with the configuration meant. */
  lemma ConfigRoundTrip(link: Link, c: Config)
    requires Reachable(link.parser) && link.parser.state == Cmd && Settable(c)
    ensures Holds(ReceivedAll(link, EncodeAll(ConfigCommands(c))), c, link.runRequest, link.resetRequest, link.sent)
  {
    hide ReceivedAll, ExecutedAll, EncodeAll, Spelled;
    var cs := ConfigCommands(c);
    SpelledCommands(cs);
    ConfigIsSet(link.parser.config, link.runRequest, link.resetRequest, link.sent, c);
    StreamMeaning(link, EncodeAll(cs));
  }

  // ----- The metadata block ----------------------------------------------------------

  const METADATA_BUF_BYTES: nat := 64
  const META_END: byte := 0

  /** "xLOGIC AM243x" */
  function DeviceName(): (s: seq<byte>)
    ensures |s| == 13
  {
    [0x78, 0x4C, 0x4F, 0x47, 0x49, 0x43, 0x20, 0x41, 0x4D, 0x32, 0x34, 0x33, 0x78]
  }

  /** "PRU 1.0" */
  function FwVersion(): (s: seq<byte>)
    ensures |s| == 7
  {
    [0x50, 0x52, 0x55, 0x20, 0x31, 0x2E, 0x30]
  }

  /** The two strings with their tags. */
  function NamesPart(): (s: seq<byte>)
    ensures |s| == 24
  {
    [0x01] + DeviceName() + [0] + [0x02] + FwVersion() + [0]
  }

  /** Name, version, sample memory 0x1FFFC0, rate 333000000, 8 probes, protocol 2, end marker. */
  function MetadataBlock(): seq<byte> {
    NumbersPart() + [0x40] + [8] + [0x41] + [2] + [META_END]
  }

  function Clipped(s: seq<byte>, max: nat): seq<byte> {
    if |s| <= max then s else s[..max]
  }

  /** `append_byte`: `written` is what has been offered so far, whether or not it fitted. */
  method AppendByte(dest: array<byte>, offset: nat, max: nat, value: byte, ghost written: seq<byte>) returns (end: nat)
    requires max <= dest.Length && offset <= max && dest[..offset] == Clipped(written, max)
    modifies dest
    ensures end <= max && dest[..end] == Clipped(written + [value], max)
  {
    if offset < max {
      assert Clipped(written, max) == written;
      dest[offset] := value;
      return offset + 1;
    }
    return offset;
  }

  method AppendU32Be(dest: array<byte>, offset: nat, max: nat, value: u32, ghost written: seq<byte>) returns (end: nat)
    requires max <= dest.Length && offset <= max && dest[..offset] == Clipped(written, max)
    modifies dest
    ensures end <= max
    ensures dest[..end]
      == Clipped(written + [value / 0x100_0000, value / 0x1_0000 % 0x100, value / 0x100 % 0x100, value % 0x100], max)
  {
    var b3, b2, b1, b0 := value / 0x100_0000, value / 0x1_0000 % 0x100, value / 0x100 % 0x100, value % 0x100;
    end := AppendByte(dest, offset, max, b3, written);
    end := AppendByte(dest, end, max, b2, written + [b3]);
    end := AppendByte(dest, end, max, b1, written + [b3] + [b2]);
    end := AppendByte(dest, end, max, b0, written + [b3] + [b2] + [b1]);
    assert written + [b3] + [b2] + [b1] + [b0] == written + [b3, b2, b1, b0];
  }

  method AppendString(dest: array<byte>, offset: nat, max: nat, text: seq<byte>,
                      ghost written: seq<byte>) returns (end: nat)
    requires max <= dest.Length && offset <= max && dest[..offset] == Clipped(written, max)
    modifies dest
    ensures end <= max && dest[..end] == Clipped(written + text + [0], max)
  {
    hide Clipped;
    end := offset;
    assert written + text[..0] == written;
    for i := 0 to |text|
      invariant end <= max && dest[..end] == Clipped(written + text[..i], max)
    {
      end := AppendByte(dest, end, max, text[i], written + text[..i]);
      assert written + text[..i] + [text[i]] == written + text[..i + 1];
    }
    assert text[..|text|] == text;
    end := AppendByte(dest, end, max, 0, written + text);
  }

  /** The name and version fields of `xLOGIC_SUMP_Build_Metadata`. */
  method BuildNames(dest: array<byte>, max: nat) returns (length: nat)
    requires 0 < max <= dest.Length
    modifies dest
    ensures length <= max && dest[..length] == Clipped(NamesPart(), max)
  {
    hide Clipped, DeviceName, FwVersion;
    NothingClipped(max);
    length := AppendByte(dest, 0, max, 0x01, []);
    ghost var w: seq<byte> := [0x01];
    assert [] + [0x01] == w;
    length := AppendString(dest, length, max, DeviceName(), w);
    w := w + DeviceName() + [0];
    length := AppendByte(dest, length, max, 0x02, w);
    w := w + [0x02];
    length := AppendString(dest, length, max, FwVersion(), w);
  }

  function NumbersPart(): seq<byte> {
    NamesPart() + [0x21] + [0x00, 0x1F, 0xFF, 0xC0] + [0x23] + [0x13, 0xD9, 0x2D, 0x40]
  }

  /** The block as far as the two numbers, sample memory and sample rate. */
  method BuildNumbers(dest: array<byte>, max: nat) returns (length: nat)
    requires 0 < max <= dest.Length
    modifies dest
    ensures length <= max && dest[..length] == Clipped(NumbersPart(), max)
  {
    hide Clipped, NamesPart;
    length := BuildNames(dest, max);
    ghost var w := NamesPart();
    length := AppendByte(dest, length, max, 0x21, w);
    w := w + [0x21];
    length := AppendU32Be(dest, length, max, 0x1FFFC0, w);
    w := w + [0x00, 0x1F, 0xFF, 0xC0];
    length := AppendByte(dest, length, max, 0x23, w);
    w := w + [0x23];
    length := AppendU32Be(dest, length, max, 333000000, w);
  }

  /**
   `xLOGIC_SUMP_Build_Metadata`: it reports success exactly when the block fits or is cut
   off right after a zero byte, which the overflow test takes for the end marker.
   */
  method BuildMetadata(dest: array<byte>, max: nat) returns (ok: bool, length: nat)
    requires max <= dest.Length
    modifies dest
    ensures ok <==> max >= |MetadataBlock()| || (max > 0 && MetadataBlock()[max - 1] == META_END)
    ensures ok ==> length <= max && dest[..length] == Clipped(MetadataBlock(), max)
  {
    hide Clipped, MetadataBlock, NumbersPart;
    ClippedLength(max);
    if max == 0 {
      return false, 0;
    }
    length := BuildNumbers(dest, max);
    ghost var w := NumbersPart();
    length := AppendByte(dest, length, max, 0x40, w);
    w := w + [0x40];
    length := AppendByte(dest, length, max, 8, w);
    w := w + [8];
    length := AppendByte(dest, length, max, 0x41, w);
    w := w + [0x41];
    length := AppendByte(dest, length, max, 2, w);
    w := w + [2];
    length := AppendByte(dest, length, max, META_END, w);
    WholeBlock(w + [META_END]);
    if length == max && dest[length - 1] != META_END {
      assert dest[..length][length - 1] == dest[length - 1];
      return false, 0;
    }
    assert length == max ==> dest[..length][length - 1] == dest[length - 1];
    return true, length;
  }

  lemma NothingClipped(max: nat)
    ensures Clipped([], max) == []
  {
  }

  lemma ClippedLength(max: nat)
    ensures |MetadataBlock()| == 39 && MetadataBlock()[38] == META_END
    ensures max < 39 ==> Clipped(MetadataBlock(), max) == MetadataBlock()[..max]
    ensures max >= 39 ==> Clipped(MetadataBlock(), max) == MetadataBlock()
  {
    hide NamesPart;
  }

  lemma WholeBlock(w: seq<byte>)
    requires w == NumbersPart() + [0x40] + [8] + [0x41] + [2] + [META_END]
    ensures w == MetadataBlock()
  {
  }

  // ----- What the host's bytes do ---------------------------------------------------------

  function Number16(low: nat, high: nat): nat { low + 0x100 * high }
  function Number24(low: nat, middle: nat, high: nat): nat { low + 0x100 * middle + 0x1_0000 * high }

  /** A long command of any number: its five bytes, and what they leave, field by field. */
  lemma FiveBytesSet(link: Link, op: byte, b: seq<byte>)
    requires Reachable(link.parser) && link.parser.state == Cmd && op >= 0x80 && |b| == 4
    ensures var after, c := ReceivedAll(link, [op] + b), link.parser.config;
      var low, high := Number16(b[0], b[1]), Number16(b[2], b[3]);
      && after == link.(parser := after.parser) && after.parser.state == Cmd
      && (op == 0x80 ==> after.parser.config == c.(divider := Number24(b[0], b[1], b[2])))
      && (op == 0x81 ==> after.parser.config == c.(readCount := 4 * (low + 1), delayCount := 4 * (high + 1)))
      && (op == 0x82 ==> after.parser.config == c.(flags := low + 0x1_0000 * high))
      && (op == 0xC0 ==> after.parser.config == c.(triggerMask := low + 0x1_0000 * high))
      && (op == 0xC1 ==> after.parser.config == c.(triggerValue := low + 0x1_0000 * high))
      && (op == 0xC4 ==> after.parser.config == c.(triggerMode := if b[0] % 2 == 1 then Level else Edge))
      && (op !in {0x80, 0x81, 0x82, 0xC0, 0xC1, 0xC4} ==> after.parser.config == c)
  {
    hide EncodeArg, ReceivedAll, MetadataBlock;
    EncodeArgOf(b);
    ArgParts(b);
    OneLongCommand(link, Long(op, ArgValue(b)));
    hide ArgValue;
  }

  lemma ArgParts(b: seq<byte>)
    requires |b| == 4
    ensures var low, high := Number16(b[0], b[1]), Number16(b[2], b[3]);
      && ArgValue(b) == low + 0x1_0000 * high
      && ArgValue(b) % 0x1_0000 == low && ArgValue(b) / 0x1_0000 == high
      && ArgValue(b) % 0x100_0000 == Number24(b[0], b[1], b[2]) && ArgValue(b) % 2 == b[0] % 2
  {
    var low, high := Number16(b[0], b[1]), Number16(b[2], b[3]);
    Halves(low, high);
    var arg := ArgValue(b);
    RemainderOf(arg, 0x100_0000, b[3], Number24(b[0], b[1], b[2]));
  }

  /** What a metadata reply says, read tag by tag as the protocol has it. */
  datatype Token = Text(tag: byte, text: seq<byte>) | Number(tag: byte, value: nat)

  /** Up to the next zero byte. */
  function TextOf(s: seq<byte>): (t: seq<byte>)
    ensures |t| <= |s|
  {
    if s == [] || s[0] == 0 then [] else [s[0]] + TextOf(s[1..])
  }

  function BigEndian(a: nat, b: nat, c: nat, d: nat): nat { d + 0x100 * (c + 0x100 * (b + 0x100 * a)) }

  function ReadMetadata(s: seq<byte>): Option<seq<Token>>
    decreases |s|
  {
    if s == [] then None
    else if s[0] == 0 then Some([])
    else if s[0] < 0x20 then
      var t := TextOf(s[1..]);
      if 1 + |t| >= |s| then None else Then(Text(s[0], t), ReadMetadata(s[2 + |t|..]))
    else if s[0] < 0x40 then
      if |s| < 5 then None
      else Then(Number(s[0], BigEndian(s[1], s[2], s[3], s[4])), ReadMetadata(s[5..]))
    else
      if |s| < 2 then None else Then(Number(s[0], s[1]), ReadMetadata(s[2..]))
  }

  function Then(t: Token, rest: Option<seq<Token>>): Option<seq<Token>> {
    match rest
    case None => None
    case Some(ts) => Some([t] + ts)
  }

  lemma {:induction false} TextEnds(text: seq<byte>, rest: seq<byte>)
    requires 0 !in text
    ensures TextOf(text + [0] + rest) == text
  {
    if text == [] {
      assert [] + [0] + rest == [0] + rest;
    } else {
      assert (text + [0] + rest)[1..] == text[1..] + [0] + rest;
      TextEnds(text[1..], rest);
    }
  }

  lemma ReadText(tag: byte, text: seq<byte>, rest: seq<byte>)
    requires 0 < tag < 0x20 && 0 !in text
    ensures ReadMetadata([tag] + text + [0] + rest) == Then(Text(tag, text), ReadMetadata(rest))
  {
    var s := [tag] + text + [0] + rest;
    assert s[1..] == text + [0] + rest && s[2 + |text|..] == rest;
    TextEnds(text, rest);
  }

  lemma ReadNumber(tag: byte, a: byte, b: byte, c: byte, d: byte, rest: seq<byte>)
    requires 0x20 <= tag < 0x40
    ensures ReadMetadata([tag] + [a, b, c, d] + rest)
      == Then(Number(tag, BigEndian(a, b, c, d)), ReadMetadata(rest))
  {
    var s := [tag] + [a, b, c, d] + rest;
    assert s[5..] == rest;
  }

  lemma ReadSmall(tag: byte, a: byte, rest: seq<byte>)
    requires tag >= 0x40
    ensures ReadMetadata([tag] + [a] + rest) == Then(Number(tag, a), ReadMetadata(rest))
  {
    assert ([tag] + [a] + rest)[2..] == rest;
  }

  /** The reply names the analyser, its version, its memory, its fastest rate, 8 probes and protocol 2. */
  lemma MetadataSays()
    ensures ReadMetadata(MetadataBlock()) == Some([
      Text(1, [0x78, 0x4C, 0x4F, 0x47, 0x49, 0x43, 0x20, 0x41, 0x4D, 0x32, 0x34, 0x33, 0x78]),
      Text(2, [0x50, 0x52, 0x55, 0x20, 0x31, 0x2E, 0x30]),
      Number(0x21, 2097088), Number(0x23, 333000000), Number(0x40, 8), Number(0x41, 2)])
  {
    hide ReadMetadata, MetadataBlock, TextOf;
    var name, version := DeviceName(), FwVersion();
    var r2 := NumberTags();
    NumbersSay();
    NoZeros();
    ReadText(2, version, r2);
    ReadText(1, name, [0x02] + version + [0] + r2);
    MetadataParts();
    var numbers := [Number(0x21, 2097088), Number(0x23, 333000000), Number(0x40, 8), Number(0x41, 2)];
    ThenIs(Text(2, version), numbers);
    ThenIs(Text(1, name), [Text(2, version)] + numbers);
    assert ReadMetadata(r2) == Some(numbers);
    assert ReadMetadata([0x02] + version + [0] + r2) == Some([Text(2, version)] + numbers);
    assert MetadataBlock() == [0x01] + name + [0] + ([0x02] + version + [0] + r2);
    assert ReadMetadata(MetadataBlock()) == Some([Text(1, name)] + ([Text(2, version)] + numbers));
    assert [Text(1, name)] + ([Text(2, version)] + numbers)
      == [Text(1, name), Text(2, version), Number(0x21, 2097088), Number(0x23, 333000000), Number(0x40, 8),
          Number(0x41, 2)];
  }

  function NumberTags(): seq<byte> {
    [0x21] + [0x00, 0x1F, 0xFF, 0xC0] + ([0x23] + [0x13, 0xD9, 0x2D, 0x40] + ([0x40] + [8] + ([0x41] + [2] + [0])))
  }

  lemma NumbersSay()
    ensures ReadMetadata(NumberTags())
      == Some([Number(0x21, 2097088), Number(0x23, 333000000), Number(0x40, 8), Number(0x41, 2)])
  {
    hide ReadMetadata, BigEndian;
    var r6: seq<byte> := [0];
    var r5 := [0x41] + [2] + r6;
    var r4 := [0x40] + [8] + r5;
    var r3 := [0x23] + [0x13, 0xD9, 0x2D, 0x40] + r4;
    EndRead();
    ReadSmall(0x41, 2, r6);
    ThenIs(Number(0x41, 2), []);
    ReadSmall(0x40, 8, r5);
    ThenIs(Number(0x40, 8), [Number(0x41, 2)]);
    ReadNumber(0x23, 0x13, 0xD9, 0x2D, 0x40, r4);
    ReadNumber(0x21, 0x00, 0x1F, 0xFF, 0xC0, r3);
    TwoNumbers();
    var two := [Number(0x40, 8)] + [Number(0x41, 2)];
    ThenIs(Number(0x23, 333000000), two);
    ThenIs(Number(0x21, 2097088), [Number(0x23, 333000000)] + two);
    assert [Number(0x21, 2097088)] + ([Number(0x23, 333000000)] + two)
      == [Number(0x21, 2097088), Number(0x23, 333000000), Number(0x40, 8), Number(0x41, 2)];
  }

  lemma ThenIs(t: Token, ts: seq<Token>)
    ensures Then(t, Some(ts)) == Some([t] + ts) && [t] + [] == [t]
  {
  }

  lemma EndRead()
    ensures ReadMetadata([0]) == Some([])
  {
  }

  lemma TwoNumbers()
    ensures BigEndian(0x00, 0x1F, 0xFF, 0xC0) == 2097088 && BigEndian(0x13, 0xD9, 0x2D, 0x40) == 333000000
  {
  }

  lemma MetadataParts()
    ensures MetadataBlock() == [0x01] + DeviceName() + [0] + ([0x02] + FwVersion() + [0] + NumberTags())
  {
    hide DeviceName, FwVersion;
  }

  lemma NoZeros()
    ensures 0 !in DeviceName() && 0 !in FwVersion()
  {
  }

  /** A short command of any number: its byte, and what it leaves. */
  lemma OneByteDoes(link: Link, b: byte)
    requires Reachable(link.parser) && link.parser.state == Cmd && b < 0x80
    ensures var after := ReceivedAll(link, [b]);
      && (b == 0x00 ==> after.parser.config == Config(0, 0, 0, 0, 0, 0, NoTrigger) && after.parser.state == Cmd)
      && (b == 0x00 ==> !after.runRequest && after.resetRequest && after.sent == link.sent)
      && (b == 0x01 ==> after == link.(runRequest := true))
      && (b == 0x02 ==> after == link.(sent := link.sent + [[0x31, 0x41, 0x4C, 0x53]]))
      && (b == 0x04 ==> after == link.(sent := link.sent + [MetadataBlock()]))
      && (b !in {0x00, 0x01, 0x02, 0x04} ==> after == link)
  {
    hide MetadataBlock;
    assert [b][1..] == [];
  }
}
