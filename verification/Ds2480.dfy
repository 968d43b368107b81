/**
 * The DS2480 serial-port simulator (ds2480sim.c): a byte stream in command and data mode, parsed
 * with index jumps over one buffer, in front of a 1-Wire part given by its two callbacks.
 */
module Ds2480 {
  import opened BitMasks
  import opened Bytes

  /** The bytes that switch modes; the timing byte is an implicit switch to command mode. */
  function ModeData(): bv8 { 0xE1 }

  function ModeCommand(): bv8 { 0xE3 }

  function TimingByte(): bv8 { 0xC1 }

  const SPEEDSEL_OD: bv8 := 0x08
  const PARMSET_9600: bv8 := 0x00

  datatype Mode = COMMAND | DATA

  /** ibutton_t: what the part in state `D` does with a run of data bytes and with a reset pulse. */
  datatype Button<!D> = Button(process: (D, seq<bv8>, bool) -> (D, seq<bv8>), resetPulse: D -> D, rom: seq<bv8>)

  /** The registers of the simulator and the state of the part. */
  datatype State<D> = State(mode: Mode, speed: bv8, search: bool, config: seq<bv8>, searchRom: seq<bv8>, dev: D)
  {
    predicate Ok() { |config| == 256 && |searchRom| < 16 }
  }

  // ---------- register fields of a command byte ----------

  predicate IsCommand(b: bv8) { b & 0x81 == 0x81 }

  predicate IsConfig(b: bv8) { b & 0x01 == 0x01 }

  datatype Function = BitIO | Search | Reset | ChangeMode

  function FunctionOf(b: bv8): Function {
    if b & 0x60 == 0x00 then BitIO
    else if b & 0x60 == 0x20 then Search
    else if b & 0x60 == 0x40 then Reset
    else ChangeMode
  }

  function SpeedOf(b: bv8): bv8 { b & 0x0C }

  predicate SearchOn(b: bv8) { (b >> 4) & 1 == 1 }

  function BitReply(b: bv8): bv8 { b & 0x9F }

  function ModeReply(b: bv8): bv8 { (b & 0x1C) | 0xE0 }

  predicate WritesConfig(b: bv8) { b & 0x70 != 0 }

  function ParameterOf(b: bv8): (k: nat)
    ensures k < 8
  {
    ((b >> 4) & 0x07) as int
  }

  function ReadParameterOf(b: bv8): (k: nat)
    ensures k < 8
  {
    ((b & 0x0E) >> 1) as int
  }

  function SettingOf(b: bv8): bv8 { b & 0x0E }

  function ConfigReply(b: bv8, setting: bv8): bv8 { (b & 0x70) | setting }

  /** The configuration after a master reset: the seven parameters have a value, the rest is 0xAA. */
  function NewConfig(): (c: seq<bv8>)
    ensures |c| == 256
  {
    [0xAA, 0x00, 0x08, 0x08, 0x00, 0x00, 0x00, PARMSET_9600] + seq(248, _ => 0xAA)
  }

  /** The state after a master reset. */
  function NewState<D>(dev: D): (st: State<D>)
    ensures st.Ok()
  {
    State(COMMAND, 0, false, NewConfig(), [], dev)
  }

  // ---------- the reference decoder ----------

  /** The effect of a command byte, and the reply to it. */
  function Communication<D>(b: Button<D>, st: State<D>, x: bv8): (r: (State<D>, seq<bv8>))
    requires st.Ok()
    ensures r.0.Ok()
  {
    match FunctionOf(x)
    case BitIO => (st.(speed := SpeedOf(x)), [BitReply(x)])
    case Search => (st.(search := SearchOn(x), speed := SpeedOf(x)), [])
    case Reset => (st.(dev := b.resetPulse(st.dev), speed := SpeedOf(x)), [0xCD])
    case ChangeMode => (st, [ModeReply(x)])
  }

  /** The effect of a configuration byte, and the reply to it. */
  function Configuration<D>(st: State<D>, x: bv8): (r: (State<D>, seq<bv8>))
    requires st.Ok()
    ensures r.0.Ok()
  {
    if WritesConfig(x) then
      (st.(config := st.config[ParameterOf(x) := SettingOf(x)]), [ConfigReply(x, SettingOf(x))])
    else (st, [st.config[ReadParameterOf(x)]])
  }

  /** The effect of one byte in command mode, and the reply to it. */
  function Command<D>(b: Button<D>, st: State<D>, x: bv8): (r: (State<D>, seq<bv8>))
    requires st.Ok()
    ensures r.0.Ok()
  {
    if x == ModeData() then (st.(mode := DATA), [])
    else if x == ModeCommand() then (st, [])
    else if IsCommand(x) then Communication(b, st, x)
    else if IsConfig(x) then Configuration(st, x)
    else (st, [])
  }

  /** How a run of data bytes ends. */
  datatype Stop = EndOfBuffer | BackToCommand | Timing

  /** A run of data bytes: the payload, the bytes it takes on the line, and its end. */
  datatype Span = Span(payload: seq<bv8>, used: nat, stop: Stop)

  /** The run of data bytes at the start of a buffer: E3 E3 stands for E3; E3 or C1 ends the run. */
  function Unescape(bytes: seq<bv8>): (s: Span)
    ensures s.used <= |bytes| && (s.used == |bytes| <==> s.stop == EndOfBuffer)
    ensures s.stop != EndOfBuffer ==> bytes[s.used] == (if s.stop == Timing then TimingByte() else ModeCommand())
  {
    if bytes == [] then Span([], 0, EndOfBuffer)
    else if bytes[0] == ModeCommand() then
      if |bytes| > 1 && bytes[1] == ModeCommand() then
        var s := Unescape(bytes[2..]);
        Span([ModeCommand()] + s.payload, 2 + s.used, s.stop)
      else Span([], 0, BackToCommand)
    else if bytes[0] == TimingByte() then Span([], 0, Timing)
    else
      var s := Unescape(bytes[1..]);
      Span([bytes[0]] + s.payload, 1 + s.used, s.stop)
  }

  /** The reply to 16 bytes of search data: direction bits are the ROM's bits, discrepancy bits 0. */
  function SearchReply(rom: seq<bv8>, n: nat): (out: seq<bv8>)
    requires |rom| == 8 && n <= 64
    ensures |out| == 16
    decreases n
  {
    if n == 0 then seq(16, _ => 0)
    else
      var i, out := n - 1, SearchReply(rom, n - 1);
      if ByteBit(rom[i / 8], i % 8) then out[i / 4 := SetBit(out[i / 4], i % 4 * 2 + 1)] else out
  }

  /** Data bytes in search mode: every sixteenth one is answered. */
  function SearchFeed(rom: seq<bv8>, buf: seq<bv8>, payload: seq<bv8>): (r: (seq<bv8>, seq<bv8>))
    requires |rom| == 8 && |buf| < 16
    ensures |r.0| < 16
    decreases |payload|
  {
    if payload == [] then (buf, [])
    else
      var buf1 := buf + [payload[0]];
      if |buf1| >= 16 then
        var r := SearchFeed(rom, [], payload[1..]);
        (r.0, SearchReply(rom, 64) + r.1)
      else SearchFeed(rom, buf1, payload[1..])
  }

  /** The effect of a payload on the part or on the search buffer. */
  function Deliver<D>(b: Button<D>, st: State<D>, payload: seq<bv8>): (r: (State<D>, seq<bv8>))
    requires st.Ok() && |b.rom| == 8
    ensures r.0.Ok() && r.0.mode == st.mode
  {
    if st.search then
      var (buf, out) := SearchFeed(b.rom, st.searchRom, payload);
      (st.(searchRom := buf), out)
    else
      var (dev, out) := b.process(st.dev, payload, st.speed == SPEEDSEL_OD);
      (st.(dev := dev), out)
  }

  /** The timing byte resets the baud-rate register. */
  function Timed<D>(st: State<D>, stop: Stop): (r: State<D>)
    requires st.Ok()
    ensures r.Ok() && r.mode == st.mode
  {
    if stop == Timing then st.(config := st.config[7 := PARMSET_9600]) else st
  }

  /** Both ways of ending a run switch to command mode. */
  function Stopped<D>(st: State<D>, stop: Stop): State<D> {
    if stop == EndOfBuffer then st else st.(mode := COMMAND)
  }

  /** The effect of a run of data bytes. */
  function Feed<D>(b: Button<D>, st: State<D>, s: Span): (r: (State<D>, seq<bv8>))
    requires st.Ok() && |b.rom| == 8
    ensures r.0.Ok()
  {
    var (st1, out) := Deliver(b, Timed(st, s.stop), s.payload);
    (Stopped(st1, s.stop), out)
  }

  function Then<D>(out: seq<bv8>, r: (State<D>, seq<bv8>)): (State<D>, seq<bv8>) { (r.0, out + r.1) }

  /** The reference decoder: byte by byte in command mode, run by run in data mode. */
  function Decode<D>(b: Button<D>, st: State<D>, bytes: seq<bv8>): (r: (State<D>, seq<bv8>))
    requires st.Ok() && |b.rom| == 8
    ensures r.0.Ok()
    decreases |bytes|
  {
    if bytes == [] then (st, [])
    else if st.mode == COMMAND then
      var (st1, out) := Command(b, st, bytes[0]);
      Then(out, Decode(b, st1, bytes[1..]))
    else
      var s := Unescape(bytes);
      var (st1, out) := Feed(b, st, s);
      Then(out, if s.stop == EndOfBuffer then (st1, []) else Decode(b, st1, bytes[s.used + 1..]))
  }

  /** The decoder says `said` to `bytes` first, and goes on with `rest` in state `now`. */
  ghost predicate Decodes<D>(b: Button<D>, st: State<D>, bytes: seq<bv8>, said: seq<bv8>, now: State<D>, rest: seq<bv8>)
    requires st.Ok() && now.Ok() && |b.rom| == 8
  {
    Decode(b, st, bytes) == Then(said, Decode(b, now, rest))
  }

  /** The buffer beyond the byte that stopped a callee at index `ret`. */
  function Beyond(bytes: seq<bv8>, ret: nat): seq<bv8> {
    if ret < |bytes| then bytes[ret + 1..] else []
  }

  lemma ThenThen<D>(a: seq<bv8>, b: seq<bv8>, r: (State<D>, seq<bv8>))
    ensures Then(a, Then(b, r)) == Then(a + b, r)
  {
    assert a + (b + r.1) == (a + b) + r.1;
  }

  lemma ThenNothing<D>(r: (State<D>, seq<bv8>))
    ensures Then([], r) == r
  {
    assert [] + r.1 == r.1;
  }

  /** Writing `more` behind what was written from `at` on. */
  lemma ExtendSlice(was: seq<bv8>, now: seq<bv8>, at: nat, n: nat, size: nat, said: seq<bv8>, more: seq<bv8>)
    requires at + n <= at + size <= |now| == |was|
    requires now[..at + n] == was[..at + n] && was[at..at + n] == said && now[at + n..at + size] == more
    ensures now[at..at + size] == said + more && now[..at] == was[..at]
  {
    assert now[at..at + size] == now[at..at + n] + now[at + n..at + size];
    assert now[at..at + n] == now[..at + n][at..] == was[..at + n][at..];
    assert now[..at] == now[..at + n][..at] == was[..at + n][..at];
  }

  /** One step of the reference decoder in command mode. */
  lemma DecodeCommand<D>(b: Button<D>, st: State<D>, bytes: seq<bv8>, i: nat)
    requires st.Ok() && |b.rom| == 8 && st.mode == COMMAND && i < |bytes|
    ensures var r := Command(b, st, bytes[i]);
            Decode(b, st, bytes[i..]) == Then(r.1, Decode(b, r.0, bytes[i + 1..]))
  {
    hide Command;
    assert bytes[i..][0] == bytes[i] && bytes[i..][1..] == bytes[i + 1..];
  }

  class Ds2480<!D> {
    var mode: Mode
    var speed: bv8
    var search: bool
    const config: array<bv8>
    const searchRom: array<bv8>
    var searchLen: nat
    const button: Button<D>
    var dev: D

    ghost predicate Valid()
      reads this
    {
      && config.Length == 256 && searchRom.Length == 16 && config != searchRom
      && searchLen < 16 && |button.rom| == 8
    }

    ghost function Abs(): (st: State<D>)
      requires Valid()
      reads this, config, searchRom
      ensures st.Ok() && st.mode == mode
    {
      State(mode, speed, search, config[..], searchRom[..searchLen], dev)
    }

    /** ds2480_init, which is ds2480_master_reset. */
    constructor (button: Button<D>, dev: D)
      requires |button.rom| == 8
      ensures Valid() && fresh(config) && fresh(searchRom)
      ensures this.button == button && Abs() == NewState(dev)
    {
      this.button := button;
      this.dev := dev;
      config := new bv8[256](_ => 0xAA);
      searchRom := new bv8[16](_ => 0);
      mode, speed, search, searchLen := COMMAND, 0, false, 0;
      new;
      config[1], config[2], config[3], config[4] := 0x00, 0x08, 0x08, 0x00;
      config[5], config[6], config[7] := 0x00, 0x00, PARMSET_9600;
      assert config[..] == NewConfig();
    }

    /** OPUSH. */
    method Push(x: bv8, out: array<bv8>, at: nat, outsize: nat, maxOut: nat) returns (ok: bool)
      requires 0 < maxOut && at + maxOut <= out.Length
      modifies out
      ensures ok <==> outsize < maxOut - 1
      ensures ok ==> out[..] == old(out[..])[at + outsize := x]
      ensures ok ==> out[..at + (outsize + 1)] == old(out[..at + outsize]) + [x]
      ensures !ok ==> out[..] == old(out[..])
    {
      if outsize >= maxOut - 1 {
        return false;
      }
      out[at + outsize] := x;
      return true;
    }

    /** The command branch of ds2480_process_cmd. */
    method CommandSwitch(x: bv8, out: array<bv8>, at: nat, outsize: nat, maxOut: nat) returns (ok: bool, size: nat)
      requires Valid() && out != config && out != searchRom
      requires 0 < maxOut && at + maxOut <= out.Length && outsize < maxOut
      modifies this`speed, this`search, this`dev, out
      ensures Valid() && mode == old(mode) && outsize <= size
      ensures var r := Communication(button, old(Abs()), x);
              && (ok <==> outsize + |r.1| < maxOut)
              && (ok ==> Abs() == r.0 && size == outsize + |r.1| && out[..at + size] == old(out[..at + outsize]) + r.1)
      ensures out[..at + outsize] == old(out[..at + outsize])
    {
      hide FunctionOf, SpeedOf, SearchOn, BitReply, ModeReply;
      ok, size := true, outsize;
      match FunctionOf(x)
      case BitIO =>
        speed := SpeedOf(x);
        ok := Push(BitReply(x), out, at, size, maxOut);
        if ok { size := size + 1; }
      case Search =>
        search := SearchOn(x);
        speed := SpeedOf(x);
        assert out[..at + size] + [] == out[..at + size];
      case Reset =>
        dev := button.resetPulse(dev);
        speed := SpeedOf(x);
        ok := Push(0xCD, out, at, size, maxOut);
        if ok { size := size + 1; }
      case ChangeMode =>
        ok := Push(ModeReply(x), out, at, size, maxOut);
        if ok { size := size + 1; }
    }

    /** The configuration branch of ds2480_process_cmd. */
    method ConfigSwitch(x: bv8, out: array<bv8>, at: nat, outsize: nat, maxOut: nat) returns (ok: bool, size: nat)
      requires Valid() && out != config && out != searchRom
      requires 0 < maxOut && at + maxOut <= out.Length && outsize < maxOut
      modifies config, out
      ensures Valid() && outsize <= size
      ensures var r := Configuration(old(Abs()), x);
              && (ok <==> outsize + |r.1| < maxOut)
              && (ok ==> Abs() == r.0 && size == outsize + |r.1| && out[..at + size] == old(out[..at + outsize]) + r.1)
      ensures out[..at + outsize] == old(out[..at + outsize])
    {
      hide WritesConfig, ParameterOf, ReadParameterOf, SettingOf, ConfigReply;
      size := outsize;
      if WritesConfig(x) {
        config[ParameterOf(x)] := SettingOf(x);
        ok := Push(ConfigReply(x, config[ParameterOf(x)]), out, at, size, maxOut);
      } else {
        ok := Push(config[ReadParameterOf(x)], out, at, size, maxOut);
      }
      if ok { size := size + 1; }
    }

    /** One byte other than the mode bytes in command mode. */
    method CommandByte(x: bv8, out: array<bv8>, at: nat, outsize: nat, maxOut: nat) returns (ok: bool, size: nat)
      requires Valid() && out != config && out != searchRom && x != ModeData() && x != ModeCommand()
      requires 0 < maxOut && at + maxOut <= out.Length && outsize < maxOut
      modifies this`speed, this`search, this`dev, config, out
      ensures Valid() && mode == old(mode) && outsize <= size
      ensures var r := Command(button, old(Abs()), x);
              && (ok <==> outsize + |r.1| < maxOut)
              && (ok ==> Abs() == r.0 && size == outsize + |r.1| && out[..at + size] == old(out[..at + outsize]) + r.1)
      ensures out[..at + outsize] == old(out[..at + outsize])
    {
      hide IsCommand, IsConfig, Communication, Configuration;
      ok, size := true, outsize;
      if IsCommand(x) {
        ok, size := CommandSwitch(x, out, at, outsize, maxOut);
      } else if IsConfig(x) {
        ok, size := ConfigSwitch(x, out, at, outsize, maxOut);
      } else {
        assert out[..at + size] + [] == out[..at + size];
      }
    }

    method EnterData()
      requires Valid()
      modifies this`mode
      ensures Valid() && Abs() == old(Abs()).(mode := DATA)
    {
      mode := DATA;
    }

    /** One byte in command mode other than the switch to data mode; `said` is the reply so far. */
    method SayByte(x: bv8, out: array<bv8>, ghost start: seq<bv8>, ghost said: seq<bv8>, at: nat, outsize: nat,
                   maxOut: nat)
      returns (ok: bool, size: nat)
      requires Valid() && out != config && out != searchRom && x != ModeData()
      requires 0 < maxOut && at + maxOut <= out.Length && outsize < maxOut
      requires |start| == at && |said| == outsize && Written(out[..], start, said)
      modifies this`speed, this`search, this`dev, config, out
      ensures Valid() && mode == old(mode)
      ensures var r := Command(button, old(Abs()), x);
              && (ok <==> outsize + |r.1| < maxOut)
              && (ok ==> Abs() == r.0 && size == outsize + |r.1|)
              && Written(out[..], start, if ok then said + r.1 else said)
    {
      ghost var was, r := out[..], Command(button, Abs(), x);
      ModeBytes(button, Abs(), x);
      hide Command, Written;
      ok, size := true, outsize;
      if x == ModeCommand() {
        assert out[..at + outsize] + [] == out[..at + outsize];
      } else {
        ok, size := CommandByte(x, out, at, outsize, maxOut);
      }
      if ok {
        WrittenMore(was, out[..], start, said, r.1);
      } else {
        WrittenKept(was, out[..], start, said);
      }
    }

    /**
     * ds2480_process_cmd: the index of the byte that enters data mode, the buffer's length, or -1 when the
     * output is full.
     */
    method ProcessCmd(bytes: seq<bv8>, out: array<bv8>, at: nat, maxOut: nat) returns (ret: int, outsize: nat)
      requires Valid() && mode == COMMAND && out != config && out != searchRom
      requires 0 < maxOut && at + maxOut <= out.Length
      modifies this`mode, this`speed, this`search, this`dev, config, out
      ensures Valid() && outsize < maxOut && ret <= |bytes|
      ensures out[..at] == old(out[..at])
      ensures ret < 0 ==> |Decode(button, old(Abs()), bytes).1| >= maxOut
      ensures ret >= 0 ==> Decodes(button, old(Abs()), bytes, out[at..at + outsize], Abs(), Beyond(bytes, ret))
    {
      hide Command, Decode, Decodes, Tail, Beyond, Abs, Written;
      ghost var st, said: seq<bv8>, now, start := Abs(), [], Abs(), out[..at];
      DecodesNothing(button, st, bytes);
      WrittenStart(out[..], at);
      outsize := 0;
      var i := 0;
      while i < |bytes|
        invariant 0 <= i <= |bytes| && Valid() && outsize < maxOut && now == Abs() && now.mode == COMMAND
        invariant |said| == outsize && Written(out[..], start, said)
        invariant Decodes(button, st, bytes, said, now, Tail(bytes, i))
      {
        ghost var r := Command(button, now, bytes[i]);
        DecodesNext(button, st, bytes, i, now, said);
        if bytes[i] == ModeData() {
          EnterData();
          BeyondIsTail(bytes, i);
          SplitReply(out[..], start, said);
          return i, outsize;
        }
        var ok, size := SayByte(bytes[i], out, start, said, at, outsize, maxOut);
        if !ok {
          SplitReply(out[..], start, said);
          return -1, outsize;
        }
        outsize := size;
        now, said := r.0, said + r.1;
        i := i + 1;
      }
      ret := |bytes|;
      BeyondIsTail(bytes, i);
      SplitReply(out[..], start, said);
    }

    /** The preprocessing loop of ds2480_process_data: the payload, the E3 bytes dropped, and what ended it. */
    method Preprocess(bytes: seq<bv8>) returns (processed: seq<bv8>, numCmdBytes: nat, stop: Stop)
      requires Valid()
      modifies config
      ensures Unescape(bytes) == Span(processed, |processed| + numCmdBytes, stop)
      ensures config[..] == if stop == Timing then old(config[..])[7 := PARMSET_9600] else old(config[..])
    {
      hide ModeCommand, TimingByte, Unescape;
      UnescapeNothing();
      processed, numCmdBytes, stop := [], 0, EndOfBuffer;
      var i := 0;
      assert bytes[0..] == bytes;
      while i < |bytes|
        invariant 0 <= i <= |bytes| && i == |processed| + numCmdBytes && stop == EndOfBuffer
        invariant config[..] == old(config[..])
        invariant Unescape(bytes) == Prepend(processed, i, Unescape(bytes[i..]))
      {
        UnescapeStep(bytes, i);
        if bytes[i] == ModeCommand() {
          if i < |bytes| - 1 && bytes[i + 1] == ModeCommand() {
            PrependTwice(processed, i, [bytes[i]], 2, Unescape(bytes[i + 2..]));
            processed := processed + [bytes[i]];
            numCmdBytes := numCmdBytes + 1;
            i := i + 1;
          } else {
            stop := BackToCommand;
            return;
          }
        } else if bytes[i] == TimingByte() {
          config[7] := PARMSET_9600;
          stop := Timing;
          return;
        } else {
          PrependTwice(processed, i, [bytes[i]], 1, Unescape(bytes[i + 1..]));
          processed := processed + [bytes[i]];
        }
        i := i + 1;
      }
      assert bytes[|bytes|..] == [];
    }

    /** ds2480_process_search_rom. */
    method ProcessSearchRom(out: array<bv8>, at: nat)
      requires |button.rom| == 8 && at + 16 <= out.Length
      modifies out
      ensures out[..at] == old(out[..at]) && out[at..at + 16] == SearchReply(button.rom, 64)
    {
      hide ByteBit, SetBit, SearchReply;
      ClearOut(out, at);
      ghost var rom := button.rom;
      SearchReplyStart(rom);
      for i := 0 to 64
        invariant out[..at] == old(out[..at])
        invariant out[at..at + 16] == SearchReply(rom, i)
      {
        ghost var was := out[at..at + 16];
        SearchReplyStep(rom, i);
        if ByteBit(button.rom[i / 8], i % 8) {
          out[at + i / 4] := SetBit(out[at + i / 4], i % 4 * 2 + 1);
          assert out[at..at + 16] == was[i / 4 := SetBit(was[i / 4], i % 4 * 2 + 1)];
        }
      }
    }

    method ClearOut(out: array<bv8>, at: nat)
      requires at + 16 <= out.Length
      modifies out
      ensures out[..at] == old(out[..at]) && out[at..at + 16] == seq(16, _ => 0)
    {
      for k := 0 to 16
        invariant out[..at] == old(out[..at])
        invariant forall j :: at <= j < at + k ==> out[j] == 0
      {
        out[at + k] := 0;
      }
    }

    /** The search branch of ds2480_process_data. */
    method FeedSearch(processed: seq<bv8>, out: array<bv8>, at: nat) returns (outsize: nat)
      requires Valid() && out != searchRom && out != config
      requires at + |SearchFeed(button.rom, searchRom[..searchLen], processed).1| <= out.Length
      modifies this`searchLen, searchRom, out
      ensures Valid() && at + outsize <= out.Length && out[..at] == old(out[..at])
      ensures (searchRom[..searchLen], out[at..at + outsize])
              == SearchFeed(button.rom, old(searchRom[..searchLen]), processed)
    {
      hide SearchReply;
      outsize := 0;
      ghost var all, said: seq<bv8> := SearchFeed(button.rom, searchRom[..searchLen], processed), [];
      assert processed[0..] == processed && [] + all.1 == all.1;
      for i := 0 to |processed|
        invariant Valid() && at + outsize <= out.Length && out[..at] == old(out[..at]) && out[at..at + outsize] == said
        invariant all == (SearchFeed(button.rom, searchRom[..searchLen], processed[i..]).0,
                          said + SearchFeed(button.rom, searchRom[..searchLen], processed[i..]).1)
      {
        ghost var buf, was := searchRom[..searchLen], out[..];
        assert processed[i..][0] == processed[i] && processed[i..][1..] == processed[i + 1..];
        searchRom[searchLen] := processed[i];
        searchLen := searchLen + 1;
        assert searchRom[..searchLen] == buf + [processed[i]];
        if searchLen >= 16 {
          ghost var reply, later := SearchReply(button.rom, 64), SearchFeed(button.rom, [], processed[i + 1..]);
          assert said + (reply + later.1) == (said + reply) + later.1;
          assert all.1 == (said + reply) + later.1 && |said| == outsize;
          ProcessSearchRom(out, at + outsize);
          ExtendSlice(was, out[..], at, outsize, outsize + 16, said, reply);
          searchLen := 0;
          outsize := outsize + 16;
          said := said + reply;
          assert searchRom[..0] == [];
        }
      }
      assert processed[|processed|..] == [] && said + [] == said;
    }

    /** A reply of the part, written into the output buffer. */
    method WriteOut(data: seq<bv8>, out: array<bv8>, at: nat)
      requires at + |data| <= out.Length
      modifies out
      ensures out[..at] == old(out[..at]) && out[at..at + |data|] == data
    {
      for i := 0 to |data|
        invariant out[..at] == old(out[..at]) && out[at..at + i] == data[..i]
      {
        out[at + i] := data[i];
      }
    }

    /** The two branches of ds2480_process_data that use the payload. */
    method Respond(processed: seq<bv8>, out: array<bv8>, at: nat) returns (outsize: nat)
      requires Valid() && out != config && out != searchRom
      requires at + |Deliver(button, Abs(), processed).1| <= out.Length
      modifies this`searchLen, this`dev, searchRom, out
      ensures Valid() && at + outsize <= out.Length && out[..at] == old(out[..at])
      ensures (Abs(), out[at..at + outsize]) == Deliver(button, old(Abs()), processed)
    {
      hide SearchFeed;
      if search {
        outsize := FeedSearch(processed, out, at);
      } else {
        var r := button.process(dev, processed, speed == SPEEDSEL_OD);
        dev := r.0;
        WriteOut(r.1, out, at);
        outsize := |r.1|;
      }
    }

    /** ds2480_process_data: the number of bytes before the one that ended the run. */
    method ProcessData(bytes: seq<bv8>, out: array<bv8>, at: nat) returns (ret: nat, outsize: nat)
      requires Valid() && mode == DATA && out != config && out != searchRom && bytes != []
      requires at + |Decode(button, Abs(), bytes).1| <= out.Length
      modifies this`mode, this`searchLen, this`dev, config, searchRom, out
      ensures Valid() && ret <= |bytes| && at + outsize <= out.Length
      ensures out[..at] == old(out[..at])
      ensures Decodes(button, old(Abs()), bytes, out[at..at + outsize], Abs(), Beyond(bytes, ret))
    {
      hide Unescape, Deliver, Decode, Decodes, Beyond;
      ghost var st0 := Abs();
      DecodesSpan(button, st0, bytes);
      var processed, numCmdBytes, stop := Preprocess(bytes);
      ghost var st1 := Deliver(button, Timed(st0, stop), processed);
      DecodesSize(button, st0, bytes, st1.1, Stopped(st1.0, stop), Beyond(bytes, |processed| + numCmdBytes));
      assert Abs() == Timed(st0, stop);
      outsize := Respond(processed, out, at);
      if stop != EndOfBuffer {
        mode := COMMAND;
      }
      assert Abs() == Stopped(st1.0, stop);
      ret := |processed| + numCmdBytes;
      UnescapeBound(bytes);
    }

    /** One turn of ds2480_process: a run of command bytes or of data bytes. */
    method Turn(rest: seq<bv8>, out: array<bv8>, at: nat, maxOut: nat) returns (ret: int, size: nat)
      requires Valid() && out != config && out != searchRom && rest != []
      requires at + |Decode(button, Abs(), rest).1| < maxOut <= out.Length
      modifies this`mode, this`speed, this`search, this`searchLen, this`dev, config, searchRom, out
      ensures Valid() && ret >= 0 && at + size <= out.Length && out[..at] == old(out[..at])
      ensures Decodes(button, old(Abs()), rest, out[at..at + size], Abs(), Beyond(rest, ret))
    {
      hide Decode, Decodes, Beyond;
      if mode == COMMAND {
        ret, size := ProcessCmd(rest, out, at, maxOut - at);
      } else {
        ret, size := ProcessData(rest, out, at);
      }
    }

    /** ds2480_process: with room for the reply, the simulator is the reference decoder. */
    method Process(bytes: seq<bv8>, out: array<bv8>, maxOut: nat) returns (outsize: nat)
      requires Valid() && out != config && out != searchRom
      requires |Decode(button, Abs(), bytes).1| < maxOut <= out.Length
      modifies this`mode, this`speed, this`search, this`searchLen, this`dev, config, searchRom, out
      ensures Valid() && outsize <= maxOut
      ensures (Abs(), out[..outsize]) == Decode(button, old(Abs()), bytes)
    {
      hide Decode, Decodes, Tail, Beyond;
      ghost var st, said: seq<bv8>, now, tail := Abs(), [], Abs(), bytes;
      DecodesNothing(button, st, bytes);
      TailStart(bytes);
      outsize := 0;
      assert out[..0] == said;
      var i := 0;
      while i < |bytes|
        invariant Valid() && now == Abs() && outsize <= |Decode(button, st, bytes).1| && out[..outsize] == said
        invariant tail == Tail(bytes, i) && Decodes(button, st, bytes, said, now, tail)
        decreases |bytes| - i
      {
        ghost var was := out[..];
        TailFrom(bytes, i);
        DecodesSize(button, st, bytes, said, now, tail);
        var ret, size := Turn(bytes[i..], out, outsize, maxOut);
        ghost var later, more, beyond := Abs(), out[outsize..outsize + size], Beyond(tail, ret);
        DecodesOn(button, st, bytes, said, now, tail, more, later, beyond);
        BeyondTail(bytes, i, ret);
        SliceGrows(was, out[..], outsize, size);
        now, said, tail := later, said + more, beyond;
        outsize := outsize + size;
        i := i + ret;
        i := i + 1;
      }
      TailEnd(bytes, i);
      DecodesAll(button, st, bytes, said, now);
    }
  }

  /** The buffer holds `start` and, behind it, the reply so far. */
  ghost predicate Written(now: seq<bv8>, start: seq<bv8>, said: seq<bv8>) {
    |start| + |said| <= |now| && now[..|start| + |said|] == start + said
  }

  lemma WrittenStart(now: seq<bv8>, at: nat)
    requires at <= |now|
    ensures Written(now, now[..at], [])
  {
    assert now[..at] + [] == now[..at];
  }

  lemma WrittenMore(was: seq<bv8>, now: seq<bv8>, start: seq<bv8>, said: seq<bv8>, more: seq<bv8>)
    requires Written(was, start, said) && |start| + |said| + |more| <= |now|
    requires now[..|start| + |said| + |more|] == was[..|start| + |said|] + more
    ensures Written(now, start, said + more)
  {
    assert (start + said) + more == start + (said + more);
  }

  lemma WrittenKept(was: seq<bv8>, now: seq<bv8>, start: seq<bv8>, said: seq<bv8>)
    requires Written(was, start, said) && |start| + |said| <= |now|
    requires now[..|start| + |said|] == was[..|start| + |said|]
    ensures Written(now, start, said)
  {}

  /** The reply in the output buffer, behind what was there before. */
  lemma SplitReply(now: seq<bv8>, start: seq<bv8>, said: seq<bv8>)
    requires Written(now, start, said)
    ensures now[..|start|] == start && now[|start|..|start| + |said|] == said
  {
    var all := now[..|start| + |said|];
    assert now[..|start|] == all[..|start|] && now[|start|..|start| + |said|] == all[|start|..];
  }

  lemma SliceGrows(was: seq<bv8>, now: seq<bv8>, at: nat, n: nat)
    requires at + n <= |now| == |was| && now[..at] == was[..at]
    ensures now[..at + n] == was[..at] + now[at..at + n]
  {
    assert now[..at + n] == now[..at] + now[at..at + n];
  }

  lemma DecodesNothing<D>(b: Button<D>, st: State<D>, bytes: seq<bv8>)
    requires st.Ok() && |b.rom| == 8
    ensures Decodes(b, st, bytes, [], st, Tail(bytes, 0))
  {
    hide Decode;
    ThenNothing(Decode(b, st, bytes));
    TailStart(bytes);
  }

  /** The reference decoder one byte further in command mode. */
  lemma DecodesNext<D>(b: Button<D>, st: State<D>, bytes: seq<bv8>, i: nat, now: State<D>, said: seq<bv8>)
    requires st.Ok() && now.Ok() && |b.rom| == 8 && now.mode == COMMAND && i < |bytes|
    requires Decodes(b, st, bytes, said, now, Tail(bytes, i))
    ensures var r := Command(b, now, bytes[i]);
            && Decodes(b, st, bytes, said + r.1, r.0, Tail(bytes, i + 1))
            && |said + r.1| <= |Decode(b, st, bytes).1|
            && (if bytes[i] == ModeData() then r.0 == now.(mode := DATA) && said + r.1 == said else r.0.mode == COMMAND)
  {
    hide Decode, Then, Command;
    TailFrom(bytes, i);
    DecodeCommand(b, now, bytes, i);
    assert Tail(bytes, i + 1) == bytes[i + 1..];
    var r := Command(b, now, bytes[i]);
    ThenOn(Decode(b, st, bytes), said, Decode(b, now, bytes[i..]), r.1, Decode(b, r.0, bytes[i + 1..]));
    ModeBytes(b, now, bytes[i]);
  }

  /** Two replies, one after the other. */
  lemma DecodesOn<D>(b: Button<D>, st: State<D>, bytes: seq<bv8>, said: seq<bv8>, now: State<D>, rest: seq<bv8>,
                     more: seq<bv8>, later: State<D>, rest': seq<bv8>)
    requires st.Ok() && now.Ok() && later.Ok() && |b.rom| == 8
    requires Decodes(b, st, bytes, said, now, rest) && Decodes(b, now, rest, more, later, rest')
    ensures Decodes(b, st, bytes, said + more, later, rest')
    ensures |said + more| <= |Decode(b, st, bytes).1|
  {
    hide Decode, Then;
    ThenOn(Decode(b, st, bytes), said, Decode(b, now, rest), more, Decode(b, later, rest'));
  }

  lemma DecodesAll<D>(b: Button<D>, st: State<D>, bytes: seq<bv8>, said: seq<bv8>, now: State<D>)
    requires st.Ok() && now.Ok() && |b.rom| == 8 && Decodes(b, st, bytes, said, now, [])
    ensures Decode(b, st, bytes) == (now, said)
  {
    DecodeNothing(b, now);
    hide Decode;
    ThenEmpty(said, now);
  }

  lemma DecodesSize<D>(b: Button<D>, st: State<D>, bytes: seq<bv8>, said: seq<bv8>, now: State<D>, rest: seq<bv8>)
    requires st.Ok() && now.Ok() && |b.rom| == 8 && Decodes(b, st, bytes, said, now, rest)
    ensures |Decode(b, st, bytes).1| == |said| + |Decode(b, now, rest).1|
  {
    hide Decode;
  }

  /** Where a callee that stopped at index `i` goes on. */
  lemma BeyondIsTail(bytes: seq<bv8>, i: nat)
    requires i <= |bytes|
    ensures Beyond(bytes, i) == Tail(bytes, if i < |bytes| then i + 1 else i)
  {}

  lemma TailStart(bytes: seq<bv8>)
    ensures Tail(bytes, 0) == bytes
  {}

  lemma TailFrom(bytes: seq<bv8>, i: nat)
    requires i < |bytes|
    ensures Tail(bytes, i) == bytes[i..] != []
  {}

  lemma TailEnd(bytes: seq<bv8>, i: nat)
    requires i >= |bytes|
    ensures Tail(bytes, i) == []
  {}

  /** The reply so far and one more turn. */
  lemma ThenOn<D>(all: (State<D>, seq<bv8>), said: seq<bv8>, r: (State<D>, seq<bv8>), more: seq<bv8>,
                  r': (State<D>, seq<bv8>))
    requires all == Then(said, r) && r == Then(more, r')
    ensures all == Then(said + more, r') && |said + more| <= |all.1|
  {
    ThenThen(said, more, r');
  }

  /** The bytes from index `i` on; none if the index has run past the buffer. */
  function Tail(bytes: seq<bv8>, i: nat): seq<bv8> { if i < |bytes| then bytes[i..] else [] }

  lemma BeyondTail(bytes: seq<bv8>, i: nat, ret: nat)
    requires i < |bytes|
    ensures Beyond(bytes[i..], ret) == Tail(bytes, i + ret + 1)
  {}

  lemma ThenEmpty<D>(a: seq<bv8>, st: State<D>)
    ensures Then(a, (st, [])) == (st, a)
  {
    assert a + [] == a;
  }

  lemma DecodeNothing<D>(b: Button<D>, st: State<D>)
    requires st.Ok() && |b.rom| == 8
    ensures Decode(b, st, []) == (st, [])
  {}

  /** One step of the reference decoder in data mode. */
  lemma DecodeData<D>(b: Button<D>, st: State<D>, bytes: seq<bv8>)
    requires st.Ok() && |b.rom| == 8 && st.mode == DATA && bytes != []
    ensures var s := Unescape(bytes);
            var r := Feed(b, st, s);
            Decode(b, st, bytes) == Then(r.1, Decode(b, r.0, Beyond(bytes, s.used)))
  {
    hide Unescape, Feed;
  }

  lemma DecodesSpan<D>(b: Button<D>, st: State<D>, bytes: seq<bv8>)
    requires st.Ok() && |b.rom| == 8 && st.mode == DATA && bytes != []
    ensures var s := Unescape(bytes);
            var r := Feed(b, st, s);
            Decodes(b, st, bytes, r.1, r.0, Beyond(bytes, s.used))
  {
    hide Unescape, Feed, Decode;
    DecodeData(b, st, bytes);
  }

  lemma SearchReplyStart(rom: seq<bv8>)
    requires |rom| == 8
    ensures SearchReply(rom, 0) == seq(16, _ => 0)
  {}

  lemma SearchReplyStep(rom: seq<bv8>, i: nat)
    requires |rom| == 8 && i < 64
    ensures var out := SearchReply(rom, i);
            SearchReply(rom, i + 1)
              == if ByteBit(rom[i / 8], i % 8) then out[i / 4 := SetBit(out[i / 4], i % 4 * 2 + 1)] else out
  {
    hide ByteBit, SetBit;
  }

  /** A span with `data` in front that took `n` more bytes. */
  function Prepend(data: seq<bv8>, n: nat, s: Span): Span { Span(data + s.payload, n + s.used, s.stop) }

  lemma PrependTwice(a: seq<bv8>, m: nat, b: seq<bv8>, n: nat, s: Span)
    ensures Prepend(a, m, Prepend(b, n, s)) == Prepend(a + b, m + n, s)
  {
    assert a + (b + s.payload) == (a + b) + s.payload;
  }

  /** The first step of a data run. */
  lemma UnescapeFirst(bytes: seq<bv8>)
    requires bytes != []
    ensures Unescape(bytes) ==
      if bytes[0] == ModeCommand() then
        if |bytes| > 1 && bytes[1] == ModeCommand() then Prepend([ModeCommand()], 2, Unescape(bytes[2..]))
        else Span([], 0, BackToCommand)
      else if bytes[0] == TimingByte() then Span([], 0, Timing)
      else Prepend([bytes[0]], 1, Unescape(bytes[1..]))
  {
    hide ModeCommand, TimingByte;
  }

  lemma UnescapeStep(bytes: seq<bv8>, i: nat)
    requires i < |bytes|
    ensures Unescape(bytes[i..]) ==
      if bytes[i] == ModeCommand() then
        if i < |bytes| - 1 && bytes[i + 1] == ModeCommand() then Prepend([ModeCommand()], 2, Unescape(bytes[i + 2..]))
        else Span([], 0, BackToCommand)
      else if bytes[i] == TimingByte() then Span([], 0, Timing)
      else Prepend([bytes[i]], 1, Unescape(bytes[i + 1..]))
  {
    var tail := bytes[i..];
    UnescapeFirst(tail);
    hide Unescape, Prepend;
    assert tail[1..] == bytes[i + 1..];
    if |tail| > 1 {
      assert tail[2..] == bytes[i + 2..] && tail[1] == bytes[i + 1];
    }
  }

  lemma ModeBytes<D>(b: Button<D>, st: State<D>, x: bv8)
    requires st.Ok()
    ensures x == ModeData() ==> Command(b, st, x) == (st.(mode := DATA), [])
    ensures x == ModeCommand() ==> Command(b, st, x) == (st, [])
    ensures x != ModeData() ==> Command(b, st, x).0.mode == st.mode
  {}

  // ---------- what the framing means ----------

  /** How the host sends data bytes: E3 is doubled. */
  function Escape(data: seq<bv8>): seq<bv8> {
    if data == [] then []
    else (if data[0] == ModeCommand() then [ModeCommand(), ModeCommand()] else [data[0]]) + Escape(data[1..])
  }

  lemma ModesDiffer()
    ensures ModeCommand() != TimingByte()
  {}

  lemma EscapeCons(x: bv8, p: seq<bv8>)
    ensures Escape([x] + p) == (if x == ModeCommand() then [x, x] else [x]) + Escape(p)
  {
    hide ModeCommand;
    assert ([x] + p)[1..] == p;
  }

  /** One payload byte in front of a run that is accounted for. */
  lemma RunGrows(bytes: seq<bv8>, n: nat, x: bv8, s: Span)
    requires n + s.used <= |bytes| && bytes[..n] == if x == ModeCommand() then [x, x] else [x]
    requires bytes[n..][..s.used] == Escape(s.payload)
    ensures bytes[..n + s.used] == Escape([x] + s.payload)
  {
    hide ModeCommand, Escape;
    EscapeCons(x, s.payload);
    assert bytes[..n + s.used] == bytes[..n] + bytes[n..][..s.used];
  }

  /** Every byte of a data run is accounted for: what was consumed is the payload, escaped. */
  lemma {:induction false} ConsumedIsEscaped(bytes: seq<bv8>)
    ensures var s := Unescape(bytes);
            bytes[..s.used] == Escape(s.payload) && TimingByte() !in s.payload
    decreases |bytes|
  {
    hide ModeCommand, TimingByte, Unescape, Escape;
    if bytes == [] {
      UnescapeNothing();
      EscapeNothing();
    } else {
      assert bytes[0..] == bytes;
      UnescapeStep(bytes, 0);
      if bytes[0] == ModeCommand() && |bytes| > 1 && bytes[1] == ModeCommand() {
        ModesDiffer();
        ConsumedIsEscaped(bytes[2..]);
        UnescapeBound(bytes[2..]);
        assert bytes[..2] == [bytes[0], bytes[1]];
        RunGrows(bytes, 2, bytes[0], Unescape(bytes[2..]));
      } else if bytes[0] != ModeCommand() && bytes[0] != TimingByte() {
        ConsumedIsEscaped(bytes[1..]);
        UnescapeBound(bytes[1..]);
        assert bytes[..1] == [bytes[0]];
        RunGrows(bytes, 1, bytes[0], Unescape(bytes[1..]));
      } else {
        EscapeNothing();
      }
    }
  }

  lemma EscapeNothing()
    ensures Escape([]) == []
  {}

  lemma UnescapeNothing()
    ensures Unescape([]) == Span([], 0, EndOfBuffer)
  {}

  lemma UnescapeBound(bytes: seq<bv8>)
    ensures Unescape(bytes).used <= |bytes|
  {}

  lemma BehindHead(line: seq<bv8>, head: seq<bv8>, rest: seq<bv8>, tail: seq<bv8>)
    requires line == (head + rest) + tail
    ensures |line| >= |head| && line[..|head|] == head && line[|head|..] == rest + tail
  {
    assert line == head + (rest + tail);
  }

  /** How the first data byte lies on the line, and what follows it. */
  lemma EscapedLine(data: seq<bv8>, tail: seq<bv8>)
    requires data != []
    ensures var head := if data[0] == ModeCommand() then [data[0], data[0]] else [data[0]];
            var line := Escape(data) + tail;
            && |Escape(data)| == |head| + |Escape(data[1..])|
            && |line| >= |head| && line[..|head|] == head && line[|head|..] == Escape(data[1..]) + tail
  {
    hide ModeCommand, Escape;
    assert data == [data[0]] + data[1..];
    EscapeCons(data[0], data[1..]);
    var head := if data[0] == ModeCommand() then [data[0], data[0]] else [data[0]];
    BehindHead(Escape(data) + tail, head, Escape(data[1..]), tail);
  }

  lemma PrependIs(n: nat, data: seq<bv8>, used: nat, stop: Stop)
    requires data != []
    ensures Prepend([data[0]], n, Span(data[1..], used, stop)) == Span(data, n + used, stop)
  {
    assert data == [data[0]] + data[1..];
  }

  /** Data without the timing byte gets through unchanged, whatever ends the run. */
  lemma {:induction false} EscapeForth(data: seq<bv8>, tail: seq<bv8>, stop: Stop)
    requires TimingByte() !in data && Unescape(tail) == Span([], 0, stop)
    ensures Unescape(Escape(data) + tail) == Span(data, |Escape(data)|, stop)
    decreases |data|
  {
    hide ModeCommand, TimingByte, Unescape, Escape, Prepend;
    var line := Escape(data) + tail;
    if data == [] {
      EscapeNothing();
      assert line == tail;
    } else {
      assert data[0] in data;
      EscapeForth(data[1..], tail, stop);
      EscapedLine(data, tail);
      assert line[0..] == line;
      UnescapeStep(line, 0);
      PrependIs(if data[0] == ModeCommand() then 2 else 1, data, |Escape(data[1..])|, stop);
    }
  }

  /** What ends a run of data bytes: a single E3, the timing byte, or the end of the buffer. */
  lemma RunEnds(rest: seq<bv8>)
    ensures rest == [] || rest[0] != ModeCommand() ==> Unescape([ModeCommand()] + rest) == Span([], 0, BackToCommand)
    ensures Unescape([TimingByte()] + rest) == Span([], 0, Timing)
    ensures Unescape([]) == Span([], 0, EndOfBuffer)
  {}

  /** The data mode is transparent exactly for data without the timing byte C1. */
  lemma TransparentIff(data: seq<bv8>, rest: seq<bv8>)
    requires rest == [] || rest[0] != ModeCommand()
    ensures Unescape(Escape(data) + ([ModeCommand()] + rest)).payload == data <==> TimingByte() !in data
  {
    hide ModeCommand, TimingByte, Unescape, Escape;
    if TimingByte() !in data {
      RunEnds(rest);
      EscapeForth(data, [ModeCommand()] + rest, BackToCommand);
    } else {
      ConsumedIsEscaped(Escape(data) + ([ModeCommand()] + rest));
    }
  }

  /** The search reply carries the ROM in its odd bits and no discrepancy in its even bits. */
  lemma {:induction false} SearchBits(rom: seq<bv8>, n: nat, i: nat)
    requires |rom| == 8 && n <= 64 && i < 64
    ensures ByteBit(SearchReply(rom, n)[i / 4], i % 4 * 2 + 1) <==> i < n && ByteBit(rom[i / 8], i % 8)
    ensures !ByteBit(SearchReply(rom, n)[i / 4], i % 4 * 2)
    decreases n
  {
    hide ByteBit, SetBit, SearchReply;
    if n > 0 {
      SearchBits(rom, n - 1, i);
      SearchReplyStep(rom, n - 1);
      BitApart(n - 1, i);
      if (n - 1) / 4 == i / 4 {
        BitSetIn(SearchReply(rom, n - 1)[i / 4], (n - 1) % 4 * 2 + 1, i % 4 * 2);
      }
    } else {
      SearchReplyStart(rom);
      NoBits(i % 4 * 2 + 1);
      NoBits(i % 4 * 2);
    }
  }

  /** Setting odd bit `k` of a byte, seen at bits `j` and `j + 1`. */
  lemma BitSetIn(x: bv8, k: nat, j: nat)
    requires k < 8 && j < 7
    ensures ByteBit(SetBit(x, k), j + 1) <==> k == j + 1 || ByteBit(x, j + 1)
    ensures ByteBit(SetBit(x, k), j) <==> k == j || ByteBit(x, j)
  {
    hide ByteBit, SetBit;
    SetByteBit(x, k, j + 1);
    SetByteBit(x, k, j);
  }

  lemma BitApart(k: nat, i: nat)
    ensures k / 4 == i / 4 && k % 4 * 2 + 1 == i % 4 * 2 + 1 <==> k == i
    ensures k % 4 * 2 + 1 != i % 4 * 2
  {}

  lemma DropConcat(x: seq<bv8>, y: seq<bv8>, n: nat)
    requires n <= |x|
    ensures (x + y)[n..] == x[n..] + y
  {}

  lemma {:induction false} UnescapeConcat(x: seq<bv8>, y: seq<bv8>)
    requires Unescape(x).stop != EndOfBuffer
    requires x == [] || Last(x) != ModeCommand() || y == [] || y[0] != ModeCommand()
    ensures Unescape(x + y) == Unescape(x)
    decreases |x|
  {
    hide ModeCommand, TimingByte, Unescape, Prepend, Last;
    UnescapeNothing();
    UnescapeFirst(x);
    UnescapeFirst(x + y);
    var n := if x[0] != ModeCommand() then 1 else 2;
    if n <= |x| {
      DropConcat(x, y, n);
      TailKeepsEnd(x, n, y);
      PrependStop([x[0]], n, Unescape(x[n..]));
      if Unescape(x[n..]).stop != EndOfBuffer {
        UnescapeConcat(x[n..], y);
      }
    } else {
      LastOfOne(x);
    }
  }

  lemma LastOfOne(x: seq<bv8>)
    requires |x| == 1
    ensures Last(x) == x[0]
  {}

  lemma PrependStop(a: seq<bv8>, n: nat, s: Span)
    ensures Prepend(a, n, s).stop == s.stop
  {}

  /**
   * The stream may be cut into buffers wherever the simulator is in command mode, unless the cut
   * separates two E3 bytes.
   */
  lemma {:induction false} DecodeConcat<D>(b: Button<D>, st: State<D>, x: seq<bv8>, y: seq<bv8>)
    requires st.Ok() && |b.rom| == 8 && Decode(b, st, x).0.mode == COMMAND
    requires x == [] || Last(x) != ModeCommand() || y == [] || y[0] != ModeCommand()
    ensures Decode(b, st, x + y) == Then(Decode(b, st, x).1, Decode(b, Decode(b, st, x).0, y))
    decreases |x|
  {
    hide Command, Feed, Unescape, Then, ModeCommand;
    if x == [] {
      assert x + y == y;
      ThenNothing(Decode(b, st, y));
    } else if st.mode == COMMAND {
      var r := Command(b, st, x[0]);
      assert (x + y)[0] == x[0] && (x + y)[1..] == x[1..] + y;
      TailKeepsEnd(x, 1, y);
      ThenKeeps(r.1, Decode(b, r.0, x[1..]));
      DecodeConcat(b, r.0, x[1..], y);
      ThenThen(r.1, Decode(b, r.0, x[1..]).1, Decode(b, Decode(b, r.0, x[1..]).0, y));
    } else {
      var s := Unescape(x);
      var r := Feed(b, st, s);
      if s.stop == EndOfBuffer {
        FeedMode(b, st, s);
        ThenKeeps(r.1, (r.0, []));
        assert false;
      } else {
        UnescapeConcat(x, y);
        UnescapeFits(x);
        assert (x + y)[s.used + 1..] == x[s.used + 1..] + y;
        TailKeepsEnd(x, s.used + 1, y);
        ThenKeeps(r.1, Decode(b, r.0, x[s.used + 1..]));
        DecodeConcat(b, r.0, x[s.used + 1..], y);
        ThenThen(r.1, Decode(b, r.0, x[s.used + 1..]).1, Decode(b, Decode(b, r.0, x[s.used + 1..]).0, y));
      }
    }
  }

  lemma ThenKeeps<D>(a: seq<bv8>, r: (State<D>, seq<bv8>))
    ensures Then(a, r).0 == r.0 && Then(a, r).1 == a + r.1
  {}

  lemma FeedMode<D>(b: Button<D>, st: State<D>, s: Span)
    requires st.Ok() && |b.rom| == 8 && s.stop == EndOfBuffer
    ensures Feed(b, st, s).0.mode == st.mode
  {}

  lemma UnescapeFits(x: seq<bv8>)
    ensures Unescape(x).used <= |x| && (Unescape(x).stop != EndOfBuffer ==> Unescape(x).used < |x|)
  {}

  lemma TailKeepsEnd(x: seq<bv8>, n: nat, y: seq<bv8>)
    requires n <= |x| && (x == [] || Last(x) != ModeCommand() || y == [] || y[0] != ModeCommand())
    ensures x[n..] == [] || Last(x[n..]) != ModeCommand() || y == [] || y[0] != ModeCommand()
  {}
}
