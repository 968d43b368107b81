/** The two simulators together: DS1963S memory commands sent through the DS2480 serial line. */
module SerialLink {
  import opened Bytes
  import Crc16
  import opened Ds1963s
  import opened Ds1963sLaws
  import opened Ds2480
  import opened Ds2480Laws

  /** The DS1963S as the DS2480 sees it; a run of data bytes that is no whole command is outside this model. */
  function Part(h: Hashes, rom: seq<bv8>): (b: Button<Device>) {
    Button((d: Device, c: seq<bv8>, _) =>
             if d.Ok() && |rom| == 8 && Whole(d, rom, c, []) then Exchange(h, rom, d, c, []) else (d, []),
           (d: Device) => d.(cmdState := CMD_ROM), rom)
  }

  function ResetByte(): bv8 { 0xC1 }

  function SkipByte(): bv8 { 0xCC }

  function Pulse(): bv8 { 0xCD }

  /** What a host sends to run one memory command: reset, skip ROM, the command. */
  function Session(c: seq<bv8>): seq<bv8> { [ResetByte()] + (Sent([SkipByte()]) + Sent(c)) }

  lemma ResetByteIs()
    ensures ResetByte() == 0xC1 && Pulse() == 0xCD && ResetByte() & 0xE1 == 0xC1 && ResetByte() & 0x0C == 0
  {}

  lemma SkipCommand()
    ensures RomCommandOf(SkipByte()) == SkipRom && SkipByte() != TimingByte()
  {}

  /** One session runs its memory command on the part and returns its reply behind a pulse and an echo. */
  lemma SessionDecodes(h: Hashes, rom: seq<bv8>, st: State<Device>, c: seq<bv8>)
    requires st.Ok() && |rom| == 8 && st.mode == COMMAND && !st.search && st.dev.Ok()
    requires TimingByte() !in c && WholeMemory(c) && InRange(st.dev, c)
    ensures var d := st.dev.(cmdState := CMD_MEMORY);
            InRange(d, c) && Decode(Part(h, rom), st, Session(c))
            == (st.(dev := Memory(h, d, c).0, speed := 0), [Pulse(), SkipByte()] + Memory(h, d, c).1)
  {
    hide ModeData, ModeCommand, TimingByte, Escape, Unescape, Command, Deliver, Then, Decode, Sent, Session, Part,
         ResetByte, SkipByte, Pulse,
         Memory, WholeMemory, InRange, RomCommandOf;
    InRangeAlways(st.dev, c);
    var d := st.dev.(cmdState := CMD_MEMORY);
    var b := Part(h, rom);
    PartFacts(h, rom, st.dev, d, c);
    var st1 := st.(dev := st.dev.(cmdState := CMD_ROM), speed := 0);
    var line, second := Session(c), Sent(c);
    SessionParts(c);
    assert line[0..] == line;
    DecodeCommand(b, st, line, 0);
    ResetByteIs();
    ResetCommand(b, st, ResetByte());
    SkipCommand();
    NotEscaped();
    SentDecodes(b, st1, [SkipByte()], second);
    DeliverToPart(b, st1.(mode := DATA), [SkipByte()]);
    var st2 := st1.(dev := d);
    assert second + [] == second;
    SentDecodes(b, st2, c, []);
    DeliverToPart(b, st2.(mode := DATA), c);
    var r := Memory(h, d, c);
    var st3 := st2.(dev := r.0);
    DecodeNothing(b, st3);
    ThenEmpty(r.1, st3);
    ThenThen([SkipByte()], r.1, (st3, []));
    ThenEmpty([SkipByte()] + r.1, st3);
    ThenThen([Pulse()], [SkipByte()] + r.1, (st3, []));
    assert [Pulse()] + ([SkipByte()] + r.1) == [Pulse(), SkipByte()] + r.1;
    ThenEmpty([Pulse()] + ([SkipByte()] + r.1), st3);
  }

  lemma SessionParts(c: seq<bv8>)
    ensures var line := Session(c);
            && line != [] && line[0] == ResetByte() && line[1..] == Sent([SkipByte()]) + Sent(c)
            && Sent(c) != [] && Sent(c)[0] == ModeData()
  {
    hide ResetByte, SkipByte, ModeData, ModeCommand, Escape;
  }

  lemma PartFacts(h: Hashes, rom: seq<bv8>, d: Device, dm: Device, c: seq<bv8>)
    requires d.Ok() && |rom| == 8 && dm == d.(cmdState := CMD_MEMORY) && WholeMemory(c) && InRange(dm, c)
    ensures var b := Part(h, rom);
            && |b.rom| == 8 && b.resetPulse(d) == d.(cmdState := CMD_ROM)
            && (forall od :: b.process(d.(cmdState := CMD_ROM), [SkipByte()], od) == (dm, [SkipByte()]))
            && forall od :: b.process(dm, c, od) == Memory(h, dm, c)
  {
    assert c != [];
    hide SkipByte, WholeMemory, InRange, Memory, RomCommandOf;
    SkipCommand();
    var dr, skip := d.(cmdState := CMD_ROM), [SkipByte()];
    assert RomReply(rom, skip) == skip && Whole(dr, rom, skip, []) && Exchange(h, rom, dr, skip, []) == (dm, skip);
    assert dm.Ok() && Whole(dm, rom, c, []) && Exchange(h, rom, dm, c, []) == Memory(h, dm, c);
  }

  // ---------- any number of sessions ----------

  function Script(cs: seq<seq<bv8>>): seq<bv8> {
    if cs == [] then [] else Session(cs[0]) + Script(cs[1..])
  }

  /** Whole commands that fit the data memory and have no timing byte. */
  ghost predicate Servable(h: Hashes, d: Device, cs: seq<seq<bv8>>)
    requires d.Ok()
    decreases |cs|
  {
    cs == []
    || (var d1 := d.(cmdState := CMD_MEMORY);
        && TimingByte() !in cs[0] && WholeMemory(cs[0]) && InRange(d1, cs[0])
        && Servable(h, Memory(h, d1, cs[0]).0, cs[1..]))
  }

  /** What the part alone makes of the commands. */
  function Served(h: Hashes, d: Device, cs: seq<seq<bv8>>): (r: (Device, seq<bv8>))
    requires d.Ok() && Servable(h, d, cs)
    ensures r.0.Ok()
    decreases |cs|
  {
    if cs == [] then (d, [])
    else
      var one := Memory(h, d.(cmdState := CMD_MEMORY), cs[0]);
      var rest := Served(h, one.0, cs[1..]);
      (rest.0, ([Pulse(), SkipByte()] + one.1) + rest.1)
  }

  /** Through the serial line, a list of commands does what it does on the part itself. */
  lemma {:induction false} ScriptDecodes(h: Hashes, rom: seq<bv8>, st: State<Device>, cs: seq<seq<bv8>>)
    requires st.Ok() && |rom| == 8 && st.mode == COMMAND && !st.search && st.dev.Ok() && Servable(h, st.dev, cs)
    ensures var r := Served(h, st.dev, cs);
            Decode(Part(h, rom), st, Script(cs)) == (st.(dev := r.0, speed := if cs == [] then st.speed else 0), r.1)
    decreases |cs|
  {
    hide ModeCommand, TimingByte, Decode, Then, Session, Part, Pulse, SkipByte, Memory, WholeMemory, InRange;
    var b := Part(h, rom);
    PartRom(h, rom);
    if cs == [] {
      DecodeNothing(b, st);
    } else {
      var c, rest := cs[0], Script(cs[1..]);
      InRangeBack(st.dev, c);
      SessionDecodes(h, rom, st, c);
      var one := Memory(h, st.dev.(cmdState := CMD_MEMORY), c);
      var st1 := st.(dev := one.0, speed := 0);
      ScriptDecodes(h, rom, st1, cs[1..]);
      ScriptStart(cs[1..]);
      DecodeConcat(b, st, Session(c), rest);
      ThenEmptyPair([Pulse(), SkipByte()] + one.1, Decode(b, st1, rest));
    }
  }

  lemma PartRom(h: Hashes, rom: seq<bv8>)
    ensures Part(h, rom).rom == rom
  {}

  lemma InRangeBack(d: Device, c: seq<bv8>)
    requires InRange(d.(cmdState := CMD_MEMORY), c)
    ensures InRange(d, c)
  {
    InRangeAlways(d, c);
  }

  lemma ThenEmptyPair<D>(a: seq<bv8>, r: (State<D>, seq<bv8>))
    ensures Then(a, r) == (r.0, a + r.1)
  {}

  lemma ScriptStart(cs: seq<seq<bv8>>)
    ensures Script(cs) == [] || Script(cs)[0] != ModeCommand()
  {
    if cs != [] {
      SessionParts(cs[0]);
    }
  }

  // ---------- any number of buffers ----------

  function Joined(parts: seq<seq<bv8>>): seq<bv8> { if parts == [] then [] else parts[0] + Joined(parts[1..]) }

  /** Each buffer ends in command mode, and not between two E3 bytes. */
  ghost predicate Cut<D>(b: Button<D>, st: State<D>, parts: seq<seq<bv8>>)
    requires st.Ok() && |b.rom| == 8
    decreases |parts|
  {
    parts == []
    || (var x, y := parts[0], Joined(parts[1..]);
        && Decode(b, st, x).0.mode == COMMAND
        && (x == [] || Last(x) != ModeCommand() || y == [] || y[0] != ModeCommand())
        && Cut(b, Decode(b, st, x).0, parts[1..]))
  }

  /** The decoder on one buffer after the other. */
  function DecodeParts<D>(b: Button<D>, st: State<D>, parts: seq<seq<bv8>>): (r: (State<D>, seq<bv8>))
    requires st.Ok() && |b.rom| == 8
    ensures r.0.Ok()
    decreases |parts|
  {
    if parts == [] then (st, [])
    else
      var r := Decode(b, st, parts[0]);
      Then(r.1, DecodeParts(b, r.0, parts[1..]))
  }

  /** However the stream is cut, it decodes as a whole. */
  lemma {:induction false} PartsDecode<D>(b: Button<D>, st: State<D>, parts: seq<seq<bv8>>)
    requires st.Ok() && |b.rom| == 8 && Cut(b, st, parts)
    ensures DecodeParts(b, st, parts) == Decode(b, st, Joined(parts))
    decreases |parts|
  {
    hide Decode, ModeCommand, Then;
    if parts == [] {
      DecodeNothing(b, st);
    } else {
      var r := Decode(b, st, parts[0]);
      PartsDecode(b, r.0, parts[1..]);
      DecodeConcat(b, st, parts[0], Joined(parts[1..]));
    }
  }

  /** From two new simulators on, the host sees what the new part answers. */
  lemma NewLinkServes(h: Hashes, rom: seq<bv8>, cs: seq<seq<bv8>>, parts: seq<seq<bv8>>)
    requires |rom| == 8 && Servable(h, Initial(), cs)
    requires Joined(parts) == Script(cs) && Cut(Part(h, rom), NewState(Initial()), parts)
    ensures DecodeParts(Part(h, rom), NewState(Initial()), parts).1 == Served(h, Initial(), cs).1
  {
    hide Part, Script, Decode, DecodeParts, Served;
    PartRom(h, rom);
    PartsDecode(Part(h, rom), NewState(Initial()), parts);
    ScriptDecodes(h, rom, NewState(Initial()), cs);
  }

  /**
   * A host that writes the scratchpad and reads it back over the serial line, with the stream cut into
   * buffers wherever the decoder allows, sees the bytes it wrote, their address and a good CRC.
   */
  lemma SerialRoundTrip(h: Hashes, rom: seq<bv8>, st: State<Device>, w: seq<bv8>, r: seq<bv8>, parts: seq<seq<bv8>>)
    requires st.Ok() && |rom| == 8 && st.mode == COMMAND && !st.search && st.dev.Ok() && !st.dev.hidden
    requires WritesScratchpad(w) && ReadsScratchpad(r) && Servable(h, st.dev, [w, r])
    requires Joined(parts) == Script([w, r]) && Cut(Part(h, rom), st, parts)
    ensures var off, out := Offset(w[1]), DecodeParts(Part(h, rom), st, parts).1;
            && |out| == 4 + |w| + |r|
            && var reply := out[4 + |w|..];
               && reply[1..4] == [w[1], w[2], 0x1F] && reply[4..36 - off] == w[3..35 - off]
               && Crc16.Crc(0, reply[..38]) == 0xB001
  {
    hide Decode, DecodeParts, Part, Memory, WholeMemory, InRange, Offset, MemoryCommandOf, Address, Script, Crc16.Crc;
    PartRom(h, rom);
    PartsDecode(Part(h, rom), st, parts);
    ScriptDecodes(h, rom, st, [w, r]);
    var dw := st.dev.(cmdState := CMD_MEMORY);
    var one := Memory(h, dw, w);
    var d1 := one.0.(cmdState := CMD_MEMORY);
    TwoServed(h, st.dev, w, r);
    WriteReplies(h, dw, w);
    WriteThenRead(h, dw, w, d1, r);
  }

  /** The replies to two commands, each behind a pulse and an echo. */
  lemma TwoServed(h: Hashes, d: Device, w: seq<bv8>, r: seq<bv8>)
    requires d.Ok() && WritesScratchpad(w) && Servable(h, d, [w, r])
    ensures InRange(d.(cmdState := CMD_MEMORY), w)
    ensures var one := Memory(h, d.(cmdState := CMD_MEMORY), w);
            var d1 := one.0.(cmdState := CMD_MEMORY);
            && WholeMemory(r) && InRange(d1, r) && |one.1| == |w|
            && var out := Served(h, d, [w, r]).1;
               |out| == 4 + |w| + |Memory(h, d1, r).1| && out[4 + |w|..] == Memory(h, d1, r).1
  {
    hide Memory, WholeMemory, InRange, Pulse, SkipByte;
    assert [w, r][1..] == [r] && [r][1..] == [];
    var one := Memory(h, d.(cmdState := CMD_MEMORY), w);
    var two := Memory(h, one.0.(cmdState := CMD_MEMORY), r);
    WriteReplies(h, d.(cmdState := CMD_MEMORY), w);
    assert Served(h, two.0, []) == (two.0, []);
    assert Served(h, one.0, [r]).1 == ([Pulse(), SkipByte()] + two.1) + [];
    assert Served(h, d, [w, r]).1 == ([Pulse(), SkipByte()] + one.1) + Served(h, one.0, [r]).1;
  }

  lemma WriteReplies(h: Hashes, d: Device, w: seq<bv8>)
    requires d.Ok() && WritesScratchpad(w) && InRange(d, w)
    ensures |Memory(h, d, w).1| == |w|
  {
    hide MemoryCommandOf, Address, WholeMemory, InRange;
  }
}
