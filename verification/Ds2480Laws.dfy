/** What the command bytes of the DS2480 simulator do, on the bytes themselves, and the streams a host sends first. */
module Ds2480Laws {
  import opened BitMasks
  import opened Bytes
  import opened Ds2480

  // ---------- one command byte ----------

  /** E1 switches to data mode; E3 does nothing in command mode. */
  lemma ModeSwitches<D>(b: Button<D>, st: State<D>)
    requires st.Ok()
    ensures Command(b, st, 0xE1) == (st.(mode := DATA), []) && Command(b, st, 0xE3) == (st, [])
  {}

  /** 100v ss.1: a bit on the line. The byte sets the speed and is echoed without bits 5 and 6. */
  lemma BitCommand<D>(b: Button<D>, st: State<D>, x: bv8)
    requires st.Ok() && x & 0xE1 == 0x81
    ensures Command(b, st, x) == (st.(speed := x & 0x0C), [x & 0x9F])
  {}

  /** 1010 ss.1 and 1011 ss.1: the search accelerator off and on, without a reply. */
  lemma SearchCommand<D>(b: Button<D>, st: State<D>, x: bv8)
    requires st.Ok() && x & 0xE1 == 0xA1
    ensures Command(b, st, x) == (st.(search := x & 0x10 == 0x10, speed := x & 0x0C), [])
  {}

  /** 110. ss.1: a reset pulse on the line, always answered with a presence pulse. */
  lemma ResetCommand<D>(b: Button<D>, st: State<D>, x: bv8)
    requires st.Ok() && x & 0xE1 == 0xC1
    ensures Command(b, st, x) == (st.(dev := b.resetPulse(st.dev), speed := x & 0x0C), [0xCD])
  {}

  /** 111. ...1 other than the mode bytes: only answered. */
  lemma PulseCommand<D>(b: Button<D>, st: State<D>, x: bv8)
    requires st.Ok() && x & 0xE1 == 0xE1 && x != 0xE1 && x != 0xE3
    ensures Command(b, st, x) == (st, [(x & 0x1C) | 0xE0])
  {}

  /** 0ppp vvv1 with a parameter: the value is stored, and both are echoed. */
  lemma ConfigWrite<D>(b: Button<D>, st: State<D>, x: bv8)
    requires st.Ok() && x & 0x81 == 0x01 && x & 0x70 != 0
    ensures Command(b, st, x) == (st.(config := st.config[(x >> 4) as int := x & 0x0E]), [x & 0x7E])
  {}

  /** 0000 ppp1: the parameter's value is the reply. */
  lemma ConfigRead<D>(b: Button<D>, st: State<D>, x: bv8)
    requires st.Ok() && x & 0xF1 == 0x01
    ensures Command(b, st, x) == (st, [st.config[(x >> 1) as int]])
  {}

  /** Every other byte is ignored. */
  lemma NoCommand<D>(b: Button<D>, st: State<D>, x: bv8)
    requires st.Ok() && x & 0x01 == 0x00
    ensures Command(b, st, x) == (st, [])
  {}

  /** The configuration after a master reset: seven parameters have their defaults, the other 249 bytes are AA. */
  lemma MasterReset<D>(dev: D, k: nat)
    requires k < 256
    ensures NewState(dev) == State(COMMAND, 0x00, false, NewState(dev).config, [], dev)
    ensures NewState(dev).config[k]
         == if k == 1 || k == 4 || k == 5 || k == 6 || k == 7 then 0x00 else if k == 2 || k == 3 then 0x08 else 0xAA
  {}

  // ---------- runs of data bytes ----------

  /** Data bytes on the serial line, from command mode back to command mode. */
  function Sent(data: seq<bv8>): seq<bv8> { [ModeData()] + (Escape(data) + [ModeCommand()]) }

  lemma NotEscaped()
    ensures ModeData() != ModeCommand()
  {}

  /** A run of data bytes delivers its payload and ends in command mode. */
  lemma SentDecodes<D>(b: Button<D>, st: State<D>, data: seq<bv8>, rest: seq<bv8>)
    requires st.Ok() && |b.rom| == 8 && st.mode == COMMAND && TimingByte() !in data
    requires rest == [] || rest[0] != ModeCommand()
    ensures var r := Deliver(b, st.(mode := DATA), data);
            Decode(b, st, Sent(data) + rest) == Then(r.1, Decode(b, r.0.(mode := COMMAND), rest))
  {
    hide ModeData, ModeCommand, TimingByte, Escape, Unescape, Command, Deliver, Then, Decode;
    var stream := Sent(data) + rest;
    var span := Escape(data) + ([ModeCommand()] + rest);
    assert stream[0..] == stream && stream[1..] == span;
    ModeBytes(b, st, ModeData());
    DecodeCommand(b, st, stream, 0);
    var st1 := st.(mode := DATA);
    ThenNothing(Decode(b, st1, span));
    DecodeData(b, st1, span);
    RunEnds(rest);
    EscapeForth(data, [ModeCommand()] + rest, BackToCommand);
    var n := |Escape(data)|;
    assert Beyond(span, n) == rest;
  }

  /** The timing byte ends a run of data bytes as well: it is no data, and it resets parameter 7, the baud rate. */
  lemma TimingEnds<D>(b: Button<D>, st: State<D>, data: seq<bv8>, rest: seq<bv8>)
    requires st.Ok() && |b.rom| == 8 && st.mode == DATA && TimingByte() !in data
    ensures var r := Deliver(b, st.(config := st.config[7 := 0x00]), data);
            Decode(b, st, Escape(data) + ([TimingByte()] + rest)) == Then(r.1, Decode(b, r.0.(mode := COMMAND), rest))
  {
    hide TimingByte, Escape, Unescape, Command, Deliver, Then, Decode;
    var span := Escape(data) + ([TimingByte()] + rest);
    RunEnds(rest);
    EscapeForth(data, [TimingByte()] + rest, Timing);
    DecodeData(b, st, span);
    assert Beyond(span, |Escape(data)|) == rest;
  }

  /** Outside search mode the payload goes to the part. */
  lemma DeliverToPart<D>(b: Button<D>, st: State<D>, data: seq<bv8>)
    requires st.Ok() && |b.rom| == 8 && !st.search
    ensures var r := b.process(st.dev, data, st.speed == SPEEDSEL_OD);
            Deliver(b, st, data) == (st.(dev := r.0), r.1)
  {}

  /** Bytes without E3 go over the line as they are. */
  lemma {:induction false} EscapeSame(data: seq<bv8>)
    requires 0xE3 !in data
    ensures Escape(data) == data
  {
    if data != [] {
      assert data[0] in data;
      EscapeSame(data[1..]);
    }
  }

  /** The stream for a run of data bytes that need no escape. */
  lemma SentIs(data: seq<bv8>)
    requires 0xE3 !in data
    ensures Sent(data) == [0xE1] + data + [0xE3]
  {
    EscapeSame(data);
  }

  /** One byte of command mode in front of a stream. */
  lemma CommandFirst<D>(b: Button<D>, st: State<D>, x: bv8, rest: seq<bv8>)
    requires st.Ok() && |b.rom| == 8 && st.mode == COMMAND
    ensures Decode(b, st, [x] + rest) == Then(Command(b, st, x).1, Decode(b, Command(b, st, x).0, rest))
  {
    hide Command, Decode, Then;
    var line := [x] + rest;
    DecodeCommand(b, st, line, 0);
    assert line[0..] == line && line[1..] == rest;
  }

  /** A stream of one byte. */
  lemma CommandLast<D>(b: Button<D>, st: State<D>, x: bv8)
    requires st.Ok() && |b.rom| == 8 && st.mode == COMMAND
    ensures Decode(b, st, [x]) == Command(b, st, x)
  {
    hide Command, Decode;
    CommandFirst(b, st, x, []);
    assert [x] + [] == [x];
    DecodeNothing(b, Command(b, st, x).0);
    ThenEmpty(Command(b, st, x).1, Command(b, st, x).0);
  }

  // ---------- the streams a host sends ----------

  /** Sixteen bytes in search mode, from an empty search buffer on, are answered with the ROM. */
  lemma {:induction false} SixteenBytes(rom: seq<bv8>, buf: seq<bv8>, payload: seq<bv8>)
    requires |rom| == 8 && payload != [] && |buf| + |payload| == 16
    ensures SearchFeed(rom, buf, payload) == ([], SearchReply(rom, 64))
    decreases |payload|
  {
    hide SearchReply;
    if |payload| > 1 {
      SixteenBytes(rom, buf + [payload[0]], payload[1..]);
    } else {
      assert SearchReply(rom, 64) + [] == SearchReply(rom, 64);
    }
  }

  /**
   * The search accelerator: B1, E1, sixteen bytes, E3, A1. The reply is the ROM in the odd bits of sixteen bytes; the
   * part does not notice, and searching is off again.
   */
  lemma SearchAccelerator<D>(b: Button<D>, st: State<D>, data: seq<bv8>)
    requires st.Ok() && |b.rom| == 8 && st.mode == COMMAND && st.searchRom == []
    requires |data| == 16 && 0xE3 !in data && 0xC1 !in data
    ensures Decode(b, st, [0xB1, 0xE1] + data + [0xE3, 0xA1])
         == (st.(search := false, speed := 0x00), SearchReply(b.rom, 64))
  {
    hide Command, Decode, Then, Deliver, SearchReply, Sent;
    var on := st.(search := true, speed := 0x00);
    SentIs(data);
    Bytes480();
    assert [0xB1, 0xE1] + data + [0xE3, 0xA1] == [0xB1] + (Sent(data) + [0xA1]);
    CommandFirst(b, st, 0xB1, Sent(data) + [0xA1]);
    SearchCommand(b, st, 0xB1);
    SentDecodes(b, on, data, [0xA1]);
    DeliverToSearch(b, on.(mode := DATA), data);
    CommandLast(b, on, 0xA1);
    SearchCommand(b, on, 0xA1);
    ThenEmpty(SearchReply(b.rom, 64), on.(search := false));
    ThenNothing(Then(SearchReply(b.rom, 64), (on.(search := false), [])));
  }

  lemma Bytes480()
    ensures TimingByte() == 0xC1 && ModeCommand() == 0xE3 && ModeData() == 0xE1
  {}

  lemma DeliverToSearch<D>(b: Button<D>, st: State<D>, data: seq<bv8>)
    requires st.Ok() && |b.rom| == 8 && st.search && st.searchRom == [] && |data| == 16
    ensures Deliver(b, st, data) == (st, SearchReply(b.rom, 64))
  {
    hide SearchReply, SearchFeed;
    SixteenBytes(b.rom, [], data);
  }

  /** The detection stream C1 17 45 5B 0F 91: a reset, three parameters set, the baud rate read, and a bit. */
  lemma Detection<D>(b: Button<D>, st: State<D>)
    requires st.Ok() && |b.rom| == 8 && st.mode == COMMAND
    ensures var config := st.config[1 := 0x06][4 := 0x04][5 := 0x0A];
            Decode(b, st, [0xC1, 0x17, 0x45, 0x5B, 0x0F, 0x91])
            == (st.(dev := b.resetPulse(st.dev), speed := 0x00, config := config),
                [0xCD, 0x16, 0x44, 0x5A, st.config[7], 0x91])
  {
    hide Command, Decode, Then;
    DetectionBytes();
    var st1 := st.(dev := b.resetPulse(st.dev), speed := 0x00);
    var st2 := st1.(config := st.config[1 := 0x06]);
    var st3 := st1.(config := st.config[1 := 0x06][4 := 0x04]);
    var st4 := st1.(config := st.config[1 := 0x06][4 := 0x04][5 := 0x0A]);
    var x := st.config[7];
    BitCommand(b, st4, 0x91);
    CommandLast(b, st4, 0x91);
    ConfigRead(b, st4, 0x0F);
    CommandStep(b, st4, [0x0F, 0x91], [0x91], st4, [x]);
    ConfigWrite(b, st3, 0x5B);
    CommandStep(b, st3, [0x5B, 0x0F, 0x91], [0x0F, 0x91], st4, [0x5A]);
    ConfigWrite(b, st2, 0x45);
    CommandStep(b, st2, [0x45, 0x5B, 0x0F, 0x91], [0x5B, 0x0F, 0x91], st3, [0x44]);
    ConfigWrite(b, st1, 0x17);
    CommandStep(b, st1, [0x17, 0x45, 0x5B, 0x0F, 0x91], [0x45, 0x5B, 0x0F, 0x91], st2, [0x16]);
    ResetCommand(b, st, 0xC1);
    CommandStep(b, st, [0xC1, 0x17, 0x45, 0x5B, 0x0F, 0x91], [0x17, 0x45, 0x5B, 0x0F, 0x91], st1, [0xCD]);
    ReplySix(st4, x);
  }

  /** One byte of command mode with a known effect in front of a stream. */
  lemma CommandStep<D>(b: Button<D>, st: State<D>, line: seq<bv8>, rest: seq<bv8>, st': State<D>, out: seq<bv8>)
    requires st.Ok() && st'.Ok() && |b.rom| == 8 && st.mode == COMMAND
    requires line != [] && line[1..] == rest && Command(b, st, line[0]) == (st', out)
    ensures Decode(b, st, line) == Then(out, Decode(b, st', rest))
  {
    hide Command, Decode, Then;
    assert line == [line[0]] + rest;
    CommandFirst(b, st, line[0], rest);
  }

  lemma DetectionBytes()
    ensures (0x17 as bv8 >> 4) as int == 1 && 0x17 as bv8 & 0x0E == 0x06 && 0x17 as bv8 & 0x7E == 0x16
    ensures (0x45 as bv8 >> 4) as int == 4 && 0x45 as bv8 & 0x0E == 0x04 && 0x45 as bv8 & 0x7E == 0x44
    ensures (0x5B as bv8 >> 4) as int == 5 && 0x5B as bv8 & 0x0E == 0x0A && 0x5B as bv8 & 0x7E == 0x5A
    ensures (0x0F as bv8 >> 1) as int == 7 && 0x91 as bv8 & 0x9F == 0x91 && 0x91 as bv8 & 0x0C == 0x00
  {}

  lemma ReplySix<D>(st: State<D>, x: bv8)
    ensures Then([0xCD], Then([0x16], Then([0x44], Then([0x5A], Then([x], (st, [0x91]))))))
         == (st, [0xCD, 0x16, 0x44, 0x5A, x, 0x91])
  {
    assert [x] + [0x91] == [x, 0x91];
    assert [0x5A] + [x, 0x91] == [0x5A, x, 0x91];
    assert [0x44] + [0x5A, x, 0x91] == [0x44, 0x5A, x, 0x91];
    assert [0x16] + [0x44, 0x5A, x, 0x91] == [0x16, 0x44, 0x5A, x, 0x91];
    assert [0xCD] + [0x16, 0x44, 0x5A, x, 0x91] == [0xCD, 0x16, 0x44, 0x5A, x, 0x91];
  }

  /** A parameter that was set is read back: the two bytes name the same parameter. */
  lemma ParameterTrip<D>(b: Button<D>, st: State<D>, w: bv8, r: bv8)
    requires st.Ok() && |b.rom| == 8 && st.mode == COMMAND
    requires w & 0x81 == 0x01 && w & 0x70 != 0 && r & 0xF1 == 0x01 && r >> 1 == w >> 4
    ensures Decode(b, st, [w, r])
         == (st.(config := st.config[(w >> 4) as int := w & 0x0E]), [w & 0x7E, w & 0x0E])
  {
    hide Command, Decode, Then;
    assert [w, r] == [w] + [r];
    CommandFirst(b, st, w, [r]);
    ConfigWrite(b, st, w);
    var st1 := st.(config := st.config[(w >> 4) as int := w & 0x0E]);
    CommandLast(b, st1, r);
    ConfigRead(b, st1, r);
    ReplyTwo(st1, w & 0x7E, w & 0x0E);
  }

  lemma ReplyTwo<D>(st: State<D>, x: bv8, y: bv8)
    ensures Then([x], (st, [y])) == (st, [x, y])
  {
    assert [x] + [y] == [x, y];
  }

  /** Overdrive: the data behind a reset goes to the part in overdrive exactly if bits 2 and 3 of the reset are 10. */
  lemma ResetAndData<D>(b: Button<D>, st: State<D>, x: bv8, data: seq<bv8>)
    requires st.Ok() && |b.rom| == 8 && st.mode == COMMAND && !st.search && x & 0xE1 == 0xC1
    requires 0xE3 !in data && 0xC1 !in data
    ensures var r := b.process(b.resetPulse(st.dev), data, x & 0x0C == 0x08);
            Decode(b, st, [x, 0xE1] + data + [0xE3]) == (st.(dev := r.0, speed := x & 0x0C), [0xCD] + r.1)
  {
    hide Command, Decode, Then, Deliver, Sent;
    var st1 := st.(dev := b.resetPulse(st.dev), speed := x & 0x0C);
    var r := b.process(st1.dev, data, x & 0x0C == 0x08);
    SentIs(data);
    Bytes480();
    assert [x, 0xE1] + data + [0xE3] == [x] + (Sent(data) + []);
    CommandFirst(b, st, x, Sent(data) + []);
    ResetCommand(b, st, x);
    SentDecodes(b, st1, data, []);
    DeliverToPart(b, st1.(mode := DATA), data);
    var st2 := st1.(dev := r.0);
    DecodeNothing(b, st2);
    ThenEmpty(r.1, st2);
    ThenReply(st2, [0xCD], r.1);
  }

  lemma ThenReply<D>(st: State<D>, x: seq<bv8>, y: seq<bv8>)
    ensures Then(x, (st, y)) == (st, x + y)
  {}
}
