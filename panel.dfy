/** The panel bus: three lines (DIN, CLK, CS) written one level at a time.
    A routine's output is the sequence of line writes it performs; a small
    receiver model (the cascaded shift registers) gives those writes their
    meaning: a bit is taken from DIN on every low-to-high edge of CLK while
    CS is held low. */
module Panel {

  /** An unsigned 8-bit value (uint8_t). */
  type byte = x: int | 0 <= x < 256

  datatype Line = Din | Clk | Cs

  /** One FAST_GPIO_WRITE (or digitalWrite) of a level to a line. */
  datatype Event = Write(line: Line, high: bool)

  /** `d >> j`, one halving at a time. */
  function Shr(d: nat, j: nat): nat
  {
    if j == 0 then d else Shr(d, j - 1) / 2
  }

  /** Bit j of d (bit 0 is the least significant one). */
  predicate Bit(d: nat, j: nat)
  {
    Shr(d, j) % 2 == 1
  }

  /** The eight bits of a byte, most significant first. */
  function MsbBits(d: byte): (bits: seq<bool>)
    ensures |bits| == 8
  {
    seq(8, i requires 0 <= i < 8 => Bit(d, 7 - i))
  }

  /** `data << 1` on a uint8_t, applied i times: the high bits fall off. */
  function ShlByte(d: byte, i: nat): byte
  {
    if i == 0 then d else (2 * ShlByte(d, i - 1)) % 256
  }

  /** The value a shift register holds after clocking in `bits`, first bit
      first (each new bit enters at the low end). */
  function Receive(bits: seq<bool>): nat
  {
    if bits == [] then 0
    else 2 * Receive(bits[..|bits| - 1]) + (if bits[|bits| - 1] then 1 else 0)
  }

  /** One clock pulse carrying bit b: CLK low, DIN := b, CLK high. */
  function Pulse(b: bool): seq<Event>
  {
    [Write(Clk, false), Write(Din, b), Write(Clk, true)]
  }

  /** No write in `events` touches CS. */
  ghost predicate NoCs(events: seq<Event>)
  {
    forall i :: 0 <= i < |events| ==> events[i].line != Cs
  }

  /** One pulse per bit, in order. */
  function Pulses(bits: seq<bool>): (r: seq<Event>)
    ensures |r| == 3 * |bits|
  {
    if bits == [] then []
    else Pulses(bits[..|bits| - 1]) + Pulse(bits[|bits| - 1])
  }

  /** A run of pulses never touches CS. */
  lemma {:induction false} PulsesNoCs(bits: seq<bool>)
    ensures NoCs(Pulses(bits))
  {
    if bits != [] {
      var init := bits[..|bits| - 1];
      PulsesNoCs(init);
      NoCsAppend(Pulses(init), Pulse(bits[|bits| - 1]));
    }
  }

  /** Pulse i of the stream sits at positions 3i, 3i + 1, 3i + 2. */
  lemma {:induction false} PulsesLayout(bits: seq<bool>)
    ensures forall i :: 0 <= i < |bits| ==>
      Pulses(bits)[3 * i] == Write(Clk, false) && Pulses(bits)[3 * i + 1] == Write(Din, bits[i]) && Pulses(bits)[3 * i + 2] == Write(Clk, true)
  {
    if bits != [] {
      PulsesLayout(bits[..|bits| - 1]);
    }
  }

  /** Regrouping an appended stream of four parts. */
  lemma Regroup4(a: seq<Event>, b: seq<Event>, c: seq<Event>, d: seq<Event>)
    ensures ((a + b) + c) + d == a + ((b + c) + d)
  {
  }

  /** Widening a window of bits by one adds that bit's pulse at the end. */
  lemma PulsesExtend(bits: seq<bool>, lo: int, hi: int)
    requires 0 <= lo <= hi < |bits|
    ensures Pulses(bits[lo..hi + 1]) == Pulses(bits[lo..hi]) + Pulse(bits[hi])
  {
    var w := bits[lo..hi + 1];
    assert w[..|w| - 1] == bits[lo..hi];
  }

  /** What matrix_shift(d) writes (leddriver.cpp:19-27). */
  function ShiftEvents(d: byte): (r: seq<Event>)
    ensures |r| == 24
  {
    Pulses(MsbBits(d))
  }

  /** matrix_shift sends bit 7 - i of d on the i-th of its 8 pulses. */
  lemma ShiftEventsLayout(d: byte)
    ensures forall i :: 0 <= i < 8 ==>
      ShiftEvents(d)[3 * i] == Write(Clk, false) && ShiftEvents(d)[3 * i + 1] == Write(Din, Bit(d, 7 - i))
      && ShiftEvents(d)[3 * i + 2] == Write(Clk, true)
  {
    PulsesLayout(MsbBits(d));
  }

  /** `body` between a CS-low and a CS-high write. */
  function Bracket(body: seq<Event>): seq<Event>
  {
    [Write(Cs, false)] + body + [Write(Cs, true)]
  }

  /** What matrix_cmd(cmd, data) writes (leddriver.cpp:34-40). */
  function CmdEvents(cmd: byte, data: byte): seq<Event>
  {
    Bracket(ShiftEvents(cmd) + ShiftEvents(data))
  }

  // ----- the receiving side -----

  /** The levels of the three lines. */
  datatype Lines = Lines(din: bool, clk: bool, cs: bool)

  /** The levels led_init leaves the lines in: DIN low, CS high, CLK low. */
  const Idle := Lines(false, false, true)

  function Apply(s: Lines, e: Event): Lines
  {
    match e.line
    case Din => s.(din := e.high)
    case Clk => s.(clk := e.high)
    case Cs => s.(cs := e.high)
  }

  /** The line levels after `events`. */
  function After(events: seq<Event>, s: Lines): Lines
    decreases |events|
  {
    if events == [] then s else After(events[1..], Apply(s, events[0]))
  }

  /** True when e, applied in state s, is a rising CLK edge while CS is low. */
  predicate Samples(s: Lines, e: Event)
  {
    e == Write(Clk, true) && !s.clk && !s.cs
  }

  /** The bits the driver chips shift in during `events`: DIN at every rising
      CLK edge while CS is low. */
  function Clocked(events: seq<Event>, s: Lines): seq<bool>
    decreases |events|
  {
    if events == [] then []
    else (if Samples(s, events[0]) then [s.din] else []) + Clocked(events[1..], Apply(s, events[0]))
  }

  /** The number of low-to-high CS edges (commits) during `events`. */
  function Commits(events: seq<Event>, s: Lines): nat
    decreases |events|
  {
    if events == [] then 0
    else (if events[0] == Write(Cs, true) && !s.cs then 1 else 0) + Commits(events[1..], Apply(s, events[0]))
  }

  lemma {:induction false} ClockedAppend(a: seq<Event>, b: seq<Event>, s: Lines)
    ensures Clocked(a + b, s) == Clocked(a, s) + Clocked(b, After(a, s))
    ensures After(a + b, s) == After(b, After(a, s))
    ensures Commits(a + b, s) == Commits(a, s) + Commits(b, After(a, s))
    decreases |a|
  {
    if a != [] {
      assert (a + b)[0] == a[0];
      assert (a + b)[1..] == a[1..] + b;
      ClockedAppend(a[1..], b, Apply(s, a[0]));
    } else {
      assert a + b == b;
    }
  }

  /** Writes that do not touch CS leave its level alone and commit nothing. */
  lemma {:induction false} NoCsKeepsCs(events: seq<Event>, s: Lines)
    requires NoCs(events)
    ensures After(events, s).cs == s.cs
    ensures Commits(events, s) == 0
    decreases |events|
  {
    if events != [] {
      assert NoCs(events[1..]) by {
        forall i | 0 <= i < |events[1..]| ensures events[1..][i].line != Cs {
          assert events[1..][i] == events[i + 1];
        }
      }
      NoCsKeepsCs(events[1..], Apply(s, events[0]));
    }
  }

  /** A single pulse delivers its bit to a selected chip, whatever the
      line levels before it. */
  lemma PulseClocked(b: bool, s: Lines)
    requires !s.cs
    ensures Clocked(Pulse(b), s) == [b]
    ensures After(Pulse(b), s) == Lines(b, true, s.cs)
  {
    var p := Pulse(b);
    var s1 := Apply(s, p[0]);
    var s2 := Apply(s1, p[1]);
    assert p[1..][1..][1..] == [];
    assert Clocked(p[1..][1..], s2) == [b];
    assert After(p[1..][1..], s2) == Lines(b, true, s.cs);
  }

  /** A chip that is selected receives exactly the pulsed bits, in order. */
  lemma {:induction false} PulsesClocked(bits: seq<bool>, s: Lines)
    requires !s.cs
    ensures Clocked(Pulses(bits), s) == bits
    ensures After(Pulses(bits), s).cs == s.cs
    decreases |bits|
  {
    if bits != [] {
      var init := bits[..|bits| - 1];
      var b := bits[|bits| - 1];
      PulsesClocked(init, s);
      ClockedAppend(Pulses(init), Pulse(b), s);
      PulseClocked(b, After(Pulses(init), s));
      assert init + [b] == bits;
    }
  }

  /** d * 2^k, unbounded. */
  function Scale(d: nat, k: nat): nat
  {
    if k == 0 then d else 2 * Scale(d, k - 1)
  }

  /** The bits matrix_shift places on DIN: the top bit (`data & 0x80`) of
      its local copy after 0, 1, ..., 7 left shifts. */
  function ShiftBits(d: byte): (bits: seq<bool>)
    ensures |bits| == 8
  {
    seq(8, i requires 0 <= i < 8 => ShlByte(d, i) >= 128)
  }

  /** What has been clocked in after k bits of ShiftBits(d), together with
      what is still in matrix_shift's local copy, makes up d shifted by k. */
  lemma {:induction false} ReceiveShiftPrefix(d: byte, k: nat)
    requires k <= 8
    ensures 256 * Receive(ShiftBits(d)[..k]) + ShlByte(d, k) == Scale(d, k)
  {
    if k == 0 {
      assert ShiftBits(d)[..0] == [];
    } else {
      ReceiveShiftPrefix(d, k - 1);
      var p := ShiftBits(d)[..k];
      assert p[..k - 1] == ShiftBits(d)[..k - 1];
      var x: int := ShlByte(d, k - 1);
      var r: int := Receive(ShiftBits(d)[..k - 1]);
      var b: int := if x >= 128 then 1 else 0;
      assert p[k - 1] == (x >= 128);
      assert Receive(p) == 2 * r + b;
      assert ShlByte(d, k) == 2 * x - 256 * b by {
        assert ShlByte(d, k) == (2 * x) % 256;
        if x >= 128 {
          assert (2 * x) % 256 == 2 * x - 256;
        } else {
          assert (2 * x) % 256 == 2 * x;
        }
      }
      assert 256 * r + x == Scale(d, k - 1);
    }
  }

  /** Round trip for the shifting loop: clocking in what matrix_shift sends
      reassembles d. */
  lemma ReceiveShiftBits(d: byte)
    ensures Receive(ShiftBits(d)) == d
  {
    ReceiveShiftPrefix(d, 8);
    assert ShiftBits(d)[..8] == ShiftBits(d);
    assert Scale(d, 8) == 256 * d by {
      assert Scale(d, 1) == 2 * d;
      assert Scale(d, 2) == 4 * d;
      assert Scale(d, 3) == 8 * d;
      assert Scale(d, 4) == 16 * d;
      assert Scale(d, 5) == 32 * d;
      assert Scale(d, 6) == 64 * d;
      assert Scale(d, 7) == 128 * d;
    }
  }

  /** Halving a received value j times drops the last j bits received. */
  lemma {:induction false} ShrReceive(bits: seq<bool>, j: nat)
    requires j <= |bits|
    ensures Shr(Receive(bits), j) == Receive(bits[..|bits| - j])
  {
    if j == 0 {
      assert bits[..|bits|] == bits;
    } else {
      ShrReceive(bits, j - 1);
      var p := bits[..|bits| - (j - 1)];
      assert p[..|p| - 1] == bits[..|bits| - j];
    }
  }

  /** In a received value, the i-th bit received is bit |bits| - 1 - i. */
  lemma {:induction false} BitOfReceive(bits: seq<bool>, i: nat)
    requires i < |bits|
    ensures Bit(Receive(bits), |bits| - 1 - i) == bits[i]
  {
    var n := |bits| - 1 - i;
    ShrReceive(bits, n);
    var p := bits[..i + 1];
    assert bits[..|bits| - n] == p;
    assert p[..i] == bits[..i] && p[i] == bits[i];
    var q: int := Receive(bits[..i]);
    var b: int := if bits[i] then 1 else 0;
    assert Receive(p) == 2 * q + b;
    Parity(q, b);
  }

  /** The last bit appended is the parity of the result. */
  lemma Parity(q: int, b: int)
    requires 0 <= b <= 1
    ensures (2 * q + b) % 2 == b
  {
  }

  /** The bits matrix_shift sends are those of d, most significant first. */
  lemma ShiftBitsMsbFirst(d: byte)
    ensures ShiftBits(d) == MsbBits(d)
  {
    ReceiveShiftBits(d);
    forall i | 0 <= i < 8 ensures ShiftBits(d)[i] == MsbBits(d)[i] {
      BitOfReceive(ShiftBits(d), i);
    }
  }

  /** After i left shifts of a byte, its top bit is bit 7 - i of the
      original. */
  lemma ShlByteTopBit(d: byte, i: nat)
    requires i < 8
    ensures (ShlByte(d, i) >= 128) == Bit(d, 7 - i)
  {
    ShiftBitsMsbFirst(d);
    assert ShiftBits(d)[i] == MsbBits(d)[i];
  }

  /** Round trip: a shift register that clocks in the bits of d, most
      significant first, ends up holding d. */
  lemma ReceiveMsbBits(d: byte)
    ensures Receive(MsbBits(d)) == d
  {
    ReceiveShiftBits(d);
    ShiftBitsMsbFirst(d);
  }

  /** matrix_shift delivers d to a selected chip: exactly eight bits, most
      significant first, which the shift register reassembles into d. */
  lemma ShiftDelivers(d: byte, s: Lines)
    requires !s.cs
    ensures Clocked(ShiftEvents(d), s) == MsbBits(d)
    ensures Receive(Clocked(ShiftEvents(d), s)) == d
    ensures After(ShiftEvents(d), s).cs == s.cs
  {
    PulsesClocked(MsbBits(d), s);
    ReceiveMsbBits(d);
  }

  lemma NoCsAppend(a: seq<Event>, b: seq<Event>)
    requires NoCs(a) && NoCs(b)
    ensures NoCs(a + b)
  {
    forall i | 0 <= i < |a + b| ensures (a + b)[i].line != Cs {
      if i < |a| { assert (a + b)[i] == a[i]; } else { assert (a + b)[i] == b[i - |a|]; }
    }
  }

  /** A CS bracket is the body with one CS-low write before it and one
      CS-high write after it. */
  lemma BracketShape(body: seq<Event>)
    ensures var r := Bracket(body);
      |r| == |body| + 2 && r[0] == Write(Cs, false) && r[|r| - 1] == Write(Cs, true) && r[1..|r| - 1] == body
  {
    var r := Bracket(body);
    assert r[1..|r| - 1] == body by {
      forall i | 0 <= i < |body| ensures r[1..|r| - 1][i] == body[i] {
        assert r[i + 1] == body[i];
      }
    }
  }

  /** A single CS write clocks nothing in, sets CS, and commits exactly
      when it raises CS. */
  lemma CsWrite(level: bool, s: Lines)
    ensures Clocked([Write(Cs, level)], s) == []
    ensures After([Write(Cs, level)], s) == s.(cs := level)
    ensures Commits([Write(Cs, level)], s) == if level && !s.cs then 1 else 0
  {
    assert [Write(Cs, level)][1..] == [];
  }

  /** A CS bracket around a body that leaves CS alone: the chips take in
      exactly what the body clocks while selected, and commit it once. */
  lemma BracketFraming(body: seq<Event>, s: Lines)
    requires NoCs(body)
    ensures Clocked(Bracket(body), s) == Clocked(body, s.(cs := false))
    ensures Commits(Bracket(body), s) == 1
    ensures After(Bracket(body), s).cs
  {
    var low, high := [Write(Cs, false)], [Write(Cs, true)];
    var s1 := s.(cs := false);
    CsWrite(false, s);
    NoCsKeepsCs(body, s1);
    CsWrite(true, After(body, s1));
    ClockedAppend(low, body, s);
    ClockedAppend(low + body, high, s);
  }

  /** matrix_cmd(cmd, data) is one CS bracket around 16 clock pulses: CS goes
      low first and high last, nothing between touches CS, and a chip
      receives the bits of cmd then those of data and commits them once,
      whatever the line levels before. */
  lemma CmdFraming(cmd: byte, data: byte, s: Lines)
    ensures var r := CmdEvents(cmd, data);
      |r| == 50 && r[0] == Write(Cs, false) && r[49] == Write(Cs, true) && NoCs(r[1..49])
    ensures Clocked(CmdEvents(cmd, data), s) == MsbBits(cmd) + MsbBits(data)
    ensures |Clocked(CmdEvents(cmd, data), s)| == 16
    ensures Commits(CmdEvents(cmd, data), s) == 1
    ensures After(CmdEvents(cmd, data), s).cs
  {
    var a, b := ShiftEvents(cmd), ShiftEvents(data);
    PulsesNoCs(MsbBits(cmd));
    PulsesNoCs(MsbBits(data));
    NoCsAppend(a, b);
    BracketShape(a + b);
    BracketFraming(a + b, s);
    var s1 := s.(cs := false);
    ShiftDelivers(cmd, s1);
    ShiftDelivers(data, After(a, s1));
    ClockedAppend(a, b, s1);
  }
}
