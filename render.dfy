/** The render engine of leddriver.cpp as a value: the two 8x32 buffers, the
    row cursor, the frame counter and every frame number handed to the
    vsync callback. Hsync is one run of the per-row interrupt handler
    led_hsync and HsyncEvents what it writes to the bus; the class in
    LedDriver is proved to perform exactly these transitions on its arrays. */
module Render {
  import opened Panel
  import opened Dither

  const Rows: nat := 8
  const Cols: nat := 32
  /** Cascaded 8-column modules, and the columns of each. */
  const Modules: nat := 4
  const ModuleCols: nat := 8

  /** A Rows x Cols buffer of bytes, row-major. */
  predicate IsGrid(g: seq<seq<byte>>)
  {
    |g| == Rows && forall y :: 0 <= y < Rows ==> |g[y]| == Cols
  }

  /** Two grids with the same cells are the same grid. */
  lemma GridExt(g: seq<seq<byte>>, h: seq<seq<byte>>)
    requires IsGrid(g) && IsGrid(h)
    requires forall y, x :: 0 <= y < Rows && 0 <= x < Cols ==> g[y][x] == h[y][x]
    ensures g == h
  {
    forall y | 0 <= y < Rows ensures g[y] == h[y] {
      assert forall x :: 0 <= x < Cols ==> g[y][x] == h[y][x];
    }
  }

  /** A raw row-major blob of Rows * Cols bytes, as a grid. */
  function FromBytes(data: seq<byte>): (g: seq<seq<byte>>)
    requires |data| == Rows * Cols
    ensures IsGrid(g)
    ensures forall y, x :: 0 <= y < Rows && 0 <= x < Cols ==> g[y][x] == data[Cols * y + x]
  {
    seq(Rows, y requires 0 <= y < Rows => data[Cols * y .. Cols * y + Cols])
  }

  function ZeroGrid(): (g: seq<seq<byte>>)
    ensures IsGrid(g)
  {
    seq(Rows, _ => seq(Cols, _ => 0))
  }

  /** The accumulators of one row after it has been scanned once. */
  function AdvanceRow(acc: seq<byte>, fb: seq<byte>): seq<byte>
    requires |acc| == Cols && |fb| == Cols
  {
    seq(Cols, x requires 0 <= x < Cols => Step(acc[x], fb[x]).acc)
  }

  /** The pixel bits of one row scan, in column order 0..31. */
  function RowBits(acc: seq<byte>, fb: seq<byte>): seq<bool>
    requires |acc| == Cols && |fb| == Cols
  {
    seq(Cols, x requires 0 <= x < Cols => Step(acc[x], fb[x]).lit)
  }

  /** Every accumulator of the grid scanned once. */
  function AdvanceGrid(acc: seq<seq<byte>>, fb: seq<seq<byte>>): (r: seq<seq<byte>>)
    requires IsGrid(acc) && IsGrid(fb)
    ensures IsGrid(r)
  {
    seq(Rows, y requires 0 <= y < Rows => AdvanceRow(acc[y], fb[y]))
  }

  // ----- what one row scan puts on the bus -----

  /** The writes for modules 0..m-1 of a row scan: for each, the row-select
      byte `sel` and then that module's 8 pixel bits. */
  function ModuleEvents(sel: byte, bits: seq<bool>, m: nat): seq<Event>
    requires |bits| == Cols && m <= Modules
  {
    if m == 0 then []
    else ModuleEvents(sel, bits, m - 1) + ShiftEvents(sel) + Pulses(bits[ModuleCols * (m - 1) .. ModuleCols * m])
  }

  /** One more module appends its select byte and its 8 pixel bits, the
      ones from column x0 = 8m on, to whatever was written before. */
  lemma ModuleEventsStep(t0: seq<Event>, t1: seq<Event>, t2: seq<Event>, sel: byte, bits: seq<bool>, m: nat, x0: int)
    requires |bits| == Cols && m < Modules && x0 == ModuleCols * m
    requires t1 == t0 + ModuleEvents(sel, bits, m)
    requires t2 == t1 + ShiftEvents(sel) + Pulses(bits[x0 .. x0 + ModuleCols])
    ensures t2 == t0 + ModuleEvents(sel, bits, m + 1)
  {
    Regroup4(t0, ModuleEvents(sel, bits, m), ShiftEvents(sel), Pulses(bits[x0 .. x0 + ModuleCols]));
  }

  /** What led_hsync writes for row `row` with pixel bits `bits`
      (leddriver.cpp:45-66). */
  function HsyncEvents(row: int, bits: seq<bool>): seq<Event>
    requires 0 <= row < Rows && |bits| == Cols
  {
    Bracket(ModuleEvents(row + 1, bits, Modules))
  }

  /** The bit stream the chips should receive for modules 0..m-1: each
      module's row-select byte, most significant bit first, then its pixel bits. */
  function RowStream(sel: byte, bits: seq<bool>, m: nat): seq<bool>
    requires |bits| == Cols && m <= Modules
  {
    if m == 0 then []
    else RowStream(sel, bits, m - 1) + MsbBits(sel) + bits[ModuleCols * (m - 1) .. ModuleCols * m]
  }

  /** Where each bit sits in the stream: 16 bits per module, the row-select
      byte first and the module's pixel bits after it. */
  lemma {:induction false} RowStreamLayout(sel: byte, bits: seq<bool>, m: nat)
    requires |bits| == Cols && m <= Modules
    ensures |RowStream(sel, bits, m)| == 16 * m
    ensures forall i :: 0 <= i < 16 * m && i % 16 < 8 ==> RowStream(sel, bits, m)[i] == Bit(sel, 7 - i % 16)
    ensures forall x :: 0 <= x < ModuleCols * m ==> RowStream(sel, bits, m)[16 * (x / 8) + 8 + x % 8] == bits[x]
  {
    if m > 0 {
      RowStreamLayout(sel, bits, m - 1);
      var prev := RowStream(sel, bits, m - 1);
      var cur := RowStream(sel, bits, m);
      var chunk := bits[ModuleCols * (m - 1) .. ModuleCols * m];
      assert cur == prev + MsbBits(sel) + chunk;
      forall i | 0 <= i < 16 * m && i % 16 < 8 ensures cur[i] == Bit(sel, 7 - i % 16) {
        if i < 16 * (m - 1) {
          assert cur[i] == prev[i];
        } else {
          assert cur[i] == MsbBits(sel)[i % 16];
        }
      }
      forall x | 0 <= x < ModuleCols * m ensures cur[16 * (x / 8) + 8 + x % 8] == bits[x] {
        if x < ModuleCols * (m - 1) {
          assert cur[16 * (x / 8) + 8 + x % 8] == prev[16 * (x / 8) + 8 + x % 8];
        } else {
          assert x / 8 == m - 1;
          assert cur[16 * (x / 8) + 8 + x % 8] == chunk[x % 8];
        }
      }
    }
  }

  /** A selected chip receives the module writes as RowStream, and CS is
      not touched. */
  lemma {:induction false} ModuleEventsClocked(sel: byte, bits: seq<bool>, m: nat, s: Lines)
    requires |bits| == Cols && m <= Modules
    requires !s.cs
    ensures Clocked(ModuleEvents(sel, bits, m), s) == RowStream(sel, bits, m)
    ensures NoCs(ModuleEvents(sel, bits, m))
    ensures After(ModuleEvents(sel, bits, m), s).cs == s.cs
  {
    if m > 0 {
      var prev := ModuleEvents(sel, bits, m - 1);
      var chunk := bits[ModuleCols * (m - 1) .. ModuleCols * m];
      ModuleEventsClocked(sel, bits, m - 1, s);
      var s1 := After(prev, s);
      ShiftDelivers(sel, s1);
      var s2 := After(ShiftEvents(sel), s1);
      PulsesClocked(chunk, s2);
      ClockedAppend(prev, ShiftEvents(sel), s);
      ClockedAppend(prev + ShiftEvents(sel), Pulses(chunk), s);
      PulsesNoCs(MsbBits(sel));
      PulsesNoCs(chunk);
      NoCsAppend(prev, ShiftEvents(sel));
      NoCsAppend(prev + ShiftEvents(sel), Pulses(chunk));
    } else {
      assert Clocked([], s) == [];
    }
  }

  /** One row scan is a single CS bracket of 64 clock pulses: four times
      the row-select byte row+1 followed by 8 pixel bits, the pixel bits in
      column order 0..31, committed once, whatever the line levels before. */
  lemma HsyncFraming(row: int, bits: seq<bool>, s: Lines)
    requires 0 <= row < Rows && |bits| == Cols
    ensures var r := HsyncEvents(row, bits);
      r[0] == Write(Cs, false) && r[|r| - 1] == Write(Cs, true) && NoCs(r[1..|r| - 1])
    ensures Clocked(HsyncEvents(row, bits), s) == RowStream(row + 1, bits, Modules)
    ensures |Clocked(HsyncEvents(row, bits), s)| == 64
    ensures forall i :: 0 <= i < 64 && i % 16 < 8 ==>
      Clocked(HsyncEvents(row, bits), s)[i] == Bit(row + 1, 7 - i % 16)
    ensures forall x :: 0 <= x < Cols ==> Clocked(HsyncEvents(row, bits), s)[16 * (x / 8) + 8 + x % 8] == bits[x]
    ensures Commits(HsyncEvents(row, bits), s) == 1
  {
    ModuleEventsClocked(row + 1, bits, Modules, s.(cs := false));
    BracketShape(ModuleEvents(row + 1, bits, Modules));
    BracketFraming(ModuleEvents(row + 1, bits, Modules), s);
    RowStreamLayout(row + 1, bits, Modules);
  }

  // ----- the engine -----

  datatype Engine = Engine(
    framebuffer: seq<seq<byte>>,
    pwmbuf: seq<seq<byte>>,
    row: int,
    frame: int,
    vsyncLog: seq<int>)

  /** Well-formed buffers, a row cursor in [0, 8), and a vsync log that holds
      exactly the frame numbers 0, 1, ..., frame - 1, in order. */
  predicate Valid(e: Engine)
  {
    IsGrid(e.framebuffer) && IsGrid(e.pwmbuf) && 0 <= e.row < Rows &&
    |e.vsyncLog| == e.frame && forall i :: 0 <= i < |e.vsyncLog| ==> e.vsyncLog[i] == i
  }

  /** The pin levels led_init sets (leddriver.cpp:85-90): DIN low, CS high, CLK low. */
  function InitEvents(): (r: seq<Event>)
    ensures forall s :: After(r, s) == Idle
  {
    [Write(Din, false), Write(Cs, true), Write(Clk, false)]
  }

  /** The state after the static initialisers and led_init, with `seed` the
      values random(255) put into the accumulators. */
  function Init(seed: seq<seq<byte>>): (e: Engine)
    requires IsGrid(seed)
    ensures Valid(e) && e.row == 0 && e.frame == 0 && e.vsyncLog == []
    ensures forall y, x :: 0 <= y < Rows && 0 <= x < Cols ==> e.framebuffer[y][x] == 0 && e.pwmbuf[y][x] == seed[y][x]
  {
    Engine(ZeroGrid(), seed, 0, 0, [])
  }

  /** led_write_framebuffer: the framebuffer becomes the blob, nothing else changes. */
  function WriteFrame(e: Engine, data: seq<byte>): (r: Engine)
    requires Valid(e) && |data| == Rows * Cols
    ensures Valid(r)
    ensures forall y, x :: 0 <= y < Rows && 0 <= x < Cols ==> r.framebuffer[y][x] == data[Cols * y + x]
    ensures r.pwmbuf == e.pwmbuf && r.row == e.row && r.frame == e.frame && r.vsyncLog == e.vsyncLog
  {
    e.(framebuffer := FromBytes(data))
  }

  /** One run of led_hsync. */
  function Hsync(e: Engine): (r: Engine)
    requires Valid(e)
    ensures Valid(r)
    ensures r.framebuffer == e.framebuffer
    ensures forall y :: 0 <= y < Rows && y != e.row ==> r.pwmbuf[y] == e.pwmbuf[y]
  {
    var acc, fb := e.pwmbuf[e.row], e.framebuffer[e.row];
    var next := (e.row + 1) % Rows;
    Engine(
      e.framebuffer,
      e.pwmbuf[e.row := AdvanceRow(acc, fb)],
      next,
      if next == 0 then e.frame + 1 else e.frame,
      if next == 0 then e.vsyncLog + [e.frame] else e.vsyncLog)
  }

  /** n consecutive runs of led_hsync. */
  function Steps(e: Engine, n: nat): (r: Engine)
    requires Valid(e)
    ensures Valid(r) && r.framebuffer == e.framebuffer
  {
    if n == 0 then e else Hsync(Steps(e, n - 1))
  }

  // ----- properties of one scan -----

  /** The writes of the scan Hsync(e) performs. */
  function ScanEvents(e: Engine): seq<Event>
    requires Valid(e)
  {
    HsyncEvents(e.row, RowBits(e.pwmbuf[e.row], e.framebuffer[e.row]))
  }

  /** Each pixel of the scanned row: its accumulator becomes (old + brightness)
      mod 256, and the bit the chips receive for it is 1 exactly when
      old + brightness exceeds 255. */
  lemma HsyncPixel(e: Engine, x: int, s: Lines)
    requires Valid(e) && 0 <= x < Cols
    ensures var old_acc: int, b: int := e.pwmbuf[e.row][x], e.framebuffer[e.row][x];
      Hsync(e).pwmbuf[e.row][x] == (old_acc + b) % 256 &&
      |Clocked(ScanEvents(e), s)| == 64 &&
      Clocked(ScanEvents(e), s)[16 * (x / 8) + 8 + x % 8] == (old_acc + b > 255)
  {
    var acc, fb := e.pwmbuf[e.row], e.framebuffer[e.row];
    HsyncFraming(e.row, RowBits(acc, fb), s);
    var p := Step(acc[x], fb[x]);
    assert 0 <= p.acc < 256;
    assert RowBits(acc, fb)[x] == p.lit == (acc[x] as int + fb[x] > 255);
  }

  /** The row cursor advances modulo 8; vsync is called, with the frame
      number before the increment, exactly when the cursor wraps to 0, and
      only then does the frame counter grow, by one. */
  lemma HsyncCursor(e: Engine)
    requires Valid(e)
    ensures var r := Hsync(e);
      r.row == (e.row + 1) % Rows &&
      (r.row == 0 <==> |r.vsyncLog| == |e.vsyncLog| + 1) &&
      (r.row == 0 ==> r.vsyncLog == e.vsyncLog + [e.frame] && r.frame == e.frame + 1) &&
      (r.row != 0 ==> r.vsyncLog == e.vsyncLog && r.frame == e.frame)
  {
  }

  // ----- properties of many scans -----

  lemma {:induction false} StepsAdd(e: Engine, a: nat, b: nat)
    requires Valid(e)
    ensures Steps(e, a + b) == Steps(Steps(e, a), b)
  {
    if b > 0 {
      StepsAdd(e, a, b - 1);
      var n := a + b;
      assert n - 1 == a + (b - 1);
      StepsLast(e, n);
      StepsLast(Steps(e, a), b);
    }
  }

  /** The last of n > 0 scans is one more led_hsync after the first n - 1. */
  lemma StepsLast(e: Engine, n: nat)
    requires Valid(e) && n > 0
    ensures Steps(e, n) == Hsync(Steps(e, n - 1))
  {
  }

  /** The first k scans of a refresh cycle that starts at row 0 move the
      cursor to row k without calling vsync. */
  lemma {:induction false} PartialCursor(e: Engine, k: nat)
    requires Valid(e) && e.row == 0 && k < Rows
    ensures var r := Steps(e, k);
      r.row == k && r.frame == e.frame && r.vsyncLog == e.vsyncLog
  {
    if k > 0 {
      PartialCursor(e, k - 1);
    }
  }

  /** The first k scans of a refresh cycle that starts at row 0 scan rows
      0 .. k - 1 once each and leave the other rows alone. */
  lemma {:induction false} PartialCycle(e: Engine, k: nat, y: int)
    requires Valid(e) && e.row == 0 && k < Rows && 0 <= y < Rows
    ensures Steps(e, k).pwmbuf[y] == if y < k then AdvanceRow(e.pwmbuf[y], e.framebuffer[y]) else e.pwmbuf[y]
  {
    if k > 0 {
      PartialCycle(e, k - 1, y);
      PartialCursor(e, k - 1);
    }
  }

  /** A full refresh: 8 scans from row 0 bring the cursor back to 0, call
      vsync exactly once with the frame number they started with, add one
      to it, and scan every pixel of the panel exactly once. */
  lemma RefreshCycle(e: Engine)
    requires Valid(e) && e.row == 0
    ensures var r := Steps(e, Rows);
      r.row == 0 && r.frame == e.frame + 1 && r.vsyncLog == e.vsyncLog + [e.frame] &&
      r.framebuffer == e.framebuffer && r.pwmbuf == AdvanceGrid(e.pwmbuf, e.framebuffer)
  {
    PartialCursor(e, Rows - 1);
    var r := Steps(e, Rows);
    assert r == Hsync(Steps(e, Rows - 1));
    forall y, x | 0 <= y < Rows && 0 <= x < Cols
      ensures r.pwmbuf[y][x] == AdvanceGrid(e.pwmbuf, e.framebuffer)[y][x]
    {
      PartialCycle(e, Rows - 1, y);
    }
    GridExt(r.pwmbuf, AdvanceGrid(e.pwmbuf, e.framebuffer));
  }

  /** After k full refreshes from row 0 each accumulator holds what k scans
      of that pixel at its brightness leave in it. */
  lemma {:induction false} Refreshes(e: Engine, k: nat)
    requires Valid(e) && e.row == 0
    ensures var r := Steps(e, Rows * k);
      r.row == 0 && r.frame == e.frame + k &&
      forall y, x :: 0 <= y < Rows && 0 <= x < Cols ==>
        r.pwmbuf[y][x] == Run(e.pwmbuf[y][x], e.framebuffer[y][x], k).0
  {
    if k == 0 {
      assert Steps(e, Rows * k) == e;
    } else {
      Refreshes(e, k - 1);
      var mid := Steps(e, Rows * (k - 1));
      StepsAdd(e, Rows * (k - 1), Rows);
      assert Rows * (k - 1) + Rows == Rows * k;
      assert Steps(e, Rows * k) == Steps(mid, Rows);
      RefreshCycle(mid);
    }
  }

  /** Within a refresh from row 0, the scan of row y delivers for pixel
      (y, x) the carry of one dithering step from its accumulator at the
      start of the refresh. */
  lemma ScanBit(mid: Engine, y: int, x: int, s: Lines)
    requires Valid(mid) && mid.row == 0 && 0 <= y < Rows && 0 <= x < Cols
    ensures var t := Steps(mid, y); var c := Clocked(ScanEvents(t), s);
      t.row == y && |c| == 64 &&
      c[16 * (x / 8) + 8 + x % 8] == Step(mid.pwmbuf[y][x], mid.framebuffer[y][x]).lit
  {
    PartialCursor(mid, y);
    PartialCycle(mid, y, y);
    HsyncPixel(Steps(mid, y), x, s);
  }

  /** Starting from row 0, scan 8j + y is the scan of row y in refresh j, and
      the bit the chips receive for pixel (y, x) in it is the carry of step
      j + 1 of the pixel's dithering, whatever the line levels: so the lit
      count of Run over k steps is the number of 1s the chips receive for
      that pixel over k refreshes. */
  lemma ScanLit(e: Engine, j: nat, y: int, x: int, s: Lines)
    requires Valid(e) && e.row == 0 && 0 <= y < Rows && 0 <= x < Cols
    ensures var t := Steps(e, Rows * j + y); var c := Clocked(ScanEvents(t), s);
      t.row == y && |c| == 64 &&
      c[16 * (x / 8) + 8 + x % 8] == Step(Run(e.pwmbuf[y][x], e.framebuffer[y][x], j).0, e.framebuffer[y][x]).lit
  {
    Refreshes(e, j);
    StepsAdd(e, Rows * j, y);
    ScanBit(Steps(e, Rows * j), y, x, s);
  }

  /** With the framebuffer left alone, the whole accumulator buffer returns
      to its starting contents after 256 full refreshes, during which the
      dithering of each pixel overflows exactly as many times as its
      brightness; by ScanLit, that is how many 1s the chips receive for it. */
  lemma AccumulatorPeriod(e: Engine)
    requires Valid(e) && e.row == 0
    ensures Steps(e, Rows * 256).pwmbuf == e.pwmbuf
    ensures Steps(e, Rows * 256).frame == e.frame + 256
    ensures forall y, x :: 0 <= y < Rows && 0 <= x < Cols ==>
      Run(e.pwmbuf[y][x], e.framebuffer[y][x], 256).1 == e.framebuffer[y][x]
  {
    Refreshes(e, 256);
    var r := Steps(e, Rows * 256);
    forall y, x | 0 <= y < Rows && 0 <= x < Cols ensures r.pwmbuf[y][x] == e.pwmbuf[y][x]
      && Run(e.pwmbuf[y][x], e.framebuffer[y][x], 256).1 == e.framebuffer[y][x]
    {
      PulseDensity(e.pwmbuf[y][x], e.framebuffer[y][x]);
    }
    GridExt(r.pwmbuf, e.pwmbuf);
  }

  // ----- frame writes -----

  /** Writing the same blob twice leaves the same state as writing it once,
      so everything rendered afterwards is the same too. */
  lemma WriteFrameIdempotent(e: Engine, data: seq<byte>, n: nat)
    requires Valid(e) && |data| == Rows * Cols
    ensures WriteFrame(WriteFrame(e, data), data) == WriteFrame(e, data)
    ensures Steps(WriteFrame(WriteFrame(e, data), data), n) == Steps(WriteFrame(e, data), n)
  {
  }

  /** An all-black frame never lights a pixel and leaves every accumulator
      as it was. */
  lemma BlackFrameIsDark(e: Engine, x: int, s: Lines)
    requires Valid(e) && 0 <= x < Cols
    requires forall y, c :: 0 <= y < Rows && 0 <= c < Cols ==> e.framebuffer[y][c] == 0
    ensures Hsync(e).pwmbuf == e.pwmbuf
    ensures var c := Clocked(ScanEvents(e), s); |c| == 64 && !c[16 * (x / 8) + 8 + x % 8]
  {
    HsyncPixel(e, x, s);
    var r := Hsync(e);
    GridExt(r.pwmbuf, e.pwmbuf);
  }
}
