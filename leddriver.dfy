/** The driver itself: the static state of leddriver.cpp as the fields of
    one object, and its routines as methods that update that state in
    place. Every line write is appended to the ghost `trace`, and every call
    of the vsync callback appends its argument to the ghost `vsyncLog`.
    Each method is proved to perform the transition the Render and Panel
    functions describe, so everything proved there holds of the driver. */
module LedDriver {
  import opened Panel
  import opened Dither
  import opened Render

  /** The cells of an 8x32 array, as a grid. */
  ghost function GridOf(a: array2<byte>): (g: seq<seq<byte>>)
    reads a
    requires a.Length0 == Rows && a.Length1 == Cols
    ensures IsGrid(g)
    ensures forall y, x :: 0 <= y < Rows && 0 <= x < Cols ==> g[y][x] == a[y, x]
  {
    seq(Rows, y requires 0 <= y < Rows reads a => seq(Cols, x requires 0 <= x < Cols reads a => a[y, x]))
  }

  /** Row r of an 8x32 array. */
  ghost function RowOf(a: array2<byte>, r: int): (s: seq<byte>)
    reads a
    requires a.Length0 == Rows && a.Length1 == Cols && 0 <= r < Rows
    ensures |s| == Cols && forall c :: 0 <= c < Cols ==> s[c] == a[r, c]
  {
    seq(Cols, c requires 0 <= c < Cols reads a => a[r, c])
  }

  class LedMatrix {
    /** The grayscale frame, written by the producer. */
    var framebuffer: array2<byte>
    /** The per-pixel pulse-density accumulators. */
    var pwmbuf: array2<byte>
    /** The row the next interrupt renders. */
    var row: int
    /** The number passed to the next vsync call. */
    var frame: int
    /** Every write to the DIN, CLK and CS lines, in order. */
    ghost var trace: seq<Event>
    /** The argument of every vsync call, in order. */
    ghost var vsyncLog: seq<int>

    /** Two distinct 8x32 buffers. */
    ghost predicate Shaped()
      reads this`framebuffer, this`pwmbuf
    {
      framebuffer.Length0 == Rows && framebuffer.Length1 == Cols &&
      pwmbuf.Length0 == Rows && pwmbuf.Length1 == Cols &&
      framebuffer != pwmbuf
    }

    /** The state as a Render engine value. */
    ghost function Model(): Engine
      reads this, framebuffer, pwmbuf
      requires Shaped()
    {
      Engine(GridOf(framebuffer), GridOf(pwmbuf), row, frame, vsyncLog)
    }

    ghost predicate Valid()
      reads this, framebuffer, pwmbuf
    {
      Shaped() && Render.Valid(Model())
    }

    /** The static initialisers (row = 0, frame = 0) followed by led_init:
        the lines are set to their idle levels, the framebuffer is cleared
        and every accumulator takes its seed value. */
    constructor (seed: seq<seq<byte>>)
      requires IsGrid(seed)
      ensures Valid() && fresh(framebuffer) && fresh(pwmbuf)
      ensures Model() == Init(seed)
      ensures trace == InitEvents()
    {
      framebuffer := new byte[Rows, Cols];
      pwmbuf := new byte[Rows, Cols];
      row, frame := 0, 0;
      trace, vsyncLog := [], [];
      new;
      GpioWrite(Din, false);
      GpioWrite(Cs, true);
      GpioWrite(Clk, false);
      ClearFramebuffer();
      SeedAccumulators(seed);
      GridExt(GridOf(framebuffer), ZeroGrid());
      GridExt(GridOf(pwmbuf), seed);
    }

    /** The memset of led_init: every framebuffer byte becomes 0. */
    method ClearFramebuffer()
      requires Shaped()
      modifies framebuffer
      ensures forall y, x :: 0 <= y < Rows && 0 <= x < Cols ==> framebuffer[y, x] == 0
    {
      for y := 0 to Rows
        invariant forall y', x :: 0 <= y' < y && 0 <= x < Cols ==> framebuffer[y', x] == 0
      {
        for x := 0 to Cols
          invariant forall y', x' :: 0 <= y' < y && 0 <= x' < Cols ==> framebuffer[y', x'] == 0
          invariant forall x' :: 0 <= x' < x ==> framebuffer[y, x'] == 0
        {
          framebuffer[y, x] := 0;
        }
      }
    }

    /** The seeding loop of led_init: every accumulator takes the value the
        caller supplies for it in place of a random one. */
    method SeedAccumulators(seed: seq<seq<byte>>)
      requires Shaped() && IsGrid(seed)
      modifies pwmbuf
      ensures forall y, x :: 0 <= y < Rows && 0 <= x < Cols ==> pwmbuf[y, x] == seed[y][x]
    {
      for y := 0 to Rows
        invariant forall y', x :: 0 <= y' < y && 0 <= x < Cols ==> pwmbuf[y', x] == seed[y'][x]
      {
        for x := 0 to Cols
          invariant forall y', x' :: 0 <= y' < y && 0 <= x' < Cols ==> pwmbuf[y', x'] == seed[y'][x']
          invariant forall x' :: 0 <= x' < x ==> pwmbuf[y, x'] == seed[y][x']
        {
          pwmbuf[y, x] := seed[y][x];
        }
      }
    }

    /** FAST_GPIO_WRITE (and digitalWrite): one line set to one level. */
    method GpioWrite(line: Line, high: bool)
      modifies this`trace
      ensures trace == old(trace) + [Write(line, high)]
    {
      trace := trace + [Write(line, high)];
    }

    /** matrix_shift: eight clock pulses carrying the bits of d, most
        significant first. */
    method MatrixShift(d: byte)
      modifies this`trace
      ensures trace == old(trace) + ShiftEvents(d)
    {
      var data: byte := d;
      for i := 0 to 8
        invariant data == ShlByte(d, i)
        invariant trace == old(trace) + Pulses(MsbBits(d)[..i])
      {
        ShlByteTopBit(d, i);
        GpioWrite(Clk, false);
        GpioWrite(Din, data >= 128);
        GpioWrite(Clk, true);
        data := (2 * data) % 256;
        assert MsbBits(d)[..i + 1][..i] == MsbBits(d)[..i];
      }
      assert MsbBits(d)[..8] == MsbBits(d);
    }

    /** matrix_load: the CS line set to `level`. */
    method MatrixLoad(level: bool)
      modifies this`trace
      ensures trace == old(trace) + [Write(Cs, level)]
    {
      GpioWrite(Cs, level);
    }

    /** matrix_cmd: cmd and data shifted out inside one CS bracket. */
    method MatrixCmd(cmd: byte, data: byte)
      modifies this`trace
      ensures trace == old(trace) + CmdEvents(cmd, data)
    {
      GpioWrite(Cs, false);
      MatrixShift(cmd);
      MatrixShift(data);
      GpioWrite(Cs, true);
    }

    /** The rendering half of led_hsync (everything before the row cursor
        moves): one CS bracket in which each of the 4 modules gets the
        row-select byte r + 1 and then its 8 pixel bits, each pixel's
        accumulator absorbing its brightness as its bit is computed. Row r
        of pwmbuf is advanced; nothing else in either buffer changes. */
    method RenderRow(r: int)
      requires Shaped() && 0 <= r < Rows
      modifies this`trace, pwmbuf
      ensures forall y, c {:trigger pwmbuf[y, c]} :: 0 <= y < Rows && 0 <= c < Cols ==>
        pwmbuf[y, c] == if y == r then Step(old(pwmbuf[y, c]), framebuffer[y, c]).acc else old(pwmbuf[y, c])
      ensures trace == old(trace) + HsyncEvents(r, RowBits(old(RowOf(pwmbuf, r)), RowOf(framebuffer, r)))
    {
      ghost var acc0, fb := RowOf(pwmbuf, r), RowOf(framebuffer, r);
      GpioWrite(Cs, false);
      ScanModules(r, acc0, fb);
      GpioWrite(Cs, true);
      Regroup4(old(trace), [Write(Cs, false)], ModuleEvents(r + 1, RowBits(acc0, fb), Modules), [Write(Cs, true)]);
    }

    /** The module loop of led_hsync: for each of the 4 modules in turn, the
        row-select byte r + 1 and then that module's 8 pixels of row r. */
    method ScanModules(r: int, ghost acc0: seq<byte>, ghost fb: seq<byte>)
      requires Shaped() && 0 <= r < Rows
      requires |acc0| == Cols && |fb| == Cols
      requires forall c {:trigger framebuffer[r, c]} :: 0 <= c < Cols ==> framebuffer[r, c] == fb[c]
      requires forall c {:trigger pwmbuf[r, c]} :: 0 <= c < Cols ==> pwmbuf[r, c] == acc0[c]
      modifies this`trace, pwmbuf
      ensures forall c {:trigger pwmbuf[r, c]} :: 0 <= c < Cols ==> pwmbuf[r, c] == AdvanceRow(acc0, fb)[c]
      ensures forall y, c {:trigger pwmbuf[y, c]} :: 0 <= y < Rows && y != r && 0 <= c < Cols ==> pwmbuf[y, c] == old(pwmbuf[y, c])
      ensures trace == old(trace) + ModuleEvents(r + 1, RowBits(acc0, fb), Modules)
    {
      ghost var bits := RowBits(acc0, fb);
      ghost var next := AdvanceRow(acc0, fb);
      var x := 0;
      for m := 0 to Modules
        modifies this`trace, pwmbuf
        invariant x == ModuleCols * m
        invariant trace == old(trace) + ModuleEvents(r + 1, bits, m)
        invariant forall c {:trigger pwmbuf[r, c]} :: 0 <= c < Cols ==> pwmbuf[r, c] == if c < x then next[c] else acc0[c]
        invariant forall y, c {:trigger pwmbuf[y, c]} :: 0 <= y < Rows && y != r && 0 <= c < Cols ==> pwmbuf[y, c] == old(pwmbuf[y, c])
      {
        x := ScanModule(r, x, m, old(trace), acc0, fb);
        assert x == ModuleCols * (m + 1);
      }
    }

    /** One module's turn, module m: the row-select byte r + 1, then the
        module's pixels, columns x0 .. x0 + 7 of row r, so that the trace,
        which held the writes for modules 0 .. m - 1 after t0, now holds
        those for modules 0 .. m; the running column index comes back
        advanced by 8. */
    method ScanModule(r: int, x0: int, ghost m: nat, ghost t0: seq<Event>, ghost acc0: seq<byte>, ghost fb: seq<byte>)
      returns (x: int)
      requires Shaped() && 0 <= r < Rows && m < Modules && x0 == ModuleCols * m
      requires |acc0| == Cols && |fb| == Cols
      requires forall c {:trigger framebuffer[r, c]} :: 0 <= c < Cols ==> framebuffer[r, c] == fb[c]
      requires forall c {:trigger pwmbuf[r, c]} :: 0 <= c < Cols ==> pwmbuf[r, c] == if c < x0 then AdvanceRow(acc0, fb)[c] else acc0[c]
      requires trace == t0 + ModuleEvents(r + 1, RowBits(acc0, fb), m)
      modifies this`trace, pwmbuf
      ensures x == x0 + ModuleCols
      ensures trace == t0 + ModuleEvents(r + 1, RowBits(acc0, fb), m + 1)
      ensures forall c {:trigger pwmbuf[r, c]} :: 0 <= c < Cols ==> pwmbuf[r, c] == if c < x then AdvanceRow(acc0, fb)[c] else acc0[c]
      ensures forall y, c {:trigger pwmbuf[y, c]} :: 0 <= y < Rows && y != r && 0 <= c < Cols ==> pwmbuf[y, c] == old(pwmbuf[y, c])
    {
      MatrixShift(r + 1);
      x := ScanPixels(r, x0, acc0, fb);
      ModuleEventsStep(t0, old(trace), trace, r + 1, RowBits(acc0, fb), m, x0);
    }

    /** The pixel loop of one module: columns x0 .. x0 + 7 of row r, each
        scanned in turn, their bits pulsed out in column order. */
    method ScanPixels(r: int, x0: int, ghost acc0: seq<byte>, ghost fb: seq<byte>) returns (x: int)
      requires Shaped() && 0 <= r < Rows && 0 <= x0 && x0 + ModuleCols <= Cols
      requires |acc0| == Cols && |fb| == Cols
      requires forall c {:trigger framebuffer[r, c]} :: 0 <= c < Cols ==> framebuffer[r, c] == fb[c]
      requires forall c {:trigger pwmbuf[r, c]} :: 0 <= c < Cols ==> pwmbuf[r, c] == if c < x0 then AdvanceRow(acc0, fb)[c] else acc0[c]
      modifies this`trace, pwmbuf
      ensures x == x0 + ModuleCols
      ensures trace == old(trace) + Pulses(RowBits(acc0, fb)[x0 .. x0 + ModuleCols])
      ensures forall c {:trigger pwmbuf[r, c]} :: 0 <= c < Cols ==> pwmbuf[r, c] == if c < x then AdvanceRow(acc0, fb)[c] else acc0[c]
      ensures forall y, c {:trigger pwmbuf[y, c]} :: 0 <= y < Rows && y != r && 0 <= c < Cols ==> pwmbuf[y, c] == old(pwmbuf[y, c])
    {
      ghost var bits, next := RowBits(acc0, fb), AdvanceRow(acc0, fb);
      x := x0;
      for col := 0 to ModuleCols
        modifies this`trace, pwmbuf
        invariant x == x0 + col
        invariant trace == old(trace) + Pulses(bits[x0 .. x])
        invariant forall c {:trigger pwmbuf[r, c]} :: 0 <= c < Cols ==> pwmbuf[r, c] == if c < x then next[c] else acc0[c]
        invariant forall y, c {:trigger pwmbuf[y, c]} :: 0 <= y < Rows && y != r && 0 <= c < Cols ==> pwmbuf[y, c] == old(pwmbuf[y, c])
      {
        assert pwmbuf[r, x] == acc0[x] && framebuffer[r, x] == fb[x];
        assert bits[x] == Step(acc0[x], fb[x]).lit;
        PulsesExtend(bits, x0, x);
        ScanPixel(r, x);
        x := x + 1;
      }
    }

    /** One pixel of the row scan: its accumulator absorbs its brightness,
        truncated to 8 bits, and the overflow is clocked out as its bit. */
    method ScanPixel(r: int, x: int)
      requires Shaped() && 0 <= r < Rows && 0 <= x < Cols
      modifies this`trace, pwmbuf
      ensures var p := Step(old(pwmbuf[r, x]), framebuffer[r, x]);
        pwmbuf[r, x] == p.acc && trace == old(trace) + Pulse(p.lit)
      ensures forall c {:trigger pwmbuf[r, c]} :: 0 <= c < Cols && c != x ==> pwmbuf[r, c] == old(pwmbuf[r, c])
      ensures forall y, c {:trigger pwmbuf[y, c]} :: 0 <= y < Rows && y != r && 0 <= c < Cols ==> pwmbuf[y, c] == old(pwmbuf[y, c])
    {
      var val: int := pwmbuf[r, x];
      val := val + framebuffer[r, x];
      pwmbuf[r, x] := val % 256;
      var c := val > 255;
      GpioWrite(Clk, false);
      GpioWrite(Din, c);
      GpioWrite(Clk, true);
    }

    /** led_hsync: render the current row, then advance the row cursor and,
        when it wraps, call vsync with the frame number and count the frame. */
    method Hsync()
      requires Valid()
      modifies this`row, this`frame, this`trace, this`vsyncLog, pwmbuf
      ensures Valid()
      ensures Model() == Render.Hsync(old(Model()))
      ensures trace == old(trace) + ScanEvents(old(Model()))
    {
      ghost var before := Model();
      ghost var r := row;
      assert RowOf(pwmbuf, row) == before.pwmbuf[row];
      assert RowOf(framebuffer, row) == before.framebuffer[row];
      RenderRow(row);
      row := (row + 1) % Rows;
      if row == 0 {
        vsyncLog := vsyncLog + [frame];
        frame := frame + 1;
      }
      ghost var after := Render.Hsync(before).pwmbuf;
      forall y, c | 0 <= y < Rows && 0 <= c < Cols ensures GridOf(pwmbuf)[y][c] == after[y][c] {
        if y == r {
          assert after[y] == AdvanceRow(before.pwmbuf[r], before.framebuffer[r]);
        } else {
          assert after[y] == before.pwmbuf[y];
        }
      }
      GridExt(GridOf(pwmbuf), after);
    }

    /** led_write_framebuffer: the Rows * Cols bytes of `data`, row-major,
        copied over the framebuffer. */
    method WriteFramebuffer(data: seq<byte>)
      requires Valid() && |data| == Rows * Cols
      modifies framebuffer
      ensures Valid()
      ensures Model() == WriteFrame(old(Model()), data)
    {
      for i := 0 to Rows * Cols
        invariant forall y, x :: 0 <= y < Rows && 0 <= x < Cols ==>
          framebuffer[y, x] == if Cols * y + x < i then data[Cols * y + x] else old(framebuffer[y, x])
      {
        framebuffer[i / Cols, i % Cols] := data[i];
      }
      GridExt(GridOf(framebuffer), FromBytes(data));
    }
  }
}
