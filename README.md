# LED matrix driver: a verified model of its rendering core

This project models the rendering core of `leddriver.cpp` from CrimsonCrawler in Dafny. The driver runs an 8 × 32 monochrome LED panel built from four cascaded 8 × 8 driver chips. The chips share three lines: DIN, CLK and CS.

The driver keeps two static 8 × 32 byte buffers:

- `framebuffer` holds a grayscale image written by the application.
- `pwmbuf` holds one 8-bit accumulator per pixel.

A timer interrupt (`led_hsync`) renders one row per call:

1. It pulls CS low.
2. For each module, it shifts out the row-select byte `row + 1` (most significant bit first), then one bit per pixel of that module.
3. Each pixel bit is the carry out of `accumulator + brightness`, and the accumulator keeps the low 8 bits of the sum. This is first-order pulse-density modulation.
4. It raises CS.
5. It advances the row cursor modulo 8. When the cursor wraps, it calls the vsync callback with the frame counter and then increments the counter.

The project has four modules:

- `Panel` (panel.dfy) covers the bus.
  - A routine's output is the sequence of line writes it performs.
  - A receiver model gives those writes their meaning. The chips sample DIN on each rising CLK edge while CS is low, and latch on the rising edge of CS.
  - `matrix_shift`, `matrix_load` and `matrix_cmd` are specified here and their framing is proved. The proofs include the round trip "clocking in what `matrix_shift(d)` sends yields `d`".
- `Dither` (dither.dfy) covers the per-pixel accumulator step and its long-run behaviour. Over 256 scans at constant brightness `b`, a pixel is lit exactly `b` times and its accumulator returns to its starting value.
- `Render` (render.dfy) is the driver state as a value (`Engine`) together with one `led_hsync` call (`Hsync`), `n` calls (`Steps`), `led_write_framebuffer` (`WriteFrame`) and the state after `led_init` (`Init`). It also holds the lemmas about single and repeated calls.
- `LedDriver` (leddriver.dfy) is the driver as it is written: a class `LedMatrix`.
  - The two buffers are `array2<byte>` fields and the cursor and frame counter are fields.
  - Every line write is appended to a ghost `trace`, and every vsync call appends its argument to a ghost `vsyncLog`.
  - Each method updates the state in place, with the source's loops. Each is proved to perform exactly the transition its `Render` or `Panel` function describes, so every lemma about those functions applies to the class.

## Model

| member | source | states |
|---|---|---|
| Panel.ShiftEvents | leddriver.cpp:19-27 | `matrix_shift` writes 24 events, 3 per bit |
| Panel.PulsesNoCs | leddriver.cpp:22-24 | the CLK-low / DIN / CLK-high pulses never write CS, so they cannot end a transfer |
| Panel.ShiftEventsLayout | leddriver.cpp:19-27 | pulse i of `matrix_shift(d)` is CLK low, DIN := bit 7 − i of d, CLK high (most significant bit first) |
| Panel.PulsesLayout | leddriver.cpp:22-24 | pulse i of a run sits at writes 3i, 3i + 1, 3i + 2: CLK low, DIN := bit i, CLK high |
| Panel.ReceiveShiftPrefix | leddriver.cpp:21-26 | after k rounds of the loop, 256 × the value a shift register has clocked in, plus what is left in the truncated local copy, equals d · 2^k |
| Panel.ReceiveShiftBits | leddriver.cpp:19-27 | round trip: clocking in the 8 bits the loop sends reassembles d |
| Panel.ShiftBitsMsbFirst | leddriver.cpp:19-27 | the loop's bits (`data & 0x80` after 0..7 truncated shifts) are exactly the bits of d, most significant first |
| Panel.ShlByteTopBit | leddriver.cpp:22-25 | after i truncated left shifts of the local copy, `data & 0x80` is exactly bit 7 − i of the original byte |
| Panel.ReceiveMsbBits | leddriver.cpp:19-27 | round trip: a shift register clocking in the bits of d, most significant first, holds d |
| Panel.ShiftDelivers | leddriver.cpp:19-27 | a selected chip receives exactly the 8 bits of d, most significant first, reassembles d, and CS stays unchanged |
| Panel.PulsesClocked | leddriver.cpp:22-24 | a selected chip receives exactly the bits carried by a run of CLK-low / DIN / CLK-high pulses, in order |
| Panel.CsWrite | leddriver.cpp:29-32 | one CS write clocks no bit in, sets CS, and commits exactly when it raises CS from low |
| Panel.BracketShape | leddriver.cpp:34-40 | a CS bracket is one CS-low write, then the body unchanged, then one CS-high write |
| Panel.BracketFraming | leddriver.cpp:34-40 | a CS-low … CS-high bracket around writes that leave CS alone delivers exactly what the body clocks while selected, commits once and ends with CS high |
| Panel.CmdFraming | leddriver.cpp:34-40 | `matrix_cmd` is 50 writes: CS low first, CS high last, no CS write between; the chip gets the 16 bits of cmd then data and commits once |
| Panel.CmdEvents | leddriver.cpp:34-40 | definition: the writes of `matrix_cmd(cmd, data)`, the shifts of cmd and then data inside one CS bracket; `Panel.CmdFraming` states its framing |
| Dither.Step | leddriver.cpp:53-56 | new accumulator plus 256 for a lit pixel equals old accumulator plus brightness (no brightness is lost) |
| Dither.Run | leddriver.cpp:53-56 | over n scans, the start value plus n × brightness equals the final accumulator plus 256 per lit scan; at most n scans are lit |
| Dither.RunClosedForm | leddriver.cpp:53-56 | after n scans the accumulator is (acc + n·b) mod 256 and the pixel was lit ⌊(acc + n·b) / 256⌋ times |
| Dither.PulseDensity | leddriver.cpp:53-56 | over 256 scans at brightness b a pixel is lit exactly b times and the accumulator returns to its start, whatever it was |
| Dither.Extremes | leddriver.cpp:53-56 | brightness 0 never lights a pixel; brightness 255 from an empty accumulator is dark on the first scan and lit on the second |
| Render.FromBytes | leddriver.cpp:75-78 | a 256-byte blob read as rows of 32: cell (y, x) is byte 32y + x |
| Render.Init | leddriver.cpp:80-100 | after the static initialisers and `led_init`, the cursor and frame counter are 0, no vsync has happened, the framebuffer is all zero and each accumulator holds its seed |
| Render.ModuleEvents | leddriver.cpp:50-64 | definition: the writes of modules 0..m−1 of one row scan, each module's row-select byte and then its 8 pixel bits; `Render.ModuleEventsClocked` states what the chips receive from them |
| Render.HsyncEvents | leddriver.cpp:45-66 | definition: the writes of one `led_hsync` for a row and its pixel bits, the module writes inside one CS bracket; `Render.HsyncFraming` states its framing |
| Render.ScanEvents | leddriver.cpp:45-66 | definition: the writes of the scan `Hsync(e)` performs, `HsyncEvents` for the current row and the carries of its accumulators |
| Render.InitEvents | leddriver.cpp:85-90 | `led_init` leaves the lines idle (DIN low, CLK low, CS high), whatever their levels before |
| Render.WriteFrame | leddriver.cpp:75-78 | framebuffer cell (y, x) becomes byte 32y + x of the blob; accumulators, cursor, frame counter and vsync history are unchanged |
| Render.WriteFrameIdempotent | leddriver.cpp:75-78 | writing the same blob twice equals writing it once, and so does everything rendered afterwards |
| Render.Hsync | leddriver.cpp:43-73 | one `led_hsync` keeps the state well formed, never changes the framebuffer and changes no accumulator row other than the current one |
| Render.HsyncPixel | leddriver.cpp:53-62 | for each pixel of the scanned row the accumulator becomes (old + brightness) mod 256, and the chips receive 1 for it exactly when old + brightness > 255 |
| Render.HsyncFraming | leddriver.cpp:45-66 | one row scan is a single CS bracket of 64 pulses committed once; in each 16-bit module slot the row-select byte row + 1 comes first, then the pixel bits in column order 0..31 |
| Render.ModuleEventsClocked | leddriver.cpp:50-64 | the chips receive the module loop's writes as the stream of 4 × (select byte, 8 pixel bits), and CS is untouched |
| Render.RowStreamLayout | leddriver.cpp:50-64 | position of every select bit and every pixel bit in that 64-bit stream |
| Render.HsyncCursor | leddriver.cpp:69-72 | the cursor advances modulo 8; vsync is called exactly when it wraps to 0, with the frame number before the increment, and only then does the frame counter grow, by 1 |
| Render.PartialCursor | leddriver.cpp:69-72 | k < 8 calls from row 0 leave the cursor at row k, with no vsync call and the frame counter unchanged |
| Render.PartialCycle | leddriver.cpp:43-73 | after k < 8 calls from row 0, accumulator row y has been scanned once if y < k and is untouched otherwise |
| Render.RefreshCycle | leddriver.cpp:43-73 | 8 calls from row 0 scan every pixel exactly once, return the cursor to 0 and call vsync exactly once, with the starting frame number |
| Render.Refreshes | leddriver.cpp:43-73 | after k refresh cycles every accumulator equals k scans of its pixel at its brightness, and the frame counter grew by k |
| Render.AccumulatorPeriod | leddriver.cpp:43-73 | with the framebuffer unchanged, 256 refresh cycles restore the accumulator buffer exactly, and each pixel's dithering overflows exactly as many times as its brightness (by `Render.ScanLit`, each overflow is a 1 the chips receive for that pixel) |
| Render.ScanBit | leddriver.cpp:43-73 | in a refresh from row 0, call y + 1 scans row y, and the bit the chips receive for pixel (y, x) in it is the carry of one step from the pixel's accumulator at the start of the refresh |
| Render.ScanLit | leddriver.cpp:43-73 | from row 0, call 8j + y scans row y, and the bit the chips receive for pixel (y, x) is the carry of step j + 1 of `Run` from its starting accumulator at its brightness, whatever the line levels; so `Run`'s lit count is the number of 1s the chips receive for that pixel |
| Render.BlackFrameIsDark | leddriver.cpp:53-62 | with an all-black framebuffer a row scan sends no lit pixel bit and leaves every accumulator unchanged |
| Render.StepsAdd | leddriver.cpp:43-73 | a + b calls equal a calls followed by b calls |
| Render.Steps | leddriver.cpp:43-73 | the driver state after n consecutive `led_hsync` calls; every such state is well formed and has the framebuffer it started with |
| LedDriver.LedMatrix.constructor | leddriver.cpp:80-100 | the new driver's state is exactly `Init(seed)`, and the line writes leave the bus idle |
| LedDriver.LedMatrix.ClearFramebuffer | leddriver.cpp:93 | every framebuffer cell is 0 |
| LedDriver.LedMatrix.SeedAccumulators | leddriver.cpp:96-100 | every accumulator holds its seed value |
| LedDriver.LedMatrix.GpioWrite | leddriver.cpp:17 | one write of one level to one line is appended to the trace |
| LedDriver.LedMatrix.MatrixShift | leddriver.cpp:19-27 | the loop over a truncating local copy writes exactly `ShiftEvents(d)` |
| LedDriver.LedMatrix.MatrixLoad | leddriver.cpp:29-32 | writes the given level to CS and nothing else |
| LedDriver.LedMatrix.MatrixCmd | leddriver.cpp:34-40 | writes exactly `CmdEvents(cmd, data)` |
| LedDriver.LedMatrix.ScanPixel | leddriver.cpp:53-62 | the pixel's accumulator becomes `Step(old, brightness).acc`, its carry is pulsed out, and no other cell changes |
| LedDriver.LedMatrix.ScanModule | leddriver.cpp:51-63 | module m's turn extends the trace from the writes of modules 0..m−1 to those of modules 0..m (select byte, then its 8 pixel bits), advances those 8 accumulators, changes no other cell and returns x + 8 |
| LedDriver.LedMatrix.ScanPixels | leddriver.cpp:52-62 | the pixel loop pulses out the carries of columns x0..x0+7 in order, advances exactly those accumulators, and returns x0 + 8 |
| LedDriver.LedMatrix.ScanModules | leddriver.cpp:48-64 | the module loop writes `ModuleEvents(row + 1, bits, 4)` and advances exactly the current row of `pwmbuf` |
| LedDriver.LedMatrix.RenderRow | leddriver.cpp:45-66 | the CS bracket around the module loop writes exactly `HsyncEvents`; only the current accumulator row changes |
| LedDriver.LedMatrix.Hsync | leddriver.cpp:43-73 | the object's state after the call is exactly `Render.Hsync` of its state before, and the trace grows by exactly that scan's writes |
| LedDriver.LedMatrix.WriteFramebuffer | leddriver.cpp:75-78 | the object's state after the copy is exactly `WriteFrame(old state, data)` |

## Left out

- GPIO register access (`GPOS`/`GPOC`, leddriver.cpp:17) and `pinMode` (leddriver.cpp:85, 87, 89) are not modelled as hardware. Each line write is an event in a ghost trace, and a receiver model interprets the trace.
- Timer setup and control (`timer1_isr_init`, and `led_enable`, `led_divider` and `led_disable` at leddriver.cpp:103-125) are hardware configuration and are left out. Hsync is called directly.
- `random(255)` (leddriver.cpp:98) is replaced by a caller-supplied `seed` grid.
- LedDriver.LedMatrix.constructor accepts any byte as a seed value, 255 included. `random(255)` only yields 0..254, so the model covers a superset of the source's initial states.
- The vsync callback pointer (leddriver.cpp:11, 82) is replaced by the ghost log `vsyncLog` of the arguments it would receive. What the callback itself does is outside the driver.
- Concurrency between the interrupt and `led_write_framebuffer` (a frame written in the middle of a refresh) is not modelled. Every call runs to completion, one at a time.
- The `int` frame counter (leddriver.cpp:15, 71) is unbounded here. Its signed overflow after 2^31 frames is not modelled.
- `IRAM_ATTR` placement is a linker matter and has no behaviour to model.
- leddriver.h only declares these functions and the callback type, so it adds nothing to model.
