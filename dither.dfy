/** First-order pulse-density modulation of one pixel: the accumulator
    update of led_hsync (leddriver.cpp:53-56). The 8-bit accumulator
    absorbs the brightness each time the pixel is scanned, and the pixel is
    lit exactly when the unwrapped sum overflows 8 bits. */
module Dither {
  import opened Panel

  /** The new accumulator value and the emitted pixel bit. */
  datatype Pixel = Pixel(acc: byte, lit: bool)

  /** One scan of a pixel with accumulator `acc` and brightness `b`:
      `val = acc + b`, `acc := (uint8_t) val`, `c = val > 255`. Nothing is
      lost: the new accumulator plus 256 for a lit pixel is the old sum. */
  function Step(acc: byte, b: byte): (r: Pixel)
    ensures acc + b == r.acc + (if r.lit then 256 else 0)
  {
    var v := acc + b;
    Pixel(v % 256, v > 255)
  }

  /** n scans of one pixel at constant brightness b: the final accumulator
      and how many scans lit the pixel. The brightness fed in, plus the
      starting accumulator, is accounted for by 256 per lit scan plus what
      is left in the accumulator. */
  function Run(acc: byte, b: byte, n: nat): (r: (byte, nat))
    ensures acc + b * n == r.0 + 256 * r.1
    ensures r.1 <= n
    decreases n
  {
    if n == 0 then (acc, 0)
    else
      var before := Run(acc, b, n - 1);
      var p := Step(before.0, b);
      assert b * n == b * (n - 1) + b;
      (p.acc, before.1 + (if p.lit then 1 else 0))
  }

  /** Closed form: after n scans the accumulator holds (acc + n*b) mod 256
      and the pixel has been lit floor((acc + n*b) / 256) times. */
  lemma RunClosedForm(acc: byte, b: byte, n: nat)
    ensures Run(acc, b, n).0 == (acc + b * n) % 256
    ensures Run(acc, b, n).1 == (acc + b * n) / 256
  {
    var r := Run(acc, b, n);
    var v := acc + b * n;
    assert v == r.0 + 256 * r.1;
    WrapUnique(r.0, r.1, v % 256, v / 256);
  }

  /** Exact pulse density: over 256 scans at constant brightness b a pixel
      is lit exactly b times, and its accumulator returns to where it
      started, whatever that was. */
  lemma PulseDensity(acc: byte, b: byte)
    ensures Run(acc, b, 256) == (acc, b)
  {
    var r := Run(acc, b, 256);
    WrapUnique(acc, b, r.0, r.1);
  }

  /** Two ways of writing one number as a byte plus a multiple of 256 agree. */
  lemma WrapUnique(a: int, k: int, a': int, k': int)
    requires 0 <= a < 256 && 0 <= a' < 256
    requires a + 256 * k == a' + 256 * k'
    ensures a == a' && k == k'
  {
  }

  /** A black pixel is never lit; a fully bright one starting from an empty
      accumulator stays dark on the first scan and lights on the second. */
  lemma Extremes(acc: byte, n: nat)
    ensures Run(acc, 0, n) == (acc, 0)
    ensures !Step(0, 255).lit && Step(Step(0, 255).acc, 255).lit
  {
    RunClosedForm(acc, 0, n);
  }
}
