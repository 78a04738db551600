/**
 * The crash-point draw (generateCrashPoint).
 *
 * The source draws a uniformly distributed unsigned 32-bit integer `h`, computes
 * floor((100 * 2^32 - h) / (2^32 - h)) / 100 and clamps the result below at 1.10.
 * The draw itself is a parameter here, and the value is kept exactly in hundredths.
 */
module Odds {

  /** The constant `e = 2 ** 32` of the draw: one more than the largest 32-bit draw. */
  const TwoPow32: nat := 0x1_0000_0000

  /** The floor of every crash point, in hundredths (1.10x). */
  const MinCrashCents: int := 110

  /** A value `crypto.getRandomValues(new Uint32Array(1))[0]` can produce. */
  predicate IsDraw(h: int) { 0 <= h < TwoPow32 }

  // ---------------------------------------------------------------------------
  // Integer division facts (Dafny's `/` on a positive divisor is the floor)
  // ---------------------------------------------------------------------------

  lemma MulMonotone(a: int, b: int, d: int)
    requires a <= b && 0 <= d
    ensures a * d <= b * d
  {
    assert b * d - a * d == (b - a) * d;
  }

  /** `x / d` is at least `k` exactly when `x` is at least `k * d`. */
  lemma {:induction false} DivAtLeast(x: int, d: int, k: int)
    requires 0 < d
    ensures x / d >= k <==> x >= k * d
  {
    var q, r := x / d, x % d;
    assert x == q * d + r && 0 <= r < d;
    if q >= k {
      MulMonotone(k, q, d);
    } else {
      MulMonotone(q + 1, k, d);
      assert (q + 1) * d == q * d + d;
    }
  }

  /** Adding a multiple of `d` to the dividend adds the multiplier to the quotient. */
  lemma {:induction false} DivAddMultiple(a: int, b: int, d: int)
    requires 0 < d
    ensures (a * d + b) / d == a + b / d
  {
    var x := a * d + b;
    var q := b / d;
    DivAtLeast(x, d, a + q);
    DivAtLeast(x, d, a + q + 1);
    assert x >= (a + q) * d by {
      assert b >= q * d;
      assert (a + q) * d == a * d + q * d;
    }
    assert x < (a + q + 1) * d by {
      assert b < (q + 1) * d by { DivAtLeast(b, d, q + 1); }
      assert (a + q + 1) * d == a * d + (q + 1) * d;
    }
  }

  // ---------------------------------------------------------------------------
  // The draw
  // ---------------------------------------------------------------------------

  /**
   * The unclamped crash value in hundredths, floor((100 * 2^32 - h) / (2^32 - h)).
   * It is 1.00x plus floor(99h / (2^32 - h)) hundredths: at least 1.00x, and
   * without an upper cap.
   */
  function Raw100(h: int): (r: int)
    requires IsDraw(h)
    ensures r == 100 + (99 * h) / (TwoPow32 - h)
    ensures r >= 100
  {
    DivAddMultiple(100, 99 * h, TwoPow32 - h);
    (100 * TwoPow32 - h) / (TwoPow32 - h)
  }

  /** `Math.max(1.10, crash)`, in hundredths. */
  function CrashPointCents(h: int): (r: int)
    requires IsDraw(h)
    ensures r >= MinCrashCents
    ensures r >= Raw100(h)
    ensures r == MinCrashCents || r == Raw100(h)
  {
    if Raw100(h) < MinCrashCents then MinCrashCents else Raw100(h)
  }

  /** The crash point the round uses, as a multiplier. */
  function CrashPoint(h: int): (r: real)
    requires IsDraw(h)
    ensures r >= 1.1
    ensures r * 100.0 == CrashPointCents(h) as real
  {
    CrashPointCents(h) as real / 100.0
  }

  /**
   * The exact tail of the unclamped draw: it reaches `c` hundredths precisely
   * when h * (c - 1) >= (c - 100) * 2^32.
   */
  lemma {:induction false} Raw100AtLeast(h: int, c: int)
    requires IsDraw(h) && c >= 100
    ensures Raw100(h) >= c <==> h * (c - 1) >= (c - 100) * TwoPow32
  {
    var d := TwoPow32 - h;
    DivAtLeast(99 * h, d, c - 100);
    assert (c - 100) * d == (c - 100) * TwoPow32 - (c - 100) * h;
    assert h * (c - 1) == 99 * h + (c - 100) * h;
  }

  /** A larger draw never gives a smaller unclamped crash value. */
  lemma {:induction false} Raw100Monotone(h1: int, h2: int)
    requires IsDraw(h1) && IsDraw(h2) && h1 <= h2
    ensures Raw100(h1) <= Raw100(h2)
  {
    var c := Raw100(h1);
    Raw100AtLeast(h1, c);
    MulMonotone(h1, h2, c - 1);
    Raw100AtLeast(h2, c);
  }

  /** A larger draw never gives a smaller crash point. */
  lemma {:induction false} CrashPointMonotone(h1: int, h2: int)
    requires IsDraw(h1) && IsDraw(h2) && h1 <= h2
    ensures CrashPoint(h1) <= CrashPoint(h2)
  {
    Raw100Monotone(h1, h2);
  }

  /** The first draw whose unclamped value reaches `c` hundredths: ceil((c - 100) * 2^32 / (c - 1)). */
  function TailStart(c: int): (t: int)
    requires c >= 100
    ensures 0 <= t <= TwoPow32
  {
    DivAtLeast((c - 100) * TwoPow32 + c - 2, c - 1, 0);
    DivAtLeast((c - 100) * TwoPow32 + c - 2, c - 1, TwoPow32 + 1);
    ((c - 100) * TwoPow32 + c - 2) / (c - 1)
  }

  /**
   * The draws that reach a crash point of at least `c` hundredths are exactly
   * those from TailStart(c) up: 2^32 - TailStart(c) of the 2^32 equally likely
   * draws, about 99 / (c - 1) of them (the 1/x tail with its house edge).
   * Below the 1.10 floor every draw qualifies.
   */
  lemma {:induction false} CrashPointAtLeast(h: int, c: int)
    requires IsDraw(h) && c >= 100
    ensures c <= MinCrashCents ==> CrashPointCents(h) >= c
    ensures c > MinCrashCents ==> (CrashPointCents(h) >= c <==> h >= TailStart(c))
  {
    Raw100AtLeast(h, c);
    var n := (c - 100) * TwoPow32;
    DivAtLeast(n + c - 2, c - 1, h + 1);
    assert (h + 1) * (c - 1) == h * (c - 1) + c - 1;
  }

  /**
   * Sample draws: the smallest draw is clamped to 1.10x, the middle draw gives
   * 1.99x, and 2136692272 of the 2^32 draws (about 49.75%) reach 2.00x.
   */
  lemma CrashPointSamples()
    ensures CrashPointCents(0) == 110
    ensures Raw100(0x8000_0000) == 199
    ensures TwoPow32 - TailStart(200) == 2136692272
  {
  }
}
