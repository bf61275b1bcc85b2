/**
 The pixel budget of a rasterized page. Scales are reals and the square root is any
 function that is one; rounding of floating-point numbers is not part of this model.
 */
module Rasterization {
  import opened Basics

  function Ceil(x: real): (n: int)
    ensures x <= n as real < x + 1.0
  {
    -((-x).Floor)
  }

  ghost predicate IsSqrt(sqrt: real -> real) {
    forall x: real :: x >= 0.0 ==> sqrt(x) >= 0.0 && sqrt(x) * sqrt(x) == x
  }

  datatype Page = Page(width: real, height: real)

  predicate Positive(p: Page) {
    p.width > 0.0 && p.height > 0.0
  }

  /** One side of the page in pixels, rounded up. */
  function Side(length: real, scale: real): int {
    Max(1, Ceil(length * scale))
  }

  function Pixels(p: Page, scale: real): int {
    Side(p.width, scale) * Side(p.height, scale)
  }

  /** `permits`. */
  predicate Permits(width: int, height: int, maxPixels: nat) {
    width > 0 && height > 0 && width * height <= maxPixels
  }

  /** The page in whole pixels is within the limit. */
  predicate Fits(p: Page, scale: real, maxPixels: nat) {
    Pixels(p, scale) <= maxPixels
  }

  /** The next scale the loop tries, for a page of `w` by `h` pixels. */
  function Next(w: int, h: int, scale: real, byHeight: real, byWidth: real, factor: real): real {
    if w == 1 then RMin(scale, byHeight) * 0.99
    else if h == 1 then RMin(scale, byWidth) * 0.99
    else Scaled(scale, factor)
  }

  function Scaled(scale: real, factor: real): real {
    scale * (factor * 0.99)
  }

  function Shrink(sqrt: real -> real, p: Page, scale: real, maxPixels: nat): real
    requires Positive(p)
  {
    Next(Side(p.width, scale), Side(p.height, scale), scale, maxPixels as real / p.height, maxPixels as real / p.width,
         AreaFactor(sqrt, p, scale, maxPixels))
  }

  /** The factor that brings the area of the page down to the limit. */
  function AreaFactor(sqrt: real -> real, p: Page, scale: real, maxPixels: nat): real {
    PixelsPositive(p, scale);
    sqrt(maxPixels as real / Pixels(p, scale) as real)
  }

  function RMin(a: real, b: real): real {
    if a <= b then a else b
  }

  /** The scale after `k` rounds. */
  function Tried(sqrt: real -> real, p: Page, initial: real, maxPixels: nat, k: nat): real
    requires Positive(p)
  {
    if k == 0 then initial else Shrink(sqrt, p, Tried(sqrt, p, initial, maxPixels, k - 1), maxPixels)
  }

  /** None of the first `k` scales fits. */
  predicate Unfit(sqrt: real -> real, p: Page, initial: real, maxPixels: nat, k: nat)
    requires Positive(p)
  {
    k == 0
    || (Unfit(sqrt, p, initial, maxPixels, k - 1) && !Fits(p, Tried(sqrt, p, initial, maxPixels, k - 1), maxPixels))
  }

  // ----- Arithmetic -----

  lemma {:induction false} MulLe(a: real, b: real, c: real)
    requires a <= b && 0.0 <= c
    ensures a * c <= b * c && c * a <= c * b
  {
  }

  lemma {:induction false} DivTimes(a: real, b: real)
    requires b > 0.0
    ensures b * (a / b) == a
  {
  }

  lemma {:induction false} DivPositive(a: real, b: real)
    requires a > 0.0 && b > 0.0
    ensures a / b > 0.0
    ensures a < b ==> a / b < 1.0
  {
    DivTimes(a, b);
    if a / b <= 0.0 { MulLe(a / b, 0.0, b); }
    if a < b && a / b >= 1.0 { MulLe(1.0, a / b, b); }
  }

  lemma {:induction false} RootBelowOne(r: real, q: real)
    requires r >= 0.0 && r * r == q && 0.0 < q < 1.0
    ensures 0.0 < r < 1.0
  {
    if r >= 1.0 { MulLe(1.0, r, r); }
  }

  // ----- One round -----

  lemma {:induction false} SideOneIff(length: real, scale: real)
    ensures Side(length, scale) == 1 <==> length * scale <= 1.0
    ensures Side(length, scale) >= 1
  {
  }

  lemma {:induction false} SideAtMost(length: real, scale: real, n: nat)
    requires n >= 1 && length * scale <= n as real
    ensures Side(length, scale) <= n
  {
  }

  /** A page that does not fit is longer than one pixel on some side. */
  lemma {:induction false} SomeSideLong(p: Page, scale: real, maxPixels: nat)
    requires maxPixels >= 1 && !Fits(p, scale, maxPixels)
    ensures p.width * scale >= 1.0 || p.height * scale >= 1.0
  {
    SideOneIff(p.width, scale);
    SideOneIff(p.height, scale);
  }

  lemma {:induction false} PixelsPositive(p: Page, scale: real)
    ensures Pixels(p, scale) >= 1
  {
    SideOneIff(p.width, scale);
    SideOneIff(p.height, scale);
  }

  /** Every round loses at least one part in a hundred and stays positive. */
  lemma {:induction false} ShrinkShrinks(sqrt: real -> real, p: Page, scale: real, maxPixels: nat)
    requires IsSqrt(sqrt) && Positive(p) && scale > 0.0 && maxPixels >= 1 && !Fits(p, scale, maxPixels)
    ensures 0.0 < Shrink(sqrt, p, scale, maxPixels) <= scale * 0.99
  {
    RootShrinks(sqrt, p, scale, maxPixels);
    DivPositive(maxPixels as real, p.height);
    DivPositive(maxPixels as real, p.width);
    NextShrinks(Side(p.width, scale), Side(p.height, scale), scale, maxPixels as real / p.height,
                maxPixels as real / p.width, AreaFactor(sqrt, p, scale, maxPixels));
  }

  lemma {:induction false} NextShrinks(w: int, h: int, scale: real, byHeight: real, byWidth: real, factor: real)
    requires scale > 0.0 && byHeight > 0.0 && byWidth > 0.0 && 0.0 < factor < 1.0
    ensures 0.0 < Next(w, h, scale, byHeight, byWidth, factor) <= scale * 0.99
  {
    if w != 1 && h != 1 {
      ScaleDown(scale, factor);
    }
  }

  lemma {:induction false} RootShrinks(sqrt: real -> real, p: Page, scale: real, maxPixels: nat)
    requires IsSqrt(sqrt) && maxPixels >= 1 && !Fits(p, scale, maxPixels)
    ensures 0.0 < AreaFactor(sqrt, p, scale, maxPixels) < 1.0
  {
    PixelsPositive(p, scale);
    var area := Pixels(p, scale) as real;
    DivPositive(maxPixels as real, area);
    RootBelowOne(AreaFactor(sqrt, p, scale, maxPixels), maxPixels as real / area);
  }

  lemma {:induction false} ScaleDown(scale: real, r: real)
    requires scale > 0.0 && 0.0 < r < 1.0
    ensures 0.0 < Scaled(scale, r) <= scale * 0.99
  {
    MulLe(r * 0.99, 0.99, scale);
  }

  /** Once one side is a single pixel, the next scale fits. */
  lemma {:induction false} OneSideDone(sqrt: real -> real, p: Page, scale: real, maxPixels: nat)
    requires Positive(p) && scale > 0.0 && maxPixels >= 1
    requires Side(p.width, scale) == 1 || Side(p.height, scale) == 1
    ensures Fits(p, Shrink(sqrt, p, scale, maxPixels), maxPixels)
  {
    if Side(p.width, scale) == 1 {
      ThinFits(p.width, p.height, scale, maxPixels);
    } else {
      ThinFits(p.height, p.width, scale, maxPixels);
    }
  }

  lemma {:induction false} ThinFits(thin: real, long: real, scale: real, maxPixels: nat)
    requires thin > 0.0 && long > 0.0 && scale > 0.0 && maxPixels >= 1 && Side(thin, scale) == 1
    ensures
      var next := RMin(scale, maxPixels as real / long) * 0.99;
      Side(thin, next) == 1 && Side(long, next) <= maxPixels
  {
    var m := maxPixels as real;
    var next := RMin(scale, m / long) * 0.99;
    DivPositive(m, long);
    SideOneIff(thin, scale);
    MulLe(next, scale, thin);
    SideOneIff(thin, next);
    DivTimes(m, long);
    MulLe(next, m / long, long);
    SideAtMost(long, next, maxPixels);
  }

  // ----- What one round does exactly -----

  /** A side is the least whole number of pixels that covers it, and one at least. */
  lemma {:induction false} SideIs(length: real, scale: real, n: int)
    ensures Side(length, scale) == n
      <==> n >= 1 && length * scale <= n as real && (n == 1 || (n - 1) as real < length * scale)
  {
  }

  /**
   The next scale after one that does not fit. Of a page one pixel wide or high the other side
   becomes 0.99 of the limit; otherwise the area of the page becomes the limit, times 0.99 squared.
   */
  lemma {:induction false} ShrinksExactly(sqrt: real -> real, p: Page, scale: real, maxPixels: nat)
    requires IsSqrt(sqrt) && Positive(p) && scale > 0.0 && maxPixels >= 1 && !Fits(p, scale, maxPixels)
    ensures
      var next, m := Shrink(sqrt, p, scale, maxPixels), maxPixels as real;
      if p.width * scale <= 1.0 then next * p.height == m * 0.99
      else if p.height * scale <= 1.0 then next * p.width == m * 0.99
      else next * next * Pixels(p, scale) as real == scale * scale * (m * 0.9801)
  {
    SideOneIff(p.width, scale);
    SideOneIff(p.height, scale);
    if p.width * scale <= 1.0 {
      ThinNext(p.width, p.height, scale, maxPixels);
    } else if p.height * scale <= 1.0 {
      ThinNext(p.height, p.width, scale, maxPixels);
    } else {
      PixelsPositive(p, scale);
      AreaNext(scale, AreaFactor(sqrt, p, scale, maxPixels), maxPixels as real, Pixels(p, scale) as real);
    }
  }

  /** The minimum is always the second number: the scale alone would have fit. */
  lemma {:induction false} ThinNext(thin: real, long: real, scale: real, maxPixels: nat)
    requires thin > 0.0 && long > 0.0 && scale > 0.0 && maxPixels >= 1
    requires Side(thin, scale) == 1 && Side(long, scale) > maxPixels
    ensures RMin(scale, maxPixels as real / long) * 0.99 * long == maxPixels as real * 0.99
  {
    var m := maxPixels as real;
    DivTimes(m, long);
    if long * scale <= m {
      SideAtMost(long, scale, maxPixels);
    }
    if scale < m / long {
      MulLe(scale, m / long, long);
    }
    var chosen := RMin(scale, m / long);
    assert chosen == m / long;
    assert chosen * 0.99 * long == long * chosen * 0.99;
  }

  lemma {:induction false} ProductSquare(a: real, b: real)
    ensures (a * b) * (a * b) == (a * a) * (b * b)
  {
  }

  lemma {:induction false} AreaNext(scale: real, factor: real, m: real, area: real)
    requires area > 0.0 && factor * factor == m / area
    ensures Scaled(scale, factor) * Scaled(scale, factor) * area == scale * scale * (m * 0.9801)
  {
    var f, square := factor * 0.99, scale * scale;
    ProductSquare(scale, f);
    ProductSquare(factor, 0.99);
    DivTimes(m, area);
    assert f * f == m / area * 0.9801;
    Times(square, f * f, area);
    assert f * f * area == m * 0.9801 by {
      Times(0.9801, m / area, area);
    }
  }

  lemma {:induction false} Times(a: real, b: real, c: real)
    ensures a * b * c == a * (b * c) && b * c == c * b
  {
  }

  // ----- The loop -----

  function HalfPerimeter(p: Page): real {
    p.width + p.height
  }

  /** A bound on the number of rounds. */
  function Rounds(p: Page, initial: real): int {
    Ceil(100.0 * initial * HalfPerimeter(p))
  }

  /** The first scale after losing one part in a hundred `k` times. */
  function Decayed(initial: real, k: nat): real {
    if k == 0 then initial else Decayed(initial, k - 1) * 0.99
  }

  lemma {:induction false} DecayBound(initial: real, k: nat)
    requires initial > 0.0
    ensures 0.0 < Decayed(initial, k) <= initial
    ensures Decayed(initial, k) * (100.0 + k as real) <= 100.0 * initial
  {
    if k > 0 {
      DecayBound(initial, k - 1);
      BoundStep(Decayed(initial, k - 1), initial, (k - 1) as real);
    }
  }

  lemma {:induction false} BoundStep(scale: real, initial: real, n: real)
    requires scale > 0.0 && n >= 0.0
    requires scale * (100.0 + n) <= 100.0 * initial
    ensures scale * 0.99 * (101.0 + n) <= 100.0 * initial
  {
    assert 0.99 * (101.0 + n) <= 100.0 + n;
    MulLe(0.99 * (101.0 + n), 100.0 + n, scale);
    assert scale * 0.99 * (101.0 + n) == scale * (0.99 * (101.0 + n));
  }

  lemma {:induction false} RoundsLeft(p: Page, scale: real, initial: real, maxPixels: nat, k: nat)
    requires Positive(p) && initial > 0.0 && maxPixels >= 1 && !Fits(p, scale, maxPixels)
    requires 0.0 < scale <= Decayed(initial, k)
    ensures k < Rounds(p, initial)
  {
    var sum := SumLong(p, scale, maxPixels);
    RoundsOf(sum, scale, initial, k);
  }

  lemma {:induction false} RoundsOf(sum: real, scale: real, initial: real, k: nat)
    requires initial > 0.0 && sum > 0.0 && sum * scale >= 1.0 && 0.0 < scale <= Decayed(initial, k)
    ensures k < Ceil(100.0 * initial * sum)
  {
    DecayBound(initial, k);
    RoundsSuffice(sum, scale, Decayed(initial, k), initial, k);
  }

  lemma {:induction false} RoundsSuffice(sum: real, scale: real, decayed: real, initial: real, k: nat)
    requires sum > 0.0 && 0.0 < scale <= decayed && sum * scale >= 1.0
    requires decayed * (100.0 + k as real) <= 100.0 * initial
    ensures k < Ceil(100.0 * initial * sum)
  {
    EnoughRounds(sum, scale, decayed, 100.0 * initial, 100.0 + k as real);
    BelowCeil(100.0 * initial * sum, k);
  }

  lemma {:induction false} BelowCeil(x: real, k: nat)
    requires 100.0 + k as real <= x
    ensures k < Ceil(x)
  {
  }

  lemma {:induction false} SumLong(p: Page, scale: real, maxPixels: nat) returns (sum: real)
    requires Positive(p) && scale > 0.0 && maxPixels >= 1 && !Fits(p, scale, maxPixels)
    ensures sum == HalfPerimeter(p) && sum * scale >= 1.0
  {
    sum := HalfPerimeter(p);
    SomeSideLong(p, scale, maxPixels);
    MulLe(p.width, sum, scale);
    MulLe(p.height, sum, scale);
  }

  lemma {:induction false} EnoughRounds(sum: real, scale: real, decayed: real, bound: real, n: real)
    requires sum > 0.0 && 0.0 < scale <= decayed && n > 0.0
    requires sum * scale >= 1.0
    requires decayed * n <= bound
    ensures n <= bound * sum
  {
    MulLe(scale, decayed, sum);
    MulLe(1.0, sum * decayed, n);
    MulLe(decayed * n, bound, sum);
    Reorder(sum, decayed, n);
  }

  lemma {:induction false} Reorder(a: real, b: real, c: real)
    ensures a * b * c == b * c * a
  {
  }

  /** After `k` rounds without a fit the scale has lost one part in a hundred `k` times and is still positive. */
  lemma {:induction false} ScaleFalls(sqrt: real -> real, p: Page, initial: real, maxPixels: nat, k: nat)
    requires IsSqrt(sqrt) && Positive(p) && maxPixels >= 1 && initial > 0.0
    requires Unfit(sqrt, p, initial, maxPixels, k)
    ensures 0.0 < Tried(sqrt, p, initial, maxPixels, k) <= Decayed(initial, k)
  {
    if k > 0 {
      ScaleFalls(sqrt, p, initial, maxPixels, k - 1);
      ShrinkShrinks(sqrt, p, Tried(sqrt, p, initial, maxPixels, k - 1), maxPixels);
    }
  }

  /** Hence the number of rounds without a fit is bounded. */
  lemma {:induction false} UnfitBounded(sqrt: real -> real, p: Page, initial: real, maxPixels: nat, k: nat)
    requires IsSqrt(sqrt) && Positive(p) && maxPixels >= 1 && initial > 0.0
    requires Unfit(sqrt, p, initial, maxPixels, k)
    ensures 0.0 < Tried(sqrt, p, initial, maxPixels, k) <= initial
    ensures k > 0 ==> k <= Rounds(p, initial)
  {
    ScaleFalls(sqrt, p, initial, maxPixels, k);
    DecayBound(initial, k);
    if k > 0 {
      ScaleFalls(sqrt, p, initial, maxPixels, k - 1);
      RoundsLeft(p, Tried(sqrt, p, initial, maxPixels, k - 1), initial, maxPixels, k - 1);
    }
  }

  lemma {:induction false} UnfitBefore(sqrt: real -> real, p: Page, initial: real, maxPixels: nat, k: nat, j: nat)
    requires Positive(p) && Unfit(sqrt, p, initial, maxPixels, k) && j < k
    ensures !Fits(p, Tried(sqrt, p, initial, maxPixels, j), maxPixels)
  {
    if j < k - 1 { UnfitBefore(sqrt, p, initial, maxPixels, k - 1, j); }
  }

  lemma {:induction false} NoneFitBefore(sqrt: real -> real, p: Page, initial: real, maxPixels: nat, k: nat, j: nat)
    requires Positive(p) && Unfit(sqrt, p, initial, maxPixels, k)
    ensures j < k ==> !Fits(p, Tried(sqrt, p, initial, maxPixels, j), maxPixels)
  {
    if j < k {
      UnfitBefore(sqrt, p, initial, maxPixels, k, j);
    }
  }

  /**
   `bounded_scale`: rejects what is not positive; otherwise returns the first scale it
   tries that fits, starting from `dpi / 72`, after a bounded number of rounds.
   */
  method BoundedScale(sqrt: real -> real, maxPixels: nat, p: Page, dpi: int)
    returns (r: Option<real>, ghost rounds: nat)
    requires IsSqrt(sqrt) && maxPixels >= 1
    ensures r.None? <==> !Positive(p) || dpi <= 0
    ensures r.Some? ==> 0.0 < r.value <= dpi as real / 72.0 && Fits(p, r.value, maxPixels)
    ensures r.Some? ==> r.value == Tried(sqrt, p, dpi as real / 72.0, maxPixels, rounds)
    ensures r.Some? ==> Unfit(sqrt, p, dpi as real / 72.0, maxPixels, rounds)
    ensures r.Some? && rounds > 0 ==> rounds <= Rounds(p, dpi as real / 72.0)
  {
    rounds := 0;
    if p.width <= 0.0 || p.height <= 0.0 || dpi <= 0 {
      return None, 0;
    }
    ghost var initial := dpi as real / 72.0;
    var scale := dpi as real / 72.0;
    while true
      invariant scale == Tried(sqrt, p, initial, maxPixels, rounds)
      invariant Unfit(sqrt, p, initial, maxPixels, rounds)
      decreases Rounds(p, initial) - rounds
    {
      UnfitBounded(sqrt, p, initial, maxPixels, rounds);
      var fits, next := Round(sqrt, maxPixels, p, scale);
      if fits {
        return Some(scale), rounds;
      }
      UnfitBounded(sqrt, p, initial, maxPixels, rounds + 1);
      scale, rounds := next, rounds + 1;
    }
  }

  /** The body of the loop. */
  method Round(sqrt: real -> real, maxPixels: nat, p: Page, scale: real) returns (fits: bool, next: real)
    requires Positive(p)
    ensures fits <==> Fits(p, scale, maxPixels)
    ensures !fits ==> next == Shrink(sqrt, p, scale, maxPixels)
  {
    PixelsPositive(p, scale);
    next := scale;
    var scaledWidth := Side(p.width, scale);
    var scaledHeight := Side(p.height, scale);
    var pixels := scaledWidth * scaledHeight;
    fits := pixels <= maxPixels;
    if !fits {
      if scaledWidth == 1 {
        next := RMin(scale, maxPixels as real / p.height) * 0.99;
      } else if scaledHeight == 1 {
        next := RMin(scale, maxPixels as real / p.width) * 0.99;
      } else {
        next := Scaled(scale, sqrt(maxPixels as real / pixels as real));
      }
    }
  }

  /** A page that fits passes the check of the rendered image. */
  lemma {:induction false} FittingIsPermitted(p: Page, scale: real, maxPixels: nat)
    ensures Fits(p, scale, maxPixels) <==> Permits(Side(p.width, scale), Side(p.height, scale), maxPixels)
  {
    SideOneIff(p.width, scale);
    SideOneIff(p.height, scale);
  }

  /** A page that already fits at `dpi / 72` is rendered at exactly that scale. */
  lemma {:induction false} FitsAtOnce(sqrt: real -> real, p: Page, initial: real, maxPixels: nat, rounds: nat)
    requires Positive(p) && Unfit(sqrt, p, initial, maxPixels, rounds)
    requires Fits(p, initial, maxPixels)
    ensures rounds == 0 && Tried(sqrt, p, initial, maxPixels, rounds) == initial
  {
    NoneFitBefore(sqrt, p, initial, maxPixels, rounds, 0);
  }

  /** Once one side is a single pixel, at most one more round is needed. */
  lemma {:induction false} OneSideLastRound(sqrt: real -> real, p: Page, initial: real, maxPixels: nat, rounds: nat,
      k: nat)
    requires IsSqrt(sqrt) && Positive(p) && maxPixels >= 1 && initial > 0.0
    requires Unfit(sqrt, p, initial, maxPixels, rounds) && k <= rounds
    requires
      var scale := Tried(sqrt, p, initial, maxPixels, k);
      Side(p.width, scale) == 1 || Side(p.height, scale) == 1
    ensures rounds <= k + 1
  {
    UnfitPrefix(sqrt, p, initial, maxPixels, rounds, k);
    ScaleFalls(sqrt, p, initial, maxPixels, k);
    OneSideDone(sqrt, p, Tried(sqrt, p, initial, maxPixels, k), maxPixels);
    NoneFitBefore(sqrt, p, initial, maxPixels, rounds, k + 1);
  }

  lemma {:induction false} UnfitPrefix(sqrt: real -> real, p: Page, initial: real, maxPixels: nat, n: nat, k: nat)
    requires Positive(p) && Unfit(sqrt, p, initial, maxPixels, n) && k <= n
    ensures Unfit(sqrt, p, initial, maxPixels, k)
  {
    if k < n { UnfitPrefix(sqrt, p, initial, maxPixels, n - 1, k); }
  }
}
