/** The screenshot carousel of the landing page (client/app/page.tsx): one
    index, `currentSlide`, moved forward by a five-second timer and by the
    right arrow, backward by the left arrow, and set directly by the dots. */
module Slideshow {

  /** The number of entries of `screenshots`. */
  const ScreenshotCount: nat := 5

  /** JavaScript's `%`: the remainder of division truncated toward zero, so it
      takes the sign of the dividend (Dafny's `%` never goes negative). */
  function JsRem(a: int, n: int): int
    requires n != 0
  {
    if a >= 0 then a % n else -((-a) % n)
  }

  /** The updater of the timer and of the right arrow: `(prev + 1) % n`. */
  function NextSlide(prev: int, n: int): int
    requires n != 0
  {
    JsRem(prev + 1, n)
  }

  /** The updater of the left arrow: `(prev - 1 + n) % n`. */
  function PrevSlide(prev: int, n: int): int
    requires n != 0
  {
    JsRem(prev - 1 + n, n)
  }

  predicate InRange(i: int, n: int) {
    0 <= i < n
  }

  /** Both arrows keep the index in range; "next" from the last
      slide goes to the first and "previous" from the first to the last. */
  lemma StepsStayInRange(prev: int, n: int)
    requires n > 0 && InRange(prev, n)
    ensures InRange(NextSlide(prev, n), n) && InRange(PrevSlide(prev, n), n)
    ensures NextSlide(prev, n) == if prev == n - 1 then 0 else prev + 1
    ensures PrevSlide(prev, n) == if prev == 0 then n - 1 else prev - 1
  {
    if prev == n - 1 { ModOfWrap(prev + 1, n); } else { ModOfSmall(prev + 1, n); }
    if prev == 0 { ModOfSmall(prev - 1 + n, n); } else { ModOfWrap(prev - 1 + n, n); }
  }

  lemma {:induction false} MulAtLeast(n: int, q: int)
    requires n > 0 && q >= 1
    ensures n * q >= n
  {
    if q > 1 {
      MulAtLeast(n, q - 1);
      assert n * q == n * (q - 1) + n;
    }
  }

  lemma {:induction false} MulAtMost(n: int, q: int)
    requires n > 0 && q <= -1
    ensures n * q <= -n
    decreases -q
  {
    if q < -1 {
      MulAtMost(n, q + 1);
      assert n * q == n * (q + 1) - n;
    }
  }

  /** Dafny's `%` on a dividend already in `[0, n)` leaves it alone. */
  lemma ModOfSmall(a: int, n: int)
    requires n > 0 && 0 <= a < n
    ensures a % n == a
  {
    var q := a / n;
    assert a == n * q + a % n;
    if q >= 1 { MulAtLeast(n, q); }
    if q <= -1 { MulAtMost(n, q); }
  }

  /** Dafny's `%` on a dividend in `[n, 2n)` subtracts `n` once. */
  lemma ModOfWrap(a: int, n: int)
    requires n > 0 && n <= a < 2 * n
    ensures a % n == a - n
  {
    var q := a / n;
    assert a == n * q + a % n;
    if q >= 2 {
      assert n * q == n * (q - 1) + n;
      MulAtLeast(n, q - 1);
    }
  }

  /** "Previous" undoes "next" and "next" undoes "previous". */
  lemma StepsAreInverse(prev: int, n: int)
    requires n > 0 && InRange(prev, n)
    ensures PrevSlide(NextSlide(prev, n), n) == prev
    ensures NextSlide(PrevSlide(prev, n), n) == prev
  {
    StepsStayInRange(prev, n);
    StepsStayInRange(NextSlide(prev, n), n);
    StepsStayInRange(PrevSlide(prev, n), n);
  }

  /** `k` ticks of the timer. */
  function Advance(prev: int, n: int, k: nat): int
    requires n != 0
  {
    if k == 0 then prev else NextSlide(Advance(prev, n, k - 1), n)
  }

  /** Before the wrap, each tick moves one slide on. */
  lemma {:induction false} AdvanceBeforeWrap(prev: int, n: int, k: nat)
    requires n > 0 && InRange(prev, n) && prev + k < n
    ensures Advance(prev, n, k) == prev + k
  {
    if k > 0 {
      AdvanceBeforeWrap(prev, n, k - 1);
      StepsStayInRange(prev + k - 1, n);
    }
  }

  /** Ticking `a` times and then `b` times is ticking `a + b` times. */
  lemma {:induction false} AdvanceCompose(prev: int, n: int, a: nat, b: nat)
    requires n != 0
    ensures Advance(prev, n, a + b) == Advance(Advance(prev, n, a), n, b)
  {
    if b > 0 {
      AdvanceCompose(prev, n, a, b - 1);
    }
  }

  /** After `n` ticks the carousel is back at the slide it started from, so
      the timer cycles with period `n`. */
  lemma AdvanceFullCircle(prev: int, n: int, k: nat)
    requires n > 0 && InRange(prev, n)
    ensures Advance(prev, n, n) == prev
    ensures Advance(prev, n, k + n) == Advance(prev, n, k)
  {
    var toLast := n - 1 - prev;
    AdvanceBeforeWrap(prev, n, toLast);
    StepsStayInRange(n - 1, n);
    AdvanceCompose(prev, n, toLast, 1);
    AdvanceBeforeWrap(0, n, prev);
    AdvanceCompose(prev, n, toLast + 1, prev);
    AdvanceCompose(prev, n, n, k);
    AdvanceCompose(prev, n, k, n);
    AdvanceAfterReturn(prev, n, k);
  }

  lemma {:induction false} AdvanceAfterReturn(prev: int, n: int, k: nat)
    requires n > 0 && InRange(prev, n) && Advance(prev, n, n) == prev
    ensures Advance(Advance(prev, n, k), n, n) == Advance(prev, n, k)
  {
    if k > 0 {
      AdvanceAfterReturn(prev, n, k - 1);
      AdvanceCompose(prev, n, k - 1, n + 1);
      AdvanceCompose(prev, n, k, n);
      AdvanceCompose(prev, n, n, k);
    }
  }

  /** The carousel's state: the index of the slide on show. */
  class Carousel {
    var currentSlide: int

    ghost predicate Valid()
      reads this
    {
      InRange(currentSlide, ScreenshotCount)
    }

    /** `useState(0)`. */
    constructor ()
      ensures Valid() && currentSlide == 0
    {
      currentSlide := 0;
    }

    /** The updater shared by the five-second interval and the right arrow. */
    method Next()
      requires Valid()
      modifies this
      ensures Valid()
      ensures currentSlide == NextSlide(old(currentSlide), ScreenshotCount)
      ensures currentSlide == if old(currentSlide) == ScreenshotCount - 1 then 0 else old(currentSlide) + 1
    {
      StepsStayInRange(currentSlide, ScreenshotCount);
      currentSlide := NextSlide(currentSlide, ScreenshotCount);
    }

    /** The left arrow. */
    method Previous()
      requires Valid()
      modifies this
      ensures Valid()
      ensures currentSlide == PrevSlide(old(currentSlide), ScreenshotCount)
      ensures currentSlide == if old(currentSlide) == 0 then ScreenshotCount - 1 else old(currentSlide) - 1
    {
      StepsStayInRange(currentSlide, ScreenshotCount);
      currentSlide := PrevSlide(currentSlide, ScreenshotCount);
    }

    /** A dot: the dots are drawn from `screenshots.map`, so `index` is one of
      the screenshot positions. */
    method Select(index: nat)
      requires index < ScreenshotCount
      modifies this
      ensures Valid() && currentSlide == index
    {
      currentSlide := index;
    }
  }
}
