/** The circular index arithmetic of goTo, next and prev. */
module Navigation {

  /** A positive multiple of a positive number is at least that number. */
  lemma {:induction false} MulAtLeast(b: int, k: int)
    requires b > 0 && k >= 1
    ensures b * k >= b
    decreases k
  {
    if k > 1 {
      MulAtLeast(b, k - 1);
      assert b * k == b * (k - 1) + b;
    }
  }

  /** Division by a positive divisor has one quotient and one remainder: any
      decomposition a == b * q + r with 0 <= r < b is the one `/` and `%` give. */
  lemma DivModUnique(a: int, b: int, q: int, r: int)
    requires b > 0 && a == b * q + r && 0 <= r < b
    ensures a / b == q && a % b == r
  {
    var q0, r0 := a / b, a % b;
    assert a == b * q0 + r0;
    assert b * (q - q0) == b * q - b * q0;
    if q > q0 {
      MulAtLeast(b, q - q0);
    } else if q < q0 {
      MulAtLeast(b, q0 - q);
    }
  }

  /** JavaScript's remainder operator `a % b` on integers: the result takes the
      sign of the dividend (division truncates toward zero), unlike Dafny's `%`,
      whose result is never negative. */
  function JsRem(a: int, b: int): (r: int)
    requires b > 0
    ensures a >= 0 ==> 0 <= r < b
    ensures a < 0 ==> -b < r <= 0
    ensures (a - r) % b == 0
  {
    if a >= 0 then
      DivModUnique(a - a % b, b, a / b, 0);
      a % b
    else
      DivModUnique(a + (-a) % b, b, -((-a) / b), 0);
      -((-a) % b)
  }

  /** The index goTo(index) stores: `(index + slides.length) % slides.length`. */
  function Wrap(index: int, n: int): int
    requires n >= 1
  {
    JsRem(index + n, n)
  }

  /** Reference definition of the slide after c: one further, or back to the first. */
  function NextIndex(c: int, n: int): int {
    if c == n - 1 then 0 else c + 1
  }

  /** Reference definition of the slide before c: one back, or on to the last. */
  function PrevIndex(c: int, n: int): int {
    if c == 0 then n - 1 else c - 1
  }

  /** For every index its callers pass (index >= -n), goTo lands in range, on the
      slide congruent to index modulo n. */
  lemma WrapInRange(index: int, n: int)
    requires n >= 1 && index >= -n
    ensures 0 <= Wrap(index, n) < n
    ensures Wrap(index, n) == index % n
  {
    DivModUnique(index, n, (index + n) / n - 1, (index + n) % n);
  }

  /** An index already in range (a dot's own index) is stored as it is. */
  lemma WrapIdentity(i: int, n: int)
    requires 0 <= i < n
    ensures Wrap(i, n) == i
  {
  }

  /** Below -n the formula keeps the range only when n divides the index: with
      two or more slides, goTo(-n - 1) stores -1. No caller passes such an index. */
  lemma WrapBelowRange(n: int)
    requires n >= 2
    ensures Wrap(-n - 1, n) == -1
  {
  }

  /** next() is goTo(current + 1): it agrees with NextIndex on every valid index. */
  lemma NextIsWrap(c: int, n: int)
    requires 0 <= c < n
    ensures Wrap(c + 1, n) == NextIndex(c, n)
    ensures 0 <= NextIndex(c, n) < n
  {
  }

  /** prev() is goTo(current - 1): it agrees with PrevIndex on every valid index. */
  lemma PrevIsWrap(c: int, n: int)
    requires 0 <= c < n
    ensures Wrap(c - 1, n) == PrevIndex(c, n)
    ensures 0 <= PrevIndex(c, n) < n
  {
    if c > 0 {
      DivModUnique(c - 1 + n, n, 1, c - 1);
    } else {
      DivModUnique(n - 1, n, 0, n - 1);
    }
  }

  /** prev undoes next and next undoes prev. */
  lemma NextPrevInverse(c: int, n: int)
    requires 0 <= c < n
    ensures PrevIndex(NextIndex(c, n), n) == c
    ensures NextIndex(PrevIndex(c, n), n) == c
  {
  }
}
