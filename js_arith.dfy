/**
 * JavaScript's remainder operator and the wrap helper `idx` built on it.
 *
 * JavaScript's `%` truncates: the result carries the sign of the dividend
 * (`-5 % 3 == -2`), whereas Dafny's `%` is Euclidean (`-5 % 3 == 1`).
 * Every `%` of the carousel is modelled by `JsRem`, and the lemmas here
 * relate it to Dafny's `%`.
 */
module JsArith {

  // ---------------------------------------------------------------------
  // Euclidean division facts used throughout
  // ---------------------------------------------------------------------

  lemma MulAtLeast(k: int, b: int)
    requires k >= 1 && b > 0
    ensures k * b >= b
  {
    assert k * b == (k - 1) * b + b;
  }

  /** Quotient and remainder are determined by `a == q * b + m` with `0 <= m < b`. */
  lemma ModUnique(a: int, b: int, q: int, m: int)
    requires b > 0 && 0 <= m < b && a == q * b + m
    ensures a / b == q && a % b == m
  {
    var q', m' := a / b, a % b;
    assert a == q' * b + m';
    assert (q - q') * b == m' - m;
    if q > q' {
      MulAtLeast(q - q', b);
    } else if q < q' {
      MulAtLeast(q' - q, b);
    }
  }

  lemma ModAddMultiple(x: int, k: int, b: int)
    requires b > 0
    ensures (x + k * b) % b == x % b
  {
    assert x == (x / b) * b + x % b;
    ModUnique(x + k * b, b, x / b + k, x % b);
  }

  lemma ModSmall(x: int, b: int)
    requires 0 <= x < b
    ensures x % b == x
  {
    ModUnique(x, b, 0, x);
  }

  /** Adding a remainder instead of its dividend does not change the remainder. */
  lemma ModAddMod(x: int, y: int, b: int)
    requires b > 0
    ensures (x % b + y) % b == (x + y) % b
  {
    assert x == (x / b) * b + x % b;
    ModAddMultiple(x % b + y, x / b, b);
  }

  /** Subtracting a remainder instead of its dividend does not change the remainder. */
  lemma ModSubMod(x: int, y: int, b: int)
    requires b > 0
    ensures (x - y % b) % b == (x - y) % b
  {
    assert y == (y / b) * b + y % b;
    ModAddMultiple(x - y, y / b, b);
  }

  /** Two values closer than `b` with the same remainder are equal. */
  lemma ModEqClose(x: int, y: int, b: int)
    requires b > 0 && x % b == y % b && -b < x - y < b
    ensures x == y
  {
    assert x == (x / b) * b + x % b;
    assert y == (y / b) * b + y % b;
    assert x - y == (x / b - y / b) * b;
    if x / b > y / b {
      MulAtLeast(x / b - y / b, b);
    } else if x / b < y / b {
      MulAtLeast(y / b - x / b, b);
    }
  }

  /** The remainder of a successor. */
  lemma ModSucc(x: int, b: int)
    requires b > 0
    ensures (x + 1) % b == if x % b == b - 1 then 0 else x % b + 1
  {
    assert x == (x / b) * b + x % b;
    if x % b == b - 1 {
      ModUnique(x + 1, b, x / b + 1, 0);
    } else {
      ModUnique(x + 1, b, x / b, x % b + 1);
    }
  }

  lemma MulStrict(a: int, c: int, w: int)
    requires a < c && w > 0
    ensures a * w < c * w
  {
    assert c * w - a * w == (c - a) * w;
    MulAtLeast(c - a, w);
  }

  /** Euclidean remainder of a negated value. */
  lemma NegMod(x: int, b: int)
    requires b > 0
    ensures (-x) % b == if x % b == 0 then 0 else b - x % b
  {
    assert x == (x / b) * b + x % b;
    if x % b == 0 {
      ModUnique(-x, b, -(x / b), 0);
    } else {
      ModUnique(-x, b, -(x / b) - 1, b - x % b);
    }
  }

  /** Scaling dividend and divisor by the same positive factor scales the remainder. */
  lemma ModScale(a: int, b: int, w: int)
    requires b > 0 && w > 0
    ensures (a * w) % (b * w) == (a % b) * w
  {
    var q, m := a / b, a % b;
    assert a == q * b + m;
    assert a * w == q * (b * w) + m * w;
    assert m * w < b * w by {
      assert b * w - m * w == (b - m) * w;
      MulAtLeast(b - m, w);
    }
    assert 0 <= m * w;
    ModUnique(a * w, b * w, q, m * w);
  }

  // ---------------------------------------------------------------------
  // JavaScript `%`
  // ---------------------------------------------------------------------

  /** `a % b` as JavaScript computes it on integral numbers, for a positive divisor. */
  function JsRem(a: int, b: int): (r: int)
    requires b > 0
    ensures -b < r < b
    ensures a >= 0 ==> r >= 0
    ensures a <= 0 ==> r <= 0
  {
    if a >= 0 then a % b else -((-a) % b)
  }

  /** JavaScript's remainder agrees with Euclidean `%` except on a negative non-multiple, where it is `b` lower. */
  lemma JsRemAsMod(a: int, b: int)
    requires b > 0
    ensures JsRem(a, b) == if a >= 0 || a % b == 0 then a % b else a % b - b
  {
    if a < 0 {
      NegMod(a, b);
    }
  }

  /** JavaScript's remainder is congruent to its dividend. */
  lemma JsRemCongruent(a: int, b: int)
    requires b > 0
    ensures JsRem(a, b) % b == a % b
  {
    JsRemAsMod(a, b);
    if !(a >= 0 || a % b == 0) {
      ModAddMultiple(a % b, -1, b);
      ModUnique(a % b, b, 0, a % b);
    } else {
      ModUnique(a % b, b, 0, a % b);
    }
  }

  /** Scaling dividend and divisor by the same positive factor scales the JavaScript remainder. */
  lemma JsRemScale(a: int, b: int, w: int)
    requires b > 0 && w > 0
    ensures JsRem(a * w, b * w) == JsRem(a, b) * w
  {
    if a >= 0 {
      assert a * w >= 0;
      ModScale(a, b, w);
    } else {
      assert a * w < 0 by {
        assert -(a * w) == (-a) * w;
        MulAtLeast(-a, w);
      }
      assert -(a * w) == (-a) * w;
      ModScale(-a, b, w);
    }
  }

  // ---------------------------------------------------------------------
  // idx: the wrap of src/Slider.js
  // ---------------------------------------------------------------------

  /** `idx(x, l)`: add `l` once to a negative argument, then take JavaScript's `% l`. */
  function Idx(x: int, l: int): (r: int)
    requires l >= 1
    ensures -l < r < l
    ensures x >= 0 ==> r >= 0
  {
    JsRem(if x < 0 then x + l else x, l)
  }

  /** From `-l` upwards `idx` is the mathematical `x mod l`. */
  lemma IdxIsMod(x: int, l: int)
    requires l >= 1 && x >= -l
    ensures Idx(x, l) == x % l
    ensures 0 <= Idx(x, l) < l
  {
    if x < 0 {
      ModAddMultiple(x, 1, l);
    }
  }

  /** Whatever the argument, `idx` keeps its residue modulo `l`. */
  lemma IdxCongruent(x: int, l: int)
    requires l >= 1
    ensures Idx(x, l) % l == x % l
  {
    var y := if x < 0 then x + l else x;
    JsRemCongruent(y, l);
    ModAddMultiple(x, 1, l);
  }

  /** Below `-l` the single `+ l` is not enough: the result is negative unless `l` divides `x`. */
  lemma IdxBelowRange(x: int, l: int)
    requires l >= 1 && x < -l
    ensures Idx(x, l) == if x % l == 0 then 0 else x % l - l
    ensures Idx(x, l) < 0 <==> x % l != 0
  {
    JsRemAsMod(x + l, l);
    ModAddMultiple(x, 1, l);
  }
}
