/** Facts about multiplication, division and remainder used by the layout and ring proofs. */
module Arith {

  lemma MulLe(a: nat, b: nat, c: nat)
    requires a <= b
    ensures a * c <= b * c
  {
    assert b * c == a * c + (b - a) * c;
  }

  /** Euclidean division is determined by its quotient and remainder. */
  lemma DivUnique(x: nat, c: nat, q: nat, m: nat)
    requires 0 < c && x == q * c + m && m < c
    ensures x / c == q && x % c == m
  {
    var q0, m0 := x / c, x % c;
    assert q0 * c + m0 == q * c + m;
    if q0 > q {
      assert (q0 - q) * c == m - m0;
      MulLe(1, q0 - q, c);
    }
    if q0 < q {
      assert (q - q0) * c == m0 - m;
      MulLe(1, q - q0, c);
    }
  }

  /** A field of width w at place value k, above a lower part lo < k. */
  lemma FieldAt(h: nat, k: nat, hi: nat, f: nat, w: nat, lo: nat)
    requires 0 < k && f < w && lo < k
    requires h == (hi * w + f) * k + lo
    ensures (h / k) % w == f
  {
    DivUnique(h, k, hi * w + f, lo);
    DivUnique(hi * w + f, w, hi, f);
  }

  /** Stepping forward k < w - x % w positions stays in the same block. */
  lemma ModForward(x: nat, k: nat, w: nat)
    requires 0 < w && x % w + k < w
    ensures (x + k) % w == x % w + k
  {
    DivUnique(x + k, w, x / w, x % w + k);
  }

  /** Stepping back k < w positions, possibly into the previous block. */
  lemma ModBack(x: nat, k: nat, w: nat)
    requires 0 < w && k <= x && k < w
    ensures (x - k) % w == if k <= x % w then x % w - k else w + x % w - k
  {
    var q, o := x / w, x % w;
    if k <= o {
      DivUnique(x - k, w, q, o - k);
    } else {
      assert q >= 1;
      DivUnique(x - k, w, q - 1, w + o - k);
    }
  }

  /** The distance to the end of the block lands on the next multiple of w. */
  lemma ModToEnd(x: nat, w: nat)
    requires 0 < w
    ensures (x + (w - x % w)) % w == 0
  {
    DivUnique(x + (w - x % w), w, x / w + 1, 0);
  }

  /** Slot d of width w inside n slots: d * w + w <= n * w. */
  lemma SlotInside(d: nat, n: nat, w: nat)
    requires d < n
    ensures d * w + w <= n * w
  {
    MulLe(d + 1, n, w);
  }

  /** Distinct slots of width w do not overlap. */
  lemma SlotsDisjoint(d: nat, e: nat, w: nat, i: nat, j: nat)
    requires d != e && i < w && j < w
    ensures d * w + i != e * w + j
  {
    if d < e { MulLe(d + 1, e, w); } else { MulLe(e + 1, d, w); }
  }
}
