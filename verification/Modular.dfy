/** Remainders of possibly negative integers, and the `x & mask` that computes them in C. */
module Modular {
  import opened Bytes

  lemma MulNonNegative(a: nat, b: nat)
    ensures a * b >= 0
  {
  }

  lemma BigMultiple(d: int, w: int)
    requires w > 0 && d != 0
    ensures d * w >= w || d * w <= -w
  {
    if d >= 1 {
      MulNonNegative(d - 1, w);
      assert d * w == (d - 1) * w + w;
    } else {
      MulNonNegative(-1 - d, w);
      assert d * w == -((-1 - d) * w) - w;
    }
  }

  lemma ModUnique(x: int, q: int, r: int, w: int)
    requires w > 0 && x == q * w + r && 0 <= r < w
    ensures x % w == r && x / w == q
  {
    var d := q - x / w;
    assert d * w == q * w - (x / w) * w;
    if d != 0 {
      BigMultiple(d, w);
    }
  }

  lemma ModShift(x: int, k: int, w: int)
    requires w > 0
    ensures (x + k * w) % w == x % w
  {
    assert x + k * w == (x / w + k) * w + x % w;
    ModUnique(x + k * w, x / w + k, x % w, w);
  }

  lemma ModAdd(x: int, i: int, w: int)
    requires w > 0
    ensures 0 <= x % w + i < w ==> (x + i) % w == x % w + i
    ensures w <= x % w + i < 2 * w ==> (x + i) % w == x % w + i - w
  {
    if 0 <= x % w + i < w {
      ModUnique(x + i, x / w, x % w + i, w);
    } else if w <= x % w + i < 2 * w {
      assert x + i == (x / w + 1) * w + (x % w + i - w);
      ModUnique(x + i, x / w + 1, x % w + i - w, w);
    }
  }

  lemma ModDistinct(x: int, y: int, w: int)
    requires 0 < y - x < w
    ensures x % w != y % w
  {
    ModAdd(x, y - x, w);
  }

  /** Bitwise and of two non-negative integers. */
  function And(x: nat, m: nat): nat {
    if x == 0 || m == 0 then 0 else (if x % 2 == 1 && m % 2 == 1 then 1 else 0) + 2 * And(x / 2, m / 2)
  }

  lemma {:induction false} AndMask(x: nat, k: nat)
    ensures And(x, Pow2(k) - 1) == x % Pow2(k)
  {
    if k > 0 {
      var w := Pow2(k - 1);
      AndMask(x / 2, k - 1);
      HalveMask(w);
      HalveMod(x, w);
      AndOdd(x, 2 * w - 1, (x / 2) % w);
    }
  }

  lemma AndOdd(x: nat, m: nat, t: nat)
    requires m % 2 == 1 && And(x / 2, m / 2) == t
    ensures And(x, m) == x % 2 + 2 * t
  {
  }

  lemma HalveMask(w: nat)
    requires w > 0
    ensures (2 * w - 1) / 2 == w - 1 && (2 * w - 1) % 2 == 1
  {
  }

  lemma HalveMod(x: nat, w: nat)
    requires w > 0
    ensures x % (2 * w) == x % 2 + 2 * ((x / 2) % w)
  {
    var q, r := (x / 2) / w, (x / 2) % w;
    assert x / 2 == q * w + r;
    assert q * (2 * w) == 2 * (q * w);
    ModUnique(x, q, x % 2 + 2 * r, 2 * w);
  }

  lemma {:induction false} Pow2Sum(m: nat, n: nat)
    ensures Pow2(m + n) == Pow2(m) * Pow2(n)
  {
    if n > 0 {
      Pow2Sum(m, n - 1);
    }
  }

  lemma {:induction false} Pow2Divides(k: nat, n: nat) returns (c: nat)
    requires k <= n
    ensures Pow2(n) == c * Pow2(k)
  {
    if k == n {
      c := 1;
    } else {
      c := Pow2Divides(k, n - 1);
      c := 2 * c;
    }
  }

  /** Masking the 64-bit representation of any integer by a power of two minus one takes its remainder. */
  lemma MaskIsMod(x: int, k: nat)
    requires k <= 64
    ensures And(x % Pow2(64), Pow2(k) - 1) == x % Pow2(k)
  {
    AndMask(x % Pow2(64), k);
    ModOfMod(x, k, 64);
  }

  lemma ModOfMod(x: int, k: nat, n: nat)
    requires k <= n
    ensures (x % Pow2(n)) % Pow2(k) == x % Pow2(k)
  {
    var c := Pow2Divides(k, n);
    RemainderOfMultiple(x, c, Pow2(k));
  }

  lemma RemainderOfMultiple(x: int, c: nat, w: nat)
    requires w > 0 && c * w > 0
    ensures (x % (c * w)) % w == x % w
  {
    var q := x / (c * w);
    assert x % (c * w) == x + (-q * c) * w by {
      assert (-q * c) * w == -(q * (c * w));
    }
    ModShift(x, -q * c, w);
  }

  lemma MulMonotone(a: nat, b: nat, c: nat)
    requires a <= b
    ensures a * c <= b * c
  {
  }

  /** Room below the next multiple of `w`. */
  lemma BelowMultiple(r: nat, p: nat, x: nat, w: nat)
    requires r < p && x < w
    ensures r * w + x < p * w
  {
    MulMonotone(r + 1, p, w);
    assert (r + 1) * w == r * w + w;
  }

  lemma ModScale(c: nat, p: nat, w: nat)
    requires p > 0 && w > 0 && p * w > 0
    ensures (c * w) % (p * w) == (c % p) * w
  {
    var q, r := c / p, c % p;
    BelowMultiple(r, p, 0, w);
    assert c * w == q * (p * w) + r * w by {
      assert (q * p + r) * w == (q * p) * w + r * w;
      assert (q * p) * w == q * (p * w);
    }
    ModUnique(c * w, q, r * w, p * w);
  }
}
