/** Powers of two and clearing low bits, the arithmetic behind CIDR prefixes. */
module Bits {

  function Pow2(n: nat): (r: nat)
    ensures r >= 1
  {
    if n == 0 then 1 else 2 * Pow2(n - 1)
  }

  /** `x` with its `h` low bits cleared: the start of the aligned block of size `Pow2(h)` that holds `x`. */
  function Mask(x: nat, h: nat): (m: nat)
    ensures m <= x < m + Pow2(h)
  {
    if h == 0 then x else 2 * Mask(x / 2, h - 1)
  }

  lemma Pow2Monotone(a: nat, b: nat)
    requires a <= b
    ensures Pow2(a) <= Pow2(b)
    ensures a < b ==> 2 * Pow2(a) <= Pow2(b)
  {
  }

  lemma {:induction false} MaskDouble(x: nat, h: nat)
    requires h > 0
    ensures Mask(2 * x, h) == 2 * Mask(x, h - 1)
  {
  }

  /** An aligned block start is the only one whose block holds `y`. */
  lemma {:induction false} MaskUnique(x: nat, y: nat, h: nat)
    requires Mask(x, h) == x
    requires x <= y < x + Pow2(h)
    ensures Mask(y, h) == x
  {
    if h != 0 {
      MaskUnique(x / 2, y / 2, h - 1);
    }
  }

  lemma {:induction false} MaskNested(x: nat, k: nat, h: nat)
    requires k <= h
    ensures Mask(Mask(x, k), h) == Mask(x, h)
    ensures Mask(Mask(x, h), k) == Mask(x, h)
  {
    if k != 0 {
      MaskNested(x / 2, k - 1, h - 1);
      MaskDouble(Mask(x / 2, k - 1), h);
      MaskDouble(Mask(x / 2, h - 1), k);
    }
  }

  /** Leaving an aligned block that cannot be doubled lands on a better aligned address. */
  lemma {:induction false} MaskStep(x: nat, h: nat)
    requires Mask(x, h) == x
    requires Mask(x, h + 1) != x
    ensures Mask(x + Pow2(h), h + 1) == x + Pow2(h)
  {
    if h != 0 {
      MaskStep(x / 2, h - 1);
      assert (x + Pow2(h)) / 2 == x / 2 + Pow2(h - 1);
    }
  }

  lemma {:induction false} MaskNext(x: nat, h: nat)
    requires Mask(x, h) == x
    ensures Mask(x + Pow2(h), h) == x + Pow2(h)
  {
    if h != 0 {
      MaskNext(x / 2, h - 1);
      assert (x + Pow2(h)) / 2 == x / 2 + Pow2(h - 1);
    }
  }

  lemma {:induction false} MaskPow2(n: nat, h: nat)
    ensures Mask(Pow2(n), h) == if h <= n then Pow2(n) else 0
  {
    if h != 0 && n != 0 {
      MaskPow2(n - 1, h - 1);
    } else if h != 0 {
      MaskSmall(0, h - 1);
    }
  }

  lemma {:induction false} MaskSmall(x: nat, h: nat)
    requires x < Pow2(h)
    ensures Mask(x, h) == 0
  {
    if h != 0 {
      MaskSmall(x / 2, h - 1);
    }
  }

  /** `k` with `n` zero bits below it. */
  function ShiftUp(k: nat, n: nat): nat {
    if n == 0 then k else 2 * ShiftUp(k, n - 1)
  }

  lemma HalfOfSum(y: nat, x: nat)
    ensures (2 * y + x) / 2 == y + x / 2
  {
  }

  /** Clearing low bits leaves higher ones alone. */
  lemma {:induction false} MaskShifted(k: nat, n: nat, x: nat, h: nat)
    requires h <= n
    ensures Mask(ShiftUp(k, n) + x, h) == ShiftUp(k, n) + Mask(x, h)
  {
    hide Pow2;
    if h != 0 {
      var y := ShiftUp(k, n - 1);
      HalfOfSum(y, x);
      MaskShifted(k, n - 1, x / 2, h - 1);
      assert Mask(2 * y + x, h) == 2 * Mask(y + x / 2, h - 1);
    }
  }
}
