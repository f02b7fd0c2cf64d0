/** Shifts, masks and bitwise or on natural numbers, with the facts about them used elsewhere. */
module Bits {

  function Pow2(n: nat): (r: nat)
    ensures r >= 1
  {
    if n == 0 then 1 else 2 * Pow2(n - 1)
  }

  lemma DivIdentity(x: nat, d: nat)
    requires d > 0
    ensures x == x / d * d + x % d && 0 <= x / d && 0 <= x % d < d
  {
  }

  /** A right shift by `c`. */
  function Shr(x: nat, c: nat): nat {
    DivIdentity(x, Pow2(c));
    x / Pow2(c)
  }

  /** A left shift by `c` in a word of `w` bits. */
  function Shl(w: nat, x: nat, c: nat): nat {
    DivIdentity(x * Pow2(c), Pow2(w));
    x * Pow2(c) % Pow2(w)
  }

  /** Bit `i` of `x`, counted from the least significant one. */
  function Bit(x: nat, i: nat): bool { Shr(x, i) % 2 == 1 }

  function Num(b: bool): nat { if b then 1 else 0 }

  function Or(a: nat, b: nat): nat {
    if a == 0 && b == 0 then 0
    else Num(a % 2 == 1 || b % 2 == 1) + 2 * Or(a / 2, b / 2)
  }

  lemma {:induction false} PowAdd(a: nat, b: nat)
    ensures Pow2(a) * Pow2(b) == Pow2(a + b)
  {
    if a > 0 {
      PowAdd(a - 1, b);
      assert Pow2(a) * Pow2(b) == 2 * (Pow2(a - 1) * Pow2(b));
    }
  }

  lemma PowValues()
    ensures Pow2(7) == 0x80 && Pow2(8) == 0x100 && Pow2(9) == 0x200
    ensures Pow2(15) == 0x8000 && Pow2(16) == 0x1_0000 && Pow2(17) == 0x2_0000
    ensures Pow2(31) == 0x8000_0000 && Pow2(32) == 0x1_0000_0000 && Pow2(33) == 0x2_0000_0000
  {
    assert Pow2(4) == 16 by { assert Pow2(2) == 4; }
    assert Pow2(8) == 0x100 by { PowAdd(4, 4); }
    assert Pow2(16) == 0x1_0000 by { PowAdd(8, 8); }
    assert Pow2(32) == 0x1_0000_0000 by { PowAdd(16, 16); }
    assert Pow2(8) == 2 * Pow2(7) && Pow2(9) == 2 * Pow2(8);
    assert Pow2(16) == 2 * Pow2(15) && Pow2(17) == 2 * Pow2(16);
    assert Pow2(32) == 2 * Pow2(31) && Pow2(33) == 2 * Pow2(32);
  }

  lemma MulMono(a: nat, b: nat, d: nat)
    requires a <= b
    ensures a * d <= b * d
  {
  }

  lemma MulAddLeft(a: nat, b: nat, d: nat)
    ensures (a + b) * d == a * d + b * d
  {
  }

  lemma MulSwap(a: nat, b: nat, d: nat)
    ensures a * b * d == a * (b * d)
  {
  }

  /** Quotient and remainder are determined by the division identity. */
  lemma DivModUnique(x: nat, d: nat, q: nat, r: nat)
    requires d > 0 && x == q * d + r && r < d
    ensures x / d == q && x % d == r
  {
    var q', r' := x / d, x % d;
    DivIdentity(x, d);
    if q < q' {
      MulMono(q + 1, q', d);
      MulAddLeft(q, 1, d);
    } else if q' < q {
      MulMono(q' + 1, q, d);
      MulAddLeft(q', 1, d);
    }
  }

  /** The or of two fields that do not overlap is their sum. */
  lemma {:induction false} OrDisjoint(a: nat, k: nat, b: nat)
    requires b < Pow2(k)
    ensures Or(a * Pow2(k), b) == a * Pow2(k) + b
    decreases k
  {
    if k == 0 {
      OrRightZero(a);
    } else if a == 0 && b == 0 {
    } else {
      var h := a * Pow2(k - 1);
      assert a * Pow2(k) == 2 * h;
      OrDisjoint(a, k - 1, b / 2);
    }
  }

  lemma {:induction false} OrRightZero(a: nat)
    ensures Or(a, 0) == a
  {
    if a > 0 {
      OrRightZero(a / 2);
    }
  }

  lemma {:induction false} OrSym(a: nat, b: nat)
    ensures Or(a, b) == Or(b, a)
  {
    if a != 0 || b != 0 {
      OrSym(a / 2, b / 2);
    }
  }

  /** In a word of `w` bits, `h` the top `c` bits and `l` the others: a left shift drops `h`. */
  lemma ShiftLeftSplit(w: nat, c: nat, h: nat, l: nat)
    requires c <= w && l < Pow2(w - c)
    ensures Shl(w, h * Pow2(w - c) + l, c) == l * Pow2(c)
  {
    hide Pow2;
    var p, q, m := Pow2(c), Pow2(w - c), Pow2(w);
    PowAdd(w - c, c);
    MulAddLeft(h * q, l, p);
    MulSwap(h, q, p);
    assert (h * q + l) * p == h * m + l * p;
    FieldBound(l, q, p);
    DivModUnique((h * q + l) * p, m, h, l * p);
  }

  lemma FieldBound(l: nat, q: nat, p: nat)
    requires l < q
    ensures l * p + p <= q * p
  {
    MulMono(l + 1, q, p);
    MulAddLeft(l, 1, p);
  }

  lemma OrDisjointSym(a: nat, k: nat, b: nat)
    requires b < Pow2(k)
    ensures Or(b, a * Pow2(k)) == a * Pow2(k) + b
  {
    OrSym(b, a * Pow2(k));
    OrDisjoint(a, k, b);
  }
}
