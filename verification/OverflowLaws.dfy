/** OF after a rotate or double shift, which the manual defines for one step only: the sign has changed. */
module OverflowLaws {
  import opened Words
  import opened Arithmetic
  import opened Bits
  import Rotates
  import opened RotateUnit
  import FlagLaws

  /** Moved down by one below a new top bit, the old top bit is second. */
  lemma SecondBit(w: nat, x: nat, top: nat)
    requires w >= 2 && top <= 1
    ensures Bit(x / 2 + top * Pow2(w - 1), w - 2) == Bit(x, w - 1)
  {
    var p := Pow2(w - 2);
    HighField(x / 2, top, p);
    HalfThenShift(x, p);
  }

  lemma HighField(v: nat, top: nat, p: nat)
    requires p > 0
    ensures (v + top * (2 * p)) / p % 2 == v / p % 2
  {
    DivIdentity(v, p);
    MulSwap(top, 2, p);
    MulAddLeft(2 * top, v / p, p);
    DivModUnique(v + top * (2 * p), p, 2 * top + v / p, v % p);
  }

  lemma HalfThenShift(x: nat, p: nat)
    requires p > 0
    ensures x / 2 / p == x / (2 * p)
  {
    var q, r := x / 2 / p, x / 2 % p;
    DivIdentity(x / 2, p);
    MulSwap(2, q, p);
    MulSwap(q, 2, p);
    DivModUnique(x, 2 * p, q, 2 * r + x % 2);
  }

  /** OF after a rotate: the change of sign for one step, clear for more; no steps, no change of any flag.  Only CF and
      OF change at all. */
  lemma RotateOverflows(r: Rotates.Rotation, w: nat, f: Flags, x: nat, count: uint8)
    requires Width(w) && x < Pow2(w)
    ensures
      var c, o := Turns(count, w), Rotated(r, w, f, x, count);
      && (c == 1 ==> (o.freg.of <==> Bit(o.value, w - 1) != Bit(x, w - 1)))
      && (c > 1 ==> !o.freg.of) && (c == 0 ==> o == Outcome(x, f))
      && o.freg == f.(cf := o.freg.cf, of := o.freg.of)
  {
    hide Rotates.Steps, Turns, Bit, Pow2, RotateOverflow, Rotated, LosesCarry;
    RotatedParts(r, w, f, x, count);
    if Turns(count, w) == 1 {
      Rotates.OneStep(r, w, Rotates.Operand(x, f.cf));
      StepOverflows(r, w, x, f.cf);
    }
  }

  lemma RotatedParts(r: Rotates.Rotation, w: nat, f: Flags, x: nat, count: uint8)
    requires Width(w) && x < Pow2(w)
    ensures
      var c, o, t := Turns(count, w), Rotated(r, w, f, x, count), Rotates.Steps(r, w, Turns(count, w), Rotates.Operand(x, f.cf));
      && (c == 0 ==> o == Outcome(x, f)) && (c > 0 ==> o.value == t.x && (o.freg.of <==> c == 1 && RotateOverflow(r, w, t)))
      && o.freg == f.(cf := o.freg.cf, of := o.freg.of)
  {
    hide Rotates.Steps, Turns, Bit, Pow2, RotateOverflow, LosesCarry;
  }

  lemma StepOverflows(r: Rotates.Rotation, w: nat, x: nat, cf: bool)
    requires Width(w) && x < Pow2(w)
    ensures
      var t := Rotates.Step(r, w, Rotates.Operand(x, cf));
      RotateOverflow(r, w, t) <==> Bit(t.x, w - 1) != Bit(x, w - 1)
  {
    hide Bit, Pow2;
    if r.Rol? || r.Rcl? {
      TopIsBit(w, x);
    } else {
      var top := if (if r.Ror? then x % 2 == 1 else cf) then 1 else 0;
      SecondBit(w, x, top);
      assert top * Pow2(w - 1) == if top == 1 then Pow2(w - 1) else 0;
    }
  }

  /** SHLD and SHRD: OF is the change of sign for one position, and for more as it was, or clear; ZF, SF and PF show
      the result; AF does not change. */
  lemma DoubleShiftFlags(w: nat, f: Flags, des: nat, src: nat, count: uint8)
    requires DoubleWidth(w) && des < Pow2(w) && src < Pow2(w)
    ensures
      var c, o := Positions(count, w), ShiftedLeft(w, f, des, src, count);
      && (c == 0 ==> o == Outcome(des, f)) && (c > 0 ==> FlagLaws.Shows(o.freg, o.value, w == 16))
      && (c == 1 ==> (o.freg.of <==> Bit(o.value, w - 1) != Bit(des, w - 1))) && (c > 1 ==> o.freg.of == f.of)
      && o.freg.af == f.af && o.freg.df == f.df && o.freg.r0 == f.r0
    ensures
      var c, o := Positions(count, w), ShiftedRight(w, f, des, src, count);
      && (c == 0 ==> o == Outcome(des, f)) && (c > 0 ==> FlagLaws.Shows(o.freg, o.value, w == 16))
      && (c == 1 ==> (o.freg.of <==> Bit(o.value, w - 1) != Bit(des, w - 1))) && (c > 1 ==> !o.freg.of)
      && o.freg.af == f.af && o.freg.df == f.df && o.freg.r0 == f.r0
  {
    hide Positions, Bit, Shl, Shr, Wide, Raised, FlagLaws.Shows, ResultFlags, Pow2;
    var c := Positions(count, w);
    if c > 0 {
      LeftShows(w, f, des, src, count);
      RightShows(w, f, des, src, count);
      if c == 1 {
        RightSecond(w, des, src);
      }
    }
  }

  lemma ResultShows(w: nat, f: Flags, v: nat)
    requires DoubleWidth(w) && v < Pow2(w)
    ensures v < 0x1_0000_0000
    ensures
      var g := ResultFlags(f, v, w == 16);
      FlagLaws.Shows(g, v, w == 16) && g.af == f.af && g.df == f.df && g.r0 == f.r0 && g.of == f.of
  {
    hide FlagLaws.EvenOnes, EvenParity;
    PowValues();
    FlagLaws.ResultShown(f, v, w == 16);
  }

  lemma LeftShows(w: nat, f: Flags, des: nat, src: nat, count: uint8)
    requires DoubleWidth(w) && des < Pow2(w) && src < Pow2(w) && Positions(count, w) > 0
    ensures
      var o := ShiftedLeft(w, f, des, src, count);
      FlagLaws.Shows(o.freg, o.value, w == 16) && o.freg.af == f.af && o.freg.df == f.df && o.freg.r0 == f.r0
  {
    hide Positions, Bit, Shl, Shr, Wide, Raised, ResultFlags, TopDiffers, Modulus, Pow2, FlagLaws.EvenOnes;
    var high := Shr(Raised(Wide(w, des, src), Positions(count, w)), w);
    ShlBound(w, high, 0);
    ResultShows(w, f, Shl(w, high, 0));
  }

  lemma RightShows(w: nat, f: Flags, des: nat, src: nat, count: uint8)
    requires DoubleWidth(w) && des < Pow2(w) && src < Pow2(w) && Positions(count, w) > 0
    ensures
      var o := ShiftedRight(w, f, des, src, count);
      FlagLaws.Shows(o.freg, o.value, w == 16) && o.freg.af == f.af && o.freg.df == f.df && o.freg.r0 == f.r0
  {
    hide Positions, Bit, Shl, Shr, Wide, ResultFlags, TopTwoDiffer, Modulus, Pow2, FlagLaws.EvenOnes;
    var low := Shr(Wide(w, src, des), Positions(count, w));
    ShlBound(w, low, 0);
    ResultShows(w, f, Shl(w, low, 0));
  }

  /** SHRD by one: the old top bit is second. */
  lemma RightSecond(w: nat, des: nat, src: nat)
    requires DoubleWidth(w) && des < Pow2(w) && src < Pow2(w)
    ensures Bit(Shl(w, Shr(Wide(w, src, des), 1), 0), w - 2) == Bit(des, w - 1)
  {
    hide Bit, Pow2, Wide;
    SecondBit(w, des, src % 2);
    HalvedWide(w, des, src);
  }

  lemma HalvedWide(w: nat, des: nat, src: nat)
    requires w > 0 && des < Pow2(w)
    ensures Shl(w, Shr(Wide(w, src, des), 1), 0) == des / 2 + src % 2 * Pow2(w - 1)
  {
    var p, v := Pow2(w - 1), Wide(w, src, des);
    assert Pow2(1) == 2 * Pow2(0) && Pow2(0) == 1 && Pow2(w) == 2 * p;
    Halved(p, des, src);
    assert Shr(v, 1) == v / 2;
    assert Shl(w, v / 2, 0) == v / 2 * 1 % (2 * p);
  }

  lemma HalfOfSum(a: nat, b: nat)
    ensures (2 * a + b) / 2 == a + b / 2
  {
  }

  lemma Halved(p: nat, des: nat, src: nat)
    requires des < 2 * p
    ensures (src * (2 * p) + des) / 2 % (2 * p) == des / 2 + src % 2 * p
  {
    var a := src * p;
    MulSwap(src, 2, p);
    HalfOfSum(a, des);
    assert src * (2 * p) == 2 * a;
    LowOfHalf(p, src, des / 2);
  }

  lemma LowOfHalf(p: nat, src: nat, d: nat)
    requires d < p
    ensures (src * p + d) % (2 * p) == d + src % 2 * p
  {
    var h, b := src / 2, src % 2;
    MulAddLeft(h * 2, b, p);
    MulSwap(h, 2, p);
    DivModUnique(src * p + d, 2 * p, h, b * p + d);
  }
}
