/**
  What the rotate and double-shift helpers do to a value and the flags register, at 8, 16 and 32
  bits, stated by the one-bit steps of the processor manual.
*/
module RotateUnit {
  import opened Words
  import opened Arithmetic
  import opened Bits
  import Rotates

  predicate Width(w: nat) { w == 8 || w == 16 || w == 32 }

  lemma WidthPow(w: nat)
    requires Width(w)
    ensures Pow2(w) == 2 * Pow2(w - 1) && Pow2(w - 1) == 2 * Pow2(w - 2)
    ensures Pow2(w) <= 0x1_0000_0000
  {
    PowValues();
  }

  lemma WidthFits(w: nat)
    requires Width(w) || DoubleWidth(w)
    ensures 8 <= w <= 32 && Pow2(w) <= 0x1_0000_0000
  {
    WidthPow(w);
  }

  /** The steps a count asks for: five bits of it, modulo the width. */
  function Turns(count: uint8, w: nat): (c: nat)
    requires w > 0
    ensures c < w
  {
    count % 32 % w
  }

  /** The manual turns the ring of operand and CF, which is one bit longer than the operand. */
  function RingTurns(count: uint8, w: nat): nat { count % 32 % (w + 1) }

  /** RCL and RCR take the documented number of steps exactly for the counts below the width, so at 32 bits
      always. */
  lemma TurnsDocumented(count: uint8, w: nat)
    requires Width(w)
    ensures Turns(count, w) == RingTurns(count, w) <==> count % 32 < w
  {
    var c := count % 32;
    if w == 8 {
      assert c % 8 == if c < 8 then c else if c < 16 then c - 8 else if c < 24 then c - 16 else c - 24;
      assert c % 9 == if c < 9 then c else if c < 18 then c - 9 else if c < 27 then c - 18 else c - 27;
    } else if w == 16 {
      assert c % 16 == if c < 16 then c else c - 16;
      assert c % 17 == if c < 17 then c else c - 17;
    }
  }

  predicate TopDiffers(w: nat, v: nat, b: bool)
    requires w > 1
  {
    Bit(v, w - 1) != b
  }

  predicate TopTwoDiffer(w: nat, v: nat)
    requires w > 1
  {
    Bit(v, w - 1) != Bit(v, w - 2)
  }

  /** OF after a rotate by one: the top bit against CF when rotating left, against the bit below it when
      rotating right. */
  ghost predicate RotateOverflow(r: Rotates.Rotation, w: nat, t: Rotates.Operand)
    requires w > 1
  {
    if r.Rol? || r.Rcl? then TopDiffers(w, t.x, t.cf) else TopTwoDiffer(w, t.x)
  }

  /** The 16-bit RCR looks for CF in a bit that its result does not have. */
  predicate LosesCarry(r: Rotates.Rotation, w: nat) { r.Rcr? && w == 16 }

  /** A rotate by `count`: that many one-bit steps in value and CF, CF lost in one case. */
  ghost function Rotated(r: Rotates.Rotation, w: nat, f: Flags, x: nat, count: uint8): (o: Outcome)
    requires Width(w) && x < Pow2(w)
    ensures o.value < Pow2(w)
  {
    WidthPow(w);
    var c := Turns(count, w);
    if c == 0 then Outcome(x, f)
    else
      var t := Rotates.Steps(r, w, c, Rotates.Operand(x, f.cf));
      Outcome(t.x, f.(cf := t.cf && !LosesCarry(r, w), of := c == 1 && RotateOverflow(r, w, t)))
  }

  /** `x` in a variable of `k` bits. */
  function Kept(k: nat, x: nat): (r: nat)
    ensures r < Pow2(k)
  {
    DivIdentity(x, Pow2(k));
    x % Pow2(k)
  }

  /** The variable that the C++ code puts the turned ring in: one bit too narrow at 16 bits. */
  function Container(w: nat): nat { if w == 16 then 16 else 2 * w }

  /** A variable of `k` bits has the low `k` bits of what is put in it, and no more. */
  lemma KeptBits(k: nat, x: nat, i: nat)
    requires i <= k
    ensures Bit(Kept(k, x), i) <==> i < k && Bit(x, i)
    ensures Kept(i, Kept(k, x)) == Kept(i, x)
  {
    var p, n := Pow2(i), Pow2(k - i);
    var q, r := x / Pow2(k), x % Pow2(k);
    DivIdentity(x, Pow2(k));
    DivIdentity(r, p);
    PowAdd(k - i, i);
    MulSwap(q, n, p);
    MulAddLeft(q * n, r / p, p);
    DivModUnique(x, p, q * n + r / p, r % p);
    if i < k {
      EvenPart(q, Pow2(k - i - 1), r / p);
    } else {
      DivModUnique(r, p, 0, r);
    }
  }

  /** What the narrow variable does to RCR. */
  lemma ContainerBits(w: nat, x: nat)
    requires Width(w)
    ensures Bit(Kept(Container(w), x), w) <==> w != 16 && Bit(x, w)
    ensures Kept(w, Kept(Container(w), x)) == Shl(w, x, 0)
  {
    hide Bit, Kept, Shl;
    KeptBits(Container(w), x, w);
    KeptIsShl(w, x);
  }

  lemma EvenPart(q: nat, h: nat, v: nat)
    ensures (q * (2 * h) + v) % 2 == v % 2
  {
    MulSwap(q, 2, h);
    assert q * (2 * h) == 2 * (q * h);
  }

  lemma KeptIsShl(w: nat, x: nat)
    ensures Kept(w, x) == Shl(w, x, 0)
  {
  }

  /** A rotate that does not go through CF leaves a copy of the last bit moved at the end of the value. */
  lemma CarryShows(r: Rotates.Rotation, w: nat, cf: bool, x: nat, c: nat)
    requires Width(w) && 0 < c < w && x < Pow2(w) && (r.Rol? || r.Ror?)
    ensures
      var t := Rotates.Steps(r, w, c, Rotates.Operand(x, cf));
      t.cf == if r.Rol? then t.x % 2 == 1 else Bit(t.x, w - 1)
  {
    Rotates.CarryOfRotate(w, c, Rotates.Operand(x, cf));
    var t := Rotates.Steps(r, w, c, Rotates.Operand(x, cf));
    WidthPow(w);
    TopIsBit(w, t.x);
  }

  lemma TopIsBit(w: nat, x: nat)
    requires w > 0 && x < Pow2(w)
    ensures Bit(x, w - 1) <==> x >= Pow2(w - 1)
  {
    var p := Pow2(w - 1);
    DivModUnique(x, p, if x >= p then 1 else 0, if x >= p then x - p else x);
  }

  /** RCR takes back an RCL by the same count: always the value, and CF too except that the 16-bit RCR
      brings back only a clear one. */
  lemma RcrUndoesRcl(w: nat, f: Flags, x: nat, count: uint8)
    requires Width(w) && x < Pow2(w)
    ensures
      var o := Rotated(Rotates.Rcl, w, f, x, count);
      var p := Rotated(Rotates.Rcr, w, o.freg, o.value, count);
      p.value == x && (p.freg.cf == f.cf <==> !(w == 16 && Turns(count, w) > 0 && f.cf))
  {
    hide Rotates.Steps, Pow2;
    Rotates.OppositeRotatesCancel(w, Turns(count, w), Rotates.Operand(x, f.cf));
  }

  /** RCR leaves the CF of its steps, a copy of the last bit moved, unless that bit is a one and the width is 16. */
  lemma RcrCarryDocumented(w: nat, f: Flags, x: nat, count: uint8)
    requires Width(w) && x < Pow2(w)
    ensures
      var c := Turns(count, w);
      Rotated(Rotates.Rcr, w, f, x, count).freg.cf == Rotates.Steps(Rotates.Rcr, w, c, Rotates.Operand(x, f.cf)).cf
      <==> w != 16 || c == 0 || !Bit(x, c - 1)
  {
    hide Rotates.Steps, Pow2, Bit, Turns, TopDiffers, TopTwoDiffer;
    var c := Turns(count, w);
    if c == 0 {
      NoSteps(w, x, f.cf);
    } else {
      Rotates.RcrCarry(w, x, f.cf, c);
    }
  }

  lemma NoSteps(w: nat, x: nat, cf: bool)
    requires Width(w) && x < Pow2(w)
    ensures Rotates.Steps(Rotates.Rcr, w, 0, Rotates.Operand(x, cf)) == Rotates.Operand(x, cf)
  {
  }

  /** RCR of 1 by one at 16 bits moves the one into CF; the helper leaves CF clear. */
  lemma RcrCarryFails(f: Flags)
    ensures Rotates.Steps(Rotates.Rcr, 16, 1, Rotates.Operand(1, f.cf)).cf
    ensures 1 < Pow2(16) && !Rotated(Rotates.Rcr, 16, f, 1, 1).freg.cf
  {
    hide Rotates.Steps, Pow2, TopDiffers, TopTwoDiffer;
    PowValues();
    var s := Rotates.Operand(1, f.cf);
    Rotates.OneStep(Rotates.Rcr, 16, s);
  }

  /** RCL by nine at 8 bits is a full turn of operand and CF; the helper turns by one. */
  lemma RclCountFails(f: Flags)
    ensures 1 < Pow2(8) && Rotates.Steps(Rotates.Rcl, 8, 9, Rotates.Operand(1, f.cf)) == Rotates.Operand(1, f.cf)
    ensures Rotated(Rotates.Rcl, 8, f, 1, 9).value == 2 + Num(f.cf)
  {
    hide Rotates.Steps, Pow2, TopDiffers, TopTwoDiffer;
    PowValues();
    var s := Rotates.Operand(1, f.cf);
    Rotates.CarryRotatePeriod(8, s);
    assert Turns(9, 8) == 1;
    Rotates.OneStep(Rotates.Rcl, 8, s);
  }

  lemma RorUndoesRol(w: nat, f: Flags, x: nat, count: uint8)
    requires Width(w) && x < Pow2(w)
    ensures
      var o := Rotated(Rotates.Rol, w, f, x, count);
      Rotated(Rotates.Ror, w, o.freg, o.value, count).value == x
  {
    hide Rotates.Steps, Pow2;
    var c := Turns(count, w);
    Rotates.OppositeRotatesCancel(w, c, Rotates.Operand(x, f.cf));
    var o := Rotated(Rotates.Rol, w, f, x, count);
    Rotates.RorIgnoresCarry(w, c, o.value, f.cf, o.freg.cf);
  }

  /** The manual gives CF a copy of the last bit moved whenever the masked count is not zero, after whole turns
      too: the lowest bit of the result after ROL, the highest after ROR. */
  ghost predicate DocumentedCarry(r: Rotates.Rotation, w: nat, f: Flags, x: nat, count: uint8)
    requires Width(w) && x < Pow2(w)
  {
    var v := Rotated(r, w, f, x, count).value;
    if count % 32 == 0 then f.cf else if r.Rol? then v % 2 == 1 else Bit(v, w - 1)
  }

  /** ROL and ROR leave the documented CF unless they make whole turns and CF is not the documented copy already. */
  lemma RotateCarryDocumented(r: Rotates.Rotation, w: nat, f: Flags, x: nat, count: uint8)
    requires Width(w) && x < Pow2(w) && (r.Rol? || r.Ror?)
    ensures Rotated(r, w, f, x, count).freg.cf == DocumentedCarry(r, w, f, x, count) <==>
            count % 32 == 0 || Turns(count, w) > 0 || f.cf == if r.Rol? then x % 2 == 1 else Bit(x, w - 1)
  {
    hide Rotates.Steps, Pow2, Bit, Turns, TopDiffers, TopTwoDiffer;
    NoTurns(count, w);
    if Turns(count, w) > 0 {
      CarryShows(r, w, f.cf, x, Turns(count, w));
    }
  }

  lemma NoTurns(count: uint8, w: nat)
    requires w > 0
    ensures count % 32 == 0 ==> Turns(count, w) == 0
  {
  }

  /** ROL of 1 by eight at 8 bits: the manual sets CF, the helper leaves a clear one. */
  lemma RotateCarryFails(f: Flags)
    requires !f.cf
    ensures 1 < Pow2(8) && DocumentedCarry(Rotates.Rol, 8, f, 1, 8) && !Rotated(Rotates.Rol, 8, f, 1, 8).freg.cf
  {
    hide Rotates.Steps, Pow2;
    PowValues();
    assert Turns(8, 8) == 0;
  }

  // ----- Double shifts -----

  predicate DoubleWidth(w: nat) { w == 16 || w == 32 }

  /** The positions a double shift moves by. */
  function Positions(count: uint8, w: nat): (c: nat)
    requires w > 0
    ensures c < w
  {
    count % w
  }

  /** The double word `high:low`. */
  function Wide(w: nat, high: nat, low: nat): nat { high * Pow2(w) + low }

  /** A left shift that drops nothing. */
  function Raised(v: nat, c: nat): nat { v * Pow2(c) }

  /** SHLD: the high word of `des:src` shifted left, and the last bit shifted out of `des` in CF. */
  ghost function ShiftedLeft(w: nat, f: Flags, des: nat, src: nat, count: uint8): Outcome
    requires DoubleWidth(w) && des < Pow2(w) && src < Pow2(w)
  {
    WidthPow(w);
    var c := Positions(count, w);
    if c == 0 then Outcome(des, f)
    else
      var high := Shr(Raised(Wide(w, des, src), c), w);
      ShlBound(w, high, 0);
      var v := Shl(w, high, 0);
      var cf := Bit(des, w - c);
      Outcome(v, ResultFlags(f, v, w == 16).(cf := cf, of := if c == 1 then TopDiffers(w, v, cf) else f.of))
  }

  /** SHRD: the low word of `src:des` shifted right, and the last bit shifted out of `des` in CF. */
  ghost function ShiftedRight(w: nat, f: Flags, des: nat, src: nat, count: uint8): Outcome
    requires DoubleWidth(w) && des < Pow2(w) && src < Pow2(w)
  {
    WidthPow(w);
    var c := Positions(count, w);
    if c == 0 then Outcome(des, f)
    else
      ShlBound(w, Shr(Wide(w, src, des), c), 0);
      var v := Shl(w, Shr(Wide(w, src, des), c), 0);
      Outcome(v, ResultFlags(f, v, w == 16).(cf := Bit(des, c - 1), of := c == 1 && TopTwoDiffer(w, v)))
  }

  lemma ShlBound(w: nat, x: nat, c: nat)
    ensures Shl(w, x, c) < Pow2(w)
  {
    DivIdentity(x * Pow2(c), Pow2(w));
  }

  lemma ShldValue(w: nat, des: nat, src: nat, c: nat)
    requires 0 < c < w && des < Pow2(w) && src < Pow2(w)
    ensures Rotates.ShldShifts(w, des, src, c) == Shl(w, Shr(Raised(Wide(w, des, src), c), w), 0) < Pow2(w)
  {
    hide Rotates.ShldShifts, Shl, Shr;
    Rotates.ShldIsWideShift(w, des, src, c);
    ShlBound(w, Shr(Raised(Wide(w, des, src), c), w), 0);
  }

  lemma ShrdValue(w: nat, des: nat, src: nat, c: nat)
    requires 0 < c < w && des < Pow2(w) && src < Pow2(w)
    ensures Rotates.ShrdShifts(w, des, src, c) == Shl(w, Shr(Wide(w, src, des), c), 0) < Pow2(w)
  {
    hide Rotates.ShrdShifts, Shl, Shr;
    Rotates.ShrdIsWideShift(w, des, src, c);
    ShlBound(w, Shr(Wide(w, src, des), c), 0);
  }

  lemma RolIsDoubleShift(w: nat, f: Flags, x: nat, count: uint8)
    requires DoubleWidth(w) && x < Pow2(w)
    ensures ShiftedLeft(w, f, x, x, count).value == Rotated(Rotates.Rol, w, f, x, count).value
    ensures ShiftedLeft(w, f, x, x, count).freg.cf == Rotated(Rotates.Rol, w, f, x, count).freg.cf
  {
    hide Rotates.Steps, Pow2, ResultFlags, RotateOverflow, Bit, Shr, Shl, TopDiffers, TopTwoDiffer, Wide, Raised;
    hide Rotates.ShldShifts, Rotates.ShrdShifts, Turns, Positions;
    var c := Turns(count, w);
    SameTurns(count, w);
    if c > 0 {
      Rotates.DoubleShiftOfSelf(w, x, f.cf, c);
      ShldValue(w, x, x, c);
    }
  }

  lemma RorIsDoubleShift(w: nat, f: Flags, x: nat, count: uint8)
    requires DoubleWidth(w) && x < Pow2(w)
    ensures ShiftedRight(w, f, x, x, count).value == Rotated(Rotates.Ror, w, f, x, count).value
    ensures ShiftedRight(w, f, x, x, count).freg.cf == Rotated(Rotates.Ror, w, f, x, count).freg.cf
  {
    hide Rotates.Steps, Pow2, ResultFlags, RotateOverflow, Bit, Shr, Shl, TopDiffers, TopTwoDiffer, Wide, Raised;
    hide Rotates.ShldShifts, Rotates.ShrdShifts, Turns, Positions;
    var c := Turns(count, w);
    SameTurns(count, w);
    if c > 0 {
      Rotates.DoubleShiftOfSelf(w, x, f.cf, c);
      ShrdValue(w, x, x, c);
    }
  }

  /** A rotate is a double shift of a word with itself, in value and CF. */
  lemma RotateIsDoubleShift(w: nat, f: Flags, x: nat, count: uint8)
    requires DoubleWidth(w) && x < Pow2(w)
    ensures ShiftedLeft(w, f, x, x, count).value == Rotated(Rotates.Rol, w, f, x, count).value
    ensures ShiftedLeft(w, f, x, x, count).freg.cf == Rotated(Rotates.Rol, w, f, x, count).freg.cf
    ensures ShiftedRight(w, f, x, x, count).value == Rotated(Rotates.Ror, w, f, x, count).value
    ensures ShiftedRight(w, f, x, x, count).freg.cf == Rotated(Rotates.Ror, w, f, x, count).freg.cf
  {
    hide ShiftedLeft, ShiftedRight, Rotated;
    RolIsDoubleShift(w, f, x, count);
    RorIsDoubleShift(w, f, x, count);
  }

  lemma SameTurns(count: uint8, w: nat)
    requires DoubleWidth(w)
    ensures Positions(count, w) == Turns(count, w)
  {
  }

  // ----- The closed forms that the helpers compute -----

  lemma RolClosed(w: nat, f: Flags, x: nat, count: uint8)
    requires Width(w) && x < Pow2(w)
    ensures
      var c := Turns(count, w);
      var o := Rotated(Rotates.Rol, w, f, x, count);
      if c == 0 then o == Outcome(x, f)
      else
        var v := Rotates.RolShifts(w, x, c);
        o.value == v && o.freg == f.(cf := v % 2 == 1, of := c == 1 && TopDiffers(w, v, v % 2 == 1))
  {
    hide Rotates.RolShifts, Rotates.Steps, Turns, TopDiffers, Pow2, Bit;
    var c := Turns(count, w);
    if c > 0 {
      Rotates.RolIsSteps(w, x, f.cf, c);
      CarryShows(Rotates.Rol, w, f.cf, x, c);
    }
  }

  lemma RorClosed(w: nat, f: Flags, x: nat, count: uint8)
    requires Width(w) && x < Pow2(w)
    ensures
      var c := Turns(count, w);
      var o := Rotated(Rotates.Ror, w, f, x, count);
      if c == 0 then o == Outcome(x, f)
      else
        var v := Rotates.RorShifts(w, x, c);
        o.value == v && o.freg == f.(cf := Bit(v, w - 1), of := c == 1 && TopTwoDiffer(w, v))
  {
    hide Rotates.RorShifts, Rotates.Steps, Turns, TopTwoDiffer, Pow2, Bit;
    var c := Turns(count, w);
    if c > 0 {
      Rotates.RorIsSteps(w, x, f.cf, c);
      CarryShows(Rotates.Ror, w, f.cf, x, c);
    }
  }

  lemma RclClosed(w: nat, f: Flags, x: nat, count: uint8)
    requires Width(w) && x < Pow2(w)
    ensures
      var c := Turns(count, w);
      var o := Rotated(Rotates.Rcl, w, f, x, count);
      if c == 0 then o == Outcome(x, f)
      else
        var big := Rotates.RclShifts(w, x, f.cf, c);
        var v := Kept(w, Shr(big, 1));
        o.value == v && o.freg == f.(cf := Bit(big, w + 1), of := c == 1 && TopDiffers(w, v, Bit(big, w + 1)))
  {
    hide Rotates.RclShifts, Rotates.Steps, Turns, TopDiffers, Pow2, Bit, Kept, Shr, Shl;
    var c := Turns(count, w);
    if c > 0 {
      Rotates.RclIsSteps(w, x, f.cf, c);
      KeptIsShl(w, Shr(Rotates.RclShifts(w, x, f.cf, c), 1));
    }
  }

  lemma RcrClosed(w: nat, f: Flags, x: nat, count: uint8)
    requires Width(w) && x < Pow2(w)
    ensures
      var c := Turns(count, w);
      var o := Rotated(Rotates.Rcr, w, f, x, count);
      if c == 0 then o == Outcome(x, f)
      else
        var big := Kept(Container(w), Rotates.RcrShifts(w, x, f.cf, c));
        var v := Kept(w, big);
        o.value == v && o.freg == f.(cf := Bit(big, w), of := c == 1 && TopTwoDiffer(w, v))
  {
    hide Rotates.RcrShifts, Rotates.Steps, Turns, TopTwoDiffer, Pow2, Bit, Kept, Shr, Shl, Container;
    var c := Turns(count, w);
    if c > 0 {
      Rotates.RcrIsSteps(w, x, f.cf, c);
      ContainerBits(w, Rotates.RcrShifts(w, x, f.cf, c));
    }
  }

  lemma ShldClosed(w: nat, f: Flags, des: nat, src: nat, count: uint8)
    requires DoubleWidth(w) && des < Pow2(w) && src < Pow2(w)
    ensures
      var c := Positions(count, w);
      var o := ShiftedLeft(w, f, des, src, count);
      if c == 0 then o == Outcome(des, f)
      else
        var v, cf := Rotates.ShldShifts(w, des, src, c), Bit(des, w - c);
        && o.value == v
        && o.freg == ResultFlags(f, o.value, w == 16).(cf := cf, of := if c == 1 then TopDiffers(w, v, cf) else f.of)
  {
    hide Rotates.ShldShifts, Positions, TopDiffers, Pow2, Bit, Shr, Shl, ResultFlags;
    var c := Positions(count, w);
    if c > 0 {
      ShldValue(w, des, src, c);
    }
  }

  lemma ShrdClosed(w: nat, f: Flags, des: nat, src: nat, count: uint8)
    requires DoubleWidth(w) && des < Pow2(w) && src < Pow2(w)
    ensures
      var c := Positions(count, w);
      var o := ShiftedRight(w, f, des, src, count);
      if c == 0 then o == Outcome(des, f)
      else
        var v := Rotates.ShrdShifts(w, des, src, c);
        && o.value == v
        && o.freg == ResultFlags(f, o.value, w == 16).(cf := Bit(des, c - 1), of := c == 1 && TopTwoDiffer(w, v))
  {
    hide Rotates.ShrdShifts, Positions, TopTwoDiffer, Pow2, Bit, Shr, Shl, ResultFlags;
    var c := Positions(count, w);
    if c > 0 {
      ShrdValue(w, des, src, c);
    }
  }
}
