/**
  Rotates and rotates through carry.  The C++ helpers compute them with one pair of shifts; the
  processor manual (Intel SDM Volume 2, RCL/RCR/ROL/ROR) defines them as a loop of one-bit steps
  on the operand and CF.  The proofs are for every operand width at once: all four rotates are
  turns of a ring of bits, and the ring turns have one closed form.
*/
module Rotates {
  import opened Bits

  // ----- One-bit steps -----

  datatype Operand = Operand(x: nat, cf: bool)

  datatype Rotation = Rol | Ror | Rcl | Rcr

  ghost predicate Fits(w: nat, s: Operand) {
    w > 0 && s.x < Pow2(w)
  }

  /** The top bit of a `w`-bit operand. */
  ghost predicate Top(w: nat, x: nat)
    requires w > 0
  {
    x >= Pow2(w - 1)
  }

  ghost function Below(w: nat, x: nat): nat
    requires w > 0
  {
    if Top(w, x) then x - Pow2(w - 1) else x
  }

  /** One step of a rotate of a `w`-bit operand. */
  ghost function Step(r: Rotation, w: nat, s: Operand): (t: Operand)
    requires Fits(w, s)
    ensures Fits(w, t)
  {
    match r
    case Rol => Operand(2 * Below(w, s.x) + Num(Top(w, s.x)), Top(w, s.x))
    case Rcl => Operand(2 * Below(w, s.x) + Num(s.cf), Top(w, s.x))
    case Ror => Operand(s.x / 2 + (if s.x % 2 == 1 then Pow2(w - 1) else 0), s.x % 2 == 1)
    case Rcr => Operand(s.x / 2 + (if s.cf then Pow2(w - 1) else 0), s.x % 2 == 1)
  }

  ghost function Steps(r: Rotation, w: nat, n: nat, s: Operand): (t: Operand)
    requires Fits(w, s)
    ensures Fits(w, t)
  {
    if n == 0 then s else Step(r, w, Steps(r, w, n - 1, s))
  }

  lemma OneStep(r: Rotation, w: nat, s: Operand)
    requires Fits(w, s)
    ensures Steps(r, w, 1, s) == Step(r, w, s)
  {
    assert Steps(r, w, 0, s) == s;
  }

  // ----- Turning a ring of w bits -----

  ghost function Turn(w: nat, x: nat): (y: nat)
    requires w > 0 && x < Pow2(w)
    ensures y < Pow2(w)
  {
    2 * Below(w, x) + Num(Top(w, x))
  }

  ghost function Turns(w: nat, n: nat, x: nat): (y: nat)
    requires w > 0 && x < Pow2(w)
    ensures y < Pow2(w)
  {
    if n == 0 then x else Turn(w, Turns(w, n - 1, x))
  }

  ghost function TurnBack(w: nat, x: nat): (y: nat)
    requires w > 0 && x < Pow2(w)
    ensures y < Pow2(w)
  {
    x / 2 + if x % 2 == 1 then Pow2(w - 1) else 0
  }

  ghost function TurnsBack(w: nat, n: nat, x: nat): (y: nat)
    requires w > 0 && x < Pow2(w)
    ensures y < Pow2(w)
  {
    if n == 0 then x else TurnBack(w, TurnsBack(w, n - 1, x))
  }

  /** The word made of a high field `h` above a low field `l` of `k` bits. */
  ghost function Join(h: nat, k: nat, l: nat): nat { h * Pow2(k) + l }

  lemma JoinBound(h: nat, c: nat, k: nat, l: nat)
    requires h < Pow2(c) && l < Pow2(k)
    ensures Join(h, k, l) < Pow2(c + k)
  {
    PowAdd(c, k);
    FieldBound(h, Pow2(c), Pow2(k));
  }

  /** The field boundary moved down by one bit `t`. */
  lemma MoveBoundary(h: nat, t: nat, k: nat, l: nat)
    requires t <= 1
    ensures Join(h, k + 1, t * Pow2(k) + l) == Join(2 * h + t, k, l)
  {
    var q := Pow2(k);
    assert Pow2(k + 1) == 2 * q;
    MulSwap(h, 2, q);
    MulAddLeft(h * 2, t, q);
  }

  lemma TurnOf(w: nat, t: nat, y: nat)
    requires w > 0 && t <= 1 && y < Pow2(w - 1)
    ensures t * Pow2(w - 1) + y < Pow2(w)
    ensures Turn(w, t * Pow2(w - 1) + y) == 2 * y + t
  {
    var m := Pow2(w - 1);
    assert Pow2(w) == 2 * m;
    assert t * m == if t == 1 then m else 0;
  }

  lemma JoinDouble(l: nat, k: nat, h: nat, t: nat)
    ensures Join(l, k + 1, 2 * h + t) == 2 * Join(l, k, h) + t
  {
    MulSwap(l, 2, Pow2(k));
  }

  lemma OneMoreTurn(w: nat, k: nat, h: nat, t: nat, l: nat)
    requires k < w && t <= 1 && h < Pow2(w - k - 1) && l < Pow2(k)
    ensures Join(t * Pow2(k) + l, w - k - 1, h) < Pow2(w)
    ensures Turn(w, Join(t * Pow2(k) + l, w - k - 1, h)) == Join(l, w - k, 2 * h + t)
  {
    var c := w - k - 1;
    assert Join(t * Pow2(k) + l, c, h) == t * Pow2(w - 1) + Join(l, c, h) by {
      PowAdd(k, c);
      MulAddLeft(t * Pow2(k), l, Pow2(c));
      MulSwap(t, Pow2(k), Pow2(c));
    }
    JoinBound(l, k, c, h);
    TurnOf(w, t, Join(l, c, h));
    JoinDouble(l, c, h, t);
  }

  /** `c` turns exchange the top `c` bits with the others. */
  lemma {:induction false} TurnsExchange(w: nat, c: nat, h: nat, l: nat)
    requires 0 < w && c <= w && h < Pow2(c) && l < Pow2(w - c)
    ensures Join(h, w - c, l) < Pow2(w)
    ensures Turns(w, c, Join(h, w - c, l)) == Join(l, c, h)
    decreases c
  {
    JoinBound(h, c, w - c, l);
    if c > 0 {
      var l' := h % 2 * Pow2(w - c) + l;
      MoveBoundary(h / 2, h % 2, w - c, l);
      TurnsExchange(w, c - 1, h / 2, l');
      OneMoreTurn(w, w - c, h / 2, h % 2, l);
    }
  }

  lemma TurnRoundTrip(w: nat, x: nat)
    requires w > 0 && x < Pow2(w)
    ensures TurnBack(w, Turn(w, x)) == x && Turn(w, TurnBack(w, x)) == x
  {
    var m := Pow2(w - 1);
    assert Pow2(w) == 2 * m;
    assert Turn(w, x) / 2 == Below(w, x) && Turn(w, x) % 2 == Num(Top(w, x));
  }

  lemma {:induction false} TurnsBackAfterTurns(w: nat, n: nat, m: nat, x: nat)
    requires w > 0 && x < Pow2(w) && n <= m
    ensures TurnsBack(w, n, Turns(w, m, x)) == Turns(w, m - n, x)
    decreases n
  {
    if n > 0 {
      TurnsBackAfterTurns(w, n - 1, m, x);
      TurnRoundTrip(w, Turns(w, m - n, x));
    }
  }

  lemma FullTurn(w: nat, x: nat)
    requires w > 0 && x < Pow2(w)
    ensures Turns(w, w, x) == x == TurnsBack(w, w, x)
  {
    TurnsExchange(w, w, x, 0);
    assert Join(x, 0, 0) == x && Join(0, w, x) == x;
    TurnsBackAfterTurns(w, w, w, x);
  }

  /** A full turn is the identity, so turning back by `c` is turning on by the rest. */
  lemma TurnsBackExchange(w: nat, c: nat, h: nat, l: nat)
    requires 0 < w && c <= w && l < Pow2(c) && h < Pow2(w - c)
    ensures Join(h, c, l) < Pow2(w)
    ensures TurnsBack(w, c, Join(h, c, l)) == Join(l, w - c, h)
  {
    TurnsExchange(w, w - c, h, l);
    var x := Join(h, c, l);
    FullTurn(w, x);
    TurnsBackAfterTurns(w, c, w, x);
  }

  // ----- The four rotates are ring turns -----

  /** The operand with CF below it: the ring that RCL and RCR turn. */
  ghost function Ring(s: Operand): nat { 2 * s.x + Num(s.cf) }

  lemma {:induction false} StepsAreTurns(w: nat, n: nat, s: Operand)
    requires Fits(w, s)
    ensures Steps(Rol, w, n, s).x == Turns(w, n, s.x)
    ensures Steps(Ror, w, n, s).x == TurnsBack(w, n, s.x)
    ensures Ring(s) < Pow2(w + 1)
    ensures Ring(Steps(Rcl, w, n, s)) == Turns(w + 1, n, Ring(s))
    ensures Ring(Steps(Rcr, w, n, s)) == TurnsBack(w + 1, n, Ring(s))
    decreases n
  {
    if n > 0 {
      StepsAreTurns(w, n - 1, s);
      RclTurnsRing(w, Steps(Rcl, w, n - 1, s));
      RcrTurnsRing(w, Steps(Rcr, w, n - 1, s));
    } else {
      RclTurnsRing(w, s);
    }
  }

  lemma RclTurnsRing(w: nat, s: Operand)
    requires Fits(w, s)
    ensures Ring(s) < Pow2(w + 1) && Ring(Step(Rcl, w, s)) == Turn(w + 1, Ring(s))
  {
    var m := Pow2(w - 1);
    assert Pow2(w) == 2 * m && Pow2(w + 1) == 4 * m;
    assert Top(w + 1, Ring(s)) == Top(w, s.x);
  }

  lemma RcrTurnsRing(w: nat, s: Operand)
    requires Fits(w, s)
    ensures Ring(s) < Pow2(w + 1) && Ring(Step(Rcr, w, s)) == TurnBack(w + 1, Ring(s))
  {
    var m := Pow2(w - 1);
    assert Pow2(w) == 2 * m && Pow2(w + 1) == 4 * m;
    assert Ring(s) / 2 == s.x && Ring(s) % 2 == Num(s.cf);
  }

  /** CF after a rotate is the bit that crossed the end last. */
  lemma CarryOfRotate(w: nat, n: nat, s: Operand)
    requires Fits(w, s) && n > 0
    ensures Steps(Rol, w, n, s).cf == (Steps(Rol, w, n, s).x % 2 == 1)
    ensures Steps(Ror, w, n, s).cf == Top(w, Steps(Ror, w, n, s).x)
  {
    assert Pow2(w) == 2 * Pow2(w - 1);
  }

  /** A rotate and its opposite by the same count cancel; with the carry in the ring, CF too. */
  lemma {:induction false} OppositeRotatesCancel(w: nat, n: nat, s: Operand)
    requires Fits(w, s)
    ensures Steps(Ror, w, n, Steps(Rol, w, n, s)).x == s.x
    ensures Steps(Rcr, w, n, Steps(Rcl, w, n, s)) == s
  {
    StepsAreTurns(w, n, s);
    StepsAreTurns(w, n, Steps(Rol, w, n, s));
    StepsAreTurns(w, n, Steps(Rcl, w, n, s));
    TurnsBackAfterTurns(w, n, n, s.x);
    TurnsBackAfterTurns(w + 1, n, n, Ring(s));
  }

  /** ROR reads no carry. */
  lemma {:induction false} RorIgnoresCarry(w: nat, n: nat, x: nat, cf: bool, cf': bool)
    requires w > 0 && x < Pow2(w)
    ensures Steps(Ror, w, n, Operand(x, cf)).x == Steps(Ror, w, n, Operand(x, cf')).x
  {
    if n > 0 {
      RorIgnoresCarry(w, n - 1, x, cf, cf');
    }
  }

  lemma SameRing(s: Operand, t: Operand)
    requires Ring(s) == Ring(t)
    ensures s == t
  {
  }

  /** RCL and RCR have period w + 1, not w. */
  lemma CarryRotatePeriod(w: nat, s: Operand)
    requires Fits(w, s)
    ensures Steps(Rcl, w, w + 1, s) == s && Steps(Rcr, w, w + 1, s) == s
  {
    StepsAreTurns(w, w + 1, s);
    FullTurn(w + 1, Ring(s));
    SameRing(s, Steps(Rcl, w, w + 1, s));
    SameRing(s, Steps(Rcr, w, w + 1, s));
  }

  // ----- The shift pairs of the C++ helpers -----

  /** ROL as two shifts in a `w`-bit word. */
  function RolShifts(w: nat, x: nat, c: nat): nat
    requires 0 < c < w
  {
    Or(Shl(w, x, c), Shr(x, w - c))
  }

  function RorShifts(w: nat, x: nat, c: nat): nat
    requires 0 < c < w
  {
    Or(Shr(x, c), Shl(w, x, w - c))
  }

  /** A field of `w` bits shifted left, with the bits that leave it brought in below; nothing is dropped. */
  function LeftAround(w: nat, bigbase: nat, c: nat): nat
    requires c <= w
  {
    Or(bigbase * Pow2(c), Shr(bigbase, w - c))
  }

  function RightAround(w: nat, bigbase: nat, c: nat): nat
    requires c <= w
  {
    Or(Shr(bigbase, c), bigbase * Pow2(w - c))
  }

  /** RCL as two shifts of the operand over CF, in a wider word that drops nothing. */
  function RclShifts(w: nat, x: nat, cf: bool, c: nat): nat
    requires 0 < c < w
  {
    LeftAround(w + 1, Or(x * 2, Num(cf)), c)
  }

  function RcrShifts(w: nat, x: nat, cf: bool, c: nat): nat
    requires 0 < c < w
  {
    RightAround(w + 1, Or(x, if cf then Pow2(w) else 0), c)
  }

  /** Cuts `x` into the top `c` bits and the rest. */
  lemma Cut(w: nat, c: nat, x: nat) returns (h: nat, l: nat)
    requires x < Pow2(w) && c <= w
    ensures h < Pow2(c) && l < Pow2(w - c) && x == Join(h, w - c, l)
    ensures h == Shr(x, w - c)
  {
    var q := Pow2(w - c);
    DivIdentity(x, q);
    h, l := x / q, x % q;
    PowAdd(c, w - c);
    if h >= Pow2(c) {
      MulMono(Pow2(c), h, q);
    }
  }

  lemma RolIsSteps(w: nat, x: nat, cf: bool, c: nat)
    requires 0 < c < w && x < Pow2(w)
    ensures
      var t := Steps(Rol, w, c, Operand(x, cf));
      RolShifts(w, x, c) == t.x && (t.x % 2 == 1 <==> t.cf)
  {
    var h, l := Cut(w, c, x);
    ShiftLeftSplit(w, c, h, l);
    OrDisjoint(l, c, h);
    TurnsExchange(w, c, h, l);
    StepsAreTurns(w, c, Operand(x, cf));
    CarryOfRotate(w, c, Operand(x, cf));
  }

  lemma RorIsSteps(w: nat, x: nat, cf: bool, c: nat)
    requires 0 < c < w && x < Pow2(w)
    ensures
      var t := Steps(Ror, w, c, Operand(x, cf));
      RorShifts(w, x, c) == t.x && (Top(w, t.x) <==> t.cf)
  {
    var h, l := Cut(w, w - c, x);
    ShiftLeftSplit(w, w - c, h, l);
    OrDisjoint(l, w - c, h);
    OrSym(h, l * Pow2(w - c));
    TurnsBackExchange(w, c, h, l);
    StepsAreTurns(w, c, Operand(x, cf));
    CarryOfRotate(w, c, Operand(x, cf));
  }

  /** What RCL reads off its wide word: `h` copies of the ring's size above the turned ring. */
  lemma ReadRcl(w: nat, h: nat, t: Operand, r: nat)
    requires Fits(w, t) && r == h * Pow2(w + 1) + Ring(t) && h % 2 == Ring(t) % 2
    ensures Shl(w, Shr(r, 1), 0) == t.x && (Bit(r, w + 1) <==> t.cf)
  {
    assert Ring(t) < Pow2(w + 1) by {
      RclTurnsRing(w, t);
    }
    DivModUnique(r, Pow2(w + 1), h, Ring(t));
    assert Shr(r, w + 1) == h;
    ReadRclValue(w, h, t, r);
  }

  lemma ReadRclValue(w: nat, h: nat, t: Operand, r: nat)
    requires Fits(w, t) && r == h * Pow2(w + 1) + Ring(t)
    ensures Shl(w, Shr(r, 1), 0) == t.x
  {
    var q := h * Pow2(w);
    assert h * Pow2(w + 1) == 2 * q by {
      MulSwap(h, 2, Pow2(w));
    }
    assert Pow2(1) == 2 * Pow2(0);
    assert Shr(r, 1) == q + t.x;
    DivModUnique(q + t.x, Pow2(w), h, t.x);
  }

  /** The undropped double shift of a ring: the turned ring, below the bits that crossed over. */
  lemma LeftWord(w: nat, big: nat, c: nat) returns (h: nat)
    requires 0 < c < w && big < Pow2(w)
    ensures LeftAround(w, big, c) == h * Pow2(w) + Turns(w, c, big)
    ensures h % 2 == Turns(w, c, big) % 2
  {
    var l;
    h, l := Cut(w, c, big);
    TurnsExchange(w, c, h, l);
    OrDisjoint(big, c, h);
    SpreadLeft(h, w - c, l, c);
    LowBit(l, c, h);
  }

  lemma RclIsSteps(w: nat, x: nat, cf: bool, c: nat)
    requires 0 < c < w && x < Pow2(w)
    ensures
      var r, t := RclShifts(w, x, cf, c), Steps(Rcl, w, c, Operand(x, cf));
      Shl(w, Shr(r, 1), 0) == t.x && (Bit(r, w + 1) <==> t.cf)
  {
    var s := Operand(x, cf);
    StepsAreTurns(w, c, s);
    RingByOr(x, cf);
    var h := LeftWord(w + 1, Ring(s), c);
    ReadRcl(w, h, Steps(Rcl, w, c, s), RclShifts(w, x, cf, c));
  }

  lemma RingByOr(x: nat, cf: bool)
    ensures Or(x * 2, Num(cf)) == Ring(Operand(x, cf))
  {
    assert Pow2(1) == 2 * Pow2(0);
    OrDisjoint(x, 1, Num(cf));
  }

  lemma SpreadLeft(h: nat, k: nat, l: nat, c: nat)
    ensures Join(h, k, l) * Pow2(c) == h * Pow2(k + c) + l * Pow2(c)
  {
    PowAdd(k, c);
    MulAddLeft(h * Pow2(k), l, Pow2(c));
    MulSwap(h, Pow2(k), Pow2(c));
  }

  lemma LowBit(l: nat, c: nat, h: nat)
    requires c > 0
    ensures Join(l, c, h) % 2 == h % 2
  {
    var v := l * Pow2(c - 1);
    assert l * Pow2(c) == 2 * v by {
      MulSwap(l, 2, Pow2(c - 1));
    }
  }

  lemma {:induction false} TurnsBackInner(w: nat, n: nat, x: nat)
    requires w > 0 && x < Pow2(w)
    ensures TurnsBack(w, n, TurnBack(w, x)) == TurnBack(w, TurnsBack(w, n, x))
    decreases n
  {
    if n > 0 {
      TurnsBackInner(w, n - 1, x);
    }
  }

  /** Turned back by one, the ring has CF on top of the operand. */
  lemma CarryOnTop(w: nat, s: Operand)
    requires Fits(w, s)
    ensures Ring(s) < Pow2(w + 1)
    ensures TurnBack(w + 1, Ring(s)) == s.x + (if s.cf then Pow2(w) else 0) == Or(s.x, if s.cf then Pow2(w) else 0)
  {
    assert Pow2(w + 1) == 2 * Pow2(w);
    assert Ring(s) / 2 == s.x && Ring(s) % 2 == Num(s.cf);
    OrDisjointSym(Num(s.cf), w, s.x);
    assert Num(s.cf) * Pow2(w) == if s.cf then Pow2(w) else 0;
  }

  lemma ReadRcr(w: nat, h: nat, t: Operand, r: nat)
    requires Fits(w, t) && Ring(t) < Pow2(w + 1)
    requires r == h * Pow2(w + 1) + TurnBack(w + 1, Ring(t))
    ensures Shl(w, r, 0) == t.x && (Bit(r, w) <==> t.cf)
  {
    CarryOnTop(w, t);
    assert Pow2(w + 1) == 2 * Pow2(w);
    MulSwap(h, 2, Pow2(w));
    MulAddLeft(h * 2, Num(t.cf), Pow2(w));
    assert Num(t.cf) * Pow2(w) == if t.cf then Pow2(w) else 0;
    DivModUnique(r, Pow2(w), 2 * h + Num(t.cf), t.x);
  }

  lemma RightWord(w: nat, big: nat, c: nat) returns (h: nat)
    requires 0 < c < w && big < Pow2(w)
    ensures RightAround(w, big, c) == h * Pow2(w) + TurnsBack(w, c, big)
  {
    var l;
    h, l := Cut(w, w - c, big);
    TurnsBackExchange(w, c, h, l);
    OrDisjointSym(big, w - c, h);
    SpreadLeft(h, c, l, w - c);
  }

  lemma RcrWord(w: nat, s: Operand, c: nat) returns (h: nat)
    requires 0 < c < w && Fits(w, s)
    ensures Ring(s) < Pow2(w + 1)
    ensures RcrShifts(w, s.x, s.cf, c) == h * Pow2(w + 1) + TurnBack(w + 1, TurnsBack(w + 1, c, Ring(s)))
  {
    CarryOnTop(w, s);
    var big := TurnBack(w + 1, Ring(s));
    h := RightWord(w + 1, big, c);
    TurnsBackInner(w + 1, c, Ring(s));
  }

  lemma RcrIsSteps(w: nat, x: nat, cf: bool, c: nat)
    requires 0 < c < w && x < Pow2(w)
    ensures
      var r, t := RcrShifts(w, x, cf, c), Steps(Rcr, w, c, Operand(x, cf));
      Shl(w, r, 0) == t.x && (Bit(r, w) <==> t.cf)
  {
    var s := Operand(x, cf);
    StepsAreTurns(w, c, s);
    var h := RcrWord(w, s, c);
    var t := Steps(Rcr, w, c, s);
    assert Ring(t) == TurnsBack(w + 1, c, Ring(s));
    ReadRcr(w, h, t, RcrShifts(w, x, cf, c));
  }

  // ----- Double shifts -----

  function ShldShifts(w: nat, des: nat, src: nat, c: nat): nat
    requires 0 < c < w
  {
    Or(Shl(w, des, c), Shr(src, w - c))
  }

  function ShrdShifts(w: nat, des: nat, src: nat, c: nat): nat
    requires 0 < c < w
  {
    Or(Shr(des, c), Shl(w, src, w - c))
  }

  /** SHLD is the high word of the double word `des:src` shifted left. */
  lemma ShldIsWideShift(w: nat, des: nat, src: nat, c: nat)
    requires 0 < c < w && des < Pow2(w) && src < Pow2(w)
    ensures ShldShifts(w, des, src, c) == Shl(w, Shr(Join(des, w, src) * Pow2(c), w), 0)
  {
    var h, l := Cut(w, c, des);
    var h', l' := Cut(w, c, src);
    assert ShldShifts(w, des, src, c) == Join(l, c, h') by {
      ShiftLeftSplit(w, c, h, l);
      OrDisjoint(l, c, h');
    }
    LowField(w, c, h, l, h');
    WideLeft(w, des, c, h', l');
  }

  lemma LowField(w: nat, c: nat, h: nat, l: nat, b: nat)
    requires c <= w && l < Pow2(w - c) && b < Pow2(c)
    ensures Shl(w, Join(Join(h, w - c, l), c, b), 0) == Join(l, c, b)
  {
    JoinBound(l, w - c, c, b);
    SpreadLeft(h, w - c, l, c);
    DivModUnique(Join(Join(h, w - c, l), c, b), Pow2(w), h, Join(l, c, b));
  }

  lemma WideRight(w: nat, src: nat, c: nat, h: nat, l: nat)
    requires c <= w && l < Pow2(c)
    ensures Shr(Join(src, w, Join(h, c, l)), c) == Join(src, w - c, h)
  {
    var p, q := Pow2(c), Pow2(w - c);
    PowAdd(w - c, c);
    MulSwap(src, q, p);
    MulAddLeft(src * q, h, p);
    DivModUnique(Join(src, w, Join(h, c, l)), p, Join(src, w - c, h), l);
  }

  lemma WideLeft(w: nat, des: nat, c: nat, h: nat, l: nat)
    requires c <= w && l < Pow2(w - c)
    ensures Shr(Join(des, w, Join(h, w - c, l)) * Pow2(c), w) == Join(des, c, h)
  {
    hide Pow2;
    var p, m, x := Pow2(c), Pow2(w), Join(h, w - c, l);
    SpreadLeft(h, w - c, l, c);
    assert x * p == h * m + l * p;
    SpreadLeft(des, w, x, c);
    PowAdd(c, w);
    MulSwap(des, p, m);
    assert Join(des, w, x) * p == des * p * m + (h * m + l * p);
    MulAddLeft(des * p, h, m);
    PowAdd(w - c, c);
    FieldBound(l, Pow2(w - c), p);
    DivModUnique(Join(des, w, x) * p, m, des * p + h, l * p);
  }

  /** SHRD is the low word of the double word `src:des` shifted right. */
  lemma ShrdIsWideShift(w: nat, des: nat, src: nat, c: nat)
    requires 0 < c < w && des < Pow2(w) && src < Pow2(w)
    ensures ShrdShifts(w, des, src, c) == Shl(w, Shr(Join(src, w, des), c), 0)
  {
    var h, l := Cut(w, w - c, des);
    var h', l' := Cut(w, w - c, src);
    assert ShrdShifts(w, des, src, c) == Join(l', w - c, h) by {
      ShiftLeftSplit(w, w - c, h', l');
      OrDisjointSym(l', w - c, h);
    }
    LowField(w, w - c, h', l', h);
    WideRight(w, src, c, h, l);
  }

  /** The bit that ROR moves to CF last. */
  lemma RorCarry(w: nat, x: nat, cf: bool, c: nat)
    requires 0 < c < w && x < Pow2(w)
    ensures Steps(Ror, w, c, Operand(x, cf)).cf == Bit(x, c - 1)
  {
    var h, l := Cut(w, w - (c - 1), x);
    TurnsBackExchange(w, c - 1, h, l);
    StepsAreTurns(w, c - 1, Operand(x, cf));
    LowBit(l, w - (c - 1), h);
  }

  /** The bit that RCR moves to CF last. */
  lemma RcrCarry(w: nat, x: nat, cf: bool, c: nat)
    requires 0 < c <= w && x < Pow2(w)
    ensures Steps(Rcr, w, c, Operand(x, cf)).cf == Bit(x, c - 1)
  {
    hide Steps, TurnsBack, Pow2, Shr, Join;
    var s, k := Operand(x, cf), w + 1 - c;
    StepsAreTurns(w, c, s);
    var h, l := Cut(w + 1, k, Ring(s));
    assert w + 1 - k == c;
    TurnsBackExchange(w + 1, c, h, l);
    LowBit(l, k, h);
    RingParity(Steps(Rcr, w, c, s));
    RingField(x, cf, c);
  }

  lemma RingParity(t: Operand)
    ensures Ring(t) % 2 == 1 <==> t.cf
  {
  }

  /** The ring without its low `c` bits is the operand without its low `c - 1`. */
  lemma RingField(x: nat, cf: bool, c: nat)
    requires c > 0
    ensures Shr(2 * x + Num(cf), c) == Shr(x, c - 1)
  {
    var p := Pow2(c - 1);
    DivIdentity(x, p);
    MulSwap(x / p, 2, p);
    DivModUnique(2 * x + Num(cf), Pow2(c), x / p, 2 * (x % p) + Num(cf));
  }

  /** A double shift of a word with itself is a rotate, in value and in the bit moved to CF. */
  lemma DoubleShiftOfSelf(w: nat, x: nat, cf: bool, c: nat)
    requires 0 < c < w && x < Pow2(w)
    ensures ShldShifts(w, x, x, c) == Steps(Rol, w, c, Operand(x, cf)).x
    ensures Bit(x, w - c) == Steps(Rol, w, c, Operand(x, cf)).cf
    ensures ShrdShifts(w, x, x, c) == Steps(Ror, w, c, Operand(x, cf)).x
    ensures Bit(x, c - 1) == Steps(Ror, w, c, Operand(x, cf)).cf
  {
    RolIsSteps(w, x, cf, c);
    RorIsSteps(w, x, cf, c);
    RorCarry(w, x, cf, c);
    var h, l := Cut(w, c, x);
    TurnsExchange(w, c, h, l);
    StepsAreTurns(w, c, Operand(x, cf));
    LowBit(l, c, h);
  }
}
