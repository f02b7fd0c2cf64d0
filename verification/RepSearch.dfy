/**
  Whole runs of REPE/REPNE SCAS and CMPS: linear searches for the first element pair that
  compares the other way.
*/
module RepSearch {
  import opened Words
  import opened FlatMemory
  import opened Arithmetic
  import ArithmeticLaws
  import opened CpuState
  import opened Isa
  import opened PrefixChains
  import opened Pointers
  import opened RepSteps
  import opened RepRuns

  const CMPS := 0xA7
  const SCAS := 0xAF

  ghost predicate IsSearch(c: RepCode) { c.op == CMPS || c.op == SCAS }

  /** The first `n` elements can be read; SCAS reads only the destination side. */
  ghost predicate Searchable(s: Cpu, c: RepCode, n: nat) {
    DstMapped(s, c, n) && (c.op == CMPS ==> SrcMapped(s, c, n))
  }

  lemma ElementFits(s: Cpu, c: RepCode, a: int)
    requires Mapped(s.memory, a, c.Size())
    ensures Get(s.memory, a, c.Size()) < Modulus(c.Op16())
  {
    GetBound(s.memory, a, c.Size());
    Pow256Values();
  }

  /** What element `k` is compared with. */
  ghost function Left(s: Cpu, c: RepCode, k: nat): (v: uint32)
    requires Searchable(s, c, k + 1)
  {
    if c.op == CMPS then
      ElementFits(s, c, Src(s, c, k));
      Get(s.memory, Src(s, c, k), c.Size())
    else Accumulator(s, c)
  }

  ghost function Right(s: Cpu, c: RepCode, k: nat): (v: uint32)
    requires Searchable(s, c, k + 1)
  {
    ElementFits(s, c, Dst(s, c, k));
    Get(s.memory, Dst(s, c, k), c.Size())
  }

  /** Comparison `k` ends the search: REPNE stops at a match, REPE at a mismatch. */
  ghost predicate Stops(s: Cpu, c: RepCode, k: nat)
    requires Searchable(s, c, k + 1)
  {
    (Left(s, c, k) == Right(s, c, k)) == (c.rep == REPNE)
  }

  /** The flags after `k` comparisons: those of the last one. */
  ghost function FlagsAfter(s: Cpu, c: RepCode, k: nat): Flags
    requires Searchable(s, c, k)
  {
    if k == 0 then s.freg else Sub(s.freg, Left(s, c, k - 1), Right(s, c, k - 1), c.Op16()).freg
  }

  /** None of the first `k` comparisons ends the search. */
  ghost predicate Passes(s: Cpu, c: RepCode, k: nat)
    requires Searchable(s, c, k)
  {
    forall j :: 0 <= j < k ==> !Stops(s, c, j)
  }

  lemma CompareZero(f: Flags, a: uint32, b: uint32, size16: bool)
    requires a < Modulus(size16) && b < Modulus(size16)
    ensures Sub(f, a, b, size16).freg.zf <==> a == b
    ensures Sub(f, a, b, size16).freg.df == f.df
  {
    ArithmeticLaws.ZeroDifference(a, b, size16);
    ArithmeticLaws.TruncateSmall(a, size16);
    ArithmeticLaws.TruncateSmall(b, size16);
  }

  /** Both string handlers announce the comparison, because the byte before them is the REP prefix. */
  lemma CompareHandler(s: Cpu, c: RepCode)
    requires Ready(s, c) && IsSearch(c) && Searchable(s, c, 1)
    ensures
      var f := Sub(s.freg, Left(s, c, 0), Right(s, c, 0), c.Op16()).freg;
      StringOp(AtString(s, c), c.op) == Ok(SetIndex(AtString(s, c).(stringCompares := true, freg := f)))
  {
    hide Sub, SetIndex, Get, Pointer;
    StringByte(s, c);
    ElementZero(s, c);
    var t := AtString(s, c);
    assert MarkCompare(t) == Ok(t.(stringCompares := true));
  }

  /** One comparison. */
  lemma CompareCycle(s: Cpu, c: RepCode)
    requires Ready(s, c) && IsSearch(c) && Count(s, c) > 0 && Searchable(s, c, 1)
    ensures
      var t := After(s, c, 1, s.memory, FlagsAfter(s, c, 1));
      Cycle(s) == Ok(if Stops(s, c, 0) then t.(eip := Past(s, c)) else t)
  {
    hide Cycle, Returned, SetIndex, Strided, StringOp, After, Sub, Ready, Count, AtString;
    RepCycle(s, c);
    CompareHandler(s, c);
    var f := FlagsAfter(s, c, 1);
    LeftFits(s, c, 0);
    CompareZero(s.freg, Left(s, c, 0), Right(s, c, 0), c.Op16());
    AtStringFields(s, c);
    var u := AtString(s, c).(stringCompares := true, freg := f);
    SetIndexStrides(u, c);
    StridedFlags(AtString(s, c), c, f);
    ReturnedAfter(s, c, s.memory, f, true);
  }

  lemma LeftFits(s: Cpu, c: RepCode, k: nat)
    requires Searchable(s, c, k + 1)
    ensures Left(s, c, k) < Modulus(c.Op16()) && Right(s, c, k) < Modulus(c.Op16())
  {
    hide Src, Dst, Get;
    if c.op == CMPS {
      ElementFits(s, c, Src(s, c, k));
    }
    ElementFits(s, c, Dst(s, c, k));
  }

  lemma AtStringFields(s: Cpu, c: RepCode)
    ensures AtString(s, c).memory == s.memory && AtString(s, c).freg == s.freg && AtString(s, c).operandSize16 == c.Op16()
  {
  }

  lemma StridedFlags(t: Cpu, c: RepCode, f: Flags)
    requires f.df == t.freg.df
    ensures Strided(t.(stringCompares := true, freg := f), c, t.memory, f, true) == Strided(t, c, t.memory, f, true)
  {
  }

  // ----- Runs -----

  /** What a later cycle compares is what the first state says about its element. */
  lemma SameElement(s: Cpu, c: RepCode, k: nat)
    requires Searchable(s, c, k + 1)
    ensures
      var t := After(s, c, k, s.memory, FlagsAfter(s, c, k));
      && Searchable(t, c, 1) && Left(t, c, 0) == Left(s, c, k) && Right(t, c, 0) == Right(s, c, k)
      && FlagsAfter(t, c, 1) == FlagsAfter(s, c, k + 1)
  {
    hide Src, Dst, Get, Mapped, RegsAfter, Sub;
    var f := FlagsAfter(s, c, k);
    var t := After(s, c, k, s.memory, f);
    FlagsAfterKeeps(s, c, k);
    ElementsAfter(s, c, k, s.memory, f);
    AccumulatorAfter(s, c, k, s.memory, f);
    assert Searchable(t, c, 1);
    SubForgets(f, s.freg, Left(s, c, k), Right(s, c, k), c.Op16());
  }

  /** Equal in the flags that a subtraction does not set. */
  predicate SameButArithmetic(f: Flags, g: Flags) { f.df == g.df && f.r0 == g.r0 }

  lemma FlagsAfterKeeps(s: Cpu, c: RepCode, k: nat)
    requires Searchable(s, c, k)
    ensures SameButArithmetic(FlagsAfter(s, c, k), s.freg)
  {
    hide Left, Right, Difference, Negated, EvenParity, Sign, Overflow;
  }

  lemma SubForgets(f: Flags, g: Flags, a: uint32, b: uint32, size16: bool)
    requires SameButArithmetic(f, g)
    ensures Sub(f, a, b, size16).freg == Sub(g, a, b, size16).freg
  {
    hide Difference, Negated, EvenParity, Sign, Overflow;
  }

  lemma AccumulatorAfter(s: Cpu, c: RepCode, k: nat, m: Memory, f: Flags)
    ensures Accumulator(After(s, c, k, m, f), c) == Accumulator(s, c)
  {
    hide Bump;
  }

  lemma NoComparison(s: Cpu, c: RepCode)
    ensures FlagsAfter(s, c, 0) == s.freg
  {
  }

  /** Cycle `k` of a run does comparison `k`. */
  lemma NextComparison(s: Cpu, c: RepCode, k: nat)
    requires Ready(s, c) && IsSearch(c) && k < Count(s, c) && Searchable(s, c, k + 1)
    ensures
      var t := After(s, c, k + 1, s.memory, FlagsAfter(s, c, k + 1));
      Cycle(After(s, c, k, s.memory, FlagsAfter(s, c, k))) == Ok(if Stops(s, c, k) then t.(eip := Past(s, c)) else t)
  {
    hide Count, Src, Dst, Left, Right, FlagsAfter, Cycle, RegsAfter, Mapped;
    var f := FlagsAfter(s, c, k);
    var t := After(s, c, k, s.memory, f);
    SameElement(s, c, k);
    FlagsAfterKeeps(s, c, k);
    CountAfter(s, c, k, s.memory, f);
    CompareCycle(t, c);
    AfterOneMore(s, c, k, s.memory, f, s.memory, FlagsAfter(s, c, k + 1));
  }

  lemma {:induction false} SearchIterations(s: Cpu, c: RepCode, k: nat)
    requires Ready(s, c) && IsSearch(c) && k <= Count(s, c) && Searchable(s, c, k) && Passes(s, c, k)
    ensures Run(s, k) == Ok(After(s, c, k, s.memory, FlagsAfter(s, c, k)))
  {
    hide Run, Ready, Count, Src, Dst, Left, Right, FlagsAfter, Cycle, RegsAfter;
    if k == 0 {
      NoComparison(s, c);
      AfterNone(s, c);
      RunNone(s);
    } else {
      SearchIterations(s, c, k - 1);
      NextComparison(s, c, k - 1);
      assert !Stops(s, c, k - 1);
      RunSnoc(s, k - 1);
    }
  }

  /** A search that finds: when `k` is the first comparison that ends it, `k + 1` cycles leave `eip`
      past the instruction, the counter at the count less `k + 1`, both pointers just past element `k`,
      memory as it was, and ZF telling whether the elements matched. */
  lemma SearchStops(s: Cpu, c: RepCode, k: nat)
    requires Ready(s, c) && IsSearch(c) && k < Count(s, c) && Searchable(s, c, k + 1)
    requires Passes(s, c, k) && Stops(s, c, k)
    ensures Run(s, k + 1) == Ok(After(s, c, k + 1, s.memory, FlagsAfter(s, c, k + 1)).(eip := Past(s, c)))
    ensures FlagsAfter(s, c, k + 1).zf <==> c.rep == REPNE
  {
    hide Run, Count, Src, Dst, Left, Right, Cycle, After, Sub;
    SearchIterations(s, c, k);
    NextComparison(s, c, k);
    RunSnoc(s, k);
    LeftFits(s, c, k);
    CompareZero(s.freg, Left(s, c, k), Right(s, c, k), c.Op16());
  }

  /** A search that does not find: every element is compared, and the cycle that finds the counter at
      zero leaves `eip` past the instruction with the flags of the last comparison, or, when the counter
      was zero from the start, the flags as they were. */
  lemma SearchExhausts(s: Cpu, c: RepCode, n: nat)
    requires Ready(s, c) && IsSearch(c) && n == Count(s, c) && Searchable(s, c, n) && Passes(s, c, n)
    ensures Run(s, n + 1) == Ok(Finished(After(s, c, n, s.memory, FlagsAfter(s, c, n)), c))
    ensures n > 0 ==> (FlagsAfter(s, c, n).zf <==> c.rep == REPE)
  {
    hide Run, Src, Dst, Left, Right, Cycle, FlagsAfter, Count, Finished, RegsAfter;
    SearchIterations(s, c, n);
    var f := FlagsAfter(s, c, n);
    CountAfter(s, c, n, s.memory, f);
    RepCycle(After(s, c, n, s.memory, f), c);
    RunSnoc(s, n);
    if n > 0 {
      LastComparison(s, c, n - 1);
      assert !Stops(s, c, n - 1);
    }
  }

  lemma LastComparison(s: Cpu, c: RepCode, k: nat)
    requires Searchable(s, c, k + 1)
    ensures FlagsAfter(s, c, k + 1).zf <==> Left(s, c, k) == Right(s, c, k)
  {
    hide Left, Right, Sub;
    LeftFits(s, c, k);
    CompareZero(s.freg, Left(s, c, k), Right(s, c, k), c.Op16());
  }
}
