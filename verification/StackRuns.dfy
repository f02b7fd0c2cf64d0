/**
  The machine stack against an abstract one.  `top` is a stack pointer below which the stack
  grows, and entry `j` of the abstract sequence lives `j + 1` slots below it.  Everything is stated
  at both operand sizes; a 16-bit stack moves only the low half of ESP and may wrap around it.
*/
module StackRuns {
  import opened Words
  import opened FlatMemory
  import opened Arithmetic
  import opened CpuState
  import opened Pointers

  /** The address of the slot at depth `j`, the first being 1. */
  ghost function Slot(top: uint32, j: nat, low: bool): uint32 {
    Pointer(Bump(top, 0 - j * SlotSize(low), low), low)
  }

  function SlotSize(low: bool): (n: nat)
    ensures n == 2 || n == 4
  {
    if low then 2 else 4
  }

  /** The machine stack below `top` is the sequence `stk`, bottom first. */
  ghost predicate Holds(s: Cpu, top: uint32, stk: seq<uint32>) {
    && s.regs[ESP] == Bump(top, 0 - |stk| * SlotSize(s.operandSize16), s.operandSize16)
    && Stored(s.memory, s.operandSize16, top, stk)
  }

  ghost predicate Stored(m: Memory, low: bool, top: uint32, stk: seq<uint32>) {
    forall j :: 0 <= j < |stk| ==> Contains(m, Slot(top, j + 1, low), SlotSize(low), stk[j])
  }

  ghost predicate Contains(m: Memory, a: int, n: nat, v: nat) { Mapped(m, a, n) && Get(m, a, n) == v }

  /** `depth` slots do not meet around the end of the stack pointer's range. */
  predicate NoLap(depth: nat, low: bool) { depth * SlotSize(low) <= Modulus(low) }

  lemma SlotsApart(top: uint32, i: nat, j: nat, depth: nat, low: bool)
    requires NoLap(depth, low) && 1 <= i <= depth && 1 <= j <= depth && i != j
    ensures Apart(Slot(top, i, low), Slot(top, j, low), SlotSize(low))
  {
    hide Bump, Pointer;
    BumpApart(top, 0 - i * SlotSize(low), 0 - j * SlotSize(low), SlotSize(low), low);
  }

  /** A store of `v` in a slot reads back at the operand size. */
  lemma SlotValue(m: Memory, a: int, v: uint32, low: bool)
    requires Writable(m, a, SlotSize(low))
    ensures Contains(Put(m, a, SlotSize(low), v), a, SlotSize(low), Truncate(v, low))
  {
    hide Store, Le;
    var n := SlotSize(low);
    Pow256Values();
    assert Pow256(n) == Modulus(low);
    SameLowBytes(v, low);
    GetPut(m, a, n, Truncate(v, low));
  }

  lemma SameLowBytes(v: uint32, low: bool)
    ensures ToLe(v, SlotSize(low)) == ToLe(Truncate(v, low), SlotSize(low))
  {
    if low {
      var w := Wrap16(v);
      LowParts(v);
      TwoBytes(v);
      TwoBytes(w);
    }
  }

  lemma LowParts(v: uint32)
    ensures Wrap16(v) % 0x100 == v % 0x100 && Wrap16(v) / 0x100 % 0x100 == v / 0x100 % 0x100
  {
    var b, x := v % 0x100, v / 0x100;
    var y, q := x % 0x100, x / 0x100;
    assert v == 0x1_0000 * q + (0x100 * y + b);
    assert Wrap16(v) == 0x100 * y + b;
  }

  lemma TwoBytes(v: nat)
    ensures ToLe(v, 2) == [v % 0x100, v / 0x100 % 0x100]
  {
    assert ToLe(v / 0x100, 1) == [v / 0x100 % 0x100] + ToLe(v / 0x100 / 0x100, 0);
  }

  /** The state after a push of `v` into the slot at depth `d`. */
  ghost function PushedTo(s: Cpu, top: uint32, d: nat, v: uint32): Cpu
    requires Writable(s.memory, Slot(top, d, s.operandSize16), SlotSize(s.operandSize16))
  {
    s.(regs := s.regs[ESP := Bump(top, 0 - d * SlotSize(s.operandSize16), s.operandSize16)],
       memory := Put(s.memory, Slot(top, d, s.operandSize16), SlotSize(s.operandSize16), v))
  }

  /** PUSH and POP move the stack pointer and use the slot that it then, or still, points at. */
  lemma PushMoves(s: Cpu, v: uint32)
    ensures
      var low := s.operandSize16;
      var p := Bump(s.regs[ESP], 0 - SlotSize(low), low);
      Push(s, v) == Write(SetReg32(s, ESP, p), Pointer(p, low), SlotSize(low), v)
  {
    hide Put, Writable, Write;
    if s.operandSize16 {
      HalfMoves(s.regs[ESP], -2);
    }
  }

  lemma PopMoves(s: Cpu)
    ensures
      var low := s.operandSize16;
      Pop(s) ==
        match Read(s, Pointer(s.regs[ESP], low), SlotSize(low))
        case Ok(v) => Ok(Popped(SetReg32(s, ESP, Bump(s.regs[ESP], SlotSize(low), low)), v))
        case Fault(t, cause) => Fault(t, cause)
  {
    hide Get, Mapped;
    if s.operandSize16 {
      HalfMoves(s.regs[ESP], 2);
    }
  }

  lemma PushPointer(s: Cpu, top: uint32, d: nat, v: uint32)
    requires d > 0 && s.regs[ESP] == Bump(top, 0 - (d - 1) * SlotSize(s.operandSize16), s.operandSize16)
    ensures Push(s, v).Ok? <==> Writable(s.memory, Slot(top, d, s.operandSize16), SlotSize(s.operandSize16))
    ensures Push(s, v).Ok? ==> Push(s, v).value == PushedTo(s, top, d, v)
  {
    hide Put, Writable, Push, Bump, Pointer;
    var low := s.operandSize16;
    var n: int := SlotSize(low);
    BumpAdd(top, 0 - (d - 1) * n, 0 - n, low);
    assert Bump(s.regs[ESP], 0 - n, low) == Bump(top, 0 - d * n, low);
    PushMoves(s, v);
  }

  lemma StoredGrows(m: Memory, low: bool, top: uint32, stk: seq<uint32>, v: uint32)
    requires Stored(m, low, top, stk) && NoLap(|stk| + 1, low)
    requires Writable(m, Slot(top, |stk| + 1, low), SlotSize(low))
    ensures Stored(Put(m, Slot(top, |stk| + 1, low), SlotSize(low), v), low, top, stk + [Truncate(v, low)])
  {
    hide Slot, Put, Get, Mapped, Writable, Truncate;
    var d, n := |stk| + 1, SlotSize(low);
    var m', stk' := Put(m, Slot(top, d, low), n, v), stk + [Truncate(v, low)];
    forall j | 0 <= j < |stk'|
      ensures Contains(m', Slot(top, j + 1, low), n, stk'[j])
    {
      if j == |stk| {
        SlotValue(m, Slot(top, d, low), v, low);
      } else {
        SlotsApart(top, j + 1, d, d, low);
        assert Contains(m, Slot(top, j + 1, low), n, stk[j]);
        ElsewhereKept(m, Slot(top, d, low), n, v, Slot(top, j + 1, low), stk[j]);
      }
    }
  }

  lemma ElsewhereKept(m: Memory, a: int, n: nat, v: nat, b: int, w: nat)
    requires Writable(m, a, n) && Contains(m, b, n, w) && Apart(a, b, n)
    ensures Contains(Put(m, a, n, v), b, n, w)
  {
    GetPutOther(m, a, n, v, b, n);
  }

  /** PUSH on the machine is a push on the sequence; it completes exactly when its slot is writable. */
  lemma PushRefines(s: Cpu, top: uint32, stk: seq<uint32>, v: uint32)
    requires Holds(s, top, stk) && NoLap(|stk| + 1, s.operandSize16)
    ensures Push(s, v).Ok? <==> Writable(s.memory, Slot(top, |stk| + 1, s.operandSize16), SlotSize(s.operandSize16))
    ensures Push(s, v).Ok? ==>
              && Push(s, v).value == PushedTo(s, top, |stk| + 1, v)
              && Holds(Push(s, v).value, top, stk + [Truncate(v, s.operandSize16)])
  {
    hide Push, Put, Slot, Bump, Stored, Writable;
    PushPointer(s, top, |stk| + 1, v);
    if Push(s, v).Ok? {
      StoredGrows(s.memory, s.operandSize16, top, stk, v);
    }
  }

  /** POP on the machine is a pop on the sequence. */
  lemma PopRefines(s: Cpu, top: uint32, stk: seq<uint32>)
    requires Holds(s, top, stk) && stk != []
    ensures
      var rest := stk[..|stk| - 1];
      var t := s.(regs := s.regs[ESP := Bump(top, 0 - |rest| * SlotSize(s.operandSize16), s.operandSize16)]);
      Pop(s) == Ok(Popped(t, stk[|stk| - 1])) && Holds(t, top, rest)
  {
    hide Get, Mapped, Pop, Bump, Pointer;
    var low, d := s.operandSize16, |stk|;
    var n: int := SlotSize(low);
    assert Contains(s.memory, Slot(top, d, low), n, stk[d - 1]);
    PopMoves(s);
    BumpAdd(top, 0 - d * n, n, low);
    assert Bump(s.regs[ESP], n, low) == Bump(top, 0 - (d - 1) * n, low);
  }

  // ----- Sequences of pushes and pops -----

  datatype StackOp = PushOp(v: uint32) | PopOp

  /** A stack and what has been popped from it. */
  datatype Served<S> = Served(stack: S, popped: seq<uint32>)

  function Machine(s: Cpu, ops: seq<StackOp>): Result<Served<Cpu>>
    decreases |ops|
  {
    if ops == [] then Ok(Served(s, []))
    else
      match ops[0]
      case PushOp(v) =>
        var t :- Push(s, v);
        Machine(t, ops[1..])
      case PopOp =>
        var p :- Pop(s);
        var rest :- Machine(p.cpu, ops[1..]);
        Ok(Served(rest.stack, [p.value] + rest.popped))
  }

  /** Never popped when empty, never deeper than `depth`. */
  predicate InBounds(d: nat, ops: seq<StackOp>, depth: nat)
    decreases |ops|
  {
    ops != [] ==>
      match ops[0]
      case PushOp(_) => d < depth && InBounds(d + 1, ops[1..], depth)
      case PopOp => d > 0 && InBounds(d - 1, ops[1..], depth)
  }

  function Abstract(stk: seq<uint32>, ops: seq<StackOp>, depth: nat, low: bool): Served<seq<uint32>>
    requires InBounds(|stk|, ops, depth)
    decreases |ops|
  {
    if ops == [] then Served(stk, [])
    else
      match ops[0]
      case PushOp(v) => Abstract(stk + [Truncate(v, low)], ops[1..], depth, low)
      case PopOp =>
        var rest := Abstract(stk[..|stk| - 1], ops[1..], depth, low);
        Served(rest.stack, [stk[|stk| - 1]] + rest.popped)
  }

  ghost predicate Region(m: Memory, top: uint32, depth: nat, low: bool) {
    forall j :: 1 <= j <= depth ==> Writable(m, Slot(top, j, low), SlotSize(low))
  }

  /** `t` differs from `s` in ESP and in the bytes of the first `depth` slots at most. */
  ghost predicate OnlyStack(s: Cpu, t: Cpu, top: uint32, depth: nat) {
    && t == s.(regs := s.regs[ESP := t.regs[ESP]], memory := t.memory)
    && t.memory.bytes.Keys == s.memory.bytes.Keys && t.memory.rom == s.memory.rom
    && forall x :: x in s.memory.bytes && OutsideSlots(x, top, depth, s.operandSize16) ==> t.memory.bytes[x] == s.memory.bytes[x]
  }

  ghost predicate OutsideSlots(x: int, top: uint32, depth: nat, low: bool) {
    forall j :: 1 <= j <= depth ==> x < Slot(top, j, low) || Slot(top, j, low) + SlotSize(low) <= x
  }

  lemma PushOnlyStack(s: Cpu, top: uint32, d: nat, depth: nat, v: uint32)
    requires 1 <= d <= depth && Writable(s.memory, Slot(top, d, s.operandSize16), SlotSize(s.operandSize16))
    ensures OnlyStack(s, PushedTo(s, top, d, v), top, depth)
  {
    hide Slot, Put;
    var t := PushedTo(s, top, d, v);
    var low := s.operandSize16;
    forall x | x in s.memory.bytes && OutsideSlots(x, top, depth, low)
      ensures t.memory.bytes[x] == s.memory.bytes[x]
    {
      assert x < Slot(top, d, low) || Slot(top, d, low) + SlotSize(low) <= x;
    }
  }

  lemma RegionTransfers(m: Memory, m': Memory, top: uint32, depth: nat, low: bool)
    requires Region(m, top, depth, low) && m'.bytes.Keys == m.bytes.Keys && m'.rom == m.rom
    ensures Region(m', top, depth, low)
  {
    hide Slot;
    assert forall x :: x in m.bytes <==> x in m'.bytes;
    forall j | 1 <= j <= depth
      ensures Writable(m', Slot(top, j, low), SlotSize(low))
    {
      assert Writable(m, Slot(top, j, low), SlotSize(low));
    }
  }

  lemma OnlyStackTrans(s: Cpu, t: Cpu, u: Cpu, top: uint32, depth: nat)
    requires OnlyStack(s, t, top, depth) && OnlyStack(t, u, top, depth)
    ensures OnlyStack(s, u, top, depth)
  {
    hide OutsideSlots;
    forall x | x in s.memory.bytes && OutsideSlots(x, top, depth, s.operandSize16)
      ensures u.memory.bytes[x] == s.memory.bytes[x]
    {
      assert x in t.memory.bytes.Keys;
    }
  }

  /** Any sequence of pushes and pops within a mapped region behaves as the abstract sequence, serves the
      same values, and changes nothing but ESP and the region. */
  lemma {:induction false} StackRefines(s: Cpu, top: uint32, stk: seq<uint32>, ops: seq<StackOp>, depth: nat)
    requires Holds(s, top, stk) && Region(s.memory, top, depth, s.operandSize16) && NoLap(depth, s.operandSize16)
    requires InBounds(|stk|, ops, depth)
    ensures Machine(s, ops).Ok?
    ensures
      var r, a := Machine(s, ops).value, Abstract(stk, ops, depth, s.operandSize16);
      Holds(r.stack, top, a.stack) && r.popped == a.popped && OnlyStack(s, r.stack, top, depth)
    decreases |ops|
  {
    hide Push, Pop, Put, Slot, Bump, Stored, Writable, OutsideSlots;
    var low := s.operandSize16;
    if ops != [] {
      match ops[0]
      case PushOp(v) =>
        assert Writable(s.memory, Slot(top, |stk| + 1, low), SlotSize(low));
        LessLap(|stk| + 1, depth, low);
        PushRefines(s, top, stk, v);
        var t := Push(s, v).value;
        PushOnlyStack(s, top, |stk| + 1, depth, v);
        RegionTransfers(s.memory, t.memory, top, depth, low);
        StackRefines(t, top, stk + [Truncate(v, low)], ops[1..], depth);
        OnlyStackTrans(s, t, Machine(t, ops[1..]).value.stack, top, depth);
      case PopOp =>
        PopRefines(s, top, stk);
        var t := Pop(s).value.cpu;
        StackRefines(t, top, stk[..|stk| - 1], ops[1..], depth);
        OnlyStackTrans(s, t, Machine(t, ops[1..]).value.stack, top, depth);
    }
  }

  lemma LessLap(d: nat, depth: nat, low: bool)
    requires d <= depth && NoLap(depth, low)
    ensures NoLap(d, low)
  {
  }

  /** An empty stack fits anywhere. */
  lemma HoldsNothing(s: Cpu)
    ensures Holds(s, s.regs[ESP], [])
  {
    BumpZero(s.regs[ESP], s.operandSize16);
  }
}
