/**
  Chains of size prefixes, and runs of instructions.  A prefix handler calls the handler of the
  next byte, so a chain nests as deep as it is long; its effect depends only on which prefixes
  occur in it.
*/
module PrefixChains {
  import opened Words
  import opened FlatMemory
  import opened CpuState
  import opened Isa
  import opened StepLaws

  const OPERAND_SIZE := 0x66
  const ADDRESS_SIZE := 0x67

  predicate IsPrefix(b: uint8) { b == OPERAND_SIZE || b == ADDRESS_SIZE }

  predicate ArePrefixes(ps: seq<uint8>) { forall i :: 0 <= i < |ps| ==> IsPrefix(ps[i]) }

  ghost predicate ByteAt(m: Memory, a: int, b: uint8) {
    Wrap32(a) in m.bytes && m.bytes[Wrap32(a)] == b
  }

  /** The bytes `bs` are mapped from `a` on, wrapping at the top of the address space. */
  ghost predicate CodeAt(m: Memory, a: int, bs: seq<uint8>) {
    forall i :: 0 <= i < |bs| ==> ByteAt(m, a + i, bs[i])
  }

  lemma FetchByte(s: Cpu, index: int, b: uint8)
    requires CodeAt(s.memory, s.eip + index, [b])
    ensures ReadCode8(s, index) == Ok(b)
  {
    var a := Wrap32(s.eip + index);
    assert [b][0] == b;
    assert Mapped(s.memory, a, 1);
    assert Load(s.memory, a, 1) == [b];
    assert Le([b]) == b as int + 0x100 * Le([b][1..]);
  }

  lemma CodeTail(m: Memory, a: uint32, bs: seq<uint8>)
    requires bs != [] && CodeAt(m, a, bs)
    ensures CodeAt(m, Wrap32(a + 1), bs[1..])
  {
    var tail := bs[1..];
    forall i | 0 <= i < |tail|
      ensures ByteAt(m, Wrap32(a + 1) + i, tail[i])
    {
      assert Wrap32(Wrap32(a + 1) + i) == Wrap32(a + (i + 1));
      assert tail[i] == bs[i + 1];
    }
  }

  /** `eip` on the opcode of a prefixed instruction, with the sizes its prefixes select. */
  ghost function Inner(s: Cpu, ps: seq<uint8>, op: uint8): Cpu {
    s.(eip := Wrap32(s.eip + |ps|), opbyte := op,
       operandSize16 := s.operandSize16 || OPERAND_SIZE in ps,
       addressSize16 := s.addressSize16 || ADDRESS_SIZE in ps)
  }

  /** The handler that a chain ends in. */
  ghost function Handler(s: Cpu): Step {
    if s.opbyte == 0x0F then TwoByte(s) else Basic(s)
  }

  /** When the chain returns, each prefix in it has cleared its flag; a fault skips that. */
  ghost function Cleared(r: Step, ps: seq<uint8>): Step {
    match r
    case Ok(t) => Ok(t.(operandSize16 := t.operandSize16 && OPERAND_SIZE !in ps,
                        addressSize16 := t.addressSize16 && ADDRESS_SIZE !in ps))
    case Fault(t, cause) => Fault(t, cause)
  }

  lemma {:induction false} ChainDispatch(s: Cpu, ps: seq<uint8>, op: uint8, fuel: nat)
    requires ArePrefixes(ps) && !IsPrefix(op) && |ps| <= fuel
    requires s.opbyte == (ps + [op])[0] && CodeAt(s.memory, s.eip, ps + [op])
    ensures Dispatch(s, fuel) == Cleared(Handler(Inner(s, ps, op)), ps)
    decreases |ps|
  {
    hide Basic, TwoByte;
    if ps == [] {
      assert Inner(s, [], op) == s;
    } else {
      ChainStep(s, ps, op, fuel);
    }
  }

  /** The state in which the byte after one prefix is dispatched. */
  ghost function AfterPrefix(s: Cpu, p: uint8, next: uint8): Cpu {
    Skip(s, 1).(opbyte := next,
                operandSize16 := s.operandSize16 || p == OPERAND_SIZE,
                addressSize16 := s.addressSize16 || p == ADDRESS_SIZE)
  }

  lemma OnePrefix(s: Cpu, p: uint8, next: uint8, fuel: nat)
    requires s.opbyte == p && IsPrefix(p) && fuel > 0
    requires CodeAt(s.memory, Wrap32(s.eip + 1), [next])
    ensures Dispatch(s, fuel) == Cleared(Dispatch(AfterPrefix(s, p, next), fuel - 1), [p])
  {
    hide Basic, TwoByte;
    var t := Skip(s, 1).(operandSize16 := s.operandSize16 || p == OPERAND_SIZE,
                         addressSize16 := s.addressSize16 || p == ADDRESS_SIZE);
    assert [next][0] == next;
    FetchByte(t, 0, next);
  }

  lemma ClearedCons(r: Step, ps: seq<uint8>)
    requires ps != []
    ensures Cleared(Cleared(r, ps[1..]), [ps[0]]) == Cleared(r, ps)
  {
    assert forall b :: b in ps <==> b == ps[0] || b in ps[1..];
  }

  lemma InnerCons(s: Cpu, ps: seq<uint8>, op: uint8, next: uint8)
    requires ps != []
    ensures Inner(AfterPrefix(s, ps[0], next), ps[1..], op) == Inner(s, ps, op)
  {
    assert forall b :: b in ps <==> b == ps[0] || b in ps[1..];
  }

  /** One prefix: the rest of the chain runs in the state it leaves. */
  lemma {:induction false} ChainStep(s: Cpu, ps: seq<uint8>, op: uint8, fuel: nat)
    requires ArePrefixes(ps) && !IsPrefix(op) && 0 < |ps| <= fuel
    requires s.opbyte == ps[0] && CodeAt(s.memory, s.eip, ps + [op])
    ensures Dispatch(s, fuel) == Cleared(Handler(Inner(s, ps, op)), ps)
    decreases |ps|, 0
  {
    hide Dispatch, Handler, Inner, Cleared;
    var rest := ps[1..];
    var next := (rest + [op])[0];
    CodeTail(s.memory, s.eip, ps + [op]);
    assert (ps + [op])[1..] == rest + [op];
    assert (ps + [op])[1] == next;
    OnePrefix(s, ps[0], next, fuel);
    ChainDispatch(AfterPrefix(s, ps[0], next), rest, op, fuel - 1);
    InnerCons(s, ps, op, next);
    ClearedCons(Handler(Inner(s, ps, op)), ps);
  }

  /** An instruction with prefixes, started in 32-bit mode. */
  ghost predicate Prefixed(s: Cpu, ps: seq<uint8>, op: uint8) {
    && !s.operandSize16 && !s.addressSize16
    && ArePrefixes(ps) && !IsPrefix(op) && |ps| < ADDRESSES
    && CodeAt(s.memory, s.eip, ps + [op])
  }

  /** The state in which the opcode of a prefixed instruction runs. */
  ghost function Started(s: Cpu, ps: seq<uint8>, op: uint8): Cpu {
    s.(eip := Wrap32(s.eip + |ps|), beginEip := s.eip, opbyte := op,
       operandSize16 := OPERAND_SIZE in ps, addressSize16 := ADDRESS_SIZE in ps)
  }

  /** A prefixed instruction runs with 16-bit operands exactly when 0x66 occurs and with 16-bit
      addresses exactly when 0x67 occurs, in any number and order, with `eip` past the chain; when it
      completes, both flags are clear again and one unit of gas is charged. */
  lemma PrefixedCycle(s: Cpu, ps: seq<uint8>, op: uint8)
    requires Prefixed(s, ps, op)
    ensures
      match Handler(Started(s, ps, op))
      case Ok(t) =>
        Cycle(s) == Ok(Skip(t, 1).(operandSize16 := false, addressSize16 := false, gasUsed := s.gasUsed + 1))
      case Fault(t, cause) => Cycle(s) == Fault(t, cause)
  {
    hide Basic, TwoByte, Dispatch;
    var first := (ps + [op])[0];
    FetchByte(s.(beginEip := s.eip), 0, first);
    var t := s.(beginEip := s.eip, opbyte := first);
    ChainDispatch(t, ps, op, ADDRESSES);
    assert Inner(t, ps, op) == Started(s, ps, op);
    BasicHandled(Started(s, ps, op));
    TwoByteHandled(Started(s, ps, op));
  }

  // ----- Instructions without prefixes -----

  ghost predicate Flat(s: Cpu) { !s.operandSize16 && !s.addressSize16 }

  /** The code byte `i` bytes after `eip`. */
  ghost function CodeByte(s: Cpu, i: nat): Result<uint8> { ReadCode8(s, i) }

  /** The state in which the handler of an unprefixed opcode runs. */
  ghost function Begun(s: Cpu, op: uint8): Cpu { s.(beginEip := s.eip, opbyte := op) }

  lemma UnprefixedCycle(s: Cpu, op: uint8)
    requires Flat(s) && CodeByte(s, 0) == Ok(op) && !IsPrefix(op) && op != 0x0F
    ensures Cycle(s).Ok? <==> Basic(Begun(s, op)).Ok?
    ensures Cycle(s).Ok? ==> Cycle(s) == Ok(Skip(Basic(Begun(s, op)).value, 1).(gasUsed := s.gasUsed + 1))
  {
    hide Basic, TwoByte;
    var t := Begun(s, op);
    assert Dispatch(t, ADDRESSES) == Basic(t);
    BasicHandled(t);
    var u := s.(beginEip := s.eip);
    assert ReadCode8(u, 0).Ok? && ReadCode8(u, 0).value == op;
  }

  lemma GroupHandler(t: Cpu)
    requires t.opbyte == 0xFF
    ensures Basic(t) == GroupFF(t)
  {
    hide GroupFF;
  }

  // ----- Runs -----

  /** `n` instructions. */
  ghost function Run(s: Cpu, n: nat): Step
    decreases n
  {
    hide Cycle;
    if n == 0 then Ok(s)
    else
      var t :- Cycle(s);
      Run(t, n - 1)
  }

  lemma {:induction false} RunSnoc(s: Cpu, n: nat)
    requires Run(s, n).Ok?
    ensures Run(s, n + 1) == Cycle(Run(s, n).value)
    decreases n
  {
    hide Cycle;
    if n > 0 {
      RunSnoc(Cycle(s).value, n - 1);
    }
  }
}
