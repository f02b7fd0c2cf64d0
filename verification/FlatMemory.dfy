/**
  The flat view of the address space: which addresses answer, what byte each holds, and
  which of them belong to read-only devices.  The step machine runs on this view; module
  `BusRefinement` shows that the device bus behaves like it.
*/
module FlatMemory {
  import opened Words

  datatype Memory = Memory(bytes: map<int, uint8>, rom: set<int>)

  predicate Mapped(m: Memory, a: int, n: nat) {
    forall x :: a <= x < a + n ==> x in m.bytes
  }

  predicate Writable(m: Memory, a: int, n: nat) {
    forall x :: a <= x < a + n ==> x in m.bytes && x !in m.rom
  }

  function Load(m: Memory, a: int, n: nat): (r: seq<uint8>)
    requires Mapped(m, a, n)
    ensures |r| == n
    ensures forall i :: 0 <= i < n ==> r[i] == m.bytes[a + i]
  {
    seq(n, i requires 0 <= i < n => m.bytes[a + i])
  }

  function Store(m: Memory, a: int, bs: seq<uint8>): (r: Memory)
    requires Writable(m, a, |bs|)
    ensures r.bytes.Keys == m.bytes.Keys && r.rom == m.rom
    ensures forall x :: x in m.bytes ==> r.bytes[x] == if a <= x < a + |bs| then bs[x - a] else m.bytes[x]
  {
    m.(bytes := map x | x in m.bytes :: if a <= x < a + |bs| then bs[x - a] else m.bytes[x])
  }

  /** The little-endian number in the `n` bytes at `a`. */
  function Get(m: Memory, a: int, n: nat): nat
    requires Mapped(m, a, n)
  {
    Le(Load(m, a, n))
  }

  function Put(m: Memory, a: int, n: nat, v: nat): (r: Memory)
    requires Writable(m, a, n)
    ensures r.bytes.Keys == m.bytes.Keys && r.rom == m.rom
    ensures forall x :: x in m.bytes && !(a <= x < a + n) ==> r.bytes[x] == m.bytes[x]
  {
    Store(m, a, ToLe(v, n))
  }

  /** Two views agree on the `n` bytes at `a`. */
  predicate Same(m: Memory, m': Memory, a: int, n: nat) {
    forall x :: a <= x < a + n ==> (x in m.bytes <==> x in m'.bytes) && (x in m.bytes ==> m.bytes[x] == m'.bytes[x])
  }

  lemma SameGet(m: Memory, m': Memory, a: int, n: nat)
    requires Same(m, m', a, n) && Mapped(m, a, n)
    ensures Mapped(m', a, n) && Get(m, a, n) == Get(m', a, n)
  {
    assert forall x :: a <= x < a + n ==> x in m'.bytes;
    assert Load(m, a, n) == Load(m', a, n);
  }

  /** The `n` bytes at `a` in `m` are those at `b` in `m'`. */
  predicate SameBytes(m: Memory, a: int, m': Memory, b: int, n: nat) {
    Mapped(m, a, n) && Mapped(m', b, n) && Load(m, a, n) == Load(m', b, n)
  }

  lemma SameNumbers(m: Memory, a: int, m': Memory, b: int, n: nat)
    requires Mapped(m, a, n) && Mapped(m', b, n)
    ensures Get(m, a, n) == Get(m', b, n) <==> SameBytes(m, a, m', b, n)
  {
    LeInjective(Load(m, a, n), Load(m', b, n));
  }

  lemma GetBound(m: Memory, a: int, n: nat)
    requires Mapped(m, a, n)
    ensures Get(m, a, n) < Pow256(n)
  {
    LeBound(Load(m, a, n));
  }

  lemma GetPut(m: Memory, a: int, n: nat, v: nat)
    requires Writable(m, a, n)
    requires v < Pow256(n)
    ensures Mapped(m, a, n) && Get(Put(m, a, n, v), a, n) == v
  {
    assert Load(Put(m, a, n, v), a, n) == ToLe(v, n);
    LeRoundTrip(v, n);
  }

  lemma GetPutOther(m: Memory, a: int, n: nat, v: nat, b: int, k: nat)
    requires Writable(m, a, n) && Mapped(m, b, k)
    requires b + k <= a || a + n <= b
    ensures Get(Put(m, a, n, v), b, k) == Get(m, b, k)
  {
    SameGet(m, Put(m, a, n, v), b, k);
  }

  lemma OneByte(m: Memory, a: int)
    requires Mapped(m, a, 1)
    ensures Get(m, a, 1) == m.bytes[a]
  {
    var bs := Load(m, a, 1);
    assert bs == [m.bytes[a]] && bs[1..] == [];
    assert Le(bs) == bs[0] as int + 0x100 * Le(bs[1..]);
  }

  lemma TwoBytesAt(m: Memory, a: int)
    requires Mapped(m, a, 2)
    ensures Get(m, a, 2) == m.bytes[a] as int + 0x100 * (m.bytes[a + 1] as int)
  {
    var bs := Load(m, a, 2);
    assert bs == [m.bytes[a], m.bytes[a + 1]] && bs[1..] == [m.bytes[a + 1]] && bs[1..][1..] == [];
    assert Le(bs[1..]) == bs[1] as int + 0x100 * Le(bs[1..][1..]);
  }

  function ZeroAt(a: int): uint8 { 0 }

  /** Nothing but `n` zeros at `a`. */
  function Zeros(a: int, n: nat): Memory { Memory(map x: int | a <= x < a + n :: ZeroAt(x), {}) }

  /** A word of one byte and three zeros. */
  lemma SmallWord(m: Memory, a: int, b: uint8)
    requires Mapped(m, a, 4) && m.bytes[a] == b && m.bytes[a + 1] == m.bytes[a + 2] == m.bytes[a + 3] == 0
    ensures Get(m, a, 4) == b
  {
    var bs := Load(m, a, 4);
    assert bs == [b, 0, 0, 0];
    assert bs[1..] == [0, 0, 0] && bs[1..][1..] == [0, 0] && bs[1..][1..][1..] == [0];
    assert Le([0]) == 0 && Le([0, 0]) == 0 && Le([0, 0, 0]) == 0;
  }
}
