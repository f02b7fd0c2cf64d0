/**
  Machine words as bounded integers.  Arithmetic is done in `int`; every place where
  the C++ code truncates is written out with `Wrap32`, `Wrap16` or `Wrap8`.
  Multi-byte values are little-endian, as the host the emulator copies them on.
*/
module Words {

  type uint8 = x: int | 0 <= x < 0x100
  type uint16 = x: int | 0 <= x < 0x1_0000
  type uint32 = x: int | 0 <= x < 0x1_0000_0000

  function Wrap8(x: int): uint8 { x % 0x100 }

  function Wrap16(x: int): uint16 { x % 0x1_0000 }

  function Wrap32(x: int): uint32 { x % 0x1_0000_0000 }

  lemma LowPart(q: int, r: int)
    ensures 0 <= r < 0x1_0000 ==> (0x1_0000 * q + r) % 0x1_0000 == r
    ensures 0 <= r < 0x1_0000_0000 ==> (0x1_0000_0000 * q + r) % 0x1_0000_0000 == r
  {
  }

  /** Truncating twice is truncating once. */
  lemma WrapAdd(x: int, d: int)
    ensures Wrap16(Wrap16(x) + d) == Wrap16(x + d)
    ensures Wrap32(Wrap32(x) + d) == Wrap32(x + d)
  {
    Wrap16Add(x, d);
    Wrap32Add(x, d);
  }

  lemma Wrap16Add(x: int, d: int)
    ensures Wrap16(Wrap16(x) + d) == Wrap16(x + d)
  {
    var q, y := x / 0x1_0000, x % 0x1_0000 + d;
    assert x + d == 0x1_0000 * q + y;
    assert y == 0x1_0000 * (y / 0x1_0000) + y % 0x1_0000;
    LowPart(q + y / 0x1_0000, y % 0x1_0000);
  }

  lemma Wrap32Add(x: int, d: int)
    ensures Wrap32(Wrap32(x) + d) == Wrap32(x + d)
  {
    var q, y := x / 0x1_0000_0000, x % 0x1_0000_0000 + d;
    assert x + d == 0x1_0000_0000 * q + y;
    assert y == 0x1_0000_0000 * (y / 0x1_0000_0000) + y % 0x1_0000_0000;
    LowPart(q + y / 0x1_0000_0000, y % 0x1_0000_0000);
  }

  lemma NarrowTwice(x: int)
    ensures Wrap16(Wrap32(x)) == Wrap16(x)
  {
    var y := Wrap32(x);
    assert x == 0x1_0000 * (0x1_0000 * (x / 0x1_0000_0000) + y / 0x1_0000) + y % 0x1_0000;
    LowPart(0x1_0000 * (x / 0x1_0000_0000) + y / 0x1_0000, y % 0x1_0000);
  }

  /** The number of values `n` bytes can hold. */
  function Pow256(n: nat): (r: nat)
    ensures r > 0
  {
    if n == 0 then 1 else 0x100 * Pow256(n - 1)
  }

  lemma Pow256Values()
    ensures Pow256(1) == 0x100 && Pow256(2) == 0x1_0000 && Pow256(4) == 0x1_0000_0000
  {
    assert Pow256(1) == 0x100 * Pow256(0);
    assert Pow256(3) == 0x100 * Pow256(2);
  }

  /** The little-endian value of a byte string. */
  function Le(bytes: seq<uint8>): nat {
    if bytes == [] then 0 else bytes[0] + 0x100 * Le(bytes[1..])
  }

  /** The low `n` bytes of `v`, least significant first. */
  function ToLe(v: nat, n: nat): (r: seq<uint8>)
    ensures |r| == n
  {
    if n == 0 then [] else [v % 0x100] + ToLe(v / 0x100, n - 1)
  }

  lemma {:induction false} LeBound(bytes: seq<uint8>)
    ensures Le(bytes) < Pow256(|bytes|)
  {
    if bytes != [] {
      LeBound(bytes[1..]);
    }
  }

  /** A number has one spelling of each length. */
  lemma {:induction false} LeInjective(bs: seq<uint8>, cs: seq<uint8>)
    requires |bs| == |cs|
    ensures Le(bs) == Le(cs) <==> bs == cs
  {
    if bs != [] {
      LeInjective(bs[1..], cs[1..]);
      assert bs == [bs[0]] + bs[1..] && cs == [cs[0]] + cs[1..];
    }
  }

  /** Storing a value that fits in `n` bytes and loading it again is the identity. */
  lemma {:induction false} LeRoundTrip(v: nat, n: nat)
    requires v < Pow256(n)
    ensures Le(ToLe(v, n)) == v
  {
    if n > 0 {
      LeRoundTrip(v / 0x100, n - 1);
    }
  }
}
