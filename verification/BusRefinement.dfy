/**
  The bus refines the flat memory: with pairwise disjoint ranges over distinct devices that are
  big enough, every sequence of requests inside one range each is answered as by one flat byte
  map, whatever the order of the device list.  Also: what the list operations keep.
*/
module BusRefinement {
  import opened Words
  import FlatMemory
  import opened MemoryBus

  // ----- Well-formed buses and their flat view -----

  ghost predicate Disjoint<D>(r: Range<D>, s: Range<D>) {
    r.high < s.low || s.high < r.low
  }

  ghost predicate WellFormed<D>(rs: seq<Range<D>>, store: map<D, Ram>) {
    && Stored(rs, store)
    && (forall i :: 0 <= i < |rs| ==> rs[i].low <= rs[i].high && rs[i].high - rs[i].low < |store[rs[i].dev].data| < 0x1_0000_0000)
    && (forall i, j :: 0 <= i < j < |rs| ==> rs[i].dev != rs[j].dev && Disjoint(rs[i], rs[j]))
  }

  /** The byte that answers at `a`. */
  ghost function ByteAt<D>(rs: seq<Range<D>>, store: map<D, Ram>, a: uint32): uint8
    requires WellFormed(rs, store) && Find(rs, a) < |rs|
  {
    var r := rs[Find(rs, a)];
    store[r.dev].data[a - r.low]
  }

  ghost function Flat<D>(rs: seq<Range<D>>, store: map<D, Ram>): FlatMemory.Memory
    requires WellFormed(rs, store)
  {
    FlatMemory.Memory(
      map a: int | 0 <= a < 0x1_0000_0000 && Find(rs, a) < |rs| :: ByteAt(rs, store, a),
      set a: int | 0 <= a < 0x1_0000_0000 && Find(rs, a) < |rs| && store[rs[Find(rs, a)].dev].readOnly)
  }

  /** The flat view at one address. */
  lemma FlatAt<D>(rs: seq<Range<D>>, store: map<D, Ram>, a: int)
    requires WellFormed(rs, store)
    ensures
      var m := Flat(rs, store);
      && (a in m.bytes <==> 0 <= a < 0x1_0000_0000 && Find(rs, a) < |rs|)
      && (a in m.bytes ==> m.bytes[a] == ByteAt(rs, store, a) && (a in m.rom <==> store[rs[Find(rs, a)].dev].readOnly))
      && (a in m.rom ==> a in m.bytes)
  {
  }

  /** The request lies inside range `k`. */
  predicate Inside<D>(rs: seq<Range<D>>, k: nat, a: uint32, n: nat) {
    k < |rs| && rs[k].low <= a && a + n <= rs[k].high + 1
  }

  /** Disjointness makes first match the only match. */
  lemma OnlyMatch<D>(rs: seq<Range<D>>, store: map<D, Ram>, k: nat, a: uint32)
    requires WellFormed(rs, store) && k < |rs| && rs[k].Covers(a)
    ensures Find(rs, a) == k
  {
  }

  lemma FlatInside<D>(rs: seq<Range<D>>, store: map<D, Ram>, k: nat, a: uint32, n: nat)
    requires WellFormed(rs, store) && Inside(rs, k, a, n)
    ensures
      var m, ram := Flat(rs, store), store[rs[k].dev];
      forall x :: a <= x < a + n ==>
        && x in m.bytes && m.bytes[x] == ram.data[x - rs[k].low]
        && (x in m.rom <==> ram.readOnly)
  {
    hide Flat;
    var m, ram := Flat(rs, store), store[rs[k].dev];
    forall x | a <= x < a + n
      ensures x in m.bytes && m.bytes[x] == ram.data[x - rs[k].low] && (x in m.rom <==> ram.readOnly)
    {
      OnlyMatch(rs, store, k, x);
      FlatAt(rs, store, x);
    }
  }

  lemma ReadRefines<D>(rs: seq<Range<D>>, store: map<D, Ram>, k: nat, a: uint32, n: nat)
    requires WellFormed(rs, store) && Inside(rs, k, a, n) && n > 0
    ensures FlatMemory.Mapped(Flat(rs, store), a, n)
    ensures BusRead(rs, store, a, n) == Done(FlatMemory.Load(Flat(rs, store), a, n))
  {
    hide Flat;
    OnlyMatch(rs, store, k, a);
    FlatInside(rs, store, k, a, n);
    var off, data, m := a - rs[k].low, store[rs[k].dev].data, Flat(rs, store);
    assert off + n <= |data|;
    forall i | 0 <= i < n
      ensures data[off..off + n][i] == FlatMemory.Load(m, a, n)[i]
    {
      assert m.bytes[a + i] == data[a + i - rs[k].low];
    }
    assert data[off..off + n] == FlatMemory.Load(m, a, n);
  }

  lemma WriteRefines<D>(rs: seq<Range<D>>, store: map<D, Ram>, k: nat, a: uint32, bs: seq<uint8>)
    requires WellFormed(rs, store) && Inside(rs, k, a, |bs|) && bs != []
    ensures store[rs[k].dev].readOnly ==>
              BusWrite(rs, store, a, bs) == MemoryError && !FlatMemory.Writable(Flat(rs, store), a, |bs|)
    ensures !store[rs[k].dev].readOnly ==>
              && BusWrite(rs, store, a, bs).Done?
              && WellFormed(rs, BusWrite(rs, store, a, bs).value)
              && FlatMemory.Writable(Flat(rs, store), a, |bs|)
              && Flat(rs, BusWrite(rs, store, a, bs).value) == FlatMemory.Store(Flat(rs, store), a, bs)
  {
    hide Flat, Updated;
    OnlyMatch(rs, store, k, a);
    FlatInside(rs, store, k, a, |bs|);
    var ram := store[rs[k].dev];
    if ram.readOnly {
      assert a in Flat(rs, store).rom;
    } else {
      WriteUpdates(rs, store, k, a, bs);
      StoreRefines(rs, store, k, a, bs);
    }
  }

  /** The store after `bs` went into the device of range `k`. */
  ghost function Updated<D>(rs: seq<Range<D>>, store: map<D, Ram>, k: nat, a: uint32, bs: seq<uint8>): map<D, Ram>
    requires WellFormed(rs, store) && Inside(rs, k, a, |bs|)
  {
    var ram, off := store[rs[k].dev], a - rs[k].low;
    store[rs[k].dev := ram.(data := ram.data[..off] + bs + ram.data[off + |bs|..])]
  }

  lemma WriteUpdates<D>(rs: seq<Range<D>>, store: map<D, Ram>, k: nat, a: uint32, bs: seq<uint8>)
    requires WellFormed(rs, store) && Inside(rs, k, a, |bs|) && bs != []
    requires Find(rs, a) == k && !store[rs[k].dev].readOnly
    ensures BusWrite(rs, store, a, bs) == Done(Updated(rs, store, k, a, bs))
  {
  }

  lemma UpdatedWellFormed<D>(rs: seq<Range<D>>, store: map<D, Ram>, k: nat, a: uint32, bs: seq<uint8>)
    requires WellFormed(rs, store) && Inside(rs, k, a, |bs|)
    ensures WellFormed(rs, Updated(rs, store, k, a, bs))
  {
    var store' := Updated(rs, store, k, a, bs);
    assert forall d :: d in store ==> d in store' && |store'[d].data| == |store[d].data|;
  }

  lemma StoreRefines<D>(rs: seq<Range<D>>, store: map<D, Ram>, k: nat, a: uint32, bs: seq<uint8>)
    requires WellFormed(rs, store) && Inside(rs, k, a, |bs|)
    requires FlatMemory.Writable(Flat(rs, store), a, |bs|)
    ensures WellFormed(rs, Updated(rs, store, k, a, bs))
    ensures Flat(rs, Updated(rs, store, k, a, bs)) == FlatMemory.Store(Flat(rs, store), a, bs)
  {
    hide Flat, ByteAt, WellFormed;
    UpdatedWellFormed(rs, store, k, a, bs);
    var store' := Updated(rs, store, k, a, bs);
    var m, m', t := Flat(rs, store), Flat(rs, store'), FlatMemory.Store(Flat(rs, store), a, bs);
    forall x: int
      ensures x in m.bytes.Keys <==> x in m'.bytes.Keys
      ensures x in m.bytes.Keys ==> m'.bytes[x] == t.bytes[x]
      ensures x in m.rom <==> x in m'.rom
    {
      FlatAt(rs, store, x);
      FlatAt(rs, store', x);
      if x in m.bytes {
        ByteAfterStore(rs, store, k, a, bs, x);
        ReadOnlyKept(rs, store, k, a, bs, Find(rs, x));
      }
    }
    assert t.bytes.Keys == m.bytes.Keys;
    assert m'.bytes == t.bytes;
    assert m'.rom == m.rom;
  }

  lemma ReadOnlyKept<D>(rs: seq<Range<D>>, store: map<D, Ram>, k: nat, a: uint32, bs: seq<uint8>, j: nat)
    requires WellFormed(rs, store) && Inside(rs, k, a, |bs|) && j < |rs|
    ensures rs[j].dev in store && rs[j].dev in Updated(rs, store, k, a, bs)
    ensures Updated(rs, store, k, a, bs)[rs[j].dev].readOnly == store[rs[j].dev].readOnly
  {
  }

  lemma ByteAfterStore<D>(rs: seq<Range<D>>, store: map<D, Ram>, k: nat, a: uint32, bs: seq<uint8>, x: uint32)
    requires WellFormed(rs, store) && Inside(rs, k, a, |bs|) && WellFormed(rs, Updated(rs, store, k, a, bs))
    requires Find(rs, x) < |rs|
    ensures ByteAt(rs, Updated(rs, store, k, a, bs), x) == if a <= x < a + |bs| then bs[x - a] else ByteAt(rs, store, x)
  {
    if Find(rs, x) != k {
      assert !rs[k].Covers(x) by {
        if rs[k].Covers(x) {
          OnlyMatch(rs, store, k, x);
        }
      }
    }
  }

  /** The request runs past the end of the address space, its wrapped last address is below the end of the
      range it starts in, and the device is long enough: the range test does not notice. */
  ghost predicate ComesAround<D>(rs: seq<Range<D>>, store: map<D, Ram>, a: uint32, n: nat)
    requires WellFormed(rs, store)
  {
    a + n > 0x1_0000_0000 && Find(rs, a) < |rs| &&
    var r := rs[Find(rs, a)];
    Wrap32(a + (n - 1)) <= r.high && a - r.low + n <= |store[r.dev].data|
  }

  /** The request is answered by the device of the range it starts in. */
  ghost predicate Answered<D>(rs: seq<Range<D>>, store: map<D, Ram>, a: uint32, n: nat)
    requires WellFormed(rs, store)
  {
    (exists k :: Inside(rs, k, a, n)) || ComesAround(rs, store, a, n)
  }

  lemma AnsweredByFind<D>(rs: seq<Range<D>>, store: map<D, Ram>, a: uint32, n: nat)
    requires WellFormed(rs, store) && n > 0
    ensures Answered(rs, store, a, n) <==>
            && Find(rs, a) < |rs| && Wrap32(a + (n - 1)) <= rs[Find(rs, a)].high
            && a - rs[Find(rs, a)].low + n <= |store[rs[Find(rs, a)].dev].data|
  {
    if k :| Inside(rs, k, a, n) {
      OnlyMatch(rs, store, k, a);
    } else if Find(rs, a) < |rs| {
      assert !Inside(rs, Find(rs, a), a, n);
    }
  }

  /** How a request that gets no answer ends: no range where it starts, an end past its range, or a device
      that is read-only or too short, unless its bounds test wraps. */
  ghost function Refusal<D>(rs: seq<Range<D>>, store: map<D, Ram>, a: uint32, n: nat, write: bool): Access<()>
    requires Stored(rs, store)
  {
    if Find(rs, a) == |rs| then MemoryError
    else
      var r := rs[Find(rs, a)];
      var ram := store[r.dev];
      if Wrap32(a + (n - 1)) > r.high then Spanning
      else if (write && ram.readOnly) || Wrap32(a - r.low + n) > |ram.data| then MemoryError
      else Overrun
  }

  /** A read gets bytes exactly when it lies inside one range or comes around the end of the address space;
      they are the device's. */
  lemma ReadOutcomes<D>(rs: seq<Range<D>>, store: map<D, Ram>, a: uint32, n: nat)
    requires WellFormed(rs, store) && n > 0
    ensures BusRead(rs, store, a, n).Done? <==> Answered(rs, store, a, n)
    ensures BusRead(rs, store, a, n).Done? ==>
              var r := rs[Find(rs, a)];
              BusRead(rs, store, a, n).value == store[r.dev].data[a - r.low..a - r.low + n]
    ensures !BusRead(rs, store, a, n).Done? ==> WithoutValue(BusRead(rs, store, a, n)) == Refusal(rs, store, a, n, false)
  {
    AnsweredByFind(rs, store, a, n);
  }

  /** A write goes to the device under the same condition, unless it is read-only. */
  lemma WriteOutcomes<D>(rs: seq<Range<D>>, store: map<D, Ram>, a: uint32, bs: seq<uint8>)
    requires WellFormed(rs, store) && bs != []
    ensures BusWrite(rs, store, a, bs).Done? <==>
            Answered(rs, store, a, |bs|) && !store[rs[Find(rs, a)].dev].readOnly
    ensures BusWrite(rs, store, a, bs).Done? ==>
              var r := rs[Find(rs, a)];
              var ram := store[r.dev];
              BusWrite(rs, store, a, bs).value ==
              store[r.dev := ram.(data := ram.data[..a - r.low] + bs + ram.data[a - r.low + |bs|..])]
    ensures !BusWrite(rs, store, a, bs).Done? ==> WithoutValue(BusWrite(rs, store, a, bs)) == Refusal(rs, store, a, |bs|, true)
  {
    AnsweredByFind(rs, store, a, |bs|);
  }

  const TOP_RANGE := [Range(0xFFFF_FFFC, 0xFFFF_FFFF, 0)]
  const EIGHT_BYTES := map[0 := Ram([1, 2, 3, 4, 5, 6, 7, 8], false)]

  /** Four bytes at the top of the address space in front of a device of eight: a request for two of them and two
      that nothing answers to is served, reads and writes alike, with bytes behind the range. */
  lemma WrappedRequestFails()
    ensures WellFormed(TOP_RANGE, EIGHT_BYTES) && Find(TOP_RANGE, 0) == |TOP_RANGE|
    ensures BusRead(TOP_RANGE, EIGHT_BYTES, 0xFFFF_FFFE, 4) == Done([3, 4, 5, 6])
    ensures BusWrite(TOP_RANGE, EIGHT_BYTES, 0xFFFF_FFFE, [0, 0, 0, 0]) == Done(map[0 := Ram([1, 2, 0, 0, 0, 0, 7, 8], false)])
  {
    var data := EIGHT_BYTES[0].data;
    assert Find(TOP_RANGE, 0xFFFF_FFFE) == 0;
    assert data[2..6] == [3, 4, 5, 6];
    assert data[..2] + [0, 0, 0, 0] + data[6..] == [1, 2, 0, 0, 0, 0, 7, 8];
    assert EIGHT_BYTES[0 := Ram([1, 2, 0, 0, 0, 0, 7, 8], false)] == map[0 := Ram([1, 2, 0, 0, 0, 0, 7, 8], false)];
  }

  function WithoutValue<T>(r: Access<T>): Access<()> {
    match r
    case Done(_) => Done(())
    case MemoryError => MemoryError
    case Spanning => Spanning
    case Overrun => Overrun
  }

  // ----- Sequences of requests -----

  datatype Request = Get(a: uint32, n: nat) | Set(a: uint32, bs: seq<uint8>) {
    function Size(): nat {
      if Get? then n else |bs|
    }
  }

  datatype Answer = Bytes(bs: seq<uint8>) | Written | Refused

  ghost function BusAnswer<D>(rs: seq<Range<D>>, store: map<D, Ram>, q: Request): (r: (Answer, map<D, Ram>))
    requires Stored(rs, store)
    ensures Stored(rs, r.1)
  {
    if q.Get? then
      var r := BusRead(rs, store, q.a, q.n);
      (if r.Done? then Bytes(r.value) else Refused, store)
    else
      var r := BusWrite(rs, store, q.a, q.bs);
      if r.Done? then (Written, r.value) else (Refused, store)
  }

  ghost function FlatAnswer(m: FlatMemory.Memory, q: Request): (Answer, FlatMemory.Memory) {
    if q.Get? then
      (if FlatMemory.Mapped(m, q.a, q.n) then Bytes(FlatMemory.Load(m, q.a, q.n)) else Refused, m)
    else if FlatMemory.Writable(m, q.a, |q.bs|) then (Written, FlatMemory.Store(m, q.a, q.bs))
    else (Refused, m)
  }

  ghost function BusAnswers<D>(rs: seq<Range<D>>, store: map<D, Ram>, qs: seq<Request>): (seq<Answer>, map<D, Ram>)
    requires Stored(rs, store)
    decreases |qs|
  {
    if qs == [] then ([], store)
    else
      var (a, store') := BusAnswer(rs, store, qs[0]);
      var (as', last) := BusAnswers(rs, store', qs[1..]);
      ([a] + as', last)
  }

  ghost function FlatAnswers(m: FlatMemory.Memory, qs: seq<Request>): (seq<Answer>, FlatMemory.Memory)
    decreases |qs|
  {
    if qs == [] then ([], m)
    else
      var (a, m') := FlatAnswer(m, qs[0]);
      var (as', last) := FlatAnswers(m', qs[1..]);
      ([a] + as', last)
  }

  ghost predicate SingleDevice<D>(rs: seq<Range<D>>, q: Request) {
    q.Size() > 0 && exists k :: Inside(rs, k, q.a, q.Size())
  }

  lemma AnswerRefines<D>(rs: seq<Range<D>>, store: map<D, Ram>, q: Request)
    requires WellFormed(rs, store) && SingleDevice(rs, q)
    ensures WellFormed(rs, BusAnswer(rs, store, q).1)
    ensures FlatAnswer(Flat(rs, store), q) == (BusAnswer(rs, store, q).0, Flat(rs, BusAnswer(rs, store, q).1))
  {
    var k :| Inside(rs, k, q.a, q.Size());
    if q.Get? {
      ReadRefines(rs, store, k, q.a, q.n);
    } else {
      WriteRefines(rs, store, k, q.a, q.bs);
    }
  }

  /** Every sequence of single-device requests gets the answers, and leaves the contents, of a flat map. */
  lemma {:induction false} BusRefinesFlat<D>(rs: seq<Range<D>>, store: map<D, Ram>, qs: seq<Request>)
    requires WellFormed(rs, store)
    requires forall i :: 0 <= i < |qs| ==> SingleDevice(rs, qs[i])
    ensures WellFormed(rs, BusAnswers(rs, store, qs).1)
    ensures FlatAnswers(Flat(rs, store), qs) == (BusAnswers(rs, store, qs).0, Flat(rs, BusAnswers(rs, store, qs).1))
    decreases |qs|
  {
    if qs != [] {
      AnswerRefines(rs, store, qs[0]);
      BusRefinesFlat(rs, BusAnswer(rs, store, qs[0]).1, qs[1..]);
    }
  }

  // ----- Device order -----

  lemma IndexInPermutation<T>(s: seq<T>, t: seq<T>, i: nat) returns (j: nat)
    requires multiset(s) == multiset(t) && i < |s|
    ensures j < |t| && t[j] == s[i]
  {
    assert s[i] in multiset(t);
    j :| 0 <= j < |t| && t[j] == s[i];
  }

  lemma SameFirstMatch<D>(rs: seq<Range<D>>, rs': seq<Range<D>>, store: map<D, Ram>, a: uint32)
    requires WellFormed(rs', store) && multiset(rs) == multiset(rs')
    requires Find(rs, a) < |rs|
    ensures Find(rs', a) < |rs'| && rs'[Find(rs', a)] == rs[Find(rs, a)]
  {
    var j := IndexInPermutation(rs, rs', Find(rs, a));
    OnlyMatch(rs', store, j, a);
  }

  /** Reordering the list leaves the flat view unchanged. */
  lemma OrderIndependent<D>(rs: seq<Range<D>>, rs': seq<Range<D>>, store: map<D, Ram>)
    requires WellFormed(rs, store) && WellFormed(rs', store)
    requires multiset(rs) == multiset(rs')
    ensures Flat(rs, store) == Flat(rs', store)
  {
    hide Flat, WellFormed;
    var m, m' := Flat(rs, store), Flat(rs', store);
    forall a: int
      ensures a in m.bytes.Keys <==> a in m'.bytes.Keys
      ensures a in m.bytes.Keys ==> m.bytes[a] == m'.bytes[a]
      ensures a in m.rom <==> a in m'.rom
    {
      FlatAt(rs, store, a);
      FlatAt(rs', store, a);
      if a in m.bytes {
        SameFirstMatch(rs, rs', store, a);
      } else if a in m'.bytes {
        SameFirstMatch(rs', rs, store, a);
      }
    }
    assert m.bytes == m'.bytes;
    assert m.rom == m'.rom;
  }

  lemma SameAnswer<D>(rs: seq<Range<D>>, rs': seq<Range<D>>, store: map<D, Ram>, q: Request)
    requires WellFormed(rs, store) && WellFormed(rs', store) && multiset(rs) == multiset(rs')
    requires SingleDevice(rs, q)
    ensures SingleDevice(rs', q)
    ensures BusAnswer(rs, store, q) == BusAnswer(rs', store, q)
    ensures WellFormed(rs, BusAnswer(rs, store, q).1) && WellFormed(rs', BusAnswer(rs, store, q).1)
  {
    hide WellFormed, Flat;
    var k :| Inside(rs, k, q.a, q.Size());
    var j := IndexInPermutation(rs, rs', k);
    assert Inside(rs', j, q.a, q.Size());
    OnlyMatch(rs, store, k, q.a);
    OnlyMatch(rs', store, j, q.a);
    AnswerRefines(rs, store, q);
    AnswerRefines(rs', store, q);
  }

  /** Two orders of one device list give every sequence of single-device requests the same answers and leave
      the devices with the same contents. */
  lemma {:induction false} SameAnswersInAnyOrder<D>(rs: seq<Range<D>>, rs': seq<Range<D>>, store: map<D, Ram>, qs: seq<Request>)
    requires WellFormed(rs, store) && WellFormed(rs', store)
    requires multiset(rs) == multiset(rs')
    requires forall i :: 0 <= i < |qs| ==> SingleDevice(rs, qs[i])
    ensures BusAnswers(rs, store, qs) == BusAnswers(rs', store, qs)
    decreases |qs|
  {
    hide BusAnswer, Disjoint;
    if qs != [] {
      SameAnswer(rs, rs', store, qs[0]);
      SameAnswersInAnyOrder(rs, rs', BusAnswer(rs, store, qs[0]).1, qs[1..]);
    }
  }

  // ----- The list operations -----

  /** No range reaches over both ends, shared or not, of one that was added before it. */
  ghost predicate NoSwallowing<D>(rs: seq<Range<D>>) {
    forall i, j :: 0 <= i < j < |rs| ==> !(rs[j].low <= rs[i].low && rs[i].high <= rs[j].high)
  }

  /** `Add` refuses exactly the ranges that reach over both ends of an old one. */
  lemma AddRefuses<D>(rs: seq<Range<D>>, r: Range<D>)
    ensures Added(rs, r) == (if exists i :: 0 <= i < |rs| && r.low <= rs[i].low && rs[i].high <= r.high then rs else rs + [r])
  {
    if exists i :: 0 <= i < |rs| && r.low <= rs[i].low && rs[i].high <= r.high {
      var i :| 0 <= i < |rs| && r.low <= rs[i].low && rs[i].high <= r.high;
      assert Contains(r, rs[i]);
    }
  }

  /** A second device over the same addresses is refused, and so is one that goes on where it ends. */
  lemma AddRefusesAgain<D>(d: D, e: D)
    ensures
      var old' := [Range(0x1000, 0x1fff, d)];
      Added(old', Range(0x1000, 0x1fff, e)) == old' && Added(old', Range(0x1000, 0x2fff, e)) == old'
  {
    var old' := [Range(0x1000, 0x1fff, d)];
    assert old'[0] == Range(0x1000, 0x1fff, d);
    AddRefuses(old', Range(0x1000, 0x1fff, e));
    AddRefuses(old', Range(0x1000, 0x2fff, e));
  }

  datatype Command<D> =
    | Add(r: Range<D>)
    | RemoveFrom(low: uint32)
    | RemoveDevice(dev: D)
    | Free(low: uint32, high: uint32)

  ghost function Apply<D>(rs: seq<Range<D>>, c: Command<D>): seq<Range<D>> {
    match c
    case Add(r) => Added(rs, r)
    case RemoveFrom(low) => Kept(rs, (r: Range<D>) => r.low == low)
    case RemoveDevice(dev) => Kept(rs, (r: Range<D>) => r.dev == dev)
    case Free(low, high) => Kept(rs, (r: Range<D>) => Touches(r, low, high))
  }

  ghost function ApplyAll<D>(rs: seq<Range<D>>, cs: seq<Command<D>>): seq<Range<D>>
    decreases |cs|
  {
    if cs == [] then rs else ApplyAll(Apply(rs, cs[0]), cs[1..])
  }

  /** Removal works position by position. */
  lemma {:induction false} KeptAppend<D>(rs: seq<Range<D>>, ss: seq<Range<D>>, drop: Range<D> -> bool)
    ensures Kept(rs + ss, drop) == Kept(rs, drop) + Kept(ss, drop)
    decreases |rs|
  {
    if rs == [] {
      assert rs + ss == ss;
    } else {
      var head := if drop(rs[0]) then [] else [rs[0]];
      KeptAppend(rs[1..], ss, drop);
      assert (rs + ss)[1..] == rs[1..] + ss;
      assert head + (Kept(rs[1..], drop) + Kept(ss, drop)) == head + Kept(rs[1..], drop) + Kept(ss, drop);
    }
  }

  /** The positions `at` pick `kept` out of `rs` in ascending order. */
  ghost predicate Picks<D>(rs: seq<Range<D>>, kept: seq<Range<D>>, at: seq<nat>) {
    && |at| == |kept|
    && (forall i, j :: 0 <= i < j < |at| ==> at[i] < at[j])
    && (forall i :: 0 <= i < |at| ==> at[i] < |rs| && kept[i] == rs[at[i]])
  }

  function Later(at: seq<nat>): (r: seq<nat>)
    ensures |r| == |at| && forall i :: 0 <= i < |at| ==> r[i] == at[i] + 1
  {
    seq(|at|, i requires 0 <= i < |at| => at[i] + 1)
  }

  lemma PicksLater<D>(first: Range<D>, rs: seq<Range<D>>, kept: seq<Range<D>>, at: seq<nat>)
    requires Picks(rs, kept, at)
    ensures Picks([first] + rs, kept, Later(at))
    ensures Picks([first] + rs, [first] + kept, [0] + Later(at))
  {
  }

  /** The survivors keep their order: they are picked at ascending positions, those of the unselected ranges. */
  lemma {:induction false} KeptKeepsOrder<D>(rs: seq<Range<D>>, drop: Range<D> -> bool) returns (at: seq<nat>)
    ensures Picks(rs, Kept(rs, drop), at)
    ensures forall k: nat :: k in at <==> k < |rs| && !drop(rs[k])
    decreases |rs|
  {
    if rs == [] {
      at := [];
    } else {
      var first, rest := rs[0], rs[1..];
      var tail := KeptKeepsOrder(rest, drop);
      PicksLater(first, rest, Kept(rest, drop), tail);
      assert rs == [first] + rest;
      at := if drop(first) then Later(tail) else [0] + Later(tail);
      assert [] + Kept(rest, drop) == Kept(rest, drop);
      forall k: nat
        ensures k in at <==> k < |rs| && !drop(rs[k])
      {
        if k > 0 {
          LaterMembers(tail, k);
          assert rs[1..] == rest && (k - 1 in tail <==> k - 1 < |rest| && !drop(rest[k - 1]));
        } else {
          LaterMembers(tail, 0);
        }
      }
    }
  }

  lemma LaterMembers(at: seq<nat>, k: nat)
    ensures k in Later(at) <==> k > 0 && k - 1 in at
  {
    if k > 0 && k - 1 in at {
      var i :| 0 <= i < |at| && at[i] == k - 1;
      assert Later(at)[i] == k;
    }
  }

  lemma {:induction false} KeptKeepsNoSwallowing<D>(rs: seq<Range<D>>, drop: Range<D> -> bool)
    requires NoSwallowing(rs)
    ensures NoSwallowing(Kept(rs, drop))
    decreases |rs|
  {
    if rs != [] {
      var tail := Kept(rs[1..], drop);
      KeptKeepsNoSwallowing(rs[1..], drop);
      if !drop(rs[0]) {
        forall j | 0 <= j < |tail|
          ensures !(tail[j].low <= rs[0].low && rs[0].high <= tail[j].high)
        {
          KeptMembers(rs[1..], drop, tail[j]);
        }
        assert Kept(rs, drop) == [rs[0]] + tail;
      }
    }
  }

  /** Over every run of list operations, no range ever contains one added before it. */
  lemma {:induction false} NoSwallowingInvariant<D>(rs: seq<Range<D>>, cs: seq<Command<D>>)
    requires NoSwallowing(rs)
    ensures NoSwallowing(ApplyAll(rs, cs))
    decreases |cs|
  {
    if cs != [] {
      match cs[0] {
        case Add(r) => AddRefuses(rs, r);
        case RemoveFrom(low) => KeptKeepsNoSwallowing(rs, (r: Range<D>) => r.low == low);
        case RemoveDevice(dev) => KeptKeepsNoSwallowing(rs, (r: Range<D>) => r.dev == dev);
        case Free(low, high) => KeptKeepsNoSwallowing(rs, (r: Range<D>) => Touches(r, low, high));
      }
      NoSwallowingInvariant(Apply(rs, cs[0]), cs[1..]);
    }
  }

  /** `RangeFree` erases the ranges that meet the addresses to be freed, except those that reach beyond them on both
      sides. */
  lemma FreeSelects<D>(r: Range<D>, low: uint32, high: uint32)
    requires r.low <= r.high && low <= high
    ensures Touches(r, low, high) <==> (r.low <= high && low <= r.high) && !(r.low < low && high < r.high)
  {
  }

  /** A range around the addresses to be freed stays. */
  lemma FreeMissesAround<D>(d: D)
    ensures
      var around := Range(0x1000, 0x3fff, d);
      && Kept([around], (r: Range<D>) => Touches(r, 0x2000, 0x2fff)) == [around]
      && around.Covers(0x2000)
  {
    var around := Range(0x1000, 0x3fff, d);
    assert [around][0] == around && [around][1..] == [];
    assert [around] + [] == [around];
  }

  ghost predicate PairwiseDisjoint<D>(rs: seq<Range<D>>) {
    forall i, j :: 0 <= i < j < |rs| ==> Disjoint(rs[i], rs[j])
  }

  /** `Add` does not check for overlap as its message says: from a disjoint list it yields a disjoint
      list exactly when the new range is refused as swallowing an old one or meets none of them. */
  lemma AddKeepsDisjoint<D>(rs: seq<Range<D>>, r: Range<D>)
    requires PairwiseDisjoint(rs)
    ensures PairwiseDisjoint(Added(rs, r)) <==>
              || (exists i :: 0 <= i < |rs| && r.low <= rs[i].low && rs[i].high <= r.high)
              || (forall i :: 0 <= i < |rs| ==> Disjoint(rs[i], r))
  {
    AddRefuses(rs, r);
    if Added(rs, r) == rs + [r] && PairwiseDisjoint(rs + [r]) {
      forall i | 0 <= i < |rs|
        ensures Disjoint(rs[i], r)
      {
        assert (rs + [r])[i] == rs[i] && (rs + [r])[|rs|] == r;
      }
    }
  }

  lemma AddAdmitsOverlap<D>(d: D, e: D)
    ensures
      var old', new' := Range(0x1000, 0x1fff, d), Range(0x1800, 0x18ff, e);
      Added([old'], new') == [old', new'] && !Disjoint(old', new')
  {
    var old' := Range(0x1000, 0x1fff, d);
    assert forall i :: 0 <= i < 1 ==> [old'][i] == old';
  }
}
