/** The processor on the bus: its memory accesses, made on the flat view, are requests to the devices. */
module BusMachine {
  import opened Words
  import FlatMemory
  import opened CpuState
  import Isa
  import StepLaws
  import PrefixChains
  import ExecLaws
  import opened MemoryBus
  import opened BusRefinement

  /** The processor sees the devices. */
  ghost predicate Sees<D>(s: Cpu, rs: seq<Range<D>>, store: map<D, Ram>) {
    WellFormed(rs, store) && s.memory == Flat(rs, store)
  }

  /** A read that lies inside one range is the bus read, little-endian. */
  lemma ReadOnBus<D>(s: Cpu, rs: seq<Range<D>>, store: map<D, Ram>, k: nat, a: uint32, n: nat)
    requires Sees(s, rs, store) && Inside(rs, k, a, n) && 0 < n <= 4
    ensures Read(s, a, n).Ok? && BusRead(rs, store, a, n).Done?
    ensures Read(s, a, n).value == Le(BusRead(rs, store, a, n).value)
  {
    hide Flat, WellFormed;
    ReadRefines(rs, store, k, a, n);
    GetFits(s.memory, a, n);
  }

  /** An access that starts where no device answers is refused on both sides. */
  lemma UnmappedOnBus<D>(s: Cpu, rs: seq<Range<D>>, store: map<D, Ram>, a: uint32, n: nat, v: uint32)
    requires Sees(s, rs, store) && Find(rs, a) == |rs| && 0 < n <= 4
    ensures Read(s, a, n) == Fault(s, MemoryFault) && BusRead(rs, store, a, n) == MemoryError
    ensures Write(s, a, n, v) == Fault(s, MemoryFault) && BusWrite(rs, store, a, ToLe(v, n)) == MemoryError
  {
    FlatAt(rs, store, a);
    assert a !in s.memory.bytes;
  }

  /** A write inside one range reaches its device, or is refused, and the processor sees the devices again. */
  lemma WriteOnBus<D>(s: Cpu, rs: seq<Range<D>>, store: map<D, Ram>, k: nat, a: uint32, n: nat, v: uint32)
    requires Sees(s, rs, store) && Inside(rs, k, a, n) && 0 < n <= 4
    ensures
      match BusWrite(rs, store, a, ToLe(v, n))
      case Done(store') => Write(s, a, n, v).Ok? && Sees(Write(s, a, n, v).value, rs, store')
      case _ => Write(s, a, n, v) == Fault(s, MemoryFault)
  {
    hide Flat, WellFormed;
    WriteRefines(rs, store, k, a, ToLe(v, n));
  }

  // ----- Runs -----

  lemma {:induction false} RunKeepsShape(s: Cpu, n: nat)
    requires PrefixChains.Run(s, n).Ok?
    ensures StepLaws.SameShape(s.memory, PrefixChains.Run(s, n).value.memory)
    decreases n
  {
    hide Isa.Cycle, StepLaws.RomBytes;
    if n > 0 {
      ExecLaws.CycleKeeps(s);
      RunKeepsShape(Isa.Cycle(s).value, n - 1);
    }
  }

  /** The first range over device `d`. */
  function RangeOf<D(==)>(rs: seq<Range<D>>, d: D): (k: nat)
    ensures k <= |rs| && (k < |rs| ==> rs[k].dev == d)
    ensures forall j :: 0 <= j < k ==> rs[j].dev != d
  {
    if rs == [] || rs[0].dev == d then 0 else 1 + RangeOf(rs[1..], d)
  }

  /** The device with what `m` has at its addresses. */
  ghost function Refreshed<D>(rs: seq<Range<D>>, d: D, ram: Ram, m: FlatMemory.Memory): (u: Ram)
    ensures |u.data| == |ram.data| && u.readOnly == ram.readOnly
  {
    var k := RangeOf(rs, d);
    if k == |rs| then ram
    else
      ram.(data := seq(|ram.data|, i requires 0 <= i < |ram.data| =>
        if i <= rs[k].high - rs[k].low && rs[k].low + i in m.bytes then m.bytes[rs[k].low + i] else ram.data[i]))
  }

  ghost function StoreOf<D>(rs: seq<Range<D>>, store: map<D, Ram>, m: FlatMemory.Memory): map<D, Ram> {
    map d | d in store :: Refreshed(rs, d, store[d], m)
  }

  lemma StoreSeen<D>(rs: seq<Range<D>>, store: map<D, Ram>, m: FlatMemory.Memory)
    requires WellFormed(rs, store) && StepLaws.SameShape(Flat(rs, store), m)
    ensures WellFormed(rs, StoreOf(rs, store, m)) && Flat(rs, StoreOf(rs, store, m)) == m
    ensures forall d :: d in store && store[d].readOnly ==> StoreOf(rs, store, m)[d] == store[d]
  {
    hide Flat;
    var store', old' := StoreOf(rs, store, m), Flat(rs, store);
    forall a: int
      ensures a in Flat(rs, store').bytes.Keys <==> a in m.bytes.Keys
      ensures a in m.bytes ==> Flat(rs, store').bytes[a] == m.bytes[a]
      ensures a in Flat(rs, store').rom <==> a in m.rom
    {
      FlatAt(rs, store, a);
      FlatAt(rs, store', a);
      assert a in old'.bytes.Keys <==> a in m.bytes.Keys;
      if a in m.bytes {
        OneRange(rs, store, Find(rs, a));
      }
    }
    assert Flat(rs, store').bytes == m.bytes && Flat(rs, store').rom == m.rom;
    forall d | d in store && store[d].readOnly
      ensures store'[d] == store[d]
    {
      ReadOnlyStays(rs, store, m, d);
    }
  }

  lemma OneRange<D>(rs: seq<Range<D>>, store: map<D, Ram>, k: nat)
    requires WellFormed(rs, store) && k < |rs|
    ensures RangeOf(rs, rs[k].dev) == k
  {
  }

  lemma ReadOnlyStays<D>(rs: seq<Range<D>>, store: map<D, Ram>, m: FlatMemory.Memory, d: D)
    requires WellFormed(rs, store) && StepLaws.SameShape(Flat(rs, store), m) && d in store && store[d].readOnly
    ensures Refreshed(rs, d, store[d], m) == store[d]
  {
    hide Flat;
    var k, ram, old' := RangeOf(rs, d), store[d], Flat(rs, store);
    if k < |rs| {
      forall i | 0 <= i < |ram.data|
        ensures Refreshed(rs, d, ram, m).data[i] == ram.data[i]
      {
        if i <= rs[k].high - rs[k].low {
          var a := rs[k].low + i;
          OnlyMatch(rs, store, k, a);
          FlatAt(rs, store, a);
          assert a in StepLaws.RomBytes(old') && StepLaws.RomBytes(old')[a] == ram.data[i];
          assert a in StepLaws.RomBytes(m) && StepLaws.RomBytes(m)[a] == m.bytes[a];
        }
      }
      assert Refreshed(rs, d, ram, m).data == ram.data;
    }
  }

  /** The shape of memory is an invariant of runs: from the flat view of a list of devices a run ends on the flat
      view of the same ranges, over devices with other contents at most, of the same length, and the read-only ones
      have what they had. */
  lemma RunOnBus<D>(s: Cpu, rs: seq<Range<D>>, store: map<D, Ram>, n: nat)
    requires Sees(s, rs, store) && PrefixChains.Run(s, n).Ok?
    ensures
      var t := PrefixChains.Run(s, n).value;
      var store' := StoreOf(rs, store, t.memory);
      && Sees(t, rs, store') && store'.Keys == store.Keys
      && forall d :: d in store ==> |store'[d].data| == |store[d].data| && store'[d].readOnly == store[d].readOnly
                                    && (store[d].readOnly ==> store'[d] == store[d])
  {
    hide PrefixChains.Run, Flat, WellFormed;
    RunKeepsShape(s, n);
    StoreSeen(rs, store, PrefixChains.Run(s, n).value.memory);
  }

  // ----- The devices after the requests of a run -----

  /** The byte `i` of device `d` is behind no range. */
  ghost predicate Unreached<D>(rs: seq<Range<D>>, d: D, i: nat) {
    var k := RangeOf(rs, d);
    k == |rs| || i > rs[k].high - rs[k].low
  }

  /** The devices are the same but for bytes behind a range. */
  ghost predicate SameElsewhere<D>(rs: seq<Range<D>>, store: map<D, Ram>, store': map<D, Ram>) {
    && store'.Keys == store.Keys
    && forall d :: d in store ==> SameDevice(rs, d, store[d], store'[d])
  }

  ghost predicate SameDevice<D>(rs: seq<Range<D>>, d: D, ram: Ram, ram': Ram) {
    && |ram'.data| == |ram.data| && ram'.readOnly == ram.readOnly
    && forall i :: 0 <= i < |ram.data| && Unreached(rs, d, i) ==> ram'.data[i] == ram.data[i]
  }

  lemma RequestStaysInReach<D>(rs: seq<Range<D>>, store: map<D, Ram>, q: Request)
    requires WellFormed(rs, store) && SingleDevice(rs, q)
    ensures SameElsewhere(rs, store, BusAnswer(rs, store, q).1)
  {
    hide Updated, SameElsewhere;
    var k: nat :| Inside(rs, k, q.a, q.Size());
    OnlyMatch(rs, store, k, q.a);
    SameAsItself(rs, store);
    if q.Set? && BusWrite(rs, store, q.a, q.bs).Done? {
      WriteRefines(rs, store, k, q.a, q.bs);
      WriteUpdates(rs, store, k, q.a, q.bs);
      UpdateStaysInReach(rs, store, k, q.a, q.bs);
    }
  }

  lemma SameAsItself<D>(rs: seq<Range<D>>, store: map<D, Ram>)
    ensures SameElsewhere(rs, store, store)
  {
  }

  lemma UpdateStaysInReach<D>(rs: seq<Range<D>>, store: map<D, Ram>, k: nat, a: uint32, bs: seq<uint8>)
    requires WellFormed(rs, store) && Inside(rs, k, a, |bs|)
    ensures SameElsewhere(rs, store, Updated(rs, store, k, a, bs))
  {
    OneRange(rs, store, k);
  }

  lemma {:induction false} RequestsStayInReach<D>(rs: seq<Range<D>>, store: map<D, Ram>, qs: seq<Request>)
    requires WellFormed(rs, store) && forall i :: 0 <= i < |qs| ==> SingleDevice(rs, qs[i])
    ensures SameElsewhere(rs, store, BusAnswers(rs, store, qs).1)
    decreases |qs|
  {
    hide WellFormed, BusAnswer;
    if qs != [] {
      RequestStaysInReach(rs, store, qs[0]);
      AnswerRefines(rs, store, qs[0]);
      RequestsStayInReach(rs, BusAnswer(rs, store, qs[0]).1, qs[1..]);
    }
  }

  /** The flat view and what it does not show determine the devices. */
  lemma StoreDetermined<D>(rs: seq<Range<D>>, store: map<D, Ram>, store': map<D, Ram>)
    requires WellFormed(rs, store) && WellFormed(rs, store') && SameElsewhere(rs, store, store')
    ensures StoreOf(rs, store, Flat(rs, store')) == store'
  {
    hide Flat, WellFormed, Refreshed;
    forall d | d in store
      ensures Refreshed(rs, d, store[d], Flat(rs, store')) == store'[d]
    {
      DeviceDetermined(rs, store, store', d);
    }
  }

  lemma DeviceDetermined<D>(rs: seq<Range<D>>, store: map<D, Ram>, store': map<D, Ram>, d: D)
    requires WellFormed(rs, store') && d in store && d in store' && SameDevice(rs, d, store[d], store'[d])
    ensures Refreshed(rs, d, store[d], Flat(rs, store')) == store'[d]
  {
    hide Flat;
    var k, u := RangeOf(rs, d), Refreshed(rs, d, store[d], Flat(rs, store'));
    forall i | 0 <= i < |u.data|
      ensures u.data[i] == store'[d].data[i]
    {
      if !Unreached(rs, d, i) {
        var a := rs[k].low + i;
        OnlyMatch(rs, store', k, a);
        FlatAt(rs, store', a);
      } else {
        assert store'[d].data[i] == store[d].data[i];
      }
    }
    assert u.data == store'[d].data;
  }

  /** Whatever requests, each inside one range, account for the memory that a run leaves: made to the bus, they get
      the answers of the flat view and leave the devices of `RunOnBus`. */
  lemma RunIsRequests<D>(s: Cpu, rs: seq<Range<D>>, store: map<D, Ram>, n: nat, qs: seq<Request>)
    requires Sees(s, rs, store) && PrefixChains.Run(s, n).Ok?
    requires forall i :: 0 <= i < |qs| ==> SingleDevice(rs, qs[i])
    requires FlatAnswers(s.memory, qs).1 == PrefixChains.Run(s, n).value.memory
    ensures
      var t := PrefixChains.Run(s, n).value;
      BusAnswers(rs, store, qs) == (FlatAnswers(s.memory, qs).0, StoreOf(rs, store, t.memory))
  {
    hide PrefixChains.Run, Flat, StoreOf, SingleDevice, SameElsewhere, BusAnswers, FlatAnswers;
    BusRefinesFlat(rs, store, qs);
    RequestsStayInReach(rs, store, qs);
    StoreDetermined(rs, store, BusAnswers(rs, store, qs).1);
  }
}
