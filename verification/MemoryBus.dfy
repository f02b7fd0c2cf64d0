/**
  The device bus: an ordered list of address ranges, searched front to back.
  Ranges name devices of type `D`, so one device may sit behind several ranges.
*/
module MemoryBus {
  import opened Words

  datatype Range<D> = Range(low: uint32, high: uint32, dev: D) {
    predicate Covers(a: uint32) {
      low <= a <= high
    }
  }

  /** The contents of a RAM device; a read-only device refuses writes. */
  datatype Ram = Ram(data: seq<uint8>, readOnly: bool)

  /** How an access ends.  `Spanning` is a request that runs past the range it starts in and
      `Overrun` one that passes the wrapped bounds check of a device without fitting in it:
      what the C++ code does after either is not part of this model. */
  datatype Access<T> = Done(value: T) | MemoryError | Spanning | Overrun

  // ----- One device -----

  function DeviceRead(ram: Ram, a: uint32, n: nat): Access<seq<uint8>> {
    if Wrap32(a + n) > |ram.data| then MemoryError
    else if a + n > |ram.data| then Overrun
    else Done(ram.data[a..a + n])
  }

  function DeviceWrite(ram: Ram, a: uint32, bs: seq<uint8>): Access<Ram> {
    if ram.readOnly || Wrap32(a + |bs|) > |ram.data| then MemoryError
    else if a + |bs| > |ram.data| then Overrun
    else Done(ram.(data := ram.data[..a] + bs + ram.data[a + |bs|..]))
  }

  class MemoryDevice {
    const ptr: array<uint8>
    const readOnly: bool

    constructor (size: uint32, readOnly: bool)
      ensures Valid() && ptr.Length == size && this.readOnly == readOnly && fresh(ptr)
      ensures forall i :: 0 <= i < size ==> ptr[i] == 0
    {
      ptr := new uint8[size](_ => 0);
      this.readOnly := readOnly;
    }

    predicate Valid() {
      ptr.Length < 0x1_0000_0000
    }

    function Contents(): Ram
      reads ptr
    {
      Ram(ptr[..], readOnly)
    }

    method Read(address: uint32, count: nat) returns (r: Access<seq<uint8>>)
      requires Valid()
      ensures r == DeviceRead(Contents(), address, count)
    {
      if Wrap32(address + count) > ptr.Length {
        return MemoryError;
      }
      if address + count > ptr.Length {
        return Overrun;
      }
      return Done(ptr[address..address + count]);
    }

    method Write(address: uint32, buffer: seq<uint8>) returns (r: Access<()>)
      requires Valid()
      modifies ptr
      ensures
        match DeviceWrite(old(Contents()), address, buffer)
        case Done(ram) => r == Done(()) && Contents() == ram
        case MemoryError => r == MemoryError && Contents() == old(Contents())
        case Overrun => r == Overrun && Contents() == old(Contents())
        case Spanning => false
    {
      if readOnly || Wrap32(address + |buffer|) > ptr.Length {
        return MemoryError;
      }
      if address + |buffer| > ptr.Length {
        return Overrun;
      }
      for i := 0 to |buffer|
        invariant ptr[..address + i] == old(ptr[..address]) + buffer[..i]
        invariant ptr[address + i..] == old(ptr[address + i..])
      {
        ptr[address + i] := buffer[i];
      }
      return Done(());
    }
  }

  // ----- Dispatch -----

  /** The position of the first range that covers `a`, or the length of the list. */
  function Find<D>(rs: seq<Range<D>>, a: uint32): (k: nat)
    ensures k <= |rs|
    ensures forall j :: 0 <= j < k ==> !rs[j].Covers(a)
    ensures k < |rs| ==> rs[k].Covers(a)
  {
    if rs == [] || rs[0].Covers(a) then 0 else 1 + Find(rs[1..], a)
  }

  ghost predicate Stored<D>(rs: seq<Range<D>>, store: map<D, Ram>) {
    forall i :: 0 <= i < |rs| ==> rs[i].dev in store
  }

  /** One read; only the first byte's address chooses the device. */
  ghost function BusRead<D>(rs: seq<Range<D>>, store: map<D, Ram>, a: uint32, n: nat): Access<seq<uint8>>
    requires Stored(rs, store)
  {
    var k := Find(rs, a);
    if n == 0 then Done([])
    else if k == |rs| then MemoryError
    else if Wrap32(a + (n - 1)) > rs[k].high then Spanning
    else DeviceRead(store[rs[k].dev], a - rs[k].low, n)
  }

  ghost function BusWrite<D>(rs: seq<Range<D>>, store: map<D, Ram>, a: uint32, bs: seq<uint8>): Access<map<D, Ram>>
    requires Stored(rs, store)
  {
    var k := Find(rs, a);
    if bs == [] then Done(store)
    else if k == |rs| then MemoryError
    else if Wrap32(a + (|bs| - 1)) > rs[k].high then Spanning
    else
      match DeviceWrite(store[rs[k].dev], a - rs[k].low, bs)
      case Done(ram) => Done(store[rs[k].dev := ram])
      case MemoryError => MemoryError
      case Spanning => Spanning
      case Overrun => Overrun
  }

  // ----- The device list -----

  /** The new range swallows an existing one: the only overlap that `Add` notices. */
  predicate Contains<D>(outer: Range<D>, inner: Range<D>) {
    inner.high <= outer.high && inner.low >= outer.low
  }

  function Added<D>(rs: seq<Range<D>>, r: Range<D>): seq<Range<D>> {
    if exists i :: 0 <= i < |rs| && Contains(r, rs[i]) then rs else rs + [r]
  }

  /** The ranges that `drop` does not select, in their old order. */
  function Kept<D>(rs: seq<Range<D>>, drop: Range<D> -> bool): seq<Range<D>> {
    if rs == [] then []
    else (if drop(rs[0]) then [] else [rs[0]]) + Kept(rs[1..], drop)
  }

  lemma {:induction false} KeptSnoc<D>(rs: seq<Range<D>>, r: Range<D>, drop: Range<D> -> bool)
    ensures Kept(rs + [r], drop) == Kept(rs, drop) + if drop(r) then [] else [r]
  {
    if rs == [] {
    } else {
      KeptSnoc(rs[1..], r, drop);
      assert (rs + [r])[1..] == rs[1..] + [r];
    }
  }

  /** The survivors of a removal are exactly the ranges that are not selected. */
  lemma {:induction false} KeptMembers<D>(rs: seq<Range<D>>, drop: Range<D> -> bool, r: Range<D>)
    ensures r in Kept(rs, drop) <==> r in rs && !drop(r)
    decreases |rs|
  {
    if rs != [] {
      KeptMembers(rs[1..], drop, r);
    }
  }

  /** One step of an erasing sweep: the ranges before `it` are the kept ones of `seen`. */
  lemma SweepStep<D>(all: seq<Range<D>>, seen: seq<Range<D>>, devices: seq<Range<D>>, it: nat, drop: Range<D> -> bool)
    requires it < |devices|
    requires all == seen + devices[it..] && devices[..it] == Kept(seen, drop)
    ensures
      var r := devices[it];
      var erased := devices[..it] + devices[it + 1..];
      && all == seen + [r] + devices[it + 1..]
      && (drop(r) ==> erased[..it] == Kept(seen + [r], drop) && erased[it..] == devices[it + 1..])
      && (!drop(r) ==> devices[..it + 1] == Kept(seen + [r], drop))
  {
    KeptSnoc(seen, devices[it], drop);
    assert devices[it..] == [devices[it]] + devices[it + 1..];
    assert devices[..it + 1] == devices[..it] + [devices[it]];
  }

  /** An end point of the range lies in [low, high]; a range strictly around it is not selected. */
  predicate Touches<D>(r: Range<D>, low: uint32, high: uint32) {
    low <= r.high <= high || low <= r.low <= high
  }

  class MemorySystem {
    var devices: seq<Range<MemoryDevice>>

    constructor ()
      ensures devices == []
    {
      devices := [];
    }

    ghost function Devices(): set<MemoryDevice>
      reads this
    {
      set i | 0 <= i < |devices| :: devices[i].dev
    }

    /** Distinct devices own distinct buffers. */
    ghost predicate Valid()
      reads this
    {
      && (forall d :: d in Devices() ==> d.Valid())
      && (forall d, e :: d in Devices() && e in Devices() && d != e ==> d.ptr != e.ptr)
    }

    ghost function Store(): (m: map<MemoryDevice, Ram>)
      reads this, set d | d in Devices() :: d.ptr
      ensures Stored(devices, m)
    {
      map d | d in Devices() :: d.Contents()
    }

    method Read(address: uint32, count: nat) returns (r: Access<seq<uint8>>)
      requires Valid()
      ensures r == BusRead(devices, Store(), address, count)
    {
      if count == 0 {
        return Done([]);
      }
      var size := count - 1;
      for i := 0 to |devices|
        invariant forall j :: 0 <= j < i ==> !devices[j].Covers(address)
      {
        var device := devices[i];
        if device.low <= address && device.high >= address {
          if Wrap32(address + size) > device.high {
            return Spanning;
          }
          assert i == Find(devices, address) && device.dev in Devices();
          r := device.dev.Read(address - device.low, size + 1);
          return;
        }
      }
      return MemoryError;
    }

    /** A write to one device of the list changes no other. */
    method WriteDevice(dev: MemoryDevice, offset: uint32, buffer: seq<uint8>) returns (r: Access<()>)
      requires Valid() && dev in Devices()
      modifies dev.ptr
      ensures
        match DeviceWrite(old(Store())[dev], offset, buffer)
        case Done(ram) => r == Done(()) && Store() == old(Store())[dev := ram]
        case MemoryError => r == MemoryError && Store() == old(Store())
        case Overrun => r == Overrun && Store() == old(Store())
        case Spanning => false
    {
      hide DeviceWrite;
      r := dev.Write(offset, buffer);
      assert forall d :: d in Devices() && d != dev ==> d.Contents() == old(d.Contents());
    }

    method Write(address: uint32, buffer: seq<uint8>) returns (r: Access<()>)
      requires Valid()
      modifies set d | d in Devices() :: d.ptr
      ensures
        match BusWrite(devices, old(Store()), address, buffer)
        case Done(store) => r == Done(()) && Store() == store
        case MemoryError => r == MemoryError && Store() == old(Store())
        case Spanning => r == Spanning && Store() == old(Store())
        case Overrun => r == Overrun && Store() == old(Store())
    {
      hide DeviceWrite;
      if |buffer| == 0 {
        return Done(());
      }
      var size := |buffer| - 1;
      for i := 0 to |devices|
        invariant forall j :: 0 <= j < i ==> !devices[j].Covers(address)
        invariant Store() == old(Store())
      {
        var device := devices[i];
        if device.low <= address && device.high >= address {
          if Wrap32(address + size) > device.high {
            return Spanning;
          }
          assert i == Find(devices, address);
          r := WriteDevice(device.dev, address - device.low, buffer);
          return;
        }
      }
      return MemoryError;
    }

    method Add(low: uint32, high: uint32, memdev: MemoryDevice) returns (ok: bool)
      modifies this
      ensures devices == Added(old(devices), Range(low, high, memdev))
      ensures ok <==> !exists i :: 0 <= i < |old(devices)| && low <= old(devices)[i].low && old(devices)[i].high <= high
      ensures devices == if ok then old(devices) + [Range(low, high, memdev)] else old(devices)
    {
      for i := 0 to |devices|
        invariant forall j :: 0 <= j < i ==> !Contains(Range(low, high, memdev), devices[j])
      {
        var device := devices[i];
        if device.high <= high && device.low >= low {
          assert Contains(Range(low, high, memdev), devices[i]);
          return false;
        }
      }
      devices := devices + [Range(low, high, memdev)];
      return true;
    }

    /** Removes by start address only; the `high` argument is not looked at. */
    method RemoveRange(low: uint32, high: uint32) returns (ok: bool)
      modifies this
      ensures devices == Kept(old(devices), (r: Range<MemoryDevice>) => r.low == low)
      ensures ok <==> devices != old(devices)
    {
      var it, c := 0, 0;
      ghost var seen: seq<Range<MemoryDevice>> := [];
      ghost var drop := (r: Range<MemoryDevice>) => r.low == low;
      while it < |devices|
        invariant it <= |devices| && old(devices) == seen + devices[it..]
        invariant devices[..it] == Kept(seen, drop)
        invariant c + it == |seen| && (c == 0 ==> devices == old(devices))
        decreases |devices| - it
      {
        SweepStep(old(devices), seen, devices, it, drop);
        seen := seen + [devices[it]];
        if devices[it].low == low {
          devices := devices[..it] + devices[it + 1..];
          c := c + 1;
          continue;
        }
        it := it + 1;
      }
      assert seen == old(devices);
      assert devices[..it] == devices;
      return c != 0;
    }

    method RemoveDevice(memdev: MemoryDevice) returns (ok: bool)
      modifies this
      ensures devices == Kept(old(devices), (r: Range<MemoryDevice>) => r.dev == memdev)
      ensures ok <==> devices != old(devices)
    {
      var it, c := 0, 0;
      ghost var seen: seq<Range<MemoryDevice>> := [];
      ghost var drop := (r: Range<MemoryDevice>) => r.dev == memdev;
      while it < |devices|
        invariant it <= |devices| && old(devices) == seen + devices[it..]
        invariant devices[..it] == Kept(seen, drop)
        invariant c + it == |seen| && (c == 0 ==> devices == old(devices))
        decreases |devices| - it
      {
        SweepStep(old(devices), seen, devices, it, drop);
        seen := seen + [devices[it]];
        if devices[it].dev == memdev {
          devices := devices[..it] + devices[it + 1..];
          c := c + 1;
          continue;
        }
        it := it + 1;
      }
      assert seen == old(devices);
      assert devices[..it] == devices;
      return c != 0;
    }

    /** Returns the number of ranges freed; zero is reported as an error by the C++ code. */
    method RangeFree(low: uint32, high: uint32) returns (c: nat)
      modifies this
      ensures devices == Kept(old(devices), (r: Range<MemoryDevice>) => Touches(r, low, high))
      ensures forall r :: r in devices <==> r in old(devices) && !(low <= r.high <= high) && !(low <= r.low <= high)
      ensures c + |devices| == |old(devices)|
    {
      var it := 0;
      c := 0;
      ghost var seen: seq<Range<MemoryDevice>> := [];
      ghost var drop := (r: Range<MemoryDevice>) => Touches(r, low, high);
      while it < |devices|
        invariant it <= |devices| && old(devices) == seen + devices[it..]
        invariant devices[..it] == Kept(seen, drop)
        invariant c + it == |seen| && (c == 0 ==> devices == old(devices))
        decreases |devices| - it
      {
        SweepStep(old(devices), seen, devices, it, drop);
        seen := seen + [devices[it]];
        var d := devices[it];
        if (d.high <= high && d.high >= low) || (d.low <= high && d.low >= low) {
          devices := devices[..it] + devices[it + 1..];
          c := c + 1;
          continue;
        }
        it := it + 1;
      }
      assert seen == old(devices);
      assert devices[..it] == devices;
      forall r
        ensures r in devices <==> r in old(devices) && !drop(r)
      {
        KeptMembers(old(devices), drop, r);
      }
    }
  }
}
