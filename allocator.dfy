/** The partition allocator `createPartition` (main.go:292-345). */
module Allocator {
  import opened Bytes
  import opened Int64
  import opened Outcomes
  import opened Layout
  import opened Units

  predicate Occupied(p: Partition)
  {
    p.status != 0
  }

  /** The request size in bytes (main.go:293-303); "B" is accepted here, unlike on MKDISK. */
  function RequestBytes(size: int64, unit: seq<byte>): (r: Result<int64>)
    ensures r.Err? <==> unit != UNIT_B && unit != UNIT_K && unit != UNIT_M
    ensures r.Err? ==> r.error == InvalidUnit
    ensures unit == UNIT_B ==> r == Ok(size)
    ensures unit == UNIT_K ==> r == Ok(Wrap(size as int * 1024))
    ensures unit == UNIT_M ==> r == Ok(Wrap(size as int * 1048576))
  {
    assert UNIT_B[0] == 66 && UNIT_K[0] == 75 && UNIT_M[0] == 77;
    if unit == UNIT_B then Ok(size)
    else if unit == UNIT_K then Ok(Wrap(size as int * 1024))
    else if unit == UNIT_M then
      WrapMul(size as int * 1024, 1024);
      assert size as int * 1024 * 1024 == size as int * 1048576;
      Ok(Wrap(Wrap(size as int * 1024) * 1024))
    else Err(InvalidUnit)
  }

  /** The lowest-index free slot of `t`, or -1 when every slot is occupied. */
  function FirstFree(t: seq<Partition>): (r: int)
    ensures -1 <= r < |t|
    ensures r == -1 <==> forall i :: 0 <= i < |t| ==> Occupied(t[i])
    ensures r >= 0 ==> !Occupied(t[r]) && forall i :: 0 <= i < r ==> Occupied(t[i])
  {
    if t == [] then -1
    else
      var k := FirstFree(t[..|t| - 1]);
      assert forall i :: 0 <= i < |t| - 1 ==> t[..|t| - 1][i] == t[i];
      if k >= 0 then k
      else if !Occupied(t[|t| - 1]) then |t| - 1
      else -1
  }

  /** The two postconditions of FirstFree determine its result. */
  lemma FirstFreeUnique(t: seq<Partition>, k: int)
    requires -1 <= k < |t|
    requires k == -1 ==> forall i :: 0 <= i < |t| ==> Occupied(t[i])
    requires k >= 0 ==> !Occupied(t[k]) && forall i :: 0 <= i < k ==> Occupied(t[i])
    ensures FirstFree(t) == k
  {
  }

  /** Some occupied slot's raw 16-byte name field equals `name` (main.go:312). */
  predicate NameTaken(t: seq<Partition>, name: seq<byte>)
  {
    exists i :: 0 <= i < |t| && Occupied(t[i]) && t[i].name == name
  }

  /** The exact (unbounded) sum of the sizes of the occupied slots. */
  function UsedSpace(t: seq<Partition>): int
  {
    if t == [] then 0
    else UsedSpace(t[..|t| - 1]) + (if Occupied(t[|t| - 1]) then t[|t| - 1].size else 0)
  }

  function OccupiedCount(t: seq<Partition>): nat
  {
    if t == [] then 0
    else OccupiedCount(t[..|t| - 1]) + (if Occupied(t[|t| - 1]) then 1 else 0)
  }

  /** The entry `createPartition` writes for a request of `bytes` bytes when the occupied
      slots already hold `used` bytes (main.go:333-341). */
  function NewEntry(used: int, bytes: int64, name: seq<byte>): Partition
  {
    Partition(1, 0, 0, Wrap(used + 1), bytes, CopyPadded(name, NAME_LEN))
  }

  /** What `createPartition` does to a record: the updated record, or the error it
      returns, checked in the source's order (unit, duplicate name, free slot, space). */
  function Allocation(m: Mbr, size: int64, unit: seq<byte>, name: seq<byte>): (r: Result<Mbr>)
    ensures RequestBytes(size, unit).Err? ==> r == Err(InvalidUnit)
    ensures RequestBytes(size, unit).Ok? && NameTaken(m.partitions, name) ==> r == Err(DuplicateName)
    ensures (RequestBytes(size, unit).Ok? && !NameTaken(m.partitions, name)
             && forall k :: 0 <= k < SLOTS ==> Occupied(m.partitions[k]))
            ==> r == Err(NoFreeSlot)
    ensures (RequestBytes(size, unit).Ok? && !NameTaken(m.partitions, name)
             && exists k :: 0 <= k < SLOTS && !Occupied(m.partitions[k]))
            ==> (r.Ok? <==> Wrap(UsedSpace(m.partitions) + RequestBytes(size, unit).value) <= m.tamano)
                && (r.Err? ==> r.error == NoSpace)
    ensures r.Ok? ==>
              var k := FirstFree(m.partitions);
              && 0 <= k < SLOTS && !Occupied(m.partitions[k])
              && (forall j :: 0 <= j < k ==> Occupied(m.partitions[j]))
              && r.value.partitions[k] == NewEntry(UsedSpace(m.partitions), RequestBytes(size, unit).value, name)
              && (forall j :: 0 <= j < SLOTS && j != k ==> r.value.partitions[j] == m.partitions[j])
              && r.value.tamano == m.tamano && r.value.date == m.date && r.value.signature == m.signature
  {
    match RequestBytes(size, unit)
    case Err(e) => Err(e)
    case Ok(bytes) =>
      if NameTaken(m.partitions, name) then Err(DuplicateName)
      else
        var k := FirstFree(m.partitions);
        if k < 0 then Err(NoFreeSlot)
        else
          var used := UsedSpace(m.partitions);
          if Wrap(used + bytes) > m.tamano then Err(NoSpace)
          else Ok(m.(partitions := m.partitions[k := NewEntry(used, bytes, name)]))
  }

  /** Go's `*MBR`: the caller's record, which `createPartition` updates through the pointer. */
  class MbrRef {
    var value: Mbr

    constructor (m: Mbr)
      ensures value == m
    {
      value := m;
    }
  }

  /** `createPartition`. `letter` is accepted and not used, as in the source. */
  method CreatePartition(mbr: MbrRef, size: int64, unit: seq<byte>, letter: seq<byte>, name: seq<byte>)
    returns (err: Option<Error>)
    modifies mbr
    ensures var r := Allocation(old(mbr.value), size, unit, name);
      && (r.Ok? ==> err == None && mbr.value == r.value)
      && (r.Err? ==> err == Some(r.error) && mbr.value == old(mbr.value))
  {
    var bytes := RequestBytes(size, unit);
    if bytes.Err? {
      return Some(bytes.error);
    }
    var sizeInBytes := bytes.value;

    var t := mbr.value.partitions;
    var partitionIndex, duplicate := ScanSlots(t, name);
    if duplicate {
      return Some(DuplicateName);
    }
    if partitionIndex == -1 {
      return Some(NoFreeSlot);
    }
    var totalUsedSpace := UsedSpaceOf(t);
    WrapAdd(UsedSpace(t), sizeInBytes);
    if Wrap(totalUsedSpace as int + sizeInBytes as int) > mbr.value.tamano {
      return Some(NoSpace);
    }

    WrapAdd(UsedSpace(t), 1);
    var newPartition := Partition(1, 0, 0, Wrap(totalUsedSpace as int + 1), sizeInBytes, CopyPadded(name, NAME_LEN));
    assert newPartition == NewEntry(UsedSpace(t), sizeInBytes, name);
    mbr.value := mbr.value.(partitions := t[partitionIndex := newPartition]);
    err := None;
  }

  /** The slot scan of `createPartition` (main.go:306-315): the first free slot, and
      whether an occupied slot already has the name, in which case the scan stops. */
  method ScanSlots(t: seq<Partition>, name: seq<byte>) returns (partitionIndex: int, duplicate: bool)
    ensures duplicate == NameTaken(t, name)
    ensures !duplicate ==> partitionIndex == FirstFree(t)
  {
    partitionIndex := -1;
    var i := 0;
    while i < |t|
      invariant 0 <= i <= |t|
      invariant -1 <= partitionIndex < i
      invariant partitionIndex == -1 ==> forall j :: 0 <= j < i ==> Occupied(t[j])
      invariant partitionIndex >= 0 ==>
                  !Occupied(t[partitionIndex]) && forall j :: 0 <= j < partitionIndex ==> Occupied(t[j])
      invariant forall j :: 0 <= j < i && Occupied(t[j]) ==> t[j].name != name
    {
      if t[i].status == 0 {
        if partitionIndex == -1 {
          partitionIndex := i;
        }
      } else if t[i].name == name {
        assert Occupied(t[i]);
        return partitionIndex, true;
      }
      i := i + 1;
    }
    FirstFreeUnique(t, partitionIndex);
    duplicate := false;
  }

  /** The `totalUsedSpace` loop of `createPartition` (main.go:322-327): the sizes of the
      occupied slots added up in int64, wrapping on overflow. */
  method UsedSpaceOf(t: seq<Partition>) returns (totalUsedSpace: int64)
    ensures totalUsedSpace == Wrap(UsedSpace(t))
  {
    totalUsedSpace := 0;
    var i := 0;
    while i < |t|
      invariant 0 <= i <= |t|
      invariant totalUsedSpace == Wrap(UsedSpace(t[..i]))
    {
      assert t[..i + 1][..i] == t[..i];
      if t[i].status != 0 {
        WrapAdd(UsedSpace(t[..i]), t[i].size);
        totalUsedSpace := Wrap(totalUsedSpace as int + t[i].size as int);
      }
      i := i + 1;
    }
    assert t[..|t|] == t;
  }

  function Contribution(p: Partition): int
  {
    if Occupied(p) then p.size else 0
  }

  lemma UsedSpaceOfFour(t: Table)
    ensures UsedSpace(t) == Contribution(t[0]) + Contribution(t[1]) + Contribution(t[2]) + Contribution(t[3])
  {
    assert UsedSpace(t[..1]) == Contribution(t[0]) by {
      assert t[..1][..0] == [];
    }
    assert UsedSpace(t[..2]) == UsedSpace(t[..1]) + Contribution(t[1]) by {
      assert t[..2][..1] == t[..1];
    }
    assert UsedSpace(t[..3]) == UsedSpace(t[..2]) + Contribution(t[2]) by {
      assert t[..3][..2] == t[..2];
    }
    assert UsedSpace(t) == UsedSpace(t[..3]) + Contribution(t[3]);
  }

  /** Replacing one slot changes the used space by the difference of the two slots' sizes. */
  lemma {:induction false} UsedSpaceUpdate(t: seq<Partition>, k: nat, p: Partition)
    requires k < |t|
    ensures UsedSpace(t[k := p]) == UsedSpace(t) - Contribution(t[k]) + Contribution(p)
  {
    var n := |t| - 1;
    var u := t[k := p];
    if k == n {
      assert u[..n] == t[..n];
    } else {
      assert u[..n] == t[..n][k := p];
      UsedSpaceUpdate(t[..n], k, p);
    }
  }

  /** Replacing one slot changes the number of occupied slots by the difference. */
  lemma {:induction false} OccupiedCountUpdate(t: seq<Partition>, k: nat, p: Partition)
    requires k < |t|
    ensures OccupiedCount(t[k := p]) == OccupiedCount(t) - (if Occupied(t[k]) then 1 else 0)
                                        + (if Occupied(p) then 1 else 0)
  {
    var n := |t| - 1;
    var u := t[k := p];
    if k == n {
      assert u[..n] == t[..n];
    } else {
      assert u[..n] == t[..n][k := p];
      OccupiedCountUpdate(t[..n], k, p);
    }
  }

  /** A table whose every slot is counted as occupied has no free slot. */
  lemma {:induction false} FullCountMeansNoFreeSlot(t: seq<Partition>)
    requires OccupiedCount(t) == |t|
    ensures forall i :: 0 <= i < |t| ==> Occupied(t[i])
  {
    if t != [] {
      var n := |t| - 1;
      OccupiedCountBound(t[..n]);
      FullCountMeansNoFreeSlot(t[..n]);
      assert forall i :: 0 <= i < n ==> t[..n][i] == t[i];
    }
  }

  lemma {:induction false} OccupiedCountBound(t: seq<Partition>)
    ensures OccupiedCount(t) <= |t|
  {
    if t != [] {
      OccupiedCountBound(t[..|t| - 1]);
    }
  }

  /** A successful call occupies exactly one more slot and adds exactly the requested
      bytes to the (exact) used space; the int64 total the source computes for the new
      table never exceeds the disk size. */
  lemma AllocationAccounting(m: Mbr, size: int64, unit: seq<byte>, name: seq<byte>)
    requires Allocation(m, size, unit, name).Ok?
    ensures var t, t' := m.partitions, Allocation(m, size, unit, name).value.partitions;
      && OccupiedCount(t') == OccupiedCount(t) + 1
      && UsedSpace(t') == UsedSpace(t) + RequestBytes(size, unit).value
      && Wrap(UsedSpace(t')) <= m.tamano
  {
    var t := m.partitions;
    var k := FirstFree(t);
    var e := NewEntry(UsedSpace(t), RequestBytes(size, unit).value, name);
    assert Allocation(m, size, unit, name).value.partitions == t[k := e];
    UsedSpaceUpdate(t, k, e);
    OccupiedCountUpdate(t, k, e);
  }

  /** The space invariant: occupied slots have non-negative sizes that add up to at most
      the disk size. */
  ghost predicate WithinCapacity(m: Mbr)
  {
    && (forall k :: 0 <= k < SLOTS && Occupied(m.partitions[k]) ==> m.partitions[k].size >= 0)
    && 0 <= UsedSpace(m.partitions) <= m.tamano
  }

  /** A successful request of a non-negative size keeps the space invariant, provided the
      source's int64 sum `used + bytes` does not overflow. */
  lemma AllocationKeepsCapacity(m: Mbr, size: int64, unit: seq<byte>, name: seq<byte>)
    requires WithinCapacity(m)
    requires Allocation(m, size, unit, name).Ok?
    requires RequestBytes(size, unit).value >= 0
    requires UsedSpace(m.partitions) + RequestBytes(size, unit).value < TWO_63
    ensures WithinCapacity(Allocation(m, size, unit, name).value)
  {
    AllocationAccounting(m, size, unit, name);
  }

  /** Without that proviso the invariant breaks: 500 bytes used on a 1000-byte disk, and a
      request of 2^63 - 1 bytes wraps the sum negative, passes the space check and is placed. */
  lemma OverflowAdmitsOversizedPartition()
    ensures var m := Mbr(1000, Zeros(DATE_LEN), 0,
                         [Partition(1, 0, 0, 1, 500, Zeros(NAME_LEN)), FreeSlot, FreeSlot, FreeSlot]);
      && WithinCapacity(m)
      && var r := Allocation(m, TWO_63 - 1, UNIT_B, Str("big"));
         && r.Ok?
         && r.value.partitions[1].size == TWO_63 - 1
         && !WithinCapacity(r.value)
  {
    var m := Mbr(1000, Zeros(DATE_LEN), 0,
                 [Partition(1, 0, 0, 1, 500, Zeros(NAME_LEN)), FreeSlot, FreeSlot, FreeSlot]);
    var t := m.partitions;
    UsedSpaceOfFour(t);
    assert !NameTaken(t, Str("big")) by {
      ShortNameNeverTaken(t, Str("big"));
    }
    assert FirstFree(t) == 1 by {
      assert Occupied(t[0]) && !Occupied(t[1]);
    }
    assert Wrap(500 + TWO_63 - 1) == 499 - TWO_63;
    AllocationAccounting(m, TWO_63 - 1, UNIT_B, Str("big"));
  }

  /** The unit product wraps too: 2^53 K is 2^63 bytes, which wraps to -2^63, and on an
      empty 1000-byte disk that negative count passes the space check and is placed. */
  lemma WrappedRequestAccepted()
    ensures RequestBytes(TWO_63 / 1024, UNIT_K) == Ok(-TWO_63)
    ensures var m := Mbr(1000, Zeros(DATE_LEN), 0, [FreeSlot, FreeSlot, FreeSlot, FreeSlot]);
      var r := Allocation(m, TWO_63 / 1024, UNIT_K, Str("neg"));
      && r.Ok?
      && r.value.partitions[0].size == -TWO_63
      && r.value.partitions[0].start == 1
  {
    var m := Mbr(1000, Zeros(DATE_LEN), 0, [FreeSlot, FreeSlot, FreeSlot, FreeSlot]);
    var t := m.partitions;
    assert (TWO_63 / 1024) * 1024 == TWO_63;
    assert Wrap(TWO_63) == -TWO_63;
    UsedSpaceOfFour(t);
    ShortNameNeverTaken(t, Str("neg"));
    FirstFreeUnique(t, 0);
    assert Wrap(0 + -TWO_63) == -TWO_63;
  }

  /** Names are compared as raw 16-byte fields, so a name of any other length never matches
      an occupied slot: the duplicate check only catches names of exactly 16 bytes. */
  lemma ShortNameNeverTaken(t: seq<Partition>, name: seq<byte>)
    requires |name| != NAME_LEN
    ensures !NameTaken(t, name)
  {
  }

  /** After a successful call, a request for the same name is refused exactly when the name
      is 16 bytes long (the stored field is then the name itself). */
  lemma RepeatedName(m: Mbr, size: int64, unit: seq<byte>, name: seq<byte>, size2: int64, unit2: seq<byte>)
    requires Allocation(m, size, unit, name).Ok?
    requires RequestBytes(size2, unit2).Ok?
    ensures var m' := Allocation(m, size, unit, name).value;
      (Allocation(m', size2, unit2, name) == Err(DuplicateName)) <==> |name| == NAME_LEN
  {
    var m' := Allocation(m, size, unit, name).value;
    var k := FirstFree(m.partitions);
    if |name| == NAME_LEN {
      assert CopyPadded(name, NAME_LEN) == name;
      assert Occupied(m'.partitions[k]) && m'.partitions[k].name == name;
    } else {
      ShortNameNeverTaken(m'.partitions, name);
    }
  }

  /** Once four slots are occupied, every further request with a valid unit and an unused
      name is refused for want of a slot, whatever its size. */
  lemma FifthPartitionRefused(m: Mbr, size: int64, unit: seq<byte>, name: seq<byte>)
    requires OccupiedCount(m.partitions) == SLOTS
    requires RequestBytes(size, unit).Ok? && !NameTaken(m.partitions, name)
    ensures Allocation(m, size, unit, name) == Err(NoFreeSlot)
  {
    FullCountMeansNoFreeSlot(m.partitions);
  }

  /** Four successful calls on a table with no occupied slot fill it. */
  lemma FourAllocationsFillTheTable(m0: Mbr, sizes: seq<int64>, units: seq<seq<byte>>, names: seq<seq<byte>>)
    requires OccupiedCount(m0.partitions) == 0
    requires |sizes| == |units| == |names| == SLOTS
    requires Allocation(m0, sizes[0], units[0], names[0]).Ok?
    requires Allocation(Allocation(m0, sizes[0], units[0], names[0]).value, sizes[1], units[1], names[1]).Ok?
    requires Allocation(Allocation(Allocation(m0, sizes[0], units[0], names[0]).value,
                                   sizes[1], units[1], names[1]).value, sizes[2], units[2], names[2]).Ok?
    requires Allocation(Allocation(Allocation(Allocation(m0, sizes[0], units[0], names[0]).value,
                                   sizes[1], units[1], names[1]).value, sizes[2], units[2], names[2]).value,
                        sizes[3], units[3], names[3]).Ok?
    ensures var m4 := Allocation(Allocation(Allocation(Allocation(m0, sizes[0], units[0], names[0]).value,
                                   sizes[1], units[1], names[1]).value, sizes[2], units[2], names[2]).value,
                                 sizes[3], units[3], names[3]).value;
      forall k :: 0 <= k < SLOTS ==> Occupied(m4.partitions[k])
  {
    var m1 := Allocation(m0, sizes[0], units[0], names[0]).value;
    var m2 := Allocation(m1, sizes[1], units[1], names[1]).value;
    var m3 := Allocation(m2, sizes[2], units[2], names[2]).value;
    var m4 := Allocation(m3, sizes[3], units[3], names[3]).value;
    AllocationAccounting(m0, sizes[0], units[0], names[0]);
    AllocationAccounting(m1, sizes[1], units[1], names[1]);
    AllocationAccounting(m2, sizes[2], units[2], names[2]);
    AllocationAccounting(m3, sizes[3], units[3], names[3]);
    FullCountMeansNoFreeSlot(m4.partitions);
  }

  /** Start offsets follow the bytes already used: on a 1024-byte disk a 600-byte partition
      starts at 1, a further 500 bytes do not fit, and 400 bytes start at 601. */
  lemma SpaceAccountingExample()
    ensures var m0 := Mbr(1024, Zeros(DATE_LEN), 0, [FreeSlot, FreeSlot, FreeSlot, FreeSlot]);
      && Allocation(m0, 600, UNIT_B, Str("uno")).Ok?
      && var m1 := Allocation(m0, 600, UNIT_B, Str("uno")).value;
         && m1.partitions[0].start == 1
         && Allocation(m1, 500, UNIT_B, Str("dos")) == Err(NoSpace)
         && Allocation(m1, 400, UNIT_B, Str("dos")).Ok?
         && Allocation(m1, 400, UNIT_B, Str("dos")).value.partitions[1].start == 601
  {
    var m0 := Mbr(1024, Zeros(DATE_LEN), 0, [FreeSlot, FreeSlot, FreeSlot, FreeSlot]);
    var t0 := m0.partitions;
    UsedSpaceOfFour(t0);
    ShortNameNeverTaken(t0, Str("uno"));
    assert FirstFree(t0) == 0 by {
      assert !Occupied(t0[0]);
    }
    var m1 := Allocation(m0, 600, UNIT_B, Str("uno")).value;
    AllocationAccounting(m0, 600, UNIT_B, Str("uno"));
    ShortNameNeverTaken(m1.partitions, Str("dos"));
    var t1 := m1.partitions;
    assert FirstFree(t1) == 1 by {
      assert Occupied(t1[0]) && !Occupied(t1[1]);
    }
  }
}
