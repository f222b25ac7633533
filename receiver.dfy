/** The receiving side of src/bin/receiver.rs: every datagram updates a
    mirror of the sender's objects, and `update_objs` rebuilds the spatial
    index over the mirror and runs the boid and find passes over it. */
module Receiver {
  import opened RustStd
  import opened Visitor
  import opened Objects
  import opened Wire
  import opened Sender
  import opened SpatialHash
  import opened SortMapProperties

  // ---------------------------------------------------------------------
  // Applying datagrams

  /** Lines 100-127: a control datagram resizes the mirror to the announced
      count, filling new slots with `Object::default()`; a data datagram
      overwrites the slot it addresses when that slot exists and is ignored
      otherwise. */
  function Apply(mirror: seq<Object>, r: Record): (m: seq<Object>)
    ensures r.index == 0 ==> |m| == ControlCount(r)
    ensures r.index != 0 ==> |m| == |mirror|
    ensures forall s :: 0 <= s < |m| ==>
      m[s] == if r.index != 0 && s == DataSlot(r) then r.payload
              else if s < |mirror| then mirror[s]
              else DefaultObject()
  {
    if r.index == 0 then Resized(mirror, ControlCount(r), DefaultObject())
    else if DataSlot(r) < |mirror| then mirror[DataSlot(r) := r.payload]
    else mirror
  }

  /** The mirror after the datagrams `rs`, in order. */
  function ApplyAll(mirror: seq<Object>, rs: seq<Record>): seq<Object>
    decreases |rs|
  {
    if rs == [] then mirror else Apply(ApplyAll(mirror, rs[..|rs| - 1]), rs[|rs| - 1])
  }

  /** A datagram delivered twice has the effect of one. */
  lemma ApplyIdempotent(mirror: seq<Object>, r: Record)
    ensures Apply(Apply(mirror, r), r) == Apply(mirror, r)
  {
  }

  /** Data datagrams for different slots may arrive in either order. */
  lemma ApplyDataCommutes(mirror: seq<Object>, a: Record, b: Record)
    requires a.index != 0 && b.index != 0 && a.index != b.index
    ensures Apply(Apply(mirror, a), b) == Apply(Apply(mirror, b), a)
  {
  }

  lemma {:induction false} ApplyAllAppend(mirror: seq<Object>, a: seq<Record>, b: seq<Record>)
    ensures ApplyAll(mirror, a + b) == ApplyAll(ApplyAll(mirror, a), b)
    decreases |b|
  {
    if b == [] {
      assert a + b == a;
    } else {
      assert (a + b)[..|a + b| - 1] == a + b[..|b| - 1];
      ApplyAllAppend(mirror, a, b[..|b| - 1]);
    }
  }

  /** `mirror` holds `objs` below `w` and `rest` from `w` on. */
  predicate MirrorAfter(mirror: seq<Object>, objs: seq<Object>, rest: seq<Object>, w: nat)
  {
    |mirror| == |objs| == |rest| &&
    forall s :: 0 <= s < |mirror| ==> mirror[s] == if s < w then objs[s] else rest[s]
  }

  /** The data datagrams of the slots `n <= s < e` overwrite exactly those
      slots. */
  lemma {:induction false} ApplyBurst(mirror: seq<Object>, objs: seq<Object>, n: nat, e: nat)
    requires |mirror| == |objs| <= UsizeMax && n <= e <= |objs|
    ensures var m := ApplyAll(mirror, Bursts(objs, n, e));
      |m| == |objs| && forall s :: 0 <= s < |m| ==> m[s] == if n <= s < e then objs[s] else mirror[s]
    decreases e - n
  {
    if e > n {
      var rs := Bursts(objs, n, e);
      assert rs[..|rs| - 1] == Bursts(objs, n, e - 1);
      assert rs[|rs| - 1] == DataRecord(e - 1, objs[e - 1]);
      ApplyBurst(mirror, objs, n, e - 1);
    } else {
      assert Bursts(objs, n, e) == [];
    }
  }

  /** One tick with cursor `n`: the mirror takes the sender's length, the
      slots of the burst take the sender's objects, every other slot keeps
      its old value or the default. */
  lemma ApplyTick(mirror: seq<Object>, objs: seq<Object>, n: nat, burst: nat)
    requires |objs| <= UsizeMax && n <= |objs|
    ensures var m := ApplyAll(mirror, TickRecords(objs, n, burst));
      var e := BurstEnd(n, burst, |objs|);
      |m| == |objs| &&
      forall s :: 0 <= s < |m| ==>
        m[s] == if n <= s < e then objs[s] else Resized(mirror, |objs|, DefaultObject())[s]
  {
    var e := BurstEnd(n, burst, |objs|);
    var control := [ControlRecord(|objs|)];
    assert TickRecords(objs, n, burst) == control + Bursts(objs, n, e);
    ApplyAllAppend(mirror, control, Bursts(objs, n, e));
    assert ApplyAll(mirror, control) == Resized(mirror, |objs|, DefaultObject()) by {
      assert control[..0] == [];
    }
    ApplyBurst(Resized(mirror, |objs|, DefaultObject()), objs, n, e);
  }

  /** A tick from cursor `n` extends a mirror that holds the sender's
      objects below `n` to one that holds them below the end of the burst. */
  lemma TickExtendsMirror(m: seq<Object>, objs: seq<Object>, rest: seq<Object>, n: nat, burst: nat)
    requires |objs| <= UsizeMax && n <= |objs| && MirrorAfter(m, objs, rest, n)
    ensures MirrorAfter(ApplyAll(m, TickRecords(objs, n, burst)), objs, rest, BurstEnd(n, burst, |objs|))
  {
    assert Resized(m, |objs|, DefaultObject()) == m;
    ApplyTick(m, objs, n, burst);
  }

  /** The first tick turns any mirror into one of the sender's length that
      holds the first burst. */
  lemma FirstTickShapesMirror(mirror: seq<Object>, objs: seq<Object>, burst: nat)
    requires |objs| <= UsizeMax
    ensures MirrorAfter(ApplyAll(mirror, TickRecords(objs, 0, burst)), objs,
                        Resized(mirror, |objs|, DefaultObject()), BurstEnd(0, burst, |objs|))
  {
    ApplyTick(mirror, objs, 0, burst);
  }

  /** While the cursor has not wrapped, the first `k` ticks have delivered
      the slots below `k * burst`. */
  lemma {:induction false} MirrorProgress(mirror: seq<Object>, objs: seq<Object>, burst: nat, k: nat)
    requires 0 < burst && |objs| <= UsizeMax && 1 <= k && (k - 1) * burst < |objs|
    ensures MirrorAfter(ApplyAll(mirror, Ticks(objs, burst, 0, k).0), objs,
                        Resized(mirror, |objs|, DefaultObject()), Min(k * burst, |objs|))
  {
    if k == 1 {
      FirstTickProgress(mirror, objs, burst);
    } else {
      assert (k - 2) * burst == (k - 1) * burst - burst;
      MirrorProgress(mirror, objs, burst, k - 1);
      NextTickProgress(mirror, objs, burst, k);
    }
  }

  lemma FirstTickProgress(mirror: seq<Object>, objs: seq<Object>, burst: nat)
    requires |objs| <= UsizeMax
    ensures MirrorAfter(ApplyAll(mirror, Ticks(objs, burst, 0, 1).0), objs,
                        Resized(mirror, |objs|, DefaultObject()), Min(burst, |objs|))
  {
    TicksStep(objs, burst, 1);
    assert Ticks(objs, burst, 0, 1).0 == [] + TickRecords(objs, 0, burst);
    assert [] + TickRecords(objs, 0, burst) == TickRecords(objs, 0, burst);
    FirstTickShapesMirror(mirror, objs, burst);
  }

  lemma NextTickProgress(mirror: seq<Object>, objs: seq<Object>, burst: nat, k: nat)
    requires 0 < burst && |objs| <= UsizeMax && 2 <= k && (k - 1) * burst < |objs|
    requires MirrorAfter(ApplyAll(mirror, Ticks(objs, burst, 0, k - 1).0), objs,
                         Resized(mirror, |objs|, DefaultObject()), Min((k - 1) * burst, |objs|))
    ensures MirrorAfter(ApplyAll(mirror, Ticks(objs, burst, 0, k).0), objs,
                        Resized(mirror, |objs|, DefaultObject()), Min(k * burst, |objs|))
  {
    var w := (k - 1) * burst;
    assert k * burst == w + burst;
    var rest := Resized(mirror, |objs|, DefaultObject());
    var previous := Ticks(objs, burst, 0, k - 1);
    CursorAdvances(objs, burst, k - 1);
    assert previous.1 == w;
    TicksStep(objs, burst, k);
    var tick := TickRecords(objs, w, burst);
    assert Ticks(objs, burst, 0, k).0 == previous.0 + tick;
    ApplyAllAppend(mirror, previous.0, tick);
    assert Min(w, |objs|) == w;
    TickExtendsMirror(ApplyAll(mirror, previous.0), objs, rest, w, burst);
    assert BurstEnd(w, burst, |objs|) == Min(k * burst, |objs|);
  }

  /** The round trip of the whole protocol: from cursor 0, after
      `ceil(N / burst)` ticks every slot has been sent once, the receiver's
      mirror equals the sender's objects whatever it held before, and the
      cursor is back at 0. */
  lemma SenderRebuildsMirror(mirror: seq<Object>, objs: seq<Object>, burst: nat)
    requires 0 < burst && 0 < |objs| <= UsizeMax
    ensures var k := (|objs| + burst - 1) / burst;
      ApplyAll(mirror, Ticks(objs, burst, 0, k).0) == objs && Ticks(objs, burst, 0, k).1 == 0
  {
    var k := TicksToWrap(|objs|, burst);
    MirrorProgress(mirror, objs, burst, k);
    var m := ApplyAll(mirror, Ticks(objs, burst, 0, k).0);
    assert m == objs;
    CursorWraps(objs, burst);
  }

  // ---------------------------------------------------------------------
  // The spatial scan against the brute-force scan

  /** Whatever the scan offers is among what the brute-force loop offers:
      another slot of the table. */
  lemma ScanWithinBruteForce(t: seq<HashEntry>, o: seq<nat>, cells: seq<Cell>, scanCells: seq<Cell>, i: nat)
    requires IsIndexOf(t, cells) && |scanCells| == |cells| && i < |cells|
    ensures forall j :: j in PassNexts(t, o, scanCells, i) ==> j in AllOthers(|cells|)[i]
  {
    forall j | j in PassNexts(t, o, scanCells, i)
      ensures j in Others(i, |cells|)
    {
      ScanOffersOnlyBlockBuckets(t, o, cells, scanCells, i, j);
    }
  }

  /** Directly after `update`, the scan and the brute-force loop agree on the
      neighbours: a slot whose cell is in the 3×3 block around slot `i`'s
      cell is offered by one exactly when it is offered by the other. */
  lemma ScanAgreesOnNeighbours(t: seq<HashEntry>, o: seq<nat>, cells: seq<Cell>, i: nat)
    requires IsIndexOf(t, cells) && RunStartsRecorded(o, t) && |o| == |cells| <= UsizeMax
    requires i < |cells|
    ensures forall j: nat :: j < |cells| && Adjacent(cells[i], cells[j]) ==>
      (j in PassNexts(t, o, cells, i) <==> j in AllOthers(|cells|)[i])
  {
    forall j: nat | j < |cells| && Adjacent(cells[i], cells[j])
      ensures j in PassNexts(t, o, cells, i) <==> j in Others(i, |cells|)
    {
      if j in PassNexts(t, o, cells, i) {
        ScanOffersOnlyBlockBuckets(t, o, cells, cells, i, j);
      }
      if j != i {
        ScanMissesNoNeighbour(t, o, cells, i, j);
      }
    }
  }

  // ---------------------------------------------------------------------
  // The receiver's state

  class Receiver {
    /** The mirror of the sender's objects (`Shared::objs`). */
    var objs: seq<Object>
    var sortMap: SortMap
    var findResult: seq<nat>
    var selected: Option<nat>
    var useSortMap: bool

    ghost predicate Valid()
      reads this, sortMap
    {
      sortMap.Valid() && sortMap.hashTable.Length == |objs|
    }

    /** Lines 55-64: no objects, an empty index, nothing found. */
    constructor ()
      ensures Valid() && fresh(sortMap)
      ensures objs == [] && findResult == [] && selected == None && useSortMap
    {
      objs := [];
      sortMap := new SortMap(0);
      findResult := [];
      selected := None;
      useSortMap := true;
    }

    /** One iteration of `receiver_thread` (lines 96-127). A control
        datagram resizes the mirror and the index; a data datagram touches
        the mirror only. */
    method Receive(r: Record)
      requires Valid()
      modifies this, sortMap
      ensures Valid() && objs == Apply(old(objs), r)
      ensures sortMap == old(sortMap) && findResult == old(findResult)
      ensures selected == old(selected) && useSortMap == old(useSortMap)
      ensures r.index == 0 ==>
        sortMap.hashTable[..] == Resized(old(sortMap.hashTable[..]), ControlCount(r), DefaultEntry) &&
        sortMap.startOffsets[..] == Resized(old(sortMap.startOffsets[..]), ControlCount(r), UsizeMax as nat)
      ensures r.index != 0 ==> unchanged(sortMap)
    {
      if r.index == 0 {
        var count := ControlCount(r);
        objs := Resized(objs, count, DefaultObject());
        sortMap.Resize(count);
        return;
      }
      if r.index - 1 < |objs| {
        objs := objs[r.index - 1 := r.payload];
      }
    }

    /** `update_objs` (lines 140-168). `cells` are the grid cells of the
        objects when the index is rebuilt; `movedCells` those after the boid
        pass, which the find pass sees. The result is the calls the boid
        pass receives. */
    method UpdateObjs(cells: seq<Cell>, movedCells: seq<Cell>) returns (boidTrace: seq<Event>)
      requires Valid() && |cells| == |movedCells| == |objs|
      modifies this, sortMap.hashTable, sortMap.startOffsets
      ensures Valid() && objs == old(objs) && sortMap == old(sortMap)
      ensures selected == old(selected) && useSortMap == old(useSortMap)
      ensures sortMap.hashTable == old(sortMap.hashTable) && sortMap.startOffsets == old(sortMap.startOffsets)
      ensures useSortMap ==>
        var t, o := sortMap.hashTable[..], sortMap.startOffsets[..];
        IsIndexOf(t, cells) && OffsetsUpdated(old(sortMap.startOffsets[..]), o, t) &&
        boidTrace == Protocol(ScanNexts(t, o, cells)) &&
        findResult == Selected(selected, ScanNexts(t, o, movedCells))
      ensures !useSortMap ==>
        boidTrace == Protocol(AllOthers(|objs|)) && findResult == old(findResult) &&
        unchanged(sortMap.hashTable) && unchanged(sortMap.startOffsets)
    {
      if useSortMap {
        boidTrace, findResult := IndexedPasses(sortMap, cells, movedCells, selected);
      } else {
        boidTrace := BruteForceScan(|objs|);
      }
    }
  }

  // ---------------------------------------------------------------------
  // A shrinking resize followed by a scan

  /** After `update` over four slots of which only the last lies in bucket
      1, the run of bucket 1 starts at index 3. */
  lemma LastSlotRunStart(t: seq<HashEntry>, o: seq<nat>)
    requires IsIndexOf(t, [Cell(0, 0), Cell(0, 0), Cell(0, 0), Cell(1, 0)])
    requires RunStartsRecorded(o, t) && |o| == 4
    ensures o[1] == 3
  {
    var cells := [Cell(0, 0), Cell(0, 0), Cell(0, 0), Cell(1, 0)];
    assert Hash(Cell(0, 0), 4) == 0 && Hash(Cell(1, 0), 4) == 1;
    var k3 := SlotPosition(t, cells, 3);
    assert Occurs(t, 1);
    assert IsRunStart(t, 1, o[1]);
    EntryOfIndex(t, cells, t[o[1]]);
    var k0 := SlotPosition(t, cells, 0);
    var k1 := SlotPosition(t, cells, 1);
    var k2 := SlotPosition(t, cells, 2);
    assert k0 < o[1] && k1 < o[1] && k2 < o[1];
  }

  /** Two slots in one cell of a two-slot table leave bucket 1 empty. */
  lemma PairLeavesBucketOneEmpty(t: seq<HashEntry>)
    requires IsIndexOf(t, [Cell(0, 0), Cell(0, 0)])
    ensures !Occurs(t, 1)
  {
    var cells := [Cell(0, 0), Cell(0, 0)];
    assert Hash(Cell(0, 0), 2) == 0;
    if Occurs(t, 1) {
      var k :| 0 <= k < |t| && t[k].cellHash == 1;
      EntryOfIndex(t, cells, t[k]);
    }
  }

  /** The receiver shrinks from four objects to two (lines 103-113), then
      `update_objs` rebuilds the index. Bucket 1 keeps the stale offset 3,
      and the scan of slot 0 reaches cells of its block whose bucket is 1:
      `(0, -1)` is the first in scan order and `(1, 0)` is another; for
      either, `&self.hash_table[3..]` on a table of length 2 is out of
      bounds. */
  method ShrinkThenScanAsWritten() returns (panics: bool)
    ensures panics
  {
    var m := new SortMap(4);
    m.Update([Cell(0, 0), Cell(0, 0), Cell(0, 0), Cell(1, 0)]);
    LastSlotRunStart(m.hashTable[..], m.startOffsets[..]);
    m.Resize(2);
    var after := [Cell(0, 0), Cell(0, 0)];
    m.Update(after);
    PairLeavesBucketOneEmpty(m.hashTable[..]);
    assert m.startOffsets[1] == 3;
    HashIsRemainder(Cell(0, -1), 2);
    assert Hash(Cell(0, -1), 2) == 1;
    assert Adjacent(after[0], Cell(1, 0)) && Hash(Cell(1, 0), 2) == 1;
    panics := CellNextsAsWritten(m.hashTable[..], m.startOffsets[..], 0, Cell(1, 0), 2).None?;
  }

  /** The same sequence of calls with an offset past the end treated as an
      absent bucket: the stale offset contributes nothing and the pass of
      slot 0 still offers slot 1, which shares its cell. */
  method ShrinkThenScanCorrected() returns (candidates: seq<nat>)
    ensures 1 in candidates
  {
    var m := new SortMap(4);
    m.Update([Cell(0, 0), Cell(0, 0), Cell(0, 0), Cell(1, 0)]);
    m.Resize(2);
    var after := [Cell(0, 0), Cell(0, 0)];
    m.Update(after);
    var t, o := m.hashTable[..], m.startOffsets[..];
    candidates := SlotCandidates(t, o, after, 0);
    ScanMissesNoNeighbour(t, o, after, 0, 1);
  }
}
