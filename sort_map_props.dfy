/** What `SortMap::update` and `SortMap::scan` guarantee together: the table
    is a permutation of the slots, a scan offers only slots from buckets of
    the neighbouring cells, it misses no neighbour, and offsets left over for
    absent buckets play no part. */
module SortMapProperties {
  import opened RustStd
  import opened SpatialHash

  // ---------------------------------------------------------------------
  // The table after `update`

  lemma EntryOfIndex(t: seq<HashEntry>, cells: seq<Cell>, e: HashEntry)
    requires IsIndexOf(t, cells) && e in t
    ensures e.particleIdx < |cells| && e.cellHash == Hash(cells[e.particleIdx], |cells|)
  {
    assert e in multiset(SlotEntries(cells));
    var k :| 0 <= k < |cells| && SlotEntries(cells)[k] == e;
  }

  lemma SlotInIndex(t: seq<HashEntry>, cells: seq<Cell>, p: nat)
    requires IsIndexOf(t, cells) && p < |cells|
    ensures HashEntry(p, Hash(cells[p], |cells|)) in t
  {
    assert SlotEntries(cells)[p] == HashEntry(p, Hash(cells[p], |cells|));
    assert HashEntry(p, Hash(cells[p], |cells|)) in multiset(t);
  }

  /** The position of slot `p`'s entry in the table. */
  lemma SlotPosition(t: seq<HashEntry>, cells: seq<Cell>, p: nat) returns (k: nat)
    requires IsIndexOf(t, cells) && p < |cells|
    ensures |t| == |cells| && k < |t| && t[k] == HashEntry(p, Hash(cells[p], |cells|))
  {
    assert |t| == |multiset(t)| == |multiset(SlotEntries(cells))| == |cells|;
    SlotInIndex(t, cells, p);
    k :| 0 <= k < |t| && t[k] == HashEntry(p, Hash(cells[p], |cells|));
  }

  lemma RepeatedCountsTwice(t: seq<HashEntry>, k1: nat, k2: nat)
    requires k1 < k2 < |t| && t[k1] == t[k2]
    ensures multiset(t)[t[k1]] >= 2
  {
    var e := t[k1];
    assert t == t[..k1] + [e] + t[k1 + 1..k2] + [e] + t[k2 + 1..];
  }

  lemma {:induction false} DistinctCountsOnce(s: seq<HashEntry>, e: HashEntry)
    requires forall p, q :: 0 <= p < q < |s| ==> s[p] != s[q]
    ensures multiset(s)[e] <= 1
    decreases |s|
  {
    if s != [] {
      var n := |s| - 1;
      assert s == s[..n] + [s[n]];
      DistinctCountsOnce(s[..n], e);
      if e == s[n] {
        assert e !in s[..n];
      }
    }
  }

  /** After `update`, every entry holds a slot and the bucket of that slot's
      cell, and every slot appears in exactly one entry. */
  lemma UpdatedTableIsPermutation(t: seq<HashEntry>, cells: seq<Cell>)
    requires IsIndexOf(t, cells)
    ensures |t| == |cells|
    ensures forall k :: 0 <= k < |t| ==>
              t[k].particleIdx < |cells| && t[k].cellHash == Hash(cells[t[k].particleIdx], |cells|)
    ensures forall p :: 0 <= p < |cells| ==> HashEntry(p, Hash(cells[p], |cells|)) in t
    ensures forall k1, k2 :: 0 <= k1 < |t| && 0 <= k2 < |t| && t[k1].particleIdx == t[k2].particleIdx ==> k1 == k2
  {
    assert |t| == |multiset(t)| == |multiset(SlotEntries(cells))| == |cells|;
    forall k | 0 <= k < |t|
      ensures t[k].particleIdx < |cells| && t[k].cellHash == Hash(cells[t[k].particleIdx], |cells|)
    {
      EntryOfIndex(t, cells, t[k]);
    }
    forall p | 0 <= p < |cells|
      ensures HashEntry(p, Hash(cells[p], |cells|)) in t
    {
      SlotInIndex(t, cells, p);
    }
    forall k1, k2 | 0 <= k1 < |t| && 0 <= k2 < |t| && t[k1].particleIdx == t[k2].particleIdx
      ensures k1 == k2
    {
      if k1 != k2 {
        EntryOfIndex(t, cells, t[k1]);
        EntryOfIndex(t, cells, t[k2]);
        var lo, hi := if k1 < k2 then k1 else k2, if k1 < k2 then k2 else k1;
        RepeatedCountsTwice(t, lo, hi);
        DistinctCountsOnce(SlotEntries(cells), t[lo]);
        assert false;
      }
    }
  }

  // ---------------------------------------------------------------------
  // Rows and blocks, for any per-cell lookup

  /** A row offers only what one of its cells offers; the lemma names the
      cell. */
  lemma {:induction false} RowOffersOnlyItsCells(f: Cell -> seq<nat>, x0: int, cx: int, cy: int, j: nat)
    returns (x: int)
    requires x0 <= cx && j in RowNexts(f, x0, cx, cy)
    ensures x0 <= x < cx && j in f(Cell(x, cy))
    decreases cx - x0
  {
    if j in RowNexts(f, x0, cx - 1, cy) {
      x := RowOffersOnlyItsCells(f, x0, cx - 1, cy, j);
    } else {
      x := cx - 1;
    }
  }

  /** The block around `c` offers only what one of its nine cells offers;
      the lemma names the cell. */
  lemma {:induction false} BlockOffersOnlyItsCells(f: Cell -> seq<nat>, c: Cell, cy: int, j: nat)
    returns (d: Cell)
    requires c.y - 1 <= cy <= c.y + 2 && j in BlockNexts(f, c, cy)
    ensures Adjacent(c, d) && d.y < cy && j in f(d)
    decreases cy - c.y
  {
    if j in BlockNexts(f, c, cy - 1) {
      d := BlockOffersOnlyItsCells(f, c, cy - 1, j);
    } else {
      var x := RowOffersOnlyItsCells(f, c.x - 1, c.x + 2, cy - 1, j);
      d := Cell(x, cy - 1);
    }
  }

  /** Whatever a cell of a row offers, the row offers. */
  lemma {:induction false} RowContains(f: Cell -> seq<nat>, x0: int, cx: int, cy: int, x: int, j: nat)
    requires x0 <= x < cx && j in f(Cell(x, cy))
    ensures j in RowNexts(f, x0, cx, cy)
    decreases cx - x0
  {
    if x < cx - 1 {
      RowContains(f, x0, cx - 1, cy, x, j);
    }
  }

  /** Whatever a cell of the block around `c` offers, the block offers. */
  lemma {:induction false} BlockContains(f: Cell -> seq<nat>, c: Cell, cy: int, d: Cell, j: nat)
    requires c.y - 1 <= cy <= c.y + 2 && Adjacent(c, d) && d.y < cy && j in f(d)
    ensures j in BlockNexts(f, c, cy)
    decreases cy - c.y
  {
    if d.y < cy - 1 {
      BlockContains(f, c, cy - 1, d, j);
    } else {
      RowContains(f, c.x - 1, c.x + 2, cy - 1, d.x, j);
    }
  }

  /** Lookups that agree on every cell of a row give the same row. */
  lemma {:induction false} RowAgrees(f: Cell -> seq<nat>, g: Cell -> seq<nat>, x0: int, cx: int, cy: int)
    requires x0 <= cx && forall x :: x0 <= x < cx ==> f(Cell(x, cy)) == g(Cell(x, cy))
    ensures RowNexts(f, x0, cx, cy) == RowNexts(g, x0, cx, cy)
    decreases cx - x0
  {
    if cx != x0 {
      RowAgrees(f, g, x0, cx - 1, cy);
    }
  }

  /** Lookups that agree on every cell of the block give the same block. */
  lemma {:induction false} BlockAgrees(f: Cell -> seq<nat>, g: Cell -> seq<nat>, c: Cell, cy: int)
    requires c.y - 1 <= cy <= c.y + 2 && forall d :: Adjacent(c, d) ==> f(d) == g(d)
    ensures BlockNexts(f, c, cy) == BlockNexts(g, c, cy)
    decreases cy - c.y
  {
    if cy != c.y - 1 {
      BlockAgrees(f, g, c, cy - 1);
      RowAgrees(f, g, c.x - 1, c.x + 2, cy - 1);
    }
  }

  // ---------------------------------------------------------------------
  // Soundness of a scan

  /** After `update` with the cells `cells`, every slot `j` a scan offers to
      slot `i` is another slot whose bucket is the bucket of one of the nine
      cells around the cell `scanCells[i]` that `i` has at scan time. It need
      not be near `i`: buckets are shared by distant cells. */
  lemma ScanOffersOnlyBlockBuckets(t: seq<HashEntry>, o: seq<nat>, cells: seq<Cell>, scanCells: seq<Cell>, i: nat, j: nat)
    requires IsIndexOf(t, cells) && |scanCells| == |cells| && i < |cells|
    requires j in PassNexts(t, o, scanCells, i)
    ensures j != i && j < |cells|
    ensures exists d :: Adjacent(scanCells[i], d) && Hash(cells[j], |cells|) == Hash(d, |cells|)
  {
    var d := BlockOffersOnlyItsCells(Lookup(t, o, i, |cells|), scanCells[i], scanCells[i].y + 2, j);
    assert j in CellNexts(t, o, i, d, |cells|);
    EntryOfIndex(t, cells, HashEntry(j, Hash(d, |cells|)));
  }

  // ---------------------------------------------------------------------
  // No false negatives

  lemma {:induction false} RunReaches(t: seq<HashEntry>, k: nat, b: nat, i: nat, p: nat)
    requires k <= p < |t|
    requires forall q :: k <= q <= p ==> t[q].cellHash == b
    requires t[p].particleIdx != i
    ensures t[p].particleIdx in RunNexts(t, k, b, i)
    decreases p - k
  {
    if k < p {
      RunReaches(t, k + 1, b, i, p);
    }
  }

  /** An entry of the bucket of `d` at `p` is reached by the walk from the
      recorded run start of that bucket. */
  lemma CellOffersEntry(t: seq<HashEntry>, o: seq<nat>, i: nat, d: Cell, len: nat, p: nat)
    requires 0 < len && SortedByHash(t) && RunStartsRecorded(o, t) && |o| == len && |t| <= UsizeMax
    requires p < |t| && t[p].cellHash == Hash(d, len) && t[p].particleIdx != i
    ensures t[p].particleIdx in CellNexts(t, o, i, d, len)
  {
    var b := Hash(d, len);
    assert Occurs(t, b);
    var s := o[b];
    assert IsRunStart(t, b, s);
    assert s <= p;
    RunReaches(t, s, b, i, p);
  }

  /** Directly after `update` with the same cells, a scan offers every other
      slot whose cell lies in the 3×3 block around slot `i`'s cell. */
  lemma ScanMissesNoNeighbour(t: seq<HashEntry>, o: seq<nat>, cells: seq<Cell>, i: nat, j: nat)
    requires IsIndexOf(t, cells) && RunStartsRecorded(o, t) && |o| == |cells| <= UsizeMax
    requires i < |cells| && j < |cells| && i != j
    requires Adjacent(cells[i], cells[j])
    ensures j in PassNexts(t, o, cells, i)
  {
    var p := SlotPosition(t, cells, j);
    CellOffersEntry(t, o, i, cells[j], |cells|, p);
    BlockContains(Lookup(t, o, i, |cells|), cells[i], cells[i].y + 2, cells[j], j);
  }

  // ---------------------------------------------------------------------
  // Offsets of absent buckets

  /** Two offset vectors that agree on every bucket present in the table. */
  predicate AgreeOnPresent(t: seq<HashEntry>, o: seq<nat>, o': seq<nat>)
  {
    |o| == |o'| && forall b :: 0 <= b < |o| && Occurs(t, b) ==> o[b] == o'[b]
  }

  /** The offsets of buckets absent from the table, stale ones left by an
      earlier `update` or the sentinel, make no difference to a scan. */
  lemma AbsentOffsetsIrrelevant(t: seq<HashEntry>, o: seq<nat>, o': seq<nat>, cells: seq<Cell>, i: nat)
    requires i < |cells| && AgreeOnPresent(t, o, o')
    ensures PassNexts(t, o, cells, i) == PassNexts(t, o', cells, i)
  {
    var f, g := Lookup(t, o, i, |cells|), Lookup(t, o', i, |cells|);
    forall d | Adjacent(cells[i], d)
      ensures f(d) == g(d)
    {
      if !Occurs(t, Hash(d, |cells|)) {
        assert CellNexts(t, o, i, d, |cells|) == [] == CellNexts(t, o', i, d, |cells|);
      }
    }
    BlockAgrees(f, g, cells[i], cells[i].y + 2);
  }

  // ---------------------------------------------------------------------
  // Bucket collisions

  /** The table and offsets `update` leaves for two slots that both land in
      bucket 0 of a two-bucket table. */
  const PairTable := [HashEntry(0, 0), HashEntry(1, 0)]
  const PairOffsets := [0, UsizeMax as nat]

  lemma PairCell(x: int, y: int)
    ensures Lookup(PairTable, PairOffsets, 0, 2)(Cell(x, y)) == if (x + y) % 2 == 0 then [1] else []
  {
    HashIsRemainder(Cell(x, y), 2);
    assert x + y * CellHashPrime == (x + y) + (y * 16060) * 2;
    ModShift(x + y, 2, y * 16060);
    assert Hash(Cell(x, y), 2) == (x + y) % 2;
    assert RunNexts(PairTable, 0, 0, 0) == RunNexts(PairTable, 1, 0, 0) == [1];
  }

  /** A row of the block is three cells. */
  lemma RowOfThree(f: Cell -> seq<nat>, x0: int, y: int)
    ensures RowNexts(f, x0, x0 + 3, y) == f(Cell(x0, y)) + f(Cell(x0 + 1, y)) + f(Cell(x0 + 2, y))
  {
    assert RowNexts(f, x0, x0, y) == [];
    assert RowNexts(f, x0, x0 + 1, y) == [] + f(Cell(x0, y));
    assert RowNexts(f, x0, x0 + 2, y) == RowNexts(f, x0, x0 + 1, y) + f(Cell(x0 + 1, y));
  }

  /** Any lookup in which cell `(x, y)` offers slot 1 once when `x + y` is
      even and nothing otherwise: the block around the origin offers it five
      times. */
  lemma ParityBlock(f: Cell -> seq<nat>)
    requires forall d :: f(d) == if (d.x + d.y) % 2 == 0 then [1] else []
    ensures BlockNexts(f, Cell(0, 0), 2) == [1, 1, 1, 1, 1]
  {
    var c := Cell(0, 0);
    RowOfThree(f, -1, -1);
    RowOfThree(f, -1, 0);
    RowOfThree(f, -1, 1);
    assert BlockNexts(f, c, -1) == [];
    assert BlockNexts(f, c, 0) == [1, 1];
    assert BlockNexts(f, c, 1) == [1, 1, 1];
    assert BlockNexts(f, c, 2) == [1, 1, 1, 1, 1];
  }

  /** Slot 0 at the origin of a two-bucket table: five of the nine cells
      around it share slot 1's bucket, so its pass offers slot 1 five times. */
  lemma PairPassFromOrigin(cells: seq<Cell>)
    requires |cells| == 2 && cells[0] == Cell(0, 0)
    ensures PassNexts(PairTable, PairOffsets, cells, 0) == [1, 1, 1, 1, 1]
  {
    var f := Lookup(PairTable, PairOffsets, 0, 2);
    forall d ensures f(d) == if (d.x + d.y) % 2 == 0 then [1] else [] {
      PairCell(d.x, d.y);
    }
    ParityBlock(f);
  }

  lemma PairIndex(cells: seq<Cell>)
    requires |cells| == 2 && Hash(cells[0], 2) == 0 && Hash(cells[1], 2) == 0
    ensures IsIndexOf(PairTable, cells)
    ensures OffsetsUpdated([UsizeMax, UsizeMax], PairOffsets, PairTable)
  {
    assert SlotEntries(cells) == PairTable;
    assert !Occurs(PairTable, 1);
  }

  /** Two slots in one cell: slot 0's pass offers slot 1 five times. */
  lemma CollisionRepeatsCandidate()
    ensures IsIndexOf(PairTable, [Cell(0, 0), Cell(0, 0)])
    ensures PassNexts(PairTable, PairOffsets, [Cell(0, 0), Cell(0, 0)], 0) == [1, 1, 1, 1, 1]
  {
    PairIndex([Cell(0, 0), Cell(0, 0)]);
    PairPassFromOrigin([Cell(0, 0), Cell(0, 0)]);
  }

  /** Slots two cells apart share bucket 0, so slot 0's pass offers slot 1
      although it is not a neighbour. */
  lemma CollisionOffersDistantSlot()
    ensures IsIndexOf(PairTable, [Cell(0, 0), Cell(2, 0)])
    ensures !Adjacent(Cell(0, 0), Cell(2, 0))
    ensures 1 in PassNexts(PairTable, PairOffsets, [Cell(0, 0), Cell(2, 0)], 0)
  {
    assert Hash(Cell(2, 0), 2) == 0;
    PairIndex([Cell(0, 0), Cell(2, 0)]);
    PairPassFromOrigin([Cell(0, 0), Cell(2, 0)]);
  }
}
