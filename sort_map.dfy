/** The spatial-hash index of src/sort_map.rs. Each slot's grid cell is
    hashed to one of `len` buckets (`len` being the number of slots); the
    index is a table of (slot, bucket) entries sorted by bucket, plus the
    offset of the first entry of each bucket. A scan offers every slot the
    entries of the buckets of the 3×3 block of cells around its own cell. */
module SpatialHash {
  import opened RustStd
  import opened Visitor

  /** The multiplier of the y coordinate in the cell hash. */
  const CellHashPrime: int := 32121

  datatype HashEntry = HashEntry(particleIdx: nat, cellHash: nat)

  /** `HashEntry::default()`. */
  const DefaultEntry: HashEntry := HashEntry(0, 0)

  /** An integer grid cell `(gx, gy)`. */
  datatype Cell = Cell(x: int, y: int)

  /** `a.rem_euclid(len)` for a positive `len`: the representative of `a` in
      `[0, len)`, reached by adding or subtracting `len`. */
  function RemEuclid(a: int, len: nat): (r: nat)
    requires 0 < len
    ensures r < len
    decreases if a < 0 then len - a else a
  {
    if a < 0 then RemEuclid(a + len, len)
    else if a < len then a
    else RemEuclid(a - len, len)
  }

  /** `RemEuclid` agrees with Euclidean division: it is `a % len`. */
  lemma {:induction false} RemEuclidIsMod(a: int, len: nat)
    requires 0 < len
    ensures RemEuclid(a, len) == a % len
    decreases if a < 0 then len - a else a
  {
    if a < 0 {
      RemEuclidIsMod(a + len, len);
      ModShift(a, len, 1);
    } else if a < len {
      ModOfMultiple(a, len, 0, a);
    } else {
      RemEuclidIsMod(a - len, len);
      ModShift(a - len, len, 1);
    }
  }

  /** `SortMap::hash`: the bucket of a cell, `(gx + gy * 32121).rem_euclid(len)`. */
  function Hash(c: Cell, len: nat): (b: nat)
    requires 0 < len
    ensures b < len
  {
    RemEuclid(c.x + c.y * CellHashPrime, len)
  }

  /** The bucket is the remainder of the cell's key: the key is some
      multiple of `len` plus the bucket. */
  lemma HashIsRemainder(c: Cell, len: nat)
    requires 0 < len
    ensures Hash(c, len) == (c.x + c.y * CellHashPrime) % len
    ensures (c.x + c.y * CellHashPrime - Hash(c, len)) % len == 0
  {
    var key := c.x + c.y * CellHashPrime;
    RemEuclidIsMod(key, len);
    assert key == (key / len) * len + key % len;
    ModOfMultiple(key - key % len, len, key / len, 0);
  }

  /** Cells `len` apart along either axis share a bucket: the index treats
      such far-away cells as one. */
  lemma HashCollides(c: Cell, len: nat)
    requires 0 < len
    ensures Hash(Cell(c.x + len, c.y), len) == Hash(c, len)
    ensures Hash(Cell(c.x, c.y + len), len) == Hash(c, len)
  {
    var key := c.x + c.y * CellHashPrime;
    HashIsRemainder(c, len);
    HashIsRemainder(Cell(c.x + len, c.y), len);
    HashIsRemainder(Cell(c.x, c.y + len), len);
    assert (c.x + len) + c.y * CellHashPrime == key + 1 * len;
    ModShift(key, len, 1);
    assert c.x + (c.y + len) * CellHashPrime == key + CellHashPrime * len;
    ModShift(key, len, CellHashPrime);
  }

  lemma ModShift(a: int, len: nat, k: int)
    requires 0 < len
    ensures (a + k * len) % len == a % len
  {
    var q, r := a / len, a % len;
    assert a == q * len + r;
    assert a + k * len == (q + k) * len + r;
    ModOfMultiple(a + k * len, len, q + k, r);
  }

  /** The remainder is unique: `q * len + r` with `0 <= r < len` leaves `r`. */
  lemma ModOfMultiple(a: int, len: nat, q: int, r: int)
    requires 0 < len && 0 <= r < len && a == q * len + r
    ensures a % len == r
  {
    var q0, r0 := a / len, a % len;
    assert a == q0 * len + r0;
    assert (q0 - q) * len == q0 * len - q * len;
    assert (q0 - q) * len == r - r0;
    if q0 - q >= 1 {
      MulAtLeast(q0 - q, len);
    } else if q - q0 >= 1 {
      MulAtLeast(q - q0, len);
    }
  }

  lemma {:induction false} MulAtLeast(d: int, len: nat)
    requires 1 <= d && 0 < len
    ensures d * len >= len
    decreases d
  {
    if d > 1 {
      MulAtLeast(d - 1, len);
      assert d * len == (d - 1) * len + len;
    }
  }

  /** Whether `d` lies in the 3×3 block of cells centred on `c`. */
  predicate Adjacent(c: Cell, d: Cell)
  {
    -1 <= d.x - c.x <= 1 && -1 <= d.y - c.y <= 1
  }

  // ---------------------------------------------------------------------
  // What `update` establishes

  predicate SortedByHash(t: seq<HashEntry>)
  {
    forall p, q :: 0 <= p < q < |t| ==> t[p].cellHash <= t[q].cellHash
  }

  /** The entries `update` writes before sorting: slot `k` with the bucket of
      its cell. */
  function SlotEntries(cells: seq<Cell>): seq<HashEntry>
  {
    seq(|cells|, k requires 0 <= k < |cells| => HashEntry(k, Hash(cells[k], |cells|)))
  }

  /** `t` is what `update` leaves in `hash_table` for the cells `cells`:
      those entries, in some order sorted by bucket. */
  predicate IsIndexOf(t: seq<HashEntry>, cells: seq<Cell>)
  {
    SortedByHash(t) && multiset(t) == multiset(SlotEntries(cells))
  }

  /** Some entry of `t` is in bucket `b`. */
  predicate Occurs(t: seq<HashEntry>, b: nat)
  {
    exists k :: 0 <= k < |t| && t[k].cellHash == b
  }

  /** `s` is the smallest index of an entry of bucket `b`. */
  predicate IsRunStart(t: seq<HashEntry>, b: nat, s: nat)
  {
    s < |t| && t[s].cellHash == b && forall k :: 0 <= k < s ==> t[k].cellHash != b
  }

  /** Every bucket that occurs in `t` has its run start recorded in `o`. */
  predicate RunStartsRecorded(o: seq<nat>, t: seq<HashEntry>)
  {
    forall b :: 0 <= b < |o| && Occurs(t, b) ==> IsRunStart(t, b, o[b])
  }

  /** The offsets `update` leaves: the run start of every bucket that occurs,
      and for every other bucket whatever was there before. */
  predicate OffsetsUpdated(before: seq<nat>, after: seq<nat>, t: seq<HashEntry>)
  {
    |after| == |before| && RunStartsRecorded(after, t)
    && forall b :: 0 <= b < |after| && !Occurs(t, b) ==> after[b] == before[b]
  }

  // ---------------------------------------------------------------------
  // What `scan` offers

  /** Lines 125-135: walking the table from index `k` for bucket `b`, the
      entries of slot `i` are skipped and the walk stops at the first entry
      of another bucket. The result lists the slots offered to `next`. */
  function RunNexts(t: seq<HashEntry>, k: nat, b: nat, i: nat): (r: seq<nat>)
    requires k <= |t|
    ensures forall j :: j in r ==> j != i && HashEntry(j, b) in t[k..]
    decreases |t| - k
  {
    if k == |t| then []
    else if t[k].particleIdx == i then RunNexts(t, k + 1, b, i)
    else if t[k].cellHash != b then []
    else [t[k].particleIdx] + RunNexts(t, k + 1, b, i)
  }

  /** Lines 118-124 as written: look the bucket of `c` up in `o`; no offset or
      the sentinel `usize::MAX` means nothing to walk. `None` stands for the
      panic of `&self.hash_table[cell_start..]` when the offset is past the
      end of the table. */
  function CellNextsAsWritten(t: seq<HashEntry>, o: seq<nat>, i: nat, c: Cell, len: nat): (r: Option<seq<nat>>)
    requires 0 < len
    ensures r.None? <==> Hash(c, len) < |o| && o[Hash(c, len)] != UsizeMax && o[Hash(c, len)] > |t|
    ensures r.Some? ==> r.value == CellNexts(t, o, i, c, len)
  {
    var b := Hash(c, len);
    if b < |o| && o[b] != UsizeMax then
      if o[b] <= |t| then Some(RunNexts(t, o[b], b, i)) else None
    else Some([])
  }

  /** Lines 118-135 with an offset past the end of the table treated like an
      absent bucket. Every slot offered is not `i` and has an entry in the
      bucket of `c`; a bucket without entries offers nothing, whatever stale
      offset it keeps. */
  function CellNexts(t: seq<HashEntry>, o: seq<nat>, i: nat, c: Cell, len: nat): (r: seq<nat>)
    requires 0 < len
    ensures forall j :: j in r ==> j != i && HashEntry(j, Hash(c, len)) in t
    ensures !Occurs(t, Hash(c, len)) ==> r == []
  {
    var b := Hash(c, len);
    if b < |o| && o[b] != UsizeMax && o[b] <= |t| then
      var r := RunNexts(t, o[b], b, i);
      assert forall j :: j in r ==> HashEntry(j, b) in t by {
        forall j | j in r ensures HashEntry(j, b) in t {
          var p :| 0 <= p < |t[o[b]..]| && t[o[b]..][p] == HashEntry(j, b);
          assert t[o[b] + p] == HashEntry(j, b);
        }
      }
      assert r != [] ==> t[o[b]..][0] == HashEntry(r[0], b) ==> Occurs(t, b) by {
        if r != [] {
          var p :| 0 <= p < |t[o[b]..]| && t[o[b]..][p] == HashEntry(r[0], b);
          assert t[o[b] + p].cellHash == b;
        }
      }
      r
    else []
  }

  /** Every offset is the sentinel or lies within the table: the slice of
      line 125 cannot fail. */
  predicate OffsetsInRange(o: seq<nat>, t: seq<HashEntry>)
  {
    forall b :: 0 <= b < |o| ==> o[b] == UsizeMax || o[b] <= |t|
  }

  /** While the offsets are in range, the lookup as written never panics and
      gives what the corrected lookup gives. */
  lemma AsWrittenAgreesInRange(t: seq<HashEntry>, o: seq<nat>, i: nat, c: Cell, len: nat)
    requires 0 < len && OffsetsInRange(o, t)
    ensures CellNextsAsWritten(t, o, i, c, len) == Some(CellNexts(t, o, i, c, len))
  {
  }

  /** `update` keeps the offsets in range: a recorded run start lies inside
      the table, and the other offsets are those from before. */
  lemma UpdateKeepsOffsetsInRange(before: seq<nat>, after: seq<nat>, t: seq<HashEntry>)
    requires OffsetsInRange(before, t) && OffsetsUpdated(before, after, t)
    ensures OffsetsInRange(after, t)
  {
    forall b | 0 <= b < |after|
      ensures after[b] == UsizeMax || after[b] <= |t|
    {
      if Occurs(t, b) {
        assert IsRunStart(t, b, after[b]);
      }
    }
  }

  /** A resize that does not shrink keeps the offsets in range; only a
      shrinking resize can leave an offset past the end. */
  lemma GrowingResizeKeepsOffsetsInRange(o: seq<nat>, t: seq<HashEntry>, len: nat)
    requires OffsetsInRange(o, t) && |t| <= len
    ensures OffsetsInRange(Resized(o, len, UsizeMax as nat), Resized(t, len, DefaultEntry))
  {
  }

  /** What the bucket of each cell offers to slot `i` in a table of `len`
      slots. */
  function Lookup(t: seq<HashEntry>, o: seq<nat>, i: nat, len: nat): Cell -> seq<nat>
  {
    c => if 0 < len then CellNexts(t, o, i, c, len) else []
  }

  /** What the cells `(x, cy)` with `x0 <= x < cx` offer through the
      per-cell lookup `f`, in increasing `x` (the loop over `cx`). */
  function RowNexts(f: Cell -> seq<nat>, x0: int, cx: int, cy: int): seq<nat>
    requires x0 <= cx
    decreases cx - x0
  {
    if cx == x0 then [] else RowNexts(f, x0, cx - 1, cy) + f(Cell(cx - 1, cy))
  }

  /** What the rows `c.y - 1 <= y < cy` of the 3×3 block around `c` offer
      through `f` (the loop over `cy`). */
  function BlockNexts(f: Cell -> seq<nat>, c: Cell, cy: int): seq<nat>
    requires c.y - 1 <= cy <= c.y + 2
    decreases cy - c.y
  {
    if cy == c.y - 1 then [] else BlockNexts(f, c, cy - 1) + RowNexts(f, c.x - 1, c.x + 2, cy - 1)
  }

  /** The slots `scan` offers to `next` during the pass of slot `i`. */
  function PassNexts(t: seq<HashEntry>, o: seq<nat>, cells: seq<Cell>, i: nat): seq<nat>
    requires i < |cells|
  {
    BlockNexts(Lookup(t, o, i, |cells|), cells[i], cells[i].y + 2)
  }

  /** For each slot, the slots `scan` offers to `next` during its pass. */
  function ScanNexts(t: seq<HashEntry>, o: seq<nat>, cells: seq<Cell>): (r: seq<seq<nat>>)
    ensures |r| == |cells|
    ensures forall i :: 0 <= i < |cells| ==> r[i] == PassNexts(t, o, cells, i)
  {
    seq(|cells|, i requires 0 <= i < |cells| => PassNexts(t, o, cells, i))
  }

  // ---------------------------------------------------------------------
  // The index itself

  class SortMap {
    var hashTable: array<HashEntry>
    var startOffsets: array<nat>

    ghost predicate Valid()
      reads this
    {
      hashTable.Length == startOffsets.Length
    }

    /** `SortMap::new(num_objs)`: default entries and no run recorded. */
    constructor (numObjs: nat)
      ensures Valid() && fresh(hashTable) && fresh(startOffsets)
      ensures hashTable[..] == seq(numObjs, _ => DefaultEntry)
      ensures startOffsets[..] == seq(numObjs, _ => UsizeMax as nat)
    {
      hashTable := new HashEntry[numObjs](_ => DefaultEntry);
      startOffsets := new nat[numObjs](_ => UsizeMax);
    }

    /** `SortMap::resize(len)`: both vectors resized, keeping their prefix;
        new offsets are the sentinel. */
    method Resize(len: nat)
      modifies this
      ensures Valid() && fresh(hashTable) && fresh(startOffsets)
      ensures hashTable[..] == Resized(old(hashTable[..]), len, DefaultEntry)
      ensures startOffsets[..] == Resized(old(startOffsets[..]), len, UsizeMax as nat)
    {
      var entries := Resized(hashTable[..], len, DefaultEntry);
      var offsets := Resized(startOffsets[..], len, UsizeMax as nat);
      hashTable := new HashEntry[len](k requires 0 <= k < len => entries[k]);
      startOffsets := new nat[len](k requires 0 <= k < len => offsets[k]);
    }

    /** `SortMap::update` for a table whose slot `k` lies in `cells[k]`. */
    method Update(cells: seq<Cell>)
      requires Valid() && hashTable.Length == |cells|
      modifies hashTable, startOffsets
      ensures IsIndexOf(hashTable[..], cells)
      ensures OffsetsUpdated(old(startOffsets[..]), startOffsets[..], hashTable[..])
    {
      FillEntries(hashTable, cells);
      SortByHash(hashTable);
      assert IsIndexOf(hashTable[..], cells);
      RecordRunStarts(hashTable, startOffsets);
    }

    /** `SortMap::scan` for a table whose slot `k` lies in `cells[k]`: the
        calls made on the visitor. Every slot gets one `start` and one `end`,
        slots in increasing order. The bucket lookup is the corrected one,
        `CellNexts`: an offset past the end of the table counts as an absent
        bucket where the source's slice would panic. While the offsets stay
        in range (`OffsetsInRange`), the two lookups agree
        (`AsWrittenAgreesInRange`). */
    method Scan(cells: seq<Cell>) returns (trace: seq<Event>)
      ensures trace == Protocol(ScanNexts(hashTable[..], startOffsets[..], cells))
      ensures Brackets(trace) == Alternating(|cells|)
    {
      // `scan` only reads the index: its loops run over a snapshot of it.
      var t, o := hashTable[..], startOffsets[..];
      ghost var nexts := ScanNexts(t, o, cells);
      trace := [];
      for i := 0 to |cells|
        invariant trace == Protocol(nexts[..i])
      {
        var candidates := SlotCandidates(t, o, cells, i);
        trace := trace + Pass(i, candidates);
        assert nexts[..i + 1][..i] == nexts[..i];
        assert Protocol(nexts[..i + 1]) == Protocol(nexts[..i]) + Pass(i, nexts[i]);
      }
      assert nexts[..|cells|] == nexts;
      ProtocolBrackets(nexts);
    }
  }

  /** The pass of slot `i` (lines 116-137). */
  method SlotCandidates(t: seq<HashEntry>, o: seq<nat>, cells: seq<Cell>, i: nat) returns (candidates: seq<nat>)
    requires i < |cells|
    ensures candidates == PassNexts(t, o, cells, i)
  {
    candidates := PassCandidates(t, o, cells[i], i, |cells|, Lookup(t, o, i, |cells|));
  }

  /** `f` gives, for every cell, what its bucket offers to slot `i`. */
  ghost predicate IsLookup(f: Cell -> seq<nat>, t: seq<HashEntry>, o: seq<nat>, i: nat, len: nat)
    requires 0 < len
  {
    forall d {:trigger CellNexts(t, o, i, d, len)} :: f(d) == CellNexts(t, o, i, d, len)
  }

  /** Lines 116-137: the slots offered to slot `i` by the 3×3 block of
      cells around its cell `c`, row by row. */
  method PassCandidates(t: seq<HashEntry>, o: seq<nat>, c: Cell, i: nat, len: nat,
                        ghost f: Cell -> seq<nat>) returns (acc: seq<nat>)
    requires 0 < len && IsLookup(f, t, o, i, len)
    ensures acc == BlockNexts(f, c, c.y + 2)
  {
    acc := [];
    for cy := c.y - 1 to c.y + 2
      invariant acc == BlockNexts(f, c, cy)
    {
      var row := RowCandidates(t, o, c.x - 1, cy, i, len, f);
      acc := acc + row;
    }
  }

  /** Lines 117-136: the slots offered to slot `i` by the three cells
      `(x0, cy)`, `(x0 + 1, cy)`, `(x0 + 2, cy)` of one row of its block. */
  method RowCandidates(t: seq<HashEntry>, o: seq<nat>, x0: int, cy: int, i: nat, len: nat,
                       ghost f: Cell -> seq<nat>) returns (acc: seq<nat>)
    requires 0 < len && IsLookup(f, t, o, i, len)
    ensures acc == RowNexts(f, x0, x0 + 3, cy)
  {
    acc := [];
    for cx := x0 to x0 + 3
      invariant acc == RowNexts(f, x0, cx, cy)
    {
      var run := CellCandidates(t, o, Cell(cx, cy), i, len);
      acc := acc + run;
    }
  }

  /** Lines 118-135 for one cell of the block: the slots offered to slot
      `i` by the bucket of `c`. */
  method CellCandidates(t: seq<HashEntry>, o: seq<nat>, c: Cell, i: nat, len: nat) returns (run: seq<nat>)
    requires 0 < len
    ensures run == CellNexts(t, o, i, c, len)
  {
    run := [];
    var cellHash := Hash(c, len);
    if cellHash < |o| {
      var cellStart := o[cellHash];
      if cellStart != UsizeMax && cellStart <= |t| {
        run := WalkRun(t, cellStart, cellHash, i);
      }
    }
  }

  /** Lines 125-135: the walk over `t[start..]` for bucket `b` during the pass
      of slot `i`. */
  method WalkRun(t: seq<HashEntry>, start: nat, b: nat, i: nat) returns (run: seq<nat>)
    requires start <= |t|
    ensures run == RunNexts(t, start, b, i)
  {
    run := [];
    var k := start;
    while k < |t|
      invariant start <= k <= |t|
      invariant RunNexts(t, start, b, i) == run + RunNexts(t, k, b, i)
    {
      var entry := t[k];
      if entry.particleIdx == i {
        k := k + 1;
        continue;
      }
      if entry.cellHash != b {
        break;
      }
      run := run + [entry.particleIdx];
      k := k + 1;
    }
  }

  /** Lines 71-81: entry `k` of the table becomes slot `k` with the bucket
      of its cell. */
  method FillEntries(a: array<HashEntry>, cells: seq<Cell>)
    requires a.Length == |cells|
    modifies a
    ensures a[..] == SlotEntries(cells)
  {
    for i := 0 to |cells|
      invariant a[..i] == SlotEntries(cells)[..i]
    {
      a[i] := HashEntry(i, Hash(cells[i], |cells|));
    }
    assert a[..] == a[..|cells|];
  }

  /** Lines 85-98: for every bucket present in the sorted table, the start
      of its run is recorded; the offsets of absent buckets are left as they
      were. */
  method RecordRunStarts(a: array<HashEntry>, o: array<nat>)
    requires SortedByHash(a[..]) && o.Length == a.Length
    modifies o
    ensures OffsetsUpdated(old(o[..]), o[..], a[..])
  {
    ghost var t := a[..];
    for b := 0 to o.Length
      invariant RunStartsRecorded(o[..b], t)
      invariant forall b' :: 0 <= b' < b && !Occurs(t, b') ==> o[b'] == old(o[b'])
      invariant forall b' :: b <= b' < o.Length ==> o[b'] == old(o[b'])
    {
      var found := BinarySearchByHash(a, b);
      if found.Some? {
        var start := RunStartFrom(a, b, found.value);
        o[b] := start;
      }
    }
  }

  /** The backward walk of `update` (lines 90-96): from an entry `first` of
      bucket `b`, the index where the run of `b` begins. */
  method RunStartFrom(a: array<HashEntry>, b: nat, first: nat) returns (start: nat)
    requires SortedByHash(a[..])
    requires first < a.Length && a[first].cellHash == b
    ensures IsRunStart(a[..], b, start)
  {
    start := 0;
    for j := first + 1 downto 0
      invariant forall k :: j <= k <= first ==> a[k].cellHash == b
    {
      if a[j].cellHash != b {
        start := j + 1;
        break;
      }
    }
  }

  /** `sort_unstable_by_key(|e| e.cell_hash)`: the entries end up sorted by
      bucket, as a permutation of what they were. The order among entries of
      one bucket is not specified. */
  method SortByHash(a: array<HashEntry>)
    modifies a
    ensures SortedByHash(a[..])
    ensures multiset(a[..]) == multiset(old(a[..]))
  {
    if a.Length == 0 {
      return;
    }
    for i := 1 to a.Length
      invariant SortedUpTo(a[..], i)
      invariant multiset(a[..]) == multiset(old(a[..]))
    {
      SinkLast(a, i);
    }
  }

  /** The first `n` entries of `t` are sorted by bucket. */
  predicate SortedUpTo(t: seq<HashEntry>, n: nat)
    requires n <= |t|
  {
    SortedByHash(t[..n])
  }

  /** One step of the insertion sort: the entry at `i` is swapped down into
      the sorted prefix before it. */
  method SinkLast(a: array<HashEntry>, i: nat)
    requires 0 < i < a.Length && SortedUpTo(a[..], i)
    modifies a
    ensures SortedUpTo(a[..], i + 1)
    ensures a[i + 1..] == old(a[i + 1..])
    ensures multiset(a[..]) == multiset(old(a[..]))
  {
    var j := i;
    while j > 0 && a[j - 1].cellHash > a[j].cellHash
      invariant 0 <= j <= i
      invariant forall p, q :: 0 <= p < q <= i && p != j && q != j ==> a[p].cellHash <= a[q].cellHash
      invariant forall q :: j < q <= i ==> a[j].cellHash <= a[q].cellHash
      invariant multiset(a[..]) == multiset(old(a[..]))
      invariant a[i + 1..] == old(a[i + 1..])
    {
      SwapDown(a, j);
      j := j - 1;
    }
  }

  /** Exchanges the entries at `j - 1` and `j`. */
  method SwapDown(a: array<HashEntry>, j: nat)
    requires 0 < j < a.Length
    modifies a
    ensures a[..] == old(a[..])[j - 1 := old(a[j])][j := old(a[j - 1])]
    ensures multiset(a[..]) == multiset(old(a[..]))
  {
    a[j - 1], a[j] := a[j], a[j - 1];
  }

  /** `binary_search_by_key(&b, |e| e.cell_hash)` on a sorted table: the
      index of some entry of bucket `b`, or `None` when there is none. */
  method BinarySearchByHash(a: array<HashEntry>, b: nat) returns (r: Option<nat>)
    requires SortedByHash(a[..])
    ensures r.Some? ==> r.value < a.Length && a[r.value].cellHash == b
    ensures r.None? ==> !Occurs(a[..], b)
  {
    var lo, hi := 0, a.Length;
    while lo < hi
      invariant 0 <= lo <= hi <= a.Length
      invariant forall k :: 0 <= k < lo ==> a[k].cellHash < b
      invariant forall k :: hi <= k < a.Length ==> b < a[k].cellHash
    {
      var mid := lo + (hi - lo) / 2;
      if a[mid].cellHash < b {
        lo := mid + 1;
      } else if b < a[mid].cellHash {
        hi := mid;
      } else {
        return Some(mid);
      }
    }
    return None;
  }
}
