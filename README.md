# patchjuggler core in Dafny

patchjuggler simulates a flock of boids in a sender process and replicates
the objects to a receiver process over UDP, a patch of slots per tick. This
project models the integer and sequence logic at the heart of both:

- **The spatial-hash index** `SortMap` (`src/sort_map.rs`). Each slot's
  integer grid cell is hashed to one of `len` buckets. `update` builds a
  table of `(slot, bucket)` entries sorted by bucket and records where each
  bucket's run starts. `scan` drives an `UpdateScanner` visitor through
  `start(i)`, `next(j)`*, `end(i)` for every slot, offering the slots found
  in the buckets of the 3×3 block of cells around slot `i`. The model keeps
  the class with its two arrays. The sort, the binary search and the
  backward walk are methods on the table array, and a scan is modelled as
  the trace of visitor calls it makes (`Visitor.Event`).
- **The brute-force fallback** of both binaries, which offers every other
  slot in increasing order. It is the reference the scan is compared with.
- **The replication protocol** (`src/bin/sender.rs`, `src/bin/receiver.rs`).
  A tick sends a control datagram with the object count, then a burst of
  data datagrams `(slot + 1, object)`, and then advances a wrapping
  cursor. The receiver resizes its mirror on a control datagram and
  overwrites the addressed slot on a data datagram.
- **`FindScanner`** (`src/object.rs`, copied in `src/bin/sender.rs`). It is
  the visitor that collects the candidates of the selected slot. It is
  modelled as a class with the source's fields and replayed over scan
  traces.

Objects are opaque payloads: their `f64` fields are kept as 64-bit
patterns and never computed with. Grid cells are inputs.

## Model

| member | source | states |
|---|---|---|
| RustStd.Resized | src/sort_map.rs:37-40 | `Vec::resize`: the new length, the old prefix kept, and every new element equal to the fill value |
| SpatialHash.RemEuclid | src/sort_map.rs:65 | `rem_euclid` always gives a value in `[0, len)` |
| SpatialHash.RemEuclidIsMod | src/sort_map.rs:65 | `rem_euclid` by a positive `len` equals the Euclidean remainder `a % len` |
| SpatialHash.Hash | src/sort_map.rs:64-66 | the bucket of a cell is below `len`, so it is a valid index into `start_offsets` |
| SpatialHash.HashIsRemainder | src/sort_map.rs:64-66 | the bucket is `(gx + gy*32121) mod len`, and the key minus the bucket is a multiple of `len` |
| SpatialHash.HashCollides | src/sort_map.rs:64-66 | cells `len` apart along x or along y share a bucket |
| SpatialHash.SortMap.constructor | src/sort_map.rs:30-35 | `new(n)`: `n` default entries and `n` offsets equal to `usize::MAX` |
| SpatialHash.SortMap.Resize | src/sort_map.rs:37-40 | both vectors get the new length and keep their prefix; new entries are default and new offsets are `usize::MAX` |
| SpatialHash.SortMap.Update | src/sort_map.rs:68-99 | the table is sorted by bucket and is a permutation of the entries `(k, hash(cell k))`; the offset of every bucket present is its run start; the offset of every absent bucket is unchanged |
| SpatialHash.FillEntries | src/sort_map.rs:71-81 | entry `k` of the table becomes slot `k` with the bucket of its cell |
| SpatialHash.RecordRunStarts | src/sort_map.rs:85-98 | every bucket present in the sorted table gets its run start; the offsets of absent buckets are left as they were |
| SpatialHash.SortByHash | src/sort_map.rs:82-83 | `sort_unstable_by_key`: the result is sorted by bucket and is a permutation of the input |
| SpatialHash.SinkLast | src/sort_map.rs:82-83 | one insertion step extends the sorted prefix by one entry, keeps the multiset of entries and leaves the entries after it untouched |
| SpatialHash.BinarySearchByHash | src/sort_map.rs:86-88 | on a sorted table, it returns an index holding bucket `b`, or `None` exactly when no entry holds `b` |
| SpatialHash.RunStartFrom | src/sort_map.rs:89-96 | the backward walk from an entry of bucket `b` returns the smallest index holding `b` |
| SpatialHash.RunNexts | src/sort_map.rs:125-135 | a run walk offers only slots other than `i` that have an entry of bucket `b` at or after the start |
| SpatialHash.CellNextsAsWritten | src/sort_map.rs:118-125 | the bucket lookup as written fails (the slice panics) exactly when the offset is set and lies past the end of the table; otherwise it agrees with `CellNexts` |
| SpatialHash.CellNexts | src/sort_map.rs:118-135 | a cell offers only other slots whose entry is in the cell's bucket; a bucket absent from the table offers nothing |
| SpatialHash.ScanNexts | src/sort_map.rs:108-139 | there is one candidate list per slot, and each is that slot's 3×3-block pass |
| SpatialHash.SortMap.Scan | src/sort_map.rs:101-140 | the visitor calls are exactly the passes of `ScanNexts`, slot by slot, and the `start`/`end` calls alternate `start(0), end(0), start(1), …`; the bucket lookup is the corrected `CellNexts` (a past-the-end offset is an absent bucket), which is the lookup as written whenever every offset is unset or within the table |
| SpatialHash.AsWrittenAgreesInRange | src/sort_map.rs:118-125 | when every offset is unset or at most the table length, the lookup as written never panics and gives the same candidates as `CellNexts` |
| SpatialHash.UpdateKeepsOffsetsInRange | src/sort_map.rs:85-98 | `update` keeps every offset unset or within the table |
| SpatialHash.GrowingResizeKeepsOffsetsInRange | src/sort_map.rs:37-40 | a `resize` that does not shrink keeps every offset unset or within the table |
| SpatialHash.SlotCandidates | src/sort_map.rs:115-138 | the loops of one slot's pass compute that slot's `PassNexts` |
| SpatialHash.PassCandidates | src/sort_map.rs:116-137 | the `cy` loop yields the three rows of the block, in increasing `y` |
| SpatialHash.RowCandidates | src/sort_map.rs:117-136 | the `cx` loop yields the three cells of a row, in increasing `x` |
| SpatialHash.CellCandidates | src/sort_map.rs:118-124 | the lookup skips a missing or `usize::MAX` offset and otherwise walks the run (past-the-end offsets are treated as absent; see Findings) |
| SpatialHash.WalkRun | src/sort_map.rs:125-135 | the entry loop skips slot `i`, stops at the first entry of another bucket, and offers the others in table order |
| Visitor.ProtocolBrackets | src/sort_map.rs:108-139 | every slot gets exactly one `start` and one `end`, in increasing slot order, with its `next` calls between them |
| SortMapProperties.EntryOfIndex | src/sort_map.rs:71-83 | every entry of the updated table is a slot below `len` carrying the bucket of that slot's cell |
| SortMapProperties.UpdatedTableIsPermutation | src/sort_map.rs:71-83 | after `update`, the table has one entry per slot: every slot occurs, no slot occurs twice, and each entry carries its slot's bucket |
| SortMapProperties.ScanOffersOnlyBlockBuckets | src/sort_map.rs:116-135 | every `next(j)` of slot `i`'s pass has `j != i` and `j` a slot whose bucket is the bucket of one of the nine cells around `i`'s cell |
| SortMapProperties.ScanMissesNoNeighbour | src/sort_map.rs:116-135 | directly after `update` with the same cells, every other slot whose cell lies in `i`'s 3×3 block is offered during `i`'s pass |
| SortMapProperties.CellOffersEntry | src/sort_map.rs:119-135 | an entry of a cell's bucket is reached by the walk from the recorded run start |
| SortMapProperties.AbsentOffsetsIrrelevant | src/sort_map.rs:89-97 | offsets of buckets absent from the table, whether stale or `usize::MAX`, do not change any pass |
| SortMapProperties.BlockOffersOnlyItsCells | src/sort_map.rs:116-117 | whatever a block pass offers comes from one of the nine cells of the block |
| SortMapProperties.BlockContains | src/sort_map.rs:116-117 | whatever one of the nine cells offers appears in the block pass |
| SortMapProperties.CollisionRepeatsCandidate | src/sort_map.rs:116-135 | two slots in one cell of a two-bucket table: slot 0's pass offers slot 1 five times |
| SortMapProperties.CollisionOffersDistantSlot | src/sort_map.rs:116-135 | a slot two cells away that shares the bucket is offered although it is not a neighbour |
| SortMapProperties.PairIndex | src/sort_map.rs:68-99 | the table and offsets `update` leaves when both slots of a two-slot table hash to bucket 0 |
| Objects.DefaultObject | src/object.rs:12 | the derived default has zero position, velocity, colour and padding |
| Objects.NewObjectAtZeroIsDefault | src/object.rs:12-29 | `Object::new` at the origin with black colour is the default object |
| Objects.NewObject | src/object.rs:21-29 | `Object::new` keeps `pos` and `color` and zeroes the velocity and the padding |
| Objects.FindScanner.constructor | src/object.rs:167-173 | a new scanner has the given selection, an empty result and no current slot |
| Objects.FindScanner.Start | src/object.rs:181-183 | `start(i)` makes `i` current and keeps the result |
| Objects.FindScanner.Next | src/object.rs:185-189 | `next(j)` appends `j` exactly when a current slot is set and equals the selection |
| Objects.FindScanner.End | src/object.rs:191 | `end` changes nothing |
| Objects.FindScanner.IntoFindResult | src/object.rs:175-177 | `into_find_result` yields exactly the candidates collected so far |
| Objects.Collect | src/bin/sender.rs:157-185 | driving a fresh scanner through a trace and taking `into_find_result` gives the replayed state's result |
| Objects.ReplayNexts | src/object.rs:185-189 | within a pass, the `next` calls append their slots exactly when the current slot is the selected one |
| Objects.CollectsSelectedPass | src/object.rs:175-177 | over a whole scan, the result is exactly the candidates of the selected slot's pass, in order, and nothing for a selection out of range |
| Objects.NoSelectionCollectsNothing | src/object.rs:185-189 | with no selection, the result stays empty whatever the calls |
| Wire.ControlRecord | src/bin/sender.rs:231-234 | the control datagram has index 0 and decodes to the object count |
| Wire.DataRecord | src/bin/sender.rs:237-240 | slot `s` goes out with index `s + 1`, which is never 0, and decodes to `s` |
| Wire.DataRecordRoundTrip | src/bin/receiver.rs:102-119 | the receiver reads a data datagram back as the slot and object it was built from, never as a control datagram |
| Wire.ControlCount | src/bin/receiver.rs:104-105 | the count of a control datagram is its first payload word |
| Wire.DataSlot | src/bin/receiver.rs:119 | a data datagram with index `i != 0` addresses slot `i - 1`, which fits a `usize` |
| Wire.DataSlotRoundTrip | src/bin/receiver.rs:102-119 | re-encoding the decoded slot and object gives back the datagram |
| Wire.ControlCountRoundTrip | src/bin/receiver.rs:103-105 | a control datagram is rebuilt from the count it decodes to |
| Wire.DataRecordInjective | src/bin/sender.rs:237-240 | distinct slots or objects give distinct datagrams |
| Sender.BurstEnd | src/bin/sender.rs:236 | `skip(n).take(burst)` covers at most `burst` slots, ending at `n + burst` or at the end of the table |
| Sender.TickRecords | src/bin/sender.rs:228-241 | a tick sends the control datagram first, then the data datagrams of slots `n, n+1, …` in ascending order |
| Sender.NextCursor | src/bin/sender.rs:242-245 | the new cursor is `n + burst` when that is below the length, and 0 otherwise |
| Sender.EncodeTick | src/bin/sender.rs:228-245 | the tick's loop sends exactly `TickRecords` and leaves the cursor at `NextCursor` |
| Sender.Ticks | src/bin/sender.rs:193-245 | `k` ticks send at least `k` datagrams (a control datagram each) and, after at least one tick, leave the cursor at 0 or within the table |
| Sender.RunSender | src/bin/sender.rs:193-245 | successive ticks from cursor 0 send the concatenation of their ticks' datagrams |
| Sender.CursorAdvances | src/bin/sender.rs:242-245 | before the wrap, tick `k` starts at cursor `k * burst` |
| Sender.Bursts | src/bin/sender.rs:236-241 | the datagrams of a burst are those of slots `n … e-1`, in order |
| Sender.TickData | src/bin/sender.rs:228-241 | the data datagrams of a tick are exactly its burst |
| Sender.SlotsProgress | src/bin/sender.rs:236-245 | before the wrap, the first `k` ticks have sent the slots below `k * burst`, each once, in order |
| Sender.TicksSendEverySlotOnce | src/bin/sender.rs:236-245 | from cursor 0, `ceil(N / burst)` ticks send every slot exactly once in slot order and bring the cursor back to 0 |
| Sender.CursorWraps | src/bin/sender.rs:242-245 | the cursor is 0 again after `ceil(N / burst)` ticks |
| Sender.Others | src/bin/sender.rs:217-222 | the inner brute-force loop offers exactly the slots other than `i`, strictly increasing |
| Sender.AllOthers | src/bin/sender.rs:215-224 | there is one list per slot, each holding all the other slots |
| Sender.BruteForceScan | src/bin/sender.rs:215-224 | the brute-force loop makes the calls of the scan whose candidates are all other slots, in ascending order |
| Sender.OthersPass | src/bin/sender.rs:216-223 | one slot's brute-force pass is `start(i)`, then `next(j)` for every `j != i` ascending, then `end(i)` |
| Sender.IndexedPasses | src/bin/sender.rs:207-213 | rebuilding the index and then running the two scans gives the boid pass the index-time scan's calls, and gives the find pass the selected slot's candidates (the receiver's lines 148-154 are the same) |
| Sender.SimulationPasses | src/bin/sender.rs:202-226 | with the index on, it rebuilds the index, the boid pass gets the scan's calls and the find result is the selected slot's candidates in the second scan; with it off, the boid pass gets the brute-force calls, the find result is cleared and the index is untouched |
| Receiver.Apply | src/bin/receiver.rs:100-127 | a control datagram resizes the mirror to its count (old prefix kept, new slots default); an in-range data datagram replaces only its slot; an out-of-range one changes nothing |
| Receiver.ApplyIdempotent | src/bin/receiver.rs:118-120 | a datagram applied twice has the effect of applying it once |
| Receiver.ApplyDataCommutes | src/bin/receiver.rs:118-120 | data datagrams for different slots give the same mirror in either order |
| Receiver.ApplyBurst | src/bin/receiver.rs:118-120 | a burst overwrites exactly the slots it carries |
| Receiver.ApplyTick | src/bin/receiver.rs:103-127 | after a tick, the mirror has the sender's length, holds the burst's objects, and elsewhere keeps its old value or the default |
| Receiver.MirrorProgress | src/bin/receiver.rs:103-127 | before the wrap, after `k` ticks the mirror holds the sender's objects below `k * burst` |
| Receiver.SenderRebuildsMirror | src/bin/receiver.rs:103-127 | round trip: from cursor 0, after `ceil(N / burst)` ticks the mirror equals the sender's objects, whatever it held before, and the cursor is 0 |
| Receiver.ScanWithinBruteForce | src/bin/receiver.rs:156-165 | every candidate of a spatial pass is also offered by the brute-force loop |
| Receiver.ScanAgreesOnNeighbours | src/bin/receiver.rs:156-165 | directly after `update`, a neighbour in the 3×3 block is offered by the spatial pass exactly when the brute-force loop offers it |
| Receiver.Receiver.constructor | src/bin/receiver.rs:55-64 | the receiver starts with an empty mirror, an empty index, no find result and no selection |
| Receiver.Receiver.Receive | src/bin/receiver.rs:96-127 | one received datagram applies to the mirror; a control datagram also resizes the index to the same count; a data datagram leaves the index untouched |
| Receiver.Receiver.UpdateObjs | src/bin/receiver.rs:140-168 | with the index on, it rebuilds the index; the boid pass gets the scan's calls and the find result is the selected slot's candidates in the second scan; with it off, the boid pass gets the brute-force calls and the find result is kept |
| Receiver.LastSlotRunStart | src/sort_map.rs:85-98 | after `update` over four slots of which only the last lies in bucket 1, bucket 1's offset is 3 |
| Receiver.PairLeavesBucketOneEmpty | src/sort_map.rs:71-83 | two slots in one cell of a two-slot table leave bucket 1 empty |
| Receiver.ShrinkThenScanAsWritten | src/bin/receiver.rs:103-113 | shrinking from four objects to two and updating leaves bucket 1 with the stale offset 3; the lookup as written then slices past the end |
| Receiver.ShrinkThenScanCorrected | src/sort_map.rs:118-135 | in the same run, with past-the-end offsets treated as absent, slot 0's pass still offers its cell-mate, slot 1 |

## Left out

- `BoidScanner` and `Object::time_step` are floating-point physics with random jitter. The `end` call is modelled as an event that changes no object, so `Receiver.Receiver.UpdateObjs` keeps the mirror unchanged.
- Grid cells are inputs, because `div_euclid(CELL_SIZE)` works on `f64` positions. `Receiver.Receiver.UpdateObjs` therefore takes the cells at index time and the cells the find pass sees after the boid pass as two parameters.
- SpatialHash.Hash: does not model the `i32` overflow of `gx + gy*32121` or of `len as i32`, because keys and lengths are unbounded integers here.
- SpatialHash.SortMap.Update: requires the table length to equal the number of cells. With unequal lengths the source misbehaves: a longer table keeps stale entries, which are sorted and searched and can make `scan` index `objs` with a stale slot (src/sort_map.rs:132) and panic; more cells than table entries can make `start_offsets[i]` (line 90) go out of bounds when a rewritten entry's bucket is at least the table length; otherwise the extra slots are never indexed and are offered to no pass, and an empty table leaves every pass without candidates. Only the unlocked gap between src/bin/receiver.rs:110 and :111 can make the lengths differ, and that concurrency is not modelled.
- SpatialHash.SortMap.Scan: the visitor receives only the slot index `j`, not `objs[j]`, because the objects are opaque.
- SpatialHash.SortByHash: an insertion sort stands in for `sort_unstable_by_key`. Only "sorted and a permutation" is promised, which is all the source relies on; the order within a bucket is unspecified.
- SpatialHash.BinarySearchByHash: a binary search stands in for `binary_search_by_key`. It promises some index of the bucket, and the backward walk makes the choice irrelevant.
- Sender.RunSender: runs a given number of ticks instead of looping until the exit signal, with a fixed table between ticks. The boid pass between ticks is not modelled.
- Sender.NextCursor: `n += burst` is unbounded here; `usize` overflow of the cursor is not modelled.
- The sender's passes are modelled as `Sender.SimulationPasses` on the sender's own index, and the receiver's as `Receiver.Receiver.UpdateObjs`; both use `Sender.IndexedPasses`. Only the sender clears the find result when the index is off (line 225); the receiver's clear (src/bin/receiver.rs:167) is commented out, so `UpdateObjs` keeps it.
- Sockets, sleeps, threads, mutexes, atomics, the exit signal and the byte and tick counters (`amt`, `total_amt`, `t`) are I/O and concurrency. The receiver resizes the mirror and the index under two separate locks, so a concurrent `update_objs` between them is not modelled.
- The zerocopy byte layout is left out: datagrams are `(index word, object)` pairs. The control datagram's count is read from the first payload word of the zeroed receive buffer. The unchecked received length `amt1` is not modelled.
- User interface code is not part of this model: rendering, `render_grid`, click-to-select, `src/object_wrap.rs` colour fading, `src/lib.rs` constants and clap argument parsing.

## Findings

| source | as written | input that shows it | evidently intended | confidence | as-written member | corrected member |
|---|---|---|---|---|---|---|
| src/sort_map.rs:125 | `scan` slices `&self.hash_table[cell_start..]` with the stored offset. `resize` (lines 37-40) keeps old offsets when shrinking, and `update` (lines 89-97) never resets the offset of an absent bucket, so an offset can exceed the new table length and the slice panics. | The receiver gets count 4, then `update` with cells (0,0), (0,0), (0,0), (1,0), which sets offset 3 for bucket 1. It then gets count 2, then `update` with cells (0,0), (0,0): bucket 1 is now absent and keeps offset 3. Slot 0's pass reaches cells in bucket 1, first (0,-1) and later (1,0), and slices `hash_table[3..]` of a 2-entry table. | An offset of a bucket that is absent from the table contributes no candidates. | high; not executed | Receiver.ShrinkThenScanAsWritten | Receiver.ShrinkThenScanCorrected |
