/** The sending side of src/bin/sender.rs: every tick sends the object count
    and then a burst of slots starting at a cursor that wraps around; and
    the brute-force loop that visits every pair of slots. */
module Sender {
  import opened RustStd
  import opened Objects
  import opened Wire
  import opened Visitor
  import opened SpatialHash

  function Min(a: nat, b: nat): nat
  {
    if a <= b then a else b
  }

  /** The end of the burst `objs.iter().enumerate().skip(n).take(burst)`:
      the slots `n <= s < BurstEnd(n, burst, len)` are sent. */
  function BurstEnd(n: nat, burst: nat, len: nat): (e: nat)
    ensures n <= e && (n < len ==> e <= len)
    ensures e - n <= burst
    ensures n < len ==> (e == len || e == n + burst)
  {
    if n < len then Min(n + burst, len) else n
  }

  /** The datagrams of one tick with cursor `n` (lines 228-241): the control
      datagram, then the data datagram of every slot of the burst, in slot
      order. */
  function TickRecords(objs: seq<Object>, n: nat, burst: nat): (r: seq<Record>)
    requires |objs| <= UsizeMax
    ensures |r| == 1 + BurstEnd(n, burst, |objs|) - n
    ensures r[0] == ControlRecord(|objs|)
    ensures forall k :: 1 <= k < |r| ==> n + k - 1 < |objs| && r[k] == DataRecord(n + k - 1, objs[n + k - 1])
  {
    var e := BurstEnd(n, burst, |objs|);
    [ControlRecord(|objs|)] + seq(e - n, k requires 0 <= k < e - n => DataRecord(n + k, objs[n + k]))
  }

  /** Lines 242-245: the cursor advances by a burst and wraps to 0 once it
      reaches the end. */
  function NextCursor(n: nat, burst: nat, len: nat): (m: nat)
    ensures m == 0 || (m == n + burst && m < len)
  {
    if len <= n + burst then 0 else n + burst
  }

  /** One tick of `sender_thread` (lines 228-245): the datagrams sent and the
      cursor for the next tick. */
  method EncodeTick(objs: seq<Object>, n: nat, burst: nat) returns (records: seq<Record>, next: nat)
    requires |objs| <= UsizeMax
    ensures records == TickRecords(objs, n, burst)
    ensures next == NextCursor(n, burst, |objs|)
  {
    records := [ControlRecord(|objs|)];
    var e := BurstEnd(n, burst, |objs|);
    var i := n;
    while i < e
      invariant n <= i <= e
      invariant records == TickRecords(objs, n, burst)[..1 + i - n]
    {
      records := records + [DataRecord(i, objs[i])];
      i := i + 1;
    }
    next := n + burst;
    if |objs| <= next {
      next := 0;
    }
  }

  /** The datagrams of `k` ticks of `sender_thread` starting at cursor `n`,
      and the cursor after them. Every tick sends at least its control
      datagram, and after a tick the cursor is 0 or inside the table. */
  function Ticks(objs: seq<Object>, burst: nat, n: nat, k: nat): (r: (seq<Record>, nat))
    requires |objs| <= UsizeMax
    ensures |r.0| >= k
    ensures k > 0 ==> r.1 == 0 || r.1 < |objs|
  {
    if k == 0 then ([], n)
    else
      var (records, m) := Ticks(objs, burst, n, k - 1);
      (records + TickRecords(objs, m, burst), NextCursor(m, burst, |objs|))
  }

  /** `sender_thread` for `ticks` ticks, from the initial cursor 0. */
  method RunSender(objs: seq<Object>, burst: nat, ticks: nat) returns (sent: seq<Record>, n: nat)
    requires |objs| <= UsizeMax
    ensures (sent, n) == Ticks(objs, burst, 0, ticks)
  {
    sent, n := [], 0;
    for t := 0 to ticks
      invariant (sent, n) == Ticks(objs, burst, 0, t)
    {
      var records, next := EncodeTick(objs, n, burst);
      sent, n := sent + records, next;
    }
  }

  /** The cursor stays a multiple of the burst below the end: tick `k`
      before the wrap starts at `k * burst`. */
  lemma {:induction false} CursorAdvances(objs: seq<Object>, burst: nat, k: nat)
    requires |objs| <= UsizeMax && k * burst < |objs|
    ensures Ticks(objs, burst, 0, k).1 == k * burst
  {
    if k > 0 {
      assert (k - 1) * burst == k * burst - burst;
      CursorAdvances(objs, burst, k - 1);
    }
  }

  /** The data datagrams of the slots `n <= s < e`, in slot order. */
  function Bursts(objs: seq<Object>, n: nat, e: nat): (r: seq<Record>)
    requires n <= e <= |objs| <= UsizeMax
    ensures |r| == e - n
    ensures forall k :: 0 <= k < |r| ==> r[k] == DataRecord(n + k, objs[n + k])
  {
    seq(e - n, k requires 0 <= k < e - n => DataRecord(n + k, objs[n + k]))
  }

  lemma BurstsConcat(objs: seq<Object>, a: nat, b: nat, c: nat)
    requires a <= b <= c <= |objs| <= UsizeMax
    ensures Bursts(objs, a, b) + Bursts(objs, b, c) == Bursts(objs, a, c)
  {
  }

  /** The data datagrams among `rs`, in order. */
  function DataRecords(rs: seq<Record>): seq<Record>
    decreases |rs|
  {
    if rs == [] then []
    else DataRecords(rs[..|rs| - 1]) + (if rs[|rs| - 1].index != 0 then [rs[|rs| - 1]] else [])
  }

  lemma {:induction false} DataRecordsAppend(a: seq<Record>, b: seq<Record>)
    ensures DataRecords(a + b) == DataRecords(a) + DataRecords(b)
    decreases |b|
  {
    if b == [] {
      assert a + b == a;
    } else {
      assert (a + b)[..|a + b| - 1] == a + b[..|b| - 1];
      DataRecordsAppend(a, b[..|b| - 1]);
    }
  }

  lemma {:induction false} DataRecordsOfBursts(objs: seq<Object>, n: nat, e: nat)
    requires n <= e <= |objs| <= UsizeMax
    ensures DataRecords(Bursts(objs, n, e)) == Bursts(objs, n, e)
    decreases e - n
  {
    if n < e {
      var rs := Bursts(objs, n, e);
      var front := Bursts(objs, n, e - 1);
      assert rs[..|rs| - 1] == front;
      assert rs[|rs| - 1].index != 0;
      DataRecordsOfBursts(objs, n, e - 1);
      assert rs == front + [rs[|rs| - 1]];
    }
  }

  /** The data datagrams of one tick are its burst. */
  lemma TickData(objs: seq<Object>, n: nat, burst: nat)
    requires |objs| <= UsizeMax && n <= |objs|
    ensures DataRecords(TickRecords(objs, n, burst)) == Bursts(objs, n, BurstEnd(n, burst, |objs|))
  {
    var e := BurstEnd(n, burst, |objs|);
    var control := [ControlRecord(|objs|)];
    assert TickRecords(objs, n, burst) == control + Bursts(objs, n, e);
    DataRecordsAppend(control, Bursts(objs, n, e));
    assert DataRecords(control) == [] by {
      assert control[..0] == [];
    }
    DataRecordsOfBursts(objs, n, e);
  }

  lemma TicksStep(objs: seq<Object>, burst: nat, k: nat)
    requires |objs| <= UsizeMax && 1 <= k
    ensures Ticks(objs, burst, 0, k).0 == Ticks(objs, burst, 0, k - 1).0 + TickRecords(objs, Ticks(objs, burst, 0, k - 1).1, burst)
    ensures Ticks(objs, burst, 0, k).1 == NextCursor(Ticks(objs, burst, 0, k - 1).1, burst, |objs|)
  {
  }

  /** While the cursor has not wrapped, the first `k` ticks have sent the
      slots below `k * burst`, each once, in slot order. */
  lemma {:induction false} SlotsProgress(objs: seq<Object>, burst: nat, k: nat)
    requires |objs| <= UsizeMax && (k == 0 || (k - 1) * burst < |objs|)
    ensures DataRecords(Ticks(objs, burst, 0, k).0) == Bursts(objs, 0, Min(k * burst, |objs|))
  {
    if k > 0 {
      assert k - 1 == 0 || (k - 2) * burst == (k - 1) * burst - burst;
      SlotsProgress(objs, burst, k - 1);
      NextTickSlots(objs, burst, k);
    }
  }

  lemma NextTickSlots(objs: seq<Object>, burst: nat, k: nat)
    requires |objs| <= UsizeMax && 1 <= k && (k - 1) * burst < |objs|
    requires DataRecords(Ticks(objs, burst, 0, k - 1).0) == Bursts(objs, 0, Min((k - 1) * burst, |objs|))
    ensures DataRecords(Ticks(objs, burst, 0, k).0) == Bursts(objs, 0, Min(k * burst, |objs|))
  {
    var w := (k - 1) * burst;
    assert k * burst == w + burst;
    var previous := Ticks(objs, burst, 0, k - 1).0;
    TicksStep(objs, burst, k);
    if k > 1 {
      CursorAdvances(objs, burst, k - 1);
    }
    assert Ticks(objs, burst, 0, k - 1).1 == w;
    DataRecordsAppend(previous, TickRecords(objs, w, burst));
    TickData(objs, w, burst);
    BurstsConcat(objs, 0, w, BurstEnd(w, burst, |objs|));
  }

  /** `ceil(len / burst)`: the number of ticks after which the cursor wraps. */
  lemma TicksToWrap(len: nat, burst: nat) returns (k: nat)
    requires 0 < burst && 0 < len
    ensures k == (len + burst - 1) / burst
    ensures 1 <= k && (k - 1) * burst < len <= k * burst
    ensures len <= (k - 1) * burst + burst
  {
    k := (len + burst - 1) / burst;
    var r := (len + burst - 1) % burst;
    assert len + burst - 1 == k * burst + r;
    assert k * burst >= len;
    assert (k - 1) * burst == k * burst - burst < len;
  }

  /** From cursor 0, `ceil(N / burst)` ticks send every slot exactly once, in
      slot order, and bring the cursor back to 0. */
  lemma TicksSendEverySlotOnce(objs: seq<Object>, burst: nat)
    requires 0 < burst && 0 < |objs| <= UsizeMax
    ensures var (sent, n) := Ticks(objs, burst, 0, (|objs| + burst - 1) / burst);
      n == 0 && |DataRecords(sent)| == |objs| &&
      forall s :: 0 <= s < |objs| ==> DataRecords(sent)[s] == DataRecord(s, objs[s])
  {
    var k := TicksToWrap(|objs|, burst);
    SlotsProgress(objs, burst, k);
    CursorWraps(objs, burst);
  }

  /** The cursor is back at 0 after `ceil(N / burst)` ticks. */
  lemma CursorWraps(objs: seq<Object>, burst: nat)
    requires 0 < burst && 0 < |objs| <= UsizeMax
    ensures Ticks(objs, burst, 0, (|objs| + burst - 1) / burst).1 == 0
  {
    var k := TicksToWrap(|objs|, burst);
    var w := (k - 1) * burst;
    TicksStep(objs, burst, k);
    if k > 1 {
      CursorAdvances(objs, burst, k - 1);
    }
    assert Ticks(objs, burst, 0, k - 1).1 == w;
    assert NextCursor(w, burst, |objs|) == 0;
  }

  // ---------------------------------------------------------------------
  // The brute-force loop

  /** The slots other than `i` among the first `m`, in increasing order. */
  function Others(i: nat, m: nat): (r: seq<nat>)
    ensures forall j: nat :: j in r <==> j < m && j != i
    ensures forall p, q :: 0 <= p < q < |r| ==> r[p] < r[q]
  {
    if m == 0 then []
    else if m - 1 == i then Others(i, m - 1)
    else
      var prev := Others(i, m - 1);
      assert forall p :: 0 <= p < |prev| ==> prev[p] in prev;
      prev + [m - 1]
  }

  /** For every slot, all the other slots. */
  function AllOthers(len: nat): (r: seq<seq<nat>>)
    ensures |r| == len && forall i :: 0 <= i < len ==> r[i] == Others(i, len)
  {
    seq(len, i requires 0 <= i < len => Others(i, len))
  }

  /** Lines 215-224 (and lines 156-165 of the receiver): every slot `i`
      visits every other slot `j` in increasing order. */
  method BruteForceScan(len: nat) returns (trace: seq<Event>)
    ensures trace == Protocol(AllOthers(len))
  {
    ghost var nexts := AllOthers(len);
    trace := [];
    for i := 0 to len
      invariant trace == Protocol(nexts[..i])
    {
      var pass := OthersPass(i, len);
      trace := trace + pass;
      assert nexts[..i + 1][..i] == nexts[..i];
    }
    assert nexts[..len] == nexts;
  }

  /** The inner loop of the brute-force scan for slot `i`. */
  method OthersPass(i: nat, len: nat) returns (pass: seq<Event>)
    ensures pass == Pass(i, Others(i, len))
  {
    var calls: seq<Event> := [];
    ghost var js: seq<nat> := [];
    for j := 0 to len
      invariant js == Others(i, j)
      invariant calls == NextEvents(js)
    {
      if i == j {
        continue;
      }
      NextEventsSnoc(js, j);
      calls := calls + [Next(j)];
      js := js + [j];
    }
    pass := [Start(i)] + calls + [End(i)];
  }

  // ---------------------------------------------------------------------
  // The passes before each tick

  /** Lines 207-213 (and lines 148-154 of the receiver): rebuild the index,
      run the boid pass and then the find pass over it. */
  method IndexedPasses(m: SortMap, cells: seq<Cell>, movedCells: seq<Cell>, selected: Option<nat>)
    returns (boidTrace: seq<Event>, found: seq<nat>)
    requires m.Valid() && m.hashTable.Length == |cells| == |movedCells|
    modifies m.hashTable, m.startOffsets
    ensures var t, o := m.hashTable[..], m.startOffsets[..];
      IsIndexOf(t, cells) && OffsetsUpdated(old(m.startOffsets[..]), o, t) &&
      boidTrace == Protocol(ScanNexts(t, o, cells)) &&
      found == Selected(selected, ScanNexts(t, o, movedCells))
  {
    m.Update(cells);
    boidTrace := m.Scan(cells);
    var findTrace := m.Scan(movedCells);
    found := Collect(selected, findTrace);
    CollectsSelectedPass(selected, ScanNexts(m.hashTable[..], m.startOffsets[..], movedCells));
  }

  /** Lines 202-226: the passes `sender_thread` runs before sending. With
      the index on, the boid pass gets the scan's calls and the find result
      is the selected slot's candidates; with it off, the boid pass gets the
      brute-force calls and the find result is cleared. The result is the
      calls the boid pass receives and the new find result. */
  method SimulationPasses(m: SortMap, useSortMap: bool, cells: seq<Cell>, movedCells: seq<Cell>,
                          selected: Option<nat>) returns (boidTrace: seq<Event>, findResult: seq<nat>)
    requires m.Valid() && m.hashTable.Length == |cells| == |movedCells|
    modifies m.hashTable, m.startOffsets
    ensures useSortMap ==>
      var t, o := m.hashTable[..], m.startOffsets[..];
      IsIndexOf(t, cells) && OffsetsUpdated(old(m.startOffsets[..]), o, t) &&
      boidTrace == Protocol(ScanNexts(t, o, cells)) &&
      findResult == Selected(selected, ScanNexts(t, o, movedCells))
    ensures !useSortMap ==>
      boidTrace == Protocol(AllOthers(|cells|)) && findResult == [] &&
      unchanged(m.hashTable) && unchanged(m.startOffsets)
  {
    if useSortMap {
      boidTrace, findResult := IndexedPasses(m, cells, movedCells, selected);
    } else {
      boidTrace := BruteForceScan(|cells|);
      findResult := [];
    }
  }

  lemma NextEventsSnoc(js: seq<nat>, j: nat)
    ensures NextEvents(js + [j]) == NextEvents(js) + [Next(j)]
  {
  }
}
