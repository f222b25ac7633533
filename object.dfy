/** The slot record of src/object.rs and its `FindScanner`, the visitor
    that collects the candidates the scan offers for one selected slot. */
module Objects {
  import opened RustStd
  import opened Visitor

  type Byte = x: int | 0 <= x < 256

  /** An `f64` kept as its 64-bit pattern: the core only copies these
      values, so no floating-point arithmetic is modelled. The pattern of
      `0.0` is the zero word. */
  type F64Bits = Word

  /** The five padding bytes that give the record its fixed 40-byte layout. */
  type Pad = s: seq<Byte> | |s| == 5 witness [0, 0, 0, 0, 0]

  const ZeroPad: Pad := [0, 0, 0, 0, 0]

  /** One simulated agent: position, velocity, colour and padding. It is both
      the slot of the table and the payload of a wire record. */
  datatype Object = Object(pos: (F64Bits, F64Bits), velo: (F64Bits, F64Bits),
                           color: (Byte, Byte, Byte), pad: Pad)

  /** `Object::default()`: every byte is zero. */
  function DefaultObject(): (o: Object)
    ensures o.pos == (0, 0) && o.velo == (0, 0) && o.color == (0, 0, 0)
    ensures forall k :: 0 <= k < 5 ==> o.pad[k] == 0
  {
    Object((0, 0), (0, 0), (0, 0, 0), ZeroPad)
  }

  /** `Object::new(pos, color)`: a resting agent at `pos` painted `color`. */
  function NewObject(pos: (F64Bits, F64Bits), color: (Byte, Byte, Byte)): (o: Object)
    ensures o.pos == pos && o.color == color
    ensures o.velo == DefaultObject().velo && o.pad == DefaultObject().pad
  {
    Object(pos, (0, 0), color, ZeroPad)
  }

  /** A new object at the zero position with the zero colour is the default
      object. */
  lemma NewObjectAtZeroIsDefault()
    ensures NewObject((0, 0), (0, 0, 0)) == DefaultObject()
  {
  }

  /** `FindScanner`: while the current slot is the selected one, every
      candidate offered by `next` is appended to `findResult`. */
  class FindScanner {
    const findIndex: Option<nat>
    var findResult: seq<nat>
    var i: Option<nat>

    constructor (findIndex: Option<nat>)
      ensures this.findIndex == findIndex && findResult == [] && i == None
    {
      this.findIndex := findIndex;
      findResult := [];
      i := None;
    }

    method Start(i: nat)
      modifies this
      ensures this.i == Some(i) && findResult == old(findResult)
    {
      this.i := Some(i);
    }

    method Next(j: nat)
      modifies this
      ensures i == old(i)
      ensures findResult == if i.Some? && i == findIndex then old(findResult) + [j]
                            else old(findResult)
    {
      if i.Some? && i == findIndex {
        findResult := findResult + [j];
      }
    }

    method End(i: nat)
      ensures unchanged(this)
    {
    }

    /** `into_find_result`: the indices appended by `next`, in the order
        they were appended. */
    function IntoFindResult(): (r: seq<nat>)
      reads this
      ensures r == findResult
    {
      findResult
    }
  }

  /** The state of a `FindScanner`: its current slot and what it collected. */
  datatype FindState = FindState(current: Option<nat>, found: seq<nat>)

  const Fresh := FindState(None, [])

  /** The effect of one visitor call on a `FindScanner` whose selection is
      `findIndex`. */
  function Step(findIndex: Option<nat>, st: FindState, e: Event): FindState
  {
    match e
    case Start(i) => FindState(Some(i), st.found)
    case Next(j) =>
      if st.current.Some? && st.current == findIndex then FindState(st.current, st.found + [j])
      else st
    case End(_) => st
  }

  /** The state of the scanner after the calls `trace`, starting in `st`. */
  function Replay(findIndex: Option<nat>, st: FindState, trace: seq<Event>): FindState
    decreases |trace|
  {
    if trace == [] then st
    else Step(findIndex, Replay(findIndex, st, trace[..|trace| - 1]), trace[|trace| - 1])
  }

  /** Drives a fresh `FindScanner` through the calls of a scan and returns
      `into_find_result()`. */
  method Collect(findIndex: Option<nat>, trace: seq<Event>) returns (found: seq<nat>)
    ensures found == Replay(findIndex, Fresh, trace).found
  {
    var scanner := new FindScanner(findIndex);
    for k := 0 to |trace|
      invariant FindState(scanner.i, scanner.findResult) == Replay(findIndex, Fresh, trace[..k])
    {
      assert trace[..k + 1][..k] == trace[..k];
      match trace[k]
      case Start(i) => scanner.Start(i);
      case Next(j) => scanner.Next(j);
      case End(i) => scanner.End(i);
    }
    assert trace[..|trace|] == trace;
    found := scanner.IntoFindResult();
  }

  /** The candidates of the selected slot's pass in a scan over `nexts`
      (none when nothing is selected or the selection is out of range). */
  function Selected(findIndex: Option<nat>, nexts: seq<seq<nat>>): seq<nat>
  {
    match findIndex
    case Some(s) => if s < |nexts| then nexts[s] else []
    case None => []
  }

  lemma {:induction false} ReplayAppend(findIndex: Option<nat>, st: FindState, a: seq<Event>, b: seq<Event>)
    ensures Replay(findIndex, st, a + b) == Replay(findIndex, Replay(findIndex, st, a), b)
    decreases |b|
  {
    if b == [] {
      assert a + b == a;
    } else {
      assert (a + b)[..|a + b| - 1] == a + b[..|b| - 1];
      ReplayAppend(findIndex, st, a, b[..|b| - 1]);
    }
  }

  /** Inside a pass, `next` appends exactly when the current slot is the
      selected one. */
  lemma {:induction false} ReplayNexts(findIndex: Option<nat>, st: FindState, js: seq<nat>)
    requires st.current.Some?
    ensures Replay(findIndex, st, NextEvents(js))
         == FindState(st.current, st.found + (if st.current == findIndex then js else []))
    decreases |js|
  {
    if js != [] {
      var e := NextEvents(js);
      assert e[..|e| - 1] == NextEvents(js[..|js| - 1]);
      ReplayNexts(findIndex, st, js[..|js| - 1]);
      assert js[..|js| - 1] + [js[|js| - 1]] == js;
    }
  }

  lemma ReplayPass(findIndex: Option<nat>, st: FindState, i: nat, js: seq<nat>)
    ensures Replay(findIndex, st, Pass(i, js))
         == FindState(Some(i), st.found + (if Some(i) == findIndex then js else []))
  {
    var st1 := Replay(findIndex, st, [Start(i)]);
    assert st1 == FindState(Some(i), st.found) by {
      assert [Start(i)][..0] == [];
      assert Replay(findIndex, st, []) == st;
    }
    ReplayAppend(findIndex, st, [Start(i)], NextEvents(js));
    ReplayNexts(findIndex, st1, js);
    ReplayAppend(findIndex, st, [Start(i)] + NextEvents(js), [End(i)]);
    assert [End(i)][..0] == [];
  }

  /** Over a whole scan, the scanner returns exactly the candidates of the
      selected slot's pass, in the order the scan offered them. */
  lemma {:induction false} CollectsSelectedPass(findIndex: Option<nat>, nexts: seq<seq<nat>>)
    ensures Replay(findIndex, Fresh, Protocol(nexts)).found == Selected(findIndex, nexts)
    ensures Replay(findIndex, Fresh, Protocol(nexts)).current
         == if nexts == [] then None else Some(|nexts| - 1)
    decreases |nexts|
  {
    if nexts != [] {
      var n := |nexts| - 1;
      CollectsSelectedPass(findIndex, nexts[..n]);
      ReplayAppend(findIndex, Fresh, Protocol(nexts[..n]), Pass(n, nexts[n]));
      ReplayPass(findIndex, Replay(findIndex, Fresh, Protocol(nexts[..n])), n, nexts[n]);
    }
  }

  /** With no selection nothing is ever collected, whatever the calls. */
  lemma {:induction false} NoSelectionCollectsNothing(trace: seq<Event>)
    ensures Replay(None, Fresh, trace).found == []
    decreases |trace|
  {
    if trace != [] {
      NoSelectionCollectsNothing(trace[..|trace| - 1]);
    }
  }
}
