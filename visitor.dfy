/** The `UpdateScanner` protocol of src/sort_map.rs: a pass over the table
    calls `start(i)`, then `next(j)` for each candidate neighbour `j`, then
    `end(i)`, for every slot `i` in turn. A run of the protocol is modelled
    as the trace of calls it makes on the visitor. */
module Visitor {

  datatype Event = Start(i: nat) | Next(j: nat) | End(i: nat)

  /** The `next` calls for the candidates `js`, in order. */
  function NextEvents(js: seq<nat>): (r: seq<Event>)
    ensures |r| == |js|
    ensures forall k :: 0 <= k < |js| ==> r[k] == Next(js[k])
  {
    if js == [] then [] else [Next(js[0])] + NextEvents(js[1..])
  }

  /** The calls made for slot `i` whose candidates are `js`. */
  function Pass(i: nat, js: seq<nat>): seq<Event>
  {
    [Start(i)] + NextEvents(js) + [End(i)]
  }

  /** A whole scan: one pass per slot, slots in increasing order, where
      `nexts[i]` lists the candidates of slot `i`. */
  function Protocol(nexts: seq<seq<nat>>): seq<Event>
    decreases |nexts|
  {
    if nexts == [] then []
    else Protocol(nexts[..|nexts| - 1]) + Pass(|nexts| - 1, nexts[|nexts| - 1])
  }

  /** The `start` and `end` calls of a trace, in order. */
  function Brackets(trace: seq<Event>): seq<Event>
    decreases |trace|
  {
    if trace == [] then []
    else Brackets(trace[..|trace| - 1])
         + (if trace[|trace| - 1].Next? then [] else [trace[|trace| - 1]])
  }

  /** `start(0), end(0), start(1), end(1), ...`: the bracket calls of a scan
      over `n` slots. */
  function Alternating(n: nat): (r: seq<Event>)
    ensures |r| == 2 * n
  {
    if n == 0 then [] else Alternating(n - 1) + [Start(n - 1), End(n - 1)]
  }

  lemma {:induction false} BracketsAppend(a: seq<Event>, b: seq<Event>)
    ensures Brackets(a + b) == Brackets(a) + Brackets(b)
    decreases |b|
  {
    if b == [] {
      assert a + b == a;
    } else {
      var b' := b[..|b| - 1];
      assert (a + b)[..|a + b| - 1] == a + b';
      BracketsAppend(a, b');
    }
  }

  lemma {:induction false} BracketsOfNexts(js: seq<nat>)
    ensures Brackets(NextEvents(js)) == []
    decreases |js|
  {
    if js != [] {
      var e := NextEvents(js);
      assert e[..|e| - 1] == NextEvents(js[..|js| - 1]);
      BracketsOfNexts(js[..|js| - 1]);
    }
  }

  /** Every slot gets exactly one `start` and one `end`, slot after slot in
      increasing order: the `next` calls of slot `i` sit between them. */
  lemma {:induction false} ProtocolBrackets(nexts: seq<seq<nat>>)
    ensures Brackets(Protocol(nexts)) == Alternating(|nexts|)
    decreases |nexts|
  {
    if nexts != [] {
      var n := |nexts| - 1;
      ProtocolBrackets(nexts[..n]);
      BracketsAppend(Protocol(nexts[..n]), Pass(n, nexts[n]));
      BracketsAppend([Start(n)] + NextEvents(nexts[n]), [End(n)]);
      BracketsAppend([Start(n)], NextEvents(nexts[n]));
      BracketsOfNexts(nexts[n]);
      assert Brackets([Start(n)]) == [Start(n)] by {
        assert [Start(n)][..0] == [];
      }
      assert Brackets([End(n)]) == [End(n)] by {
        assert [End(n)][..0] == [];
      }
    }
  }
}
