/**
  The traversal worker (`TraversalWorker` in workers.py): it visits the
  graph's nodes one after the other, emitting `nodeVisited` and then
  `progressUpdated` for each, stops early once its `_is_running` flag is
  false, and always ends with `finished`.

  The emitted signals are the sequence `Emission`s the run returns. The
  worker runs on its own thread and `stop()` is called from another one; the
  only effect that interleaving has on a run is the iteration before whose
  flag check the other thread's `stop()` lands, which `Run` receives as
  `stopAt`.
 */
module Workers {
  import opened Wrappers
  import opened GraphModel

  datatype Emission = NodeVisited(node: int) | ProgressUpdated(percent: int) | Finished

  /**
    The progress value after the (i+1)-th of `total` nodes,
    `int((i + 1) / total * 100)`, taken on integers.
   */
  function Progress(i: nat, total: nat): (p: int)
    requires i < total
    ensures 0 <= p <= 100
    ensures i + 1 == total ==> p == 100
  {
    DivMonotone((i + 1) * 100, total * 100, total);
    DivExact(100, total);
    (i + 1) * 100 / total
  }

  /** Later steps never report less progress. */
  lemma ProgressMonotone(i: nat, j: nat, total: nat)
    requires i <= j < total
    ensures Progress(i, total) <= Progress(j, total)
  {
    DivMonotone((i + 1) * 100, (j + 1) * 100, total);
  }

  lemma MulMonotone(x: int, y: int, d: nat)
    requires x <= y
    ensures x * d <= y * d
  {
  }

  /** Integer division by a positive number is monotone. */
  lemma DivMonotone(a: nat, b: nat, d: nat)
    requires a <= b && d > 0
    ensures a / d <= b / d
  {
    var qa, ra := a / d, a % d;
    var qb, rb := b / d, b % d;
    assert a == qa * d + ra && 0 <= ra < d;
    assert b == qb * d + rb && 0 <= rb < d;
    if qa > qb {
      MulMonotone(qb + 1, qa, d);
    }
  }

  lemma DivExact(c: nat, d: nat)
    requires d > 0
    ensures (c * d) / d == c
  {
    var q, r := (c * d) / d, (c * d) % d;
    assert c * d == q * d + r && 0 <= r < d;
    if q < c {
      MulMonotone(q + 1, c, d);
    } else if q > c {
      MulMonotone(c + 1, q, d);
    }
  }

  /** The signals of the first `k` loop iterations over `nodes`. */
  function Trace(nodes: seq<int>, k: nat): (out: seq<Emission>)
    requires k <= |nodes|
    ensures |out| == 2 * k
    decreases k
  {
    if k == 0 then []
    else Trace(nodes, k - 1) + [NodeVisited(nodes[k - 1]), ProgressUpdated(Progress(k - 1, |nodes|))]
  }

  /**
    Iteration j emits the visit of the j-th node and right after it the
    progress value of step j.
   */
  lemma {:induction false} TraceAt(nodes: seq<int>, k: nat, j: nat)
    requires j < k <= |nodes|
    ensures Trace(nodes, k)[2 * j] == NodeVisited(nodes[j])
    ensures Trace(nodes, k)[2 * j + 1] == ProgressUpdated(Progress(j, |nodes|))
    decreases k
  {
    if j < k - 1 {
      TraceAt(nodes, k - 1, j);
    }
  }

  /** The nodes reported by `nodeVisited`, in order. */
  function Visits(out: seq<Emission>): seq<int>
  {
    if out == [] then []
    else (if out[0].NodeVisited? then [out[0].node] else []) + Visits(out[1..])
  }

  /** The values reported by `progressUpdated`, in order. */
  function Percents(out: seq<Emission>): seq<int>
  {
    if out == [] then []
    else (if out[0].ProgressUpdated? then [out[0].percent] else []) + Percents(out[1..])
  }

  lemma {:induction false} VisitsAppend(a: seq<Emission>, b: seq<Emission>)
    ensures Visits(a + b) == Visits(a) + Visits(b)
  {
    if a != [] {
      VisitsAppend(a[1..], b);
      assert (a + b)[0] == a[0] && (a + b)[1..] == a[1..] + b;
      assert Visits(a + b) == Visits([a[0]]) + Visits(a[1..] + b);
    } else {
      assert a + b == b;
    }
  }

  lemma {:induction false} PercentsAppend(a: seq<Emission>, b: seq<Emission>)
    ensures Percents(a + b) == Percents(a) + Percents(b)
  {
    if a != [] {
      PercentsAppend(a[1..], b);
      assert (a + b)[0] == a[0] && (a + b)[1..] == a[1..] + b;
      assert Percents(a + b) == Percents([a[0]]) + Percents(a[1..] + b);
    } else {
      assert a + b == b;
    }
  }

  /** The first `k` iterations visit exactly the first `k` nodes, in list order. */
  lemma {:induction false} TraceVisits(nodes: seq<int>, k: nat)
    requires k <= |nodes|
    ensures Visits(Trace(nodes, k)) == nodes[..k]
    decreases k
  {
    if k > 0 {
      TraceVisits(nodes, k - 1);
      var visit, progress := NodeVisited(nodes[k - 1]), ProgressUpdated(Progress(k - 1, |nodes|));
      assert Trace(nodes, k) == Trace(nodes, k - 1) + [visit, progress];
      VisitsAppend(Trace(nodes, k - 1), [visit, progress]);
      VisitsAppend([visit], [progress]);
      assert [visit] + [progress] == [visit, progress];
      assert Visits([visit]) == [nodes[k - 1]] by { assert [visit][1..] == []; }
      assert Visits([progress]) == [] by { assert [progress][1..] == []; }
      assert nodes[..k] == nodes[..k - 1] + [nodes[k - 1]];
    }
  }

  /** The progress values of the first `k` iterations are `Progress(0), ..., Progress(k-1)`. */
  lemma {:induction false} TracePercents(nodes: seq<int>, k: nat)
    requires k <= |nodes|
    ensures |Percents(Trace(nodes, k))| == k
    ensures forall j :: 0 <= j < k ==> Percents(Trace(nodes, k))[j] == Progress(j, |nodes|)
    decreases k
  {
    if k > 0 {
      TracePercents(nodes, k - 1);
      var p := Progress(k - 1, |nodes|);
      var visit, progress := NodeVisited(nodes[k - 1]), ProgressUpdated(p);
      assert Trace(nodes, k) == Trace(nodes, k - 1) + [visit, progress];
      PercentsAppend(Trace(nodes, k - 1), [visit, progress]);
      PercentsAppend([visit], [progress]);
      assert [visit] + [progress] == [visit, progress];
      assert Percents([visit]) == [] by { assert [visit][1..] == []; }
      assert Percents([progress]) == [p] by { assert [progress][1..] == []; }
    }
  }

  /**
    Every progress value lies in 0..100, the values never decrease, and a run
    over all N > 0 nodes ends its progress at 100.
   */
  lemma ProgressReport(nodes: seq<int>, k: nat)
    requires k <= |nodes|
    ensures var ps := Percents(Trace(nodes, k));
      && |ps| == k
      && (forall j :: 0 <= j < |ps| ==> 0 <= ps[j] <= 100)
      && (forall a, b :: 0 <= a <= b < |ps| ==> ps[a] <= ps[b])
      && (k == |nodes| && k > 0 ==> ps[k - 1] == 100)
  {
    TracePercents(nodes, k);
    var ps := Percents(Trace(nodes, k));
    forall a, b | 0 <= a <= b < |ps| ensures ps[a] <= ps[b] {
      ProgressMonotone(a, b, |nodes|);
    }
  }

  /** The loop itself never emits `finished`. */
  lemma TraceHasNoFinished(nodes: seq<int>, k: nat)
    requires k <= |nodes|
    ensures Finished !in Trace(nodes, k)
  {
    var out := Trace(nodes, k);
    forall i | 0 <= i < |out| ensures out[i] != Finished {
      var j := i / 2;
      assert i == 2 * j || i == 2 * j + 1;
      TraceAt(nodes, k, j);
    }
  }

  /** How many visit/progress pairs a run emits before `finished`. */
  function StepsRun(running: bool, stopAt: Option<nat>, n: nat): (k: nat)
    ensures k <= n
    ensures !running ==> k == 0
    ensures running && stopAt.Some? && stopAt.value < n ==> k == stopAt.value
    ensures k == n <==> n == 0 || (running && (stopAt.None? || stopAt.value >= n))
  {
    if !running then 0
    else if stopAt.Some? && stopAt.value < n then stopAt.value
    else n
  }

  /**
    What a run emits, for any flag state at the start and any point at which
    `stop()` lands: `finished` exactly once and last; before it, the visits
    of the first k nodes in list order, k being every node when the worker
    is never stopped and exactly `stopAt` when the flag is found false at
    iteration `stopAt`; a graph without nodes emits only `finished`.
   */
  lemma RunEmissions(nodes: seq<int>, running: bool, stopAt: Option<nat>)
    ensures var k := StepsRun(running, stopAt, |nodes|);
      var out := Trace(nodes, k) + [Finished];
      && out[|out| - 1] == Finished
      && Finished !in out[..|out| - 1]
      && Visits(out) == nodes[..k]
      && |Percents(out)| == k
      && (running && stopAt.None? ==> Visits(out) == nodes)
      && (|nodes| == 0 ==> out == [Finished])
  {
    var k := StepsRun(running, stopAt, |nodes|);
    var out := Trace(nodes, k) + [Finished];
    assert out[..|out| - 1] == Trace(nodes, k);
    TraceHasNoFinished(nodes, k);
    TraceVisits(nodes, k);
    TracePercents(nodes, k);
    VisitsAppend(Trace(nodes, k), [Finished]);
    PercentsAppend(Trace(nodes, k), [Finished]);
    assert Visits([Finished]) == [] by { assert [Finished][1..] == []; }
    assert Percents([Finished]) == [] by { assert [Finished][1..] == []; }
    assert nodes[..|nodes|] == nodes;
  }

  /** The traversal thread and its cancellation flag. */
  class TraversalWorker {
    const model: GrapheModel
    var isRunning: bool

    constructor (model: GrapheModel)
      ensures this.model == model && isRunning
    {
      this.model := model;
      isRunning := true;
    }

    /** `stop()`: clears the flag; nothing ever sets it again. */
    method Stop()
      modifies this
      ensures !isRunning
    {
      isRunning := false;
    }

    /**
      `run()`: over the node list taken at the start, emits a visit and a
      progress value per node until the flag is found false, then `finished`.
      `stopAt == Some(k)` means another thread's `stop()` takes effect just
      before iteration k checks the flag.
     */
    method Run(stopAt: Option<nat>) returns (emitted: seq<Emission>)
      modifies this
      ensures emitted == Trace(model.nodes, StepsRun(old(isRunning), stopAt, |model.nodes|)) + [Finished]
      ensures isRunning ==> old(isRunning)
    {
      var nodes := model.nodes;
      var totalNodes := |nodes|;
      emitted := [];
      for i := 0 to totalNodes
        invariant emitted == Trace(nodes, i)
        invariant isRunning == (old(isRunning) && !(stopAt.Some? && stopAt.value < i))
        invariant i > 0 ==> isRunning
      {
        if stopAt == Some(i) {
          Stop();
        }
        if !isRunning {
          break;
        }
        emitted := emitted + [NodeVisited(nodes[i])];
        emitted := emitted + [ProgressUpdated(Progress(i, totalNodes))];
      }
      emitted := emitted + [Finished];
    }
  }
}
