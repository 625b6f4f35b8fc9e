/**
 The layering algorithm of Graph::verify, stated on values: which tasks enter which epoch, what
 becomes valid when, and how the epoch loop ends.  A task is a node reduced to the parameters on
 its In ports and on its Out ports; tasks are named by their index in the node list.
 */
module Scheduler {
  import opened Sequences

  datatype Task<P> = Task(ins: seq<P>, outs: seq<P>)

  // The tasks placed so far and the parameters valid so far.
  datatype Progress<P> = Progress(done: set<nat>, valid: set<P>)

  // How the epoch loop ends: every task placed, an epoch without a runnable task, or no epoch left.
  datatype Verdict = Scheduled | Stuck | TooDeep

  datatype Plan = Plan(rows: seq<seq<nat>>, verdict: Verdict)

  ghost predicate Runnable<P>(t: Task<P>, valid: set<P>) {
    forall p <- t.ins :: p in valid
  }

  ghost predicate AllDone(n: nat, done: set<nat>) {
    forall i: nat | i < n :: i in done
  }

  // Task i is not placed yet and all its inputs are valid.
  ghost predicate Placeable<P>(ts: seq<Task<P>>, s: Progress<P>, i: nat) {
    i < |ts| && i !in s.done && Runnable(ts[i], s.valid)
  }

  // The placeable tasks below `upTo`, in ascending order.
  ghost function Ready<P>(ts: seq<Task<P>>, s: Progress<P>, upTo: nat): seq<nat> {
    if upTo == 0 then []
    else Ready(ts, s, upTo - 1) + if Placeable(ts, s, upTo - 1) then [upTo - 1] else []
  }

  // One turn of the epoch loop: place the placeable tasks, then mark their outputs valid.
  ghost function Step<P>(ts: seq<Task<P>>, s: Progress<P>): Progress<P> {
    Progress(s.done + (set i: nat | i < |ts| && Placeable(ts, s, i)),
             s.valid + (set i: nat, p | i < |ts| && Placeable(ts, s, i) && p in ts[i].outs :: p))
  }

  // The epoch loop from state `s` with `left` epochs remaining.
  ghost function Layers<P>(ts: seq<Task<P>>, s: Progress<P>, left: nat): (plan: Plan)
    ensures |plan.rows| <= left
    decreases left
  {
    if AllDone(|ts|, s.done) then Plan([], Scheduled)
    else if left == 0 then Plan([], TooDeep)
    else
      var row := Ready(ts, s, |ts|);
      if row == [] then Plan([], Stuck)
      else
        var rest := Layers(ts, Step(ts, s), left - 1);
        Plan([row] + rest.rows, rest.verdict)
  }

  // The whole loop, entered with `valid` valid.
  ghost function Schedule<P>(ts: seq<Task<P>>, valid: set<P>, epochs: nat): Plan {
    Layers(ts, Progress({}, valid), epochs)
  }

  lemma {:induction false} InReady<P>(ts: seq<Task<P>>, s: Progress<P>, upTo: nat)
    ensures forall i: nat :: i in Ready(ts, s, upTo) <==> i < upTo && Placeable(ts, s, i)
    ensures Distinct(Ready(ts, s, upTo))
  {
    if upTo > 0 {
      InReady(ts, s, upTo - 1);
      DistinctConcat(Ready(ts, s, upTo - 1), if Placeable(ts, s, upTo - 1) then [upTo - 1] else []);
    }
  }

  // ---------------------------------------------------------------- the loop, epoch by epoch

  // The state after `e` turns.
  ghost function After<P>(ts: seq<Task<P>>, s: Progress<P>, e: nat): Progress<P> {
    if e == 0 then s else Step(ts, After(ts, s, e - 1))
  }

  lemma {:induction false} AfterShift<P>(ts: seq<Task<P>>, s: Progress<P>, e: nat)
    ensures After(ts, Step(ts, s), e) == After(ts, s, e + 1)
  {
    hide Step;
    if e > 0 {
      AfterShift(ts, s, e - 1);
    }
  }

  lemma {:induction false} AfterGrows<P>(ts: seq<Task<P>>, s: Progress<P>, d: nat, e: nat)
    requires d <= e
    ensures After(ts, s, d).done <= After(ts, s, e).done
    ensures After(ts, s, d).valid <= After(ts, s, e).valid
  {
    if d < e {
      AfterGrows(ts, s, d, e - 1);
    }
  }

  ghost predicate NothingPlaceable<P>(ts: seq<Task<P>>, s: Progress<P>) {
    forall i: nat | i < |ts| :: !Placeable(ts, s, i)
  }

  // Row e of a plan is the ready set of the state the loop is in after e turns.
  lemma {:induction false} RowIsReady<P>(ts: seq<Task<P>>, s: Progress<P>, left: nat, e: nat)
    requires e < |Layers(ts, s, left).rows|
    ensures Layers(ts, s, left).rows[e] == Ready(ts, After(ts, s, e), |ts|) != []
    decreases left
  {
    hide Step, Ready;
    if e > 0 {
      RowIsReady(ts, Step(ts, s), left - 1, e - 1);
      AfterShift(ts, s, e - 1);
    }
  }

  // The verdict says why the loop left the last state it reached.
  lemma {:induction false} VerdictIsWhy<P>(ts: seq<Task<P>>, s: Progress<P>, left: nat)
    ensures var plan := Layers(ts, s, left);
            var end := After(ts, s, |plan.rows|);
            match plan.verdict
            case Scheduled => AllDone(|ts|, end.done)
            case TooDeep => |plan.rows| == left && !AllDone(|ts|, end.done)
            case Stuck => |plan.rows| < left && !AllDone(|ts|, end.done) && NothingPlaceable(ts, end)
    decreases left
  {
    hide Step, Placeable;
    var plan := Layers(ts, s, left);
    if plan.rows != [] {
      VerdictIsWhy(ts, Step(ts, s), left - 1);
      AfterShift(ts, s, |plan.rows| - 1);
    } else {
      InReady(ts, s, |ts|);
    }
  }

  lemma {:induction false} InRow<P>(ts: seq<Task<P>>, valid: set<P>, epochs: nat, e: nat, i: nat)
    requires e < |Schedule(ts, valid, epochs).rows|
    ensures i in Schedule(ts, valid, epochs).rows[e] <==> Placeable(ts, After(ts, Progress({}, valid), e), i)
  {
    RowIsReady(ts, Progress({}, valid), epochs, e);
    InReady(ts, After(ts, Progress({}, valid), e), |ts|);
  }

  // ---------------------------------------------------------------- conservation

  lemma {:induction false} DoneWasPlaced<P>(ts: seq<Task<P>>, valid: set<P>, e: nat, i: nat) returns (d: nat)
    requires i in After(ts, Progress({}, valid), e).done
    ensures d < e && Placeable(ts, After(ts, Progress({}, valid), d), i)
  {
    if i in After(ts, Progress({}, valid), e - 1).done {
      d := DoneWasPlaced(ts, valid, e - 1, i);
    } else {
      d := e - 1;
    }
  }

  lemma {:induction false} PlaceableOnce<P>(ts: seq<Task<P>>, s: Progress<P>, d: nat, e: nat, i: nat)
    requires d < e && Placeable(ts, After(ts, s, d), i)
    ensures !Placeable(ts, After(ts, s, e), i)
  {
    hide Runnable;
    AfterGrows(ts, s, d + 1, e);
    assert i in After(ts, s, d + 1).done;
  }

  lemma {:induction false} RowsApart<P>(ts: seq<Task<P>>, valid: set<P>, epochs: nat, d: nat, e: nat, i: nat)
    requires d < e < |Schedule(ts, valid, epochs).rows| && i in Schedule(ts, valid, epochs).rows[d]
    ensures i !in Schedule(ts, valid, epochs).rows[e]
  {
    InRow(ts, valid, epochs, d, i);
    InRow(ts, valid, epochs, e, i);
    PlaceableOnce(ts, Progress({}, valid), d, e, i);
  }

  lemma {:induction false} RowsDisjoint<P>(ts: seq<Task<P>>, valid: set<P>, epochs: nat)
    ensures Distinct(Flatten(Schedule(ts, valid, epochs).rows))
  {
    var s, rows := Progress({}, valid), Schedule(ts, valid, epochs).rows;
    forall e | 0 <= e < |rows| ensures Distinct(rows[e]) {
      RowIsReady(ts, s, epochs, e);
      InReady(ts, After(ts, s, e), |ts|);
    }
    forall d, e, i | 0 <= d < e < |rows| && i in rows[d] ensures i !in rows[e] {
      RowsApart(ts, valid, epochs, d, e, i);
    }
    DistinctFlatten(rows);
  }

  lemma {:induction false} InPlan<P>(ts: seq<Task<P>>, valid: set<P>, epochs: nat, i: nat)
    ensures i in Flatten(Schedule(ts, valid, epochs).rows) ==> i < |ts|
    ensures Schedule(ts, valid, epochs).verdict == Scheduled && i < |ts| ==>
              i in Flatten(Schedule(ts, valid, epochs).rows)
  {
    var plan := Schedule(ts, valid, epochs);
    InFlatten(plan.rows, i);
    if i in Flatten(plan.rows) {
      var e: nat :| e < |plan.rows| && i in plan.rows[e];
      InRow(ts, valid, epochs, e, i);
    } else if plan.verdict == Scheduled && i < |ts| {
      VerdictIsWhy(ts, Progress({}, valid), epochs);
      var d := DoneWasPlaced(ts, valid, |plan.rows|, i);
      InRow(ts, valid, epochs, d, i);
    }
  }

  // No task is placed twice, and on success every task is placed: the run list of a successful
  // verification is a permutation of the node list.
  lemma {:induction false} PlacedOnce<P>(ts: seq<Task<P>>, valid: set<P>, epochs: nat)
    ensures var plan := Schedule(ts, valid, epochs);
            && Distinct(Flatten(plan.rows))
            && InRange(Flatten(plan.rows), |ts|)
            && (plan.verdict == Scheduled ==> Permutation(Flatten(plan.rows), |ts|))
  {
    RowsDisjoint(ts, valid, epochs);
    forall i: nat {
      InPlan(ts, valid, epochs, i);
    }
    var order := Flatten(Schedule(ts, valid, epochs).rows);
    forall k | 0 <= k < |order| ensures order[k] < |ts| {
      assert order[k] in order;
    }
  }

  // At every loop head the placed tasks are those of the rows so far, each once, so their number
  // is the sum of the row lengths; and every turn that goes on places at least one more.
  lemma {:induction false} LoopHead<P>(ts: seq<Task<P>>, valid: set<P>, epochs: nat, e: nat)
    requires e <= |Schedule(ts, valid, epochs).rows|
    ensures var placed, done := Flatten(Schedule(ts, valid, epochs).rows[..e]), After(ts, Progress({}, valid), e).done;
            && Elems(placed) == done && Distinct(placed) && |placed| == |done|
            && (e < |Schedule(ts, valid, epochs).rows| ==> |done| < |After(ts, Progress({}, valid), e + 1).done|)
  {
    hide Layers, Step, Ready, Flatten, Distinct, Elems;
    var rows, s := Schedule(ts, valid, epochs).rows, Progress({}, valid);
    PlacedAre(ts, valid, epochs, e);
    RowsDisjoint(ts, valid, epochs);
    PrefixDistinct(rows, e);
    DistinctElems(Flatten(rows[..e]));
    if e < |rows| {
      PlacedAre(ts, valid, epochs, e + 1);
      PrefixDistinct(rows, e + 1);
      DistinctElems(Flatten(rows[..e + 1]));
      FlattenNext(rows, e);
      assert rows[e] != [] by { RowIsReady(ts, s, epochs, e); }
    }
  }

  lemma {:induction false} StepPlaces<P>(ts: seq<Task<P>>, s: Progress<P>)
    ensures Step(ts, s).done == s.done + Elems(Ready(ts, s, |ts|))
  {
    hide Placeable, Ready;
    InReady(ts, s, |ts|);
  }

  lemma {:induction false} PlacedAre<P>(ts: seq<Task<P>>, valid: set<P>, epochs: nat, e: nat)
    requires e <= |Schedule(ts, valid, epochs).rows|
    ensures Elems(Flatten(Schedule(ts, valid, epochs).rows[..e])) == After(ts, Progress({}, valid), e).done
  {
    hide Layers, Step, Ready, Flatten;
    var rows, s := Schedule(ts, valid, epochs).rows, Progress({}, valid);
    if e == 0 {
      assert Flatten(rows[..0]) == [] by { FlattenNone(rows[..0]); }
    } else {
      PlacedAre(ts, valid, epochs, e - 1);
      FlattenNext(rows, e - 1);
      RowIsReady(ts, s, epochs, e - 1);
      StepPlaces(ts, After(ts, s, e - 1));
      assert Elems(Flatten(rows[..e])) == Elems(Flatten(rows[..e - 1])) + Elems(rows[e - 1]);
    }
  }

  // ---------------------------------------------------------------- soundness and tightness

  // Some task of an epoch before `e` outputs p.
  ghost predicate ProducedBefore<P>(ts: seq<Task<P>>, rows: seq<seq<nat>>, p: P, e: nat)
    requires e <= |rows|
  {
    exists d: nat, i: nat :: d < e && i in rows[d] && i < |ts| && p in ts[i].outs
  }

  lemma {:induction false} ProducedStep<P>(ts: seq<Task<P>>, valid: set<P>, epochs: nat, e: nat, p: P)
    requires e < |Schedule(ts, valid, epochs).rows|
    ensures var rows := Schedule(ts, valid, epochs).rows;
            var s := After(ts, Progress({}, valid), e);
            ProducedBefore(ts, rows, p, e + 1) <==>
            ProducedBefore(ts, rows, p, e) || exists i: nat :: Placeable(ts, s, i) && p in ts[i].outs
  {
    var rows := Schedule(ts, valid, epochs).rows;
    var s := After(ts, Progress({}, valid), e);
    if ProducedBefore(ts, rows, p, e + 1) && !ProducedBefore(ts, rows, p, e) {
      var d: nat, i: nat :| d < e + 1 && i in rows[d] && i < |ts| && p in ts[i].outs;
      InRow(ts, valid, epochs, e, i);
    }
    if ProducedBefore(ts, rows, p, e) {
      var d: nat, i: nat :| d < e && i in rows[d] && i < |ts| && p in ts[i].outs;
    }
    if i: nat :| Placeable(ts, s, i) && p in ts[i].outs {
      InRow(ts, valid, epochs, e, i);
    }
  }

  lemma {:induction false} InStep<P>(ts: seq<Task<P>>, s: Progress<P>, p: P)
    ensures p in Step(ts, s).valid <==> p in s.valid || exists j: nat :: Placeable(ts, s, j) && p in ts[j].outs
  {
  }

  lemma {:induction false} ValidWhenProduced<P>(ts: seq<Task<P>>, valid: set<P>, epochs: nat, e: nat, p: P)
    requires e <= |Schedule(ts, valid, epochs).rows|
    ensures p in After(ts, Progress({}, valid), e).valid <==>
            p in valid || ProducedBefore(ts, Schedule(ts, valid, epochs).rows, p, e)
    decreases e
  {
    hide Step, Placeable;
    if e > 0 {
      InStep(ts, After(ts, Progress({}, valid), e - 1), p);
      ValidWhenProduced(ts, valid, epochs, e - 1, p);
      ProducedStep(ts, valid, epochs, e - 1, p);
    }
  }

  // Soundness: each input of a task in epoch e was valid on entry or comes out of a strictly
  // earlier epoch.
  lemma {:induction false} Sound<P>(ts: seq<Task<P>>, valid: set<P>, epochs: nat, e: nat, i: nat)
    requires e < |Schedule(ts, valid, epochs).rows| && i in Schedule(ts, valid, epochs).rows[e]
    ensures i < |ts|
    ensures forall p <- ts[i].ins :: p in valid || ProducedBefore(ts, Schedule(ts, valid, epochs).rows, p, e)
  {
    InRow(ts, valid, epochs, e, i);
    forall p | p in ts[i].ins ensures p in valid || ProducedBefore(ts, Schedule(ts, valid, epochs).rows, p, e) {
      ValidWhenProduced(ts, valid, epochs, e, p);
    }
  }

  // A task placeable only after a turn waited for an input which that turn made valid.
  lemma {:induction false} Awaited<P>(ts: seq<Task<P>>, s: Progress<P>, i: nat) returns (p: P, j: nat)
    requires Placeable(ts, Step(ts, s), i)
    ensures p in ts[i].ins && p !in s.valid
    ensures Placeable(ts, s, j) && p in ts[j].outs
  {
    assert !Placeable(ts, s, i);
    p :| p in ts[i].ins && p !in s.valid;
    assert p in Step(ts, s).valid;
    j :| Placeable(ts, s, j) && p in ts[j].outs;
  }

  // Tightness: a task in epoch e > 0 waits for an input p that a task j of epoch e - 1 is the
  // first to make valid.
  lemma {:induction false} Tight<P>(ts: seq<Task<P>>, valid: set<P>, epochs: nat, e: nat, i: nat) returns (p: P, j: nat)
    requires 0 < e < |Schedule(ts, valid, epochs).rows| && i in Schedule(ts, valid, epochs).rows[e]
    ensures i < |ts| && p in ts[i].ins && p !in valid
    ensures !ProducedBefore(ts, Schedule(ts, valid, epochs).rows, p, e - 1)
    ensures j in Schedule(ts, valid, epochs).rows[e - 1] && j < |ts| && p in ts[j].outs
  {
    hide Step;
    InRow(ts, valid, epochs, e, i);
    p, j := Awaited(ts, After(ts, Progress({}, valid), e - 1), i);
    ValidWhenProduced(ts, valid, epochs, e - 1, p);
    AfterGrows(ts, Progress({}, valid), 0, e - 1);
    InRow(ts, valid, epochs, e - 1, j);
  }

  // ---------------------------------------------------------------- legal layerings

  ghost predicate Supplies<P>(ts: seq<Task<P>>, layer: seq<nat>, p: P, below: nat)
    requires |layer| == |ts|
  {
    exists j: nat :: j < |ts| && p in ts[j].outs && layer[j] < below
  }

  // An assignment of tasks to layers in which every input is valid on entry or produced in an
  // earlier layer.
  ghost predicate Legal<P>(ts: seq<Task<P>>, valid: set<P>, layer: seq<nat>) {
    && |layer| == |ts|
    && forall i: nat, p | i < |ts| && p in ts[i].ins :: p in valid || Supplies(ts, layer, p, layer[i])
  }

  ghost predicate Below(layer: seq<nat>, bound: nat) {
    forall l <- layer :: l < bound
  }

  lemma {:induction false} OutsOfDone<P>(ts: seq<Task<P>>, valid: set<P>, e: nat, i: nat, p: P)
    requires i < |ts| && i in After(ts, Progress({}, valid), e).done && p in ts[i].outs
    ensures p in After(ts, Progress({}, valid), e).valid
  {
    if i in After(ts, Progress({}, valid), e - 1).done {
      OutsOfDone(ts, valid, e - 1, i, p);
    }
  }

  // No legal layering is ahead of the loop.
  lemma {:induction false} KeepsPace<P>(ts: seq<Task<P>>, valid: set<P>, layer: seq<nat>, e: nat, i: nat)
    requires Legal(ts, valid, layer) && i < |ts| && layer[i] < e
    ensures i in After(ts, Progress({}, valid), e).done
    decreases e
  {
    var s := After(ts, Progress({}, valid), e - 1);
    if i !in s.done {
      forall p | p in ts[i].ins ensures p in s.valid {
        if p in valid {
          AfterGrows(ts, Progress({}, valid), 0, e - 1);
        } else {
          assert Supplies(ts, layer, p, layer[i]);
          var j: nat :| j < |ts| && p in ts[j].outs && layer[j] < layer[i];
          KeepsPace(ts, valid, layer, e - 1, j);
          OutsOfDone(ts, valid, e - 1, j, p);
        }
      }
    }
  }

  // As long as a task with a legal layer is missing, some task is runnable.
  lemma {:induction false} SomeReady<P>(ts: seq<Task<P>>, valid: set<P>, layer: seq<nat>, e: nat, i: nat)
    requires Legal(ts, valid, layer) && i < |ts| && i !in After(ts, Progress({}, valid), e).done
    ensures !NothingPlaceable(ts, After(ts, Progress({}, valid), e))
    decreases layer[i]
  {
    var s := After(ts, Progress({}, valid), e);
    if !Placeable(ts, s, i) {
      var p :| p in ts[i].ins && p !in s.valid;
      AfterGrows(ts, Progress({}, valid), 0, e);
      assert Supplies(ts, layer, p, layer[i]);
      var j: nat :| j < |ts| && p in ts[j].outs && layer[j] < layer[i];
      if j in s.done {
        OutsOfDone(ts, valid, e, j, p);
      }
      SomeReady(ts, valid, layer, e, j);
    }
  }

  // The epoch of a task in a plan (the number of epochs if it is not placed).
  ghost function EpochOf(rows: seq<seq<nat>>, i: nat): (e: nat)
    ensures e <= |rows|
    ensures e < |rows| ==> i in rows[e]
    ensures forall d: nat | d < e :: i !in rows[d]
  {
    if rows == [] || i in rows[0] then 0
    else
      assert forall d: nat | 0 < d < |rows| :: rows[d] == rows[1..][d - 1];
      1 + EpochOf(rows[1..], i)
  }

  // The epochs of a successful plan are themselves a legal layering.
  lemma {:induction false} EpochsAreLegal<P>(ts: seq<Task<P>>, valid: set<P>, epochs: nat) returns (layer: seq<nat>)
    requires Schedule(ts, valid, epochs).verdict == Scheduled
    ensures Legal(ts, valid, layer) && Below(layer, epochs)
    ensures forall i: nat | i < |ts| :: layer[i] == EpochOf(Schedule(ts, valid, epochs).rows, i)
  {
    var rows := Schedule(ts, valid, epochs).rows;
    PlacedOnce(ts, valid, epochs);
    layer := seq(|ts|, i requires 0 <= i => EpochOf(rows, i));
    forall i: nat | i < |ts| ensures layer[i] < |rows| {
      InFlatten(rows, i);
      var e: nat :| e < |rows| && i in rows[e];
    }
    forall i: nat, p | i < |ts| && p in ts[i].ins ensures p in valid || Supplies(ts, layer, p, layer[i]) {
      Sound(ts, valid, epochs, layer[i], i);
      if p !in valid {
        var d: nat, j: nat :| d < layer[i] && j in rows[d] && j < |ts| && p in ts[j].outs;
        assert layer[j] <= d;
      }
    }
  }

  // Completeness: the loop succeeds within `epochs` epochs exactly when a legal layering with
  // that many layers exists, and gets stuck only when no legal layering of any depth exists.
  lemma {:induction false} Complete<P>(ts: seq<Task<P>>, valid: set<P>, epochs: nat)
    ensures Schedule(ts, valid, epochs).verdict == Scheduled <==>
            exists layer :: Legal(ts, valid, layer) && Below(layer, epochs)
    ensures Schedule(ts, valid, epochs).verdict == Stuck ==> !exists layer :: Legal(ts, valid, layer)
  {
    var plan, s := Schedule(ts, valid, epochs), Progress({}, valid);
    if plan.verdict == Scheduled {
      var layer := EpochsAreLegal(ts, valid, epochs);
    } else {
      VerdictIsWhy(ts, s, epochs);
      var i: nat :| i < |ts| && i !in After(ts, s, |plan.rows|).done;
      forall layer | Legal(ts, valid, layer) ensures plan.verdict == TooDeep && !Below(layer, epochs) {
        if plan.verdict == Stuck {
          SomeReady(ts, valid, layer, |plan.rows|, i);
        }
        assert layer[i] in layer;
        if layer[i] < epochs {
          KeepsPace(ts, valid, layer, epochs, i);
        }
      }
    }
  }

  // Minimal depth: no legal layering puts a task earlier than its epoch.
  lemma {:induction false} MinimalDepth<P>(ts: seq<Task<P>>, valid: set<P>, epochs: nat, layer: seq<nat>,
                                          e: nat, i: nat)
    requires Legal(ts, valid, layer)
    requires e < |Schedule(ts, valid, epochs).rows| && i in Schedule(ts, valid, epochs).rows[e]
    ensures i < |layer| && e <= layer[i]
  {
    InRow(ts, valid, epochs, e, i);
    if layer[i] < e {
      KeepsPace(ts, valid, layer, e, i);
    }
  }

  // ---------------------------------------------------------------- dependency chains and cycles

  // Task j reads something task i writes.
  ghost predicate Feeds<P>(ts: seq<Task<P>>, i: nat, j: nat) {
    i < |ts| && j < |ts| && exists p :: p in ts[i].outs && p in ts[j].ins
  }

  // A dependency chain: every task feeds the next one.
  ghost predicate Chain<P>(ts: seq<Task<P>>, w: seq<nat>) {
    InRange(w, |ts|) && forall j, k | 0 <= j && k == j + 1 < |w| :: Feeds(ts, w[j], w[k])
  }

  ghost predicate Cycle<P>(ts: seq<Task<P>>, w: seq<nat>) {
    |w| > 0 && Chain(ts, w) && Feeds(ts, w[|w| - 1], w[0])
  }

  // The graph rules of OpenVX: every input is available on entry or produced by some task, no
  // parameter has two writers, and outputs are not available on entry.
  ghost predicate Supplied<P>(ts: seq<Task<P>>, valid: set<P>) {
    forall i: nat, p | i < |ts| && p in ts[i].ins :: p in valid || exists j: nat :: j < |ts| && p in ts[j].outs
  }

  ghost predicate SingleWriter<P>(ts: seq<Task<P>>) {
    forall i: nat, j: nat, p | i < |ts| && j < |ts| && p in ts[i].outs && p in ts[j].outs :: i == j
  }

  ghost predicate OutputsInvalid<P>(ts: seq<Task<P>>, valid: set<P>) {
    forall i: nat, p | i < |ts| && p in ts[i].outs :: p !in valid
  }

  lemma {:induction false} ChainExtends<P>(ts: seq<Task<P>>, w: seq<nat>, i: nat)
    requires Chain(ts, w) && i < |ts|
    requires w == [] || Feeds(ts, w[|w| - 1], i)
    ensures Chain(ts, w + [i])
  {
  }

  lemma {:induction false} MissingPredecessor<P>(ts: seq<Task<P>>, valid: set<P>, e: nat, i: nat) returns (j: nat)
    requires Supplied(ts, valid) && i < |ts| && i !in After(ts, Progress({}, valid), e + 1).done
    ensures j !in After(ts, Progress({}, valid), e).done && Feeds(ts, j, i)
  {
    var s := After(ts, Progress({}, valid), e);
    assert !Placeable(ts, s, i);
    var p :| p in ts[i].ins && p !in s.valid;
    AfterGrows(ts, Progress({}, valid), 0, e);
    j :| j < |ts| && p in ts[j].outs;
    if j in s.done {
      OutsOfDone(ts, valid, e, j, p);
    }
  }

  // A task still missing after e epochs ends a dependency chain of e + 1 tasks.
  lemma {:induction false} MissingEndsChain<P>(ts: seq<Task<P>>, valid: set<P>, e: nat, i: nat) returns (w: seq<nat>)
    requires Supplied(ts, valid) && i < |ts| && i !in After(ts, Progress({}, valid), e).done
    ensures Chain(ts, w) && |w| == e + 1 && w[e] == i
    decreases e
  {
    if e == 0 {
      return [i];
    }
    var j := MissingPredecessor(ts, valid, e - 1, i);
    var v := MissingEndsChain(ts, valid, e - 1, j);
    ChainExtends(ts, v, i);
    w := v + [i];
  }

  lemma {:induction false} StuckStays<P>(ts: seq<Task<P>>, s: Progress<P>, d: nat, e: nat)
    requires d <= e && NothingPlaceable(ts, After(ts, s, d))
    ensures After(ts, s, e) == After(ts, s, d)
  {
    if d < e {
      StuckStays(ts, s, d, e - 1);
    }
  }

  lemma {:induction false} LayersRiseAlongChain<P>(ts: seq<Task<P>>, valid: set<P>, layer: seq<nat>,
                                                  w: seq<nat>, k: nat)
    requires SingleWriter(ts) && OutputsInvalid(ts, valid) && Legal(ts, valid, layer)
    requires Chain(ts, w) && k < |w|
    ensures w[k] < |ts| && k <= layer[w[k]]
    decreases k
  {
    assert w[k] in w;
    if k > 0 {
      var i := w[k - 1];
      LayersRiseAlongChain(ts, valid, layer, w, k - 1);
      assert Feeds(ts, w[k - 1], w[k]);
      var p :| p in ts[w[k - 1]].outs && p in ts[w[k]].ins;
      assert p !in valid && Supplies(ts, layer, p, layer[w[k]]);
    }
  }

  // Under the graph rules, verification within `epochs` epochs fails exactly when the graph has
  // a dependency chain of more than `epochs` nodes (around a cycle if need be).
  lemma {:induction false} FailsOnlyOnLongChain<P>(ts: seq<Task<P>>, valid: set<P>, epochs: nat)
    requires Supplied(ts, valid) && SingleWriter(ts) && OutputsInvalid(ts, valid)
    ensures Schedule(ts, valid, epochs).verdict == Scheduled <==> !exists w :: Chain(ts, w) && |w| == epochs + 1
  {
    var plan, s := Schedule(ts, valid, epochs), Progress({}, valid);
    if plan.verdict == Scheduled {
      var layer := EpochsAreLegal(ts, valid, epochs);
      forall w | Chain(ts, w) && |w| == epochs + 1 ensures false {
        assert w[epochs] in w;
        assert layer[w[epochs]] in layer;
        LayersRiseAlongChain(ts, valid, layer, w, epochs);
      }
    } else {
      VerdictIsWhy(ts, s, epochs);
      if plan.verdict == Stuck {
        StuckStays(ts, s, |plan.rows|, epochs);
      }
      var i: nat :| i < |ts| && i !in After(ts, s, epochs).done;
      var w := MissingEndsChain(ts, valid, epochs, i);
    }
  }

  // A chain longer than the node list runs around a cycle.
  lemma {:induction false} LongChainHasCycle<P>(ts: seq<Task<P>>, w: seq<nat>) returns (c: seq<nat>)
    requires Chain(ts, w) && |w| > |ts|
    ensures Cycle(ts, c)
  {
    if Distinct(w) {
      Pigeonhole(w, |ts|);
    }
    var a, b :| 0 <= a < b < |w| && w[a] == w[b];
    c := w[a..b];
    assert forall k | 0 <= k < |c| :: c[k] == w[a + k];
    assert Feeds(ts, w[b - 1], w[b]);
  }

  // Around a cycle there are chains of every length.
  lemma {:induction false} CycleHasChains<P>(ts: seq<Task<P>>, c: seq<nat>, n: nat) returns (w: seq<nat>, k: nat)
    requires Cycle(ts, c)
    ensures Chain(ts, w) && |w| == n + 1 && k < |c| && w[n] == c[k]
    decreases n
  {
    if n == 0 {
      return [c[0]], 0;
    }
    var v, j := CycleHasChains(ts, c, n - 1);
    k := if j + 1 == |c| then 0 else j + 1;
    assert Feeds(ts, c[j], c[k]);
    ChainExtends(ts, v, c[k]);
    w := v + [c[k]];
  }

  // For a graph with no more nodes than epochs, verification decides acyclicity.
  lemma {:induction false} DecidesAcyclicity<P>(ts: seq<Task<P>>, valid: set<P>, epochs: nat)
    requires Supplied(ts, valid) && SingleWriter(ts) && OutputsInvalid(ts, valid)
    requires |ts| <= epochs
    ensures Schedule(ts, valid, epochs).verdict == Scheduled <==> !exists c :: Cycle(ts, c)
  {
    FailsOnlyOnLongChain(ts, valid, epochs);
    if w :| Chain(ts, w) && |w| == epochs + 1 {
      var c := LongChainHasCycle(ts, w);
    }
    if c :| Cycle(ts, c) {
      var w, k := CycleHasChains(ts, c, epochs);
    }
  }
}
