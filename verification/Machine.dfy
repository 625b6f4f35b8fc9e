/**
 The graph of the C++ sample as a state machine on values: the node list with its dirty flags,
 the validity of the parameters, the verified flag and the run list.  The class Graph of
 Graph.dfy implements these steps in place; here are the properties of whole runs.
 */
module Machine {
  import opened VxStatus
  import opened Scheduler
  import opened Sequences
  import opened Dataflow

  const GRAPH_MAX_NODES: nat := 100
  const GRAPH_MAX_EPOCHS: nat := 20
  const GRAPH_MAX_NODES_PER_EPOCH: nat := 10
  const NODE_MAX_PARAMS: nat := 8

  datatype Direction = In | Out | NonFlowing | Unknown

  datatype Port<P> = Port(param: P, direction: Direction)

  datatype Target = CPU | CUDA

  // The payload of a parameter; kernels are functions on payloads.
  type Data = int

  datatype Slot = Slot(target: Target, kernel: Kernel<Data>)

  // What a node's defineNode reports: its status, its ports and its kernels.
  datatype Definition<P> = Definition(status: Status, ports: seq<Port<P>>, kernels: seq<Slot>)

  // `wanted` is what defineNode would report now, `props` what the last successful call reported.
  datatype NodeState<P> = NodeState(wanted: Definition<P>, props: Definition<P>, dirty: bool)

  datatype GraphState<P> = GraphState(nodes: seq<NodeState<P>>, valid: set<P>, verified: bool,
                                      table: seq<seq<nat>>, epochs: nat)

  // ---------------------------------------------------------------- ports, tasks and calls

  // The parameters on the ports with one of the given directions, in port order.
  ghost function ParamsOf<P>(ports: seq<Port<P>>, pick: set<Direction>): seq<P> {
    if ports == [] then []
    else
      var n := |ports| - 1;
      ParamsOf(ports[..n], pick) + if ports[n].direction in pick then [ports[n].param] else []
  }

  ghost function InsOf<P>(ports: seq<Port<P>>): seq<P> {
    ParamsOf(ports, {In})
  }

  ghost function OutsOf<P>(ports: seq<Port<P>>): seq<P> {
    ParamsOf(ports, {Out})
  }

  ghost function SourcesOf<P>(ports: seq<Port<P>>): seq<P> {
    ParamsOf(ports, {In, NonFlowing, Unknown})
  }

  ghost function TaskOf<P>(d: Definition<P>): Task<P> {
    Task(InsOf(d.ports), OutsOf(d.ports))
  }

  ghost function Tasks<P>(nodes: seq<NodeState<P>>): (ts: seq<Task<P>>)
    ensures |ts| == |nodes|
    ensures forall i: nat | i < |nodes| :: ts[i] == TaskOf(nodes[i].props)
  {
    seq(|nodes|, i requires 0 <= i < |nodes| => TaskOf(nodes[i].props))
  }

  ghost predicate HasKernel(kernels: seq<Slot>, target: Target) {
    exists k: nat :: k < |kernels| && kernels[k].target == target
  }

  // The first slot for the target.
  ghost function FirstKernel(kernels: seq<Slot>, target: Target): Kernel<Data>
    requires HasKernel(kernels, target)
  {
    if kernels[0].target == target then kernels[0].kernel
    else
      assert exists k: nat :: k < |kernels[1..]| && kernels[1..][k].target == target by {
        var k: nat :| k < |kernels| && kernels[k].target == target;
        assert kernels[1..][k - 1] == kernels[k];
      }
      FirstKernel(kernels[1..], target)
  }

  // Node::execute as a call; without a kernel for the target it touches nothing and fails.
  ghost function CallOn<P>(d: Definition<P>, target: Target): Call<P, Data> {
    if HasKernel(d.kernels, target) then Call(SourcesOf(d.ports), OutsOf(d.ports), FirstKernel(d.kernels, target))
    else Call([], [], Kernel(_ => VX_ERROR_INVALID_NODE, (_, _) => 0))
  }

  // Graph::process executes nodes on the CPU.
  ghost function CallOf<P>(d: Definition<P>): Call<P, Data> {
    CallOn(d, CPU)
  }

  ghost function Calls<P>(nodes: seq<NodeState<P>>): (cs: seq<Call<P, Data>>)
    ensures |cs| == |nodes|
    ensures forall i: nat | i < |nodes| :: cs[i] == CallOf(nodes[i].props)
  {
    seq(|nodes|, i requires 0 <= i < |nodes| => CallOf(nodes[i].props))
  }

  // ---------------------------------------------------------------- the steps

  ghost predicate InitFails<P>(n: NodeState<P>) {
    n.dirty && n.wanted.status != VX_SUCCESS
  }

  // Node::init, when it succeeds.
  ghost function Inited<P>(n: NodeState<P>): NodeState<P> {
    if n.dirty then NodeState(n.wanted, n.wanted, false) else n
  }

  // The first node whose init fails, or the number of nodes.
  ghost function FirstBad<P>(nodes: seq<NodeState<P>>): (f: nat)
    ensures f <= |nodes|
    ensures forall i: nat | i < f :: !InitFails(nodes[i])
    ensures f < |nodes| ==> InitFails(nodes[f])
  {
    if nodes == [] || InitFails(nodes[0]) then 0 else 1 + FirstBad(nodes[1..])
  }

  ghost function InitUpTo<P>(nodes: seq<NodeState<P>>, f: nat): (r: seq<NodeState<P>>)
    ensures |r| == |nodes|
    ensures forall i: nat | i < |nodes| :: r[i] == if i < f then Inited(nodes[i]) else nodes[i]
  {
    seq(|nodes|, i requires 0 <= i < |nodes| => if i < f then Inited(nodes[i]) else nodes[i])
  }

  ghost function Padded(rows: seq<seq<nat>>): (table: seq<seq<nat>>)
    requires |rows| <= GRAPH_MAX_EPOCHS
    ensures |table| == GRAPH_MAX_EPOCHS
    ensures forall e: nat | e < |table| :: table[e] == if e < |rows| then rows[e] else []
  {
    rows + seq(GRAPH_MAX_EPOCHS - |rows|, _ => [])
  }

  ghost function PlanOf<P>(g: GraphState<P>): Plan {
    Schedule(Tasks(InitUpTo(g.nodes, |g.nodes|)), g.valid, GRAPH_MAX_EPOCHS)
  }

  // The run-list rows have ten slots, which verify does not check.
  ghost predicate RowsFit<P>(g: GraphState<P>) {
    FirstBad(g.nodes) == |g.nodes| ==> forall row <- PlanOf(g).rows :: |row| <= GRAPH_MAX_NODES_PER_EPOCH
  }

  ghost function VerifyState<P>(g: GraphState<P>): GraphState<P> {
    var f := FirstBad(g.nodes);
    var nodes := InitUpTo(g.nodes, f);
    if f < |g.nodes| then g.(nodes := nodes)
    else
      var plan := PlanOf(g);
      var end := After(Tasks(nodes), Progress({}, g.valid), |plan.rows|);
      if plan.verdict == Scheduled then GraphState(nodes, end.valid, true, Padded(plan.rows), |plan.rows|)
      else g.(nodes := nodes, valid := end.valid, table := Padded(plan.rows))
  }

  ghost function VerifyStatus<P>(g: GraphState<P>): Status {
    if FirstBad(g.nodes) < |g.nodes| then VX_ERROR_INVALID_NODE
    else if PlanOf(g).verdict == Scheduled then VX_SUCCESS
    else VX_ERROR_INVALID_GRAPH
  }

  ghost predicate MayAdd<P>(g: GraphState<P>) {
    !g.verified && |g.nodes| < GRAPH_MAX_NODES
  }

  // A node constructed on the graph: addNode drops it silently if the graph is verified or full.
  ghost function AddState<P>(g: GraphState<P>, n: NodeState<P>): GraphState<P> {
    if MayAdd(g) then g.(nodes := g.nodes + [n]) else g
  }

  // A setter of node i.
  ghost function SetState<P>(g: GraphState<P>, i: nat, d: Definition<P>): GraphState<P>
    requires i < |g.nodes|
  {
    g.(nodes := g.nodes[i := g.nodes[i].(wanted := d, dirty := true)], verified := false)
  }

  ghost function RunList<P>(g: GraphState<P>): seq<nat>
    requires g.epochs <= |g.table|
  {
    Flatten(g.table[..g.epochs])
  }

  ghost function ProcessOutcome<P>(g: GraphState<P>, s: map<P, Data>): Outcome<P, Data>
    requires g.epochs <= |g.table|
    requires g.verified ==> InRange(RunList(g), |g.nodes|) && Closed(Calls(g.nodes), s)
  {
    if g.verified then Process(Calls(g.nodes), RunList(g), s) else Outcome(VX_ERROR_INVALID_GRAPH, s)
  }

  // ---------------------------------------------------------------- the invariant

  ghost predicate Settled<P>(n: NodeState<P>, valid: set<P>) {
    && !n.dirty
    && Runnable(TaskOf(n.props), valid)
    && forall p <- OutsOf(n.props.ports) :: p in valid
  }

  ghost predicate CleanIsCurrent<P>(n: NodeState<P>) {
    n.dirty || (n.props == n.wanted && n.wanted.status == VX_SUCCESS)
  }

  ghost predicate Inv<P>(g: GraphState<P>) {
    && |g.nodes| <= GRAPH_MAX_NODES
    && |g.table| == GRAPH_MAX_EPOCHS && g.epochs <= GRAPH_MAX_EPOCHS
    && (forall n <- g.nodes :: CleanIsCurrent(n))
    && (g.verified ==>
          && (forall n <- g.nodes :: Settled(n, g.valid))
          && Permutation(RunList(g), |g.nodes|))
  }

  lemma {:induction false} InitKeepsCurrent<P>(nodes: seq<NodeState<P>>, f: nat)
    requires f <= FirstBad(nodes)
    requires forall n <- nodes :: CleanIsCurrent(n)
    ensures forall n <- InitUpTo(nodes, f) :: CleanIsCurrent(n)
  {
    var r := InitUpTo(nodes, f);
    forall i: nat | i < |r| ensures CleanIsCurrent(r[i]) {
      assert nodes[i] in nodes;
    }
  }

  // On success every node is settled and the run list holds each node once.
  lemma {:induction false} VerifySuccess<P>(g: GraphState<P>)
    requires VerifyStatus(g) == VX_SUCCESS
    ensures var h := VerifyState(g);
            && h.verified && h.epochs <= GRAPH_MAX_EPOCHS == |h.table|
            && g.valid <= h.valid
            && h.table[..h.epochs] == PlanOf(g).rows
            && (forall n <- h.nodes :: Settled(n, h.valid))
            && Permutation(RunList(h), |h.nodes|)
  {
    hide Step, Layers, Ready;
    var h, plan := VerifyState(g), PlanOf(g);
    var ts := Tasks(h.nodes);
    assert h.table[..h.epochs] == plan.rows;
    PlacedOnce(ts, g.valid, GRAPH_MAX_EPOCHS);
    AfterGrows(ts, Progress({}, g.valid), 0, |plan.rows|);
    VerdictIsWhy(ts, Progress({}, g.valid), GRAPH_MAX_EPOCHS);
    forall i: nat | i < |h.nodes| ensures Settled(h.nodes[i], h.valid) {
      DoneIsSettled(ts, g.valid, |plan.rows|, i);
      assert ts[i] == TaskOf(h.nodes[i].props);
    }
  }

  // When all inits succeed, verify succeeds exactly when the nodes have a legal layering in at
  // most twenty layers, and otherwise reports an invalid graph.
  lemma {:induction false} VerifyDecides<P>(g: GraphState<P>)
    ensures VerifyStatus(g) == VX_ERROR_INVALID_NODE <==> exists n <- g.nodes :: InitFails(n)
    ensures VerifyStatus(g) == VX_SUCCESS <==>
              && (forall n <- g.nodes :: !InitFails(n))
              && Layerable(Tasks(InitUpTo(g.nodes, |g.nodes|)), g.valid, 20)
    ensures VerifyStatus(g) == VX_ERROR_INVALID_GRAPH <==>
              && (forall n <- g.nodes :: !InitFails(n))
              && !Layerable(Tasks(InitUpTo(g.nodes, |g.nodes|)), g.valid, 20)
  {
    hide Schedule, Tasks, InitUpTo, InitFails;
    Complete(Tasks(InitUpTo(g.nodes, |g.nodes|)), g.valid, GRAPH_MAX_EPOCHS);
    if n :| n in g.nodes && InitFails(n) {
      var i: nat :| i < |g.nodes| && g.nodes[i] == n;
    }
  }

  ghost predicate Layerable<P>(ts: seq<Task<P>>, valid: set<P>, layers: nat) {
    exists layer :: Legal(ts, valid, layer) && Scheduler.Below(layer, layers)
  }

  lemma {:induction false} DoneIsSettled<P>(ts: seq<Task<P>>, valid: set<P>, e: nat, i: nat)
    requires i < |ts| && i in After(ts, Progress({}, valid), e).done
    ensures Runnable(ts[i], After(ts, Progress({}, valid), e).valid)
    ensures forall p <- ts[i].outs :: p in After(ts, Progress({}, valid), e).valid
  {
    hide Step;
    var d := DoneWasPlaced(ts, valid, e, i);
    AfterGrows(ts, Progress({}, valid), d, e);
    forall p | p in ts[i].outs ensures p in After(ts, Progress({}, valid), e).valid {
      OutsOfDone(ts, valid, e, i, p);
    }
  }

  // What a verification that fails for want of a layering means for a settled graph: nothing,
  // because it cannot fail.
  lemma {:induction false} SettledGraphVerifies<P>(g: GraphState<P>)
    requires forall n <- g.nodes :: Settled(n, g.valid)
    ensures FirstBad(g.nodes) == |g.nodes| && InitUpTo(g.nodes, |g.nodes|) == g.nodes
    ensures PlanOf(g).rows == if g.nodes == [] then [] else [seq(|g.nodes|, i requires 0 <= i => i)]
    ensures PlanOf(g).verdict == Scheduled
    ensures After(Tasks(g.nodes), Progress({}, g.valid), |PlanOf(g).rows|).valid == g.valid
  {
    forall i: nat | i < |g.nodes| ensures !g.nodes[i].dirty {
      assert g.nodes[i] in g.nodes;
    }
    assert InitUpTo(g.nodes, |g.nodes|) == g.nodes;
    var ts, s := Tasks(g.nodes), Progress({}, g.valid);
    forall i: nat | i < |ts| ensures Placeable(ts, s, i) && forall p <- ts[i].outs :: p in g.valid {
      assert g.nodes[i] in g.nodes;
    }
    if g.nodes != [] {
      ReadyIsAll(ts, s, |ts|);
      var t := Step(ts, s);
      assert AllDone(|ts|, t.done);
      assert Layers(ts, t, GRAPH_MAX_EPOCHS - 1) == Plan([], Scheduled);
      assert t == After(ts, s, 1);
    }
  }

  lemma {:induction false} ReadyIsAll<P>(ts: seq<Task<P>>, s: Progress<P>, upTo: nat)
    requires forall i: nat | i < upTo :: Placeable(ts, s, i)
    ensures Ready(ts, s, upTo) == seq(upTo, i requires 0 <= i => i)
  {
    if upTo > 0 {
      ReadyIsAll(ts, s, upTo - 1);
    }
  }

  // Verifying a verified graph again flattens it: every node moves to epoch 0 in the order of
  // the node list, since verification never takes validity back.
  lemma {:induction false} ReverifyFlattens<P>(g: GraphState<P>)
    requires Inv(g) && g.verified
    ensures VerifyStatus(g) == VX_SUCCESS
    ensures VerifyState(g).nodes == g.nodes && VerifyState(g).valid == g.valid
    ensures VerifyState(g).epochs <= 1
    ensures RunList(VerifyState(g)) == seq(|g.nodes|, i requires 0 <= i => i)
  {
    SettledGraphVerifies(g);
    VerifySuccess(g);
    var h := VerifyState(g);
    assert h.epochs == 1 ==> Flatten(h.table[..1]) == h.table[0] + Flatten(h.table[..1][1..]);
  }

  lemma {:induction false} VerifyKeepsInv<P>(g: GraphState<P>)
    requires Inv(g)
    ensures Inv(VerifyState(g))
  {
    InitKeepsCurrent(g.nodes, FirstBad(g.nodes));
    if g.verified {
      SettledGraphVerifies(g);
    }
    if VerifyStatus(g) == VX_SUCCESS {
      VerifySuccess(g);
    }
  }

  // ---------------------------------------------------------------- whole runs

  datatype Op<P> =
    | AddNode(definition: Definition<P>)
    | SetNode(index: nat, definition: Definition<P>)
    | TouchUnlisted
    | MarkValid(param: P)
    | MarkInvalid(param: P)
    | VerifyGraph
    | ProcessGraph

  // What a client may do: setters of listed nodes, and verification only when the rows fit.
  ghost predicate Enabled<P>(g: GraphState<P>, op: Op<P>) {
    match op
    case SetNode(i, _) => i < |g.nodes|
    case VerifyGraph => RowsFit(g)
    case _ => true
  }

  ghost function Next<P>(g: GraphState<P>, op: Op<P>): GraphState<P>
    requires Enabled(g, op)
  {
    match op
    case AddNode(d) => AddState(g, NodeState(d, Definition(VX_SUCCESS, [], []), true))
    case SetNode(i, d) => SetState(g, i, d)
    case TouchUnlisted => g.(verified := false)
    case MarkValid(p) => g.(valid := g.valid + {p})
    case MarkInvalid(p) => g.(valid := g.valid - {p})
    case VerifyGraph => VerifyState(g)
    case ProcessGraph => g
  }

  ghost function Fresh<P>(valid: set<P>): GraphState<P> {
    GraphState([], valid, false, Padded([]), 0)
  }

  // The states a run passes through from g.
  ghost predicate Run<P>(g: GraphState<P>, ops: seq<Op<P>>, h: GraphState<P>)
    decreases |ops|
  {
    if ops == [] then h == g
    else Enabled(g, ops[0]) && Run(Next(g, ops[0]), ops[1..], h)
  }

  lemma {:induction false} NextKeepsInv<P>(g: GraphState<P>, op: Op<P>)
    requires Inv(g) && Enabled(g, op) && !op.MarkInvalid?
    ensures Inv(Next(g, op))
  {
    match op
    case VerifyGraph => VerifyKeepsInv(g);
    case MarkValid(p) =>
      forall n | n in g.nodes && g.verified ensures Settled(n, g.valid + {p}) {
        assert Settled(n, g.valid);
      }
    case _ =>
  }

  // As long as no client clears validity, the whole invariant holds.
  lemma {:induction false} RunKeepsInv<P>(g: GraphState<P>, ops: seq<Op<P>>, h: GraphState<P>)
    requires Inv(g) && Run(g, ops, h) && forall op <- ops :: !op.MarkInvalid?
    ensures Inv(h)
    decreases |ops|
  {
    if ops != [] {
      NextKeepsInv(g, ops[0]);
      RunKeepsInv(Next(g, ops[0]), ops[1..], h);
    }
  }

  // The part of the invariant that does not mention validity.
  ghost predicate Core<P>(g: GraphState<P>) {
    && |g.nodes| <= GRAPH_MAX_NODES
    && |g.table| == GRAPH_MAX_EPOCHS && g.epochs <= GRAPH_MAX_EPOCHS
    && (forall n <- g.nodes :: CleanIsCurrent(n))
    && (g.verified ==>
          && (forall n <- g.nodes :: !n.dirty)
          && Distinct(RunList(g)) && InRange(RunList(g), |g.nodes|))
  }

  lemma {:induction false} CleanInits<P>(nodes: seq<NodeState<P>>)
    requires forall n <- nodes :: !n.dirty
    ensures FirstBad(nodes) == |nodes| && InitUpTo(nodes, |nodes|) == nodes
  {
    forall i: nat | i < |nodes| ensures !nodes[i].dirty {
      assert nodes[i] in nodes;
    }
  }

  // Rows padded with empty ones hold no more than the rows.
  lemma {:induction false} PaddedHolds(rows: seq<seq<nat>>, e: nat)
    requires |rows| <= GRAPH_MAX_EPOCHS && e <= GRAPH_MAX_EPOCHS
    ensures Flatten(Padded(rows)[..e]) <= Flatten(rows)
  {
    if e > 0 {
      FlattenNext(Padded(rows), e - 1);
      if e <= |rows| {
        assert Padded(rows)[..e] == rows[..e];
        FlattenPrefix(rows, e);
      } else {
        PaddedHolds(rows, e - 1);
        assert Padded(rows)[e - 1] == [];
      }
    }
  }

  lemma {:induction false} PartOfPlan<P>(ts: seq<Task<P>>, valid: set<P>, e: nat)
    requires e <= GRAPH_MAX_EPOCHS
    ensures var plan := Schedule(ts, valid, GRAPH_MAX_EPOCHS);
            var part := Flatten(Padded(plan.rows)[..e]);
            && Distinct(part) && InRange(part, |ts|)
            && (plan.verdict != Scheduled ==> !Permutation(part, |ts|))
  {
    hide Layers, Padded, After, Flatten;
    var plan := Schedule(ts, valid, GRAPH_MAX_EPOCHS);
    var part := Flatten(Padded(plan.rows)[..e]);
    PlacedOnce(ts, valid, GRAPH_MAX_EPOCHS);
    PaddedHolds(plan.rows, e);
    if plan.verdict != Scheduled {
      var i := Unplaced(ts, valid, GRAPH_MAX_EPOCHS);
      assert i in part ==> i in Flatten(plan.rows);
    }
  }

  lemma {:induction false} Unplaced<P>(ts: seq<Task<P>>, valid: set<P>, epochs: nat) returns (i: nat)
    requires Schedule(ts, valid, epochs).verdict != Scheduled
    ensures i < |ts| && i !in Flatten(Schedule(ts, valid, epochs).rows)
  {
    hide Step, Ready, Flatten;
    var rows := Schedule(ts, valid, epochs).rows;
    VerdictIsWhy(ts, Progress({}, valid), epochs);
    LoopHead(ts, valid, epochs, |rows|);
    assert rows[..|rows|] == rows;
    i :| i < |ts| && i !in After(ts, Progress({}, valid), |rows|).done;
    assert i !in Elems(Flatten(rows));
  }

  // Verifying a verified graph leaves the flag set whatever comes out; the run list holds every
  // node exactly if the verification succeeded.
  lemma {:induction false} VerifyOnVerified<P>(g: GraphState<P>)
    requires Core(g) && g.verified
    ensures VerifyState(g).verified && VerifyState(g).nodes == g.nodes && VerifyStatus(g) != VX_ERROR_INVALID_NODE
    ensures Core(VerifyState(g))
    ensures Permutation(RunList(VerifyState(g)), |g.nodes|) <==> VerifyStatus(g) == VX_SUCCESS
  {
    hide Schedule, After, Flatten, Tasks, InitUpTo, FirstBad, Permutation, CleanIsCurrent;
    CleanInits(g.nodes);
    if VerifyStatus(g) == VX_SUCCESS {
      VerifySuccess(g);
      PermutationIs(RunList(VerifyState(g)), |g.nodes|);
    } else {
      PartOfPlan(Tasks(g.nodes), g.valid, g.epochs);
    }
  }

  lemma {:induction false} PermutationIs(order: seq<nat>, n: nat)
    requires Permutation(order, n)
    ensures Distinct(order) && InRange(order, n)
  {
  }

  lemma {:induction false} VerifyKeepsCore<P>(g: GraphState<P>)
    requires Core(g)
    ensures Core(VerifyState(g))
  {
    hide Schedule, After, Flatten, Tasks;
    if g.verified {
      VerifyOnVerified(g);
    } else {
      InitKeepsCurrent(g.nodes, FirstBad(g.nodes));
      if VerifyStatus(g) == VX_SUCCESS {
        VerifySuccess(g);
      }
    }
  }

  // The status of the last verification of a run (`last` if it has none).
  ghost function LastVerify<P>(g: GraphState<P>, ops: seq<Op<P>>, last: Status): Status
    decreases |ops|
  {
    if ops == [] || !Enabled(g, ops[0]) then last
    else LastVerify(Next(g, ops[0]), ops[1..], if ops[0].VerifyGraph? then VerifyStatus(g) else last)
  }

  // The run list of a verified graph is complete exactly if the last verification succeeded.
  ghost predicate Tracks<P>(g: GraphState<P>, last: Status) {
    Core(g) && (g.verified ==> (Permutation(RunList(g), |g.nodes|) <==> last == VX_SUCCESS))
  }

  lemma {:induction false} NextTracks<P>(g: GraphState<P>, op: Op<P>, last: Status)
    requires Tracks(g, last) && Enabled(g, op)
    ensures Tracks(Next(g, op), if op.VerifyGraph? then VerifyStatus(g) else last)
  {
    hide Permutation, Flatten, VerifyState, VerifyStatus;
    if op.VerifyGraph? {
      VerifyTracks(g);
    }
  }

  lemma {:induction false} VerifyTracks<P>(g: GraphState<P>)
    requires Core(g)
    ensures Tracks(VerifyState(g), VerifyStatus(g))
  {
    hide Schedule, After, Flatten, Tasks, Permutation, Core, Settled;
    VerifyKeepsCore(g);
    if g.verified {
      VerifyOnVerified(g);
    } else if VerifyStatus(g) == VX_SUCCESS {
      VerifySuccess(g);
    }
  }

  lemma {:induction false} RunTracks<P>(g: GraphState<P>, ops: seq<Op<P>>, h: GraphState<P>, last: Status)
    requires Tracks(g, last) && Run(g, ops, h)
    ensures Tracks(h, LastVerify(g, ops, last))
    decreases |ops|
  {
    hide Tracks, VerifyStatus, Next;
    if ops != [] {
      NextTracks(g, ops[0], last);
      RunTracks(Next(g, ops[0]), ops[1..], h, if ops[0].VerifyGraph? then VerifyStatus(g) else last);
    }
  }

  // Whole-run safety: whatever a client did, while the verified flag is set every listed node is
  // clean, with the ports its setters asked for, the run list holds no node twice, and it holds all
  // of them exactly if the last verification succeeded.
  lemma {:induction false} VerifiedMeansCurrent<P>(valid: set<P>, ops: seq<Op<P>>, g: GraphState<P>)
    requires Run(Fresh(valid), ops, g) && g.verified
    ensures g.epochs <= |g.table|
    ensures forall n <- g.nodes :: !n.dirty && n.props == n.wanted
    ensures Distinct(RunList(g)) && InRange(RunList(g), |g.nodes|)
    ensures Permutation(RunList(g), |g.nodes|) <==> LastVerify(Fresh(valid), ops, VX_SUCCESS) == VX_SUCCESS
  {
    hide LastVerify, Run, Permutation;
    RunTracks(Fresh(valid), ops, g, VX_SUCCESS);
    forall n | n in g.nodes ensures !n.dirty && n.props == n.wanted {
      assert CleanIsCurrent(n);
    }
  }

  // If moreover no client ever cleared validity, all inputs are valid and the run list is complete;
  // so process runs the current nodes, all of them, with current ports.
  lemma {:induction false} VerifiedMeansReady<P>(valid: set<P>, ops: seq<Op<P>>, g: GraphState<P>)
    requires Run(Fresh(valid), ops, g) && g.verified && forall op <- ops :: !op.MarkInvalid?
    ensures g.epochs <= |g.table| && Permutation(RunList(g), |g.nodes|)
    ensures forall n <- g.nodes :: Runnable(TaskOf(n.wanted), g.valid)
  {
    RunKeepsInv(Fresh(valid), ops, g);
    forall n | n in g.nodes ensures Runnable(TaskOf(n.wanted), g.valid) {
      assert CleanIsCurrent(n) && Settled(n, g.valid);
    }
  }

  // ---------------------------------------------------------------- what process computes

  ghost predicate TotalNodes<P>(nodes: seq<NodeState<P>>) {
    forall n <- nodes :: HasKernel(n.props.kernels, CPU)
  }

  // NonFlowing parameters are not written by any node.
  ghost predicate SettingsUnwritten<P>(nodes: seq<NodeState<P>>) {
    forall m <- nodes, n <- nodes, p <- SourcesOf(m.props.ports) ::
      p in InsOf(m.props.ports) || p !in OutsOf(n.props.ports)
  }

  // After a verification that found no output valid, process leaves the store that any
  // producers-first order of the same nodes leaves.
  lemma {:induction false} ProcessIsOrderIndependent<P>(g: GraphState<P>, s: map<P, Data>, other: seq<nat>)
    requires VerifyStatus(g) == VX_SUCCESS
    requires var h := VerifyState(g);
             && SingleWriter(Tasks(h.nodes)) && OutputsInvalid(Tasks(h.nodes), g.valid)
             && TotalNodes(h.nodes) && TotalKernels(Calls(h.nodes)) && SettingsUnwritten(h.nodes)
             && Closed(Calls(h.nodes), s)
             && Permutation(other, |h.nodes|) && ProducersFirst(Calls(h.nodes), other)
    ensures var h := VerifyState(g);
            && h.epochs <= |h.table| && InRange(RunList(h), |h.nodes|)
            && ProcessOutcome(h, s) == Outcome(VX_SUCCESS, Exec(Calls(h.nodes), other, s))
  {
    hide Layers, Step, Ready, ParamsOf, Process, Exec;
    var h := VerifyState(g);
    VerifySuccess(g);
    var ts, cs := Tasks(h.nodes), Calls(h.nodes);
    forall i: nat | i < |ts| ensures cs[i] == Call(SourcesOf(h.nodes[i].props.ports), ts[i].outs, cs[i].kernel) {
      assert h.nodes[i] in h.nodes;
    }
    forall i: nat, p, c | i < |ts| && p in cs[i].sources && p !in ts[i].ins && c in cs ensures p !in c.outs {
      var j: nat :| j < |cs| && c == cs[j];
      assert h.nodes[i] in h.nodes && h.nodes[j] in h.nodes;
    }
    OrderIndependent(ts, cs, g.valid, GRAPH_MAX_EPOCHS, s, other);
  }

  // A consumer listed before its producer: node 0 copies parameter 0 to parameter 1, node 1
  // writes 7 to parameter 0.
  ghost function Copy(): Definition<nat> {
    Definition(VX_SUCCESS, [Port(0, In), Port(1, Out)],
               [Slot(CPU, Kernel(_ => VX_SUCCESS, (args, _) => if args == [] then 0 else args[0]))])
  }

  ghost function Seven(): Definition<nat> {
    Definition(VX_SUCCESS, [Port(0, Out)], [Slot(CPU, Kernel(_ => VX_SUCCESS, (_, _) => 7))])
  }

  ghost function Listed(): GraphState<nat> {
    Fresh<nat>({}).(nodes := [NodeState(Copy(), Copy(), false), NodeState(Seven(), Seven(), false)])
  }

  ghost function CopyTask(): Task<nat> { Task([0], [1]) }

  ghost function SevenTask(): Task<nat> { Task([], [0]) }

  lemma {:induction false} ExampleTasks()
    ensures Tasks(Listed().nodes) == [CopyTask(), SevenTask()]
    ensures SourcesOf(Copy().ports) == [0] && SourcesOf(Seven().ports) == []
  {
    var c, v := Copy().ports, Seven().ports;
    forall pick ensures ParamsOf(c, pick) == (if In in pick then [0] else []) + (if Out in pick then [1] else []) {
      assert c[..1] == [Port(0, In)] && c[..1][..0] == [];
      assert ParamsOf(c[..1], pick) == if In in pick then [0] else [];
    }
    forall pick ensures ParamsOf(v, pick) == if Out in pick then [0] else [] {
      assert v[..0] == [];
    }
    assert TaskOf(Copy()) == CopyTask() && TaskOf(Seven()) == SevenTask();
  }

  lemma {:induction false} ExamplePlan()
    ensures Schedule([CopyTask(), SevenTask()], {}, GRAPH_MAX_EPOCHS) == Plan([[1], [0]], Scheduled)
  {
    var ts := [CopyTask(), SevenTask()];
    hide Step, Ready;
    var s0: Progress<nat>, s1: Progress<nat>, s2: Progress<nat> :=
      Progress({}, {}), Progress({1}, {0}), Progress({0, 1}, {0, 1});
    ExampleTurn(s0, 1);
    ExampleTurn(s1, 0);
    assert 1 !in s0.done && 0 !in s1.done;
    assert Layers(ts, s2, 18) == Plan([], Scheduled);
    assert Layers(ts, s1, 19) == Plan([[0]], Scheduled);
  }

  // In either state of the example exactly one node is placeable.
  lemma {:induction false} ExampleTurn(s: Progress<nat>, i: nat)
    requires i < 2 && s == if i == 1 then Progress({}, {}) else Progress({1}, {0})
    ensures var ts := [CopyTask(), SevenTask()];
            && Ready(ts, s, 2) == [i]
            && Step(ts, s) == if i == 1 then Progress({1}, {0}) else Progress({0, 1}, {0, 1})
  {
    var ts := [CopyTask(), SevenTask()];
    assert 0 in ts[0].ins;
    assert forall j: nat | j < 2 :: Placeable(ts, s, j) <==> j == i;
    assert Ready(ts, s, 1) == if i == 0 then [0] else [];
    assert ts[i].outs == [1 - i] && 1 - i in ts[i].outs;
    assert (set j: nat | j < |ts| && Placeable(ts, s, j)) == {i};
    assert (set j: nat, p | j < |ts| && Placeable(ts, s, j) && p in ts[j].outs :: p) == {1 - i};
  }

  lemma {:induction false} ExampleCalls()
    ensures var cs := Calls(Listed().nodes);
            cs == [Call([0], [1], Copy().kernels[0].kernel), Call([], [0], Seven().kernels[0].kernel)]
  {
    ExampleTasks();
    assert Copy().kernels[0].target == CPU && Seven().kernels[0].target == CPU;
    var cs, ts := Calls(Listed().nodes), Tasks(Listed().nodes);
    assert cs[0].outs == ts[0].outs && cs[1].outs == ts[1].outs;
  }

  lemma {:induction false} ExampleApply(t: map<nat, Data>)
    requires t.Keys == {0, 1}
    ensures Apply(Call([0], [1], Copy().kernels[0].kernel), t) == t[1 := t[0]]
    ensures Apply(Call([], [0], Seven().kernels[0].kernel), t) == t[0 := 7]
  {
    var c, v := Copy().kernels[0].kernel, Seven().kernels[0].kernel;
    assert Read(t, [0]) == [t[0]] && Read(t, []) == [];
    assert Written([1], c, [t[0]], 0) == map[] && Written([0], v, [], 0) == map[];
    assert Written([1], c, [t[0]], 1) == map[1 := t[0]];
    assert Written([0], v, [], 1) == map[0 := 7];
  }

  lemma {:induction false} ExampleTotal(s: map<nat, Data>)
    requires s.Keys == {0, 1}
    ensures Closed(Calls(Listed().nodes), s) && TotalKernels(Calls(Listed().nodes))
  {
    hide ParamsOf, Calls, Listed, CallOn;
    ExampleCalls();
  }

  lemma {:induction false} ExampleRuns(cs: seq<Call<nat, Data>>, s: map<nat, Data>)
    requires cs == Calls(Listed().nodes) && s == map[0 := 3, 1 := 4]
    ensures Closed(cs, s) && TotalKernels(cs)
    ensures Exec(cs, [1, 0], s) == map[0 := 7, 1 := 7]
    ensures Exec(cs, [0, 1], s) == map[0 := 7, 1 := 3]
  {
    hide Apply, Read, Exec, Closed, TotalKernels, Copy, Seven, Calls, Listed;
    ExampleCalls();
    ExampleTotal(s);
    TwoCalls(cs, 1, 0, s);
    TwoCalls(cs, 0, 1, s);
    ExampleApply(s);
    ExampleApply(s[0 := 7]);
    ExampleApply(s[1 := 3]);
  }

  lemma {:induction false} TwoCalls(cs: seq<Call<nat, Data>>, i: nat, j: nat, s: map<nat, Data>)
    requires Closed(cs, s) && i < |cs| && j < |cs|
    ensures Apply(cs[i], s).Keys == s.Keys
    ensures Exec(cs, [i, j], s) == Apply(cs[j], Apply(cs[i], s))
  {
    assert [i, j][..1] == [i] && [i][..0] == [];
    assert Exec(cs, [i], s) == Apply(cs[i], s);
  }

  // A graph of at most ten nodes cannot overflow a row.
  lemma {:induction false} SmallGraphFits<P>(g: GraphState<P>)
    requires |g.nodes| <= GRAPH_MAX_NODES_PER_EPOCH
    ensures RowsFit(g)
  {
    hide Ready, Layers, Tasks, InitUpTo;
    var ts, s := Tasks(InitUpTo(g.nodes, |g.nodes|)), Progress({}, g.valid);
    var rows := PlanOf(g).rows;
    forall row | row in rows ensures |row| <= GRAPH_MAX_NODES_PER_EPOCH {
      var e: nat :| e < |rows| && rows[e] == row;
      RowIsReady(ts, s, GRAPH_MAX_EPOCHS, e);
      InReady(ts, After(ts, s, e), |ts|);
      assert forall k | 0 <= k < |row| :: row[k] in row;
      Pigeonhole(row, |ts|);
    }
  }

  // The run of a client that clears validity: a node that copies parameter 0, verified while 0 is
  // valid, and verified again after 0 was marked invalid.
  ghost function ClearingRun(): seq<Op<nat>> {
    [AddNode(Copy()), MarkValid(0), VerifyGraph, MarkInvalid(0), VerifyGraph]
  }

  // The second verification fails, yet the graph still counts as verified, and process succeeds
  // without running the node.
  lemma {:induction false} FailedReverifyRunsNothing(s: map<nat, Data>) returns (g: GraphState<nat>)
    requires s.Keys == {0, 1}
    ensures Run(Fresh<nat>({}), ClearingRun(), g) && g.verified && |g.nodes| == 1
    ensures LastVerify(Fresh<nat>({}), ClearingRun(), VX_SUCCESS) == VX_ERROR_INVALID_GRAPH
    ensures g.epochs <= |g.table| && RunList(g) == []
    ensures Closed(Calls(g.nodes), s) && ProcessOutcome(g, s) == Outcome(VX_SUCCESS, s)
  {
    hide Flatten, Layers, Calls, Schedule, VerifyState, VerifyStatus, ParamsOf;
    var g0 := Fresh<nat>({});
    var g1 := AddState(g0, NodeState(Copy(), Definition(VX_SUCCESS, [], []), true));
    var g2 := g1.(valid := {0});
    var g3 := VerifyState(g2);
    var g4 := g3.(valid := g3.valid - {0});
    g := VerifyState(g4);
    assert {} + {0} == {0};
    CopyVerifies(g2);
    CopyFails(g4);
    SmallGraphFits(g2);
    SmallGraphFits(g4);
    ClearingRunIs(g0, g1, g2, g3, g4, g);
    CopyCloses(g, s);
    ProcessNothing(Calls(g.nodes), s);
  }

  lemma {:induction false} CopyVerifies(g: GraphState<nat>)
    requires g.nodes == [NodeState(Copy(), Definition(VX_SUCCESS, [], []), true)] && g.valid == {0}
    ensures VerifyStatus(g) == VX_SUCCESS && VerifyState(g).verified
    ensures VerifyState(g).nodes == [NodeState(Copy(), Copy(), false)]
    ensures |VerifyState(g).table| == GRAPH_MAX_EPOCHS && VerifyState(g).epochs <= 1
  {
    hide Ready, ParamsOf;
    var nodes := InitUpTo(g.nodes, 1);
    assert FirstBad(g.nodes) == 1;
    assert nodes == [NodeState(Copy(), Copy(), false)];
    ExampleOuts();
    var ts := Tasks(nodes);
    assert ts == [CopyTask()];
    var s := Progress({}, {0});
    assert Placeable(ts, s, 0);
    InReady(ts, s, 1);
    var t := Step(ts, s);
    assert 0 in Ready(ts, s, 1) && AllDone(1, t.done);
    assert Layers(ts, t, 19) == Plan([], Scheduled);
    assert Layers(ts, s, 20) == Plan([Ready(ts, s, 1)], Scheduled);
  }

  lemma {:induction false} CopyFails(g: GraphState<nat>)
    requires g.nodes == [NodeState(Copy(), Copy(), false)] && 0 !in g.valid && g.epochs <= 1 && g.verified
    ensures VerifyStatus(g) == VX_ERROR_INVALID_GRAPH
    ensures VerifyState(g).verified && VerifyState(g).nodes == g.nodes
    ensures VerifyState(g).epochs <= |VerifyState(g).table|
    ensures RunList(VerifyState(g)) == []
  {
    hide Schedule, ParamsOf;
    assert FirstBad(g.nodes) == 1;
    assert InitUpTo(g.nodes, 1) == g.nodes;
    ExampleOuts();
    assert Tasks(g.nodes) == [CopyTask()];
    CopyIsStuck(g.valid);
    PaddedHolds([], g.epochs);
  }

  lemma {:induction false} CopyIsStuck(valid: set<nat>)
    requires 0 !in valid
    ensures Schedule([CopyTask()], valid, GRAPH_MAX_EPOCHS) == Plan([], Stuck)
  {
    var ts, s := [CopyTask()], Progress({}, valid);
    assert 0 in ts[0].ins;
    assert !Placeable(ts, s, 0);
    assert Ready(ts, s, 0) == [] && Ready(ts, s, 1) == [];
  }

  lemma {:induction false} ClearingRunIs(g0: GraphState<nat>, g1: GraphState<nat>, g2: GraphState<nat>,
                                         g3: GraphState<nat>,
                                         g4: GraphState<nat>, g5: GraphState<nat>)
    requires g0 == Fresh<nat>({}) && g1 == AddState(g0, NodeState(Copy(), Definition(VX_SUCCESS, [], []), true))
    requires g2 == g1.(valid := g1.valid + {0}) && g3 == VerifyState(g2)
    requires g4 == g3.(valid := g3.valid - {0}) && g5 == VerifyState(g4)
    requires RowsFit(g2) && RowsFit(g4)
    ensures Run(g0, ClearingRun(), g5)
    ensures LastVerify(g0, ClearingRun(), VX_SUCCESS) == VerifyStatus(g4)
  {
    hide VerifyState, VerifyStatus, RowsFit, AddState;
    var ops := ClearingRun();
    assert ops[1..] == [MarkValid(0), VerifyGraph, MarkInvalid(0), VerifyGraph];
    assert ops[1..][1..] == [VerifyGraph, MarkInvalid(0), VerifyGraph];
    assert ops[1..][1..][1..] == [MarkInvalid(0), VerifyGraph];
    assert ops[1..][1..][1..][1..] == [VerifyGraph];
    assert ops[1..][1..][1..][1..][1..] == [];
    assert Run(g5, [], g5);
    assert Run(g4, [VerifyGraph], g5);
    assert Run(g3, [MarkInvalid(0), VerifyGraph], g5);
    assert Run(g2, [VerifyGraph, MarkInvalid(0), VerifyGraph], g5);
    assert Run(g1, [MarkValid(0), VerifyGraph, MarkInvalid(0), VerifyGraph], g5);
    var last := VerifyStatus(g4);
    assert LastVerify(g4, [VerifyGraph], VerifyStatus(g2)) == last;
    assert LastVerify(g3, [MarkInvalid(0), VerifyGraph], VerifyStatus(g2)) == last;
    assert LastVerify(g2, [VerifyGraph, MarkInvalid(0), VerifyGraph], VX_SUCCESS) == last;
    assert LastVerify(g1, [MarkValid(0), VerifyGraph, MarkInvalid(0), VerifyGraph], VX_SUCCESS) == last;
  }

  lemma {:induction false} CopyCloses(g: GraphState<nat>, s: map<nat, Data>)
    requires g.nodes == [NodeState(Copy(), Copy(), false)] && s.Keys == {0, 1}
    ensures Closed(Calls(g.nodes), s)
  {
    hide ParamsOf;
    ExampleOuts();
    ExampleTasks();
  }

  // That graph meets the conditions of ProcessIsOrderIndependent at its first verification; at the
  // second it does not, because its outputs are then valid on entry.
  lemma {:induction false} ExampleQualifies(s: map<nat, Data>)
    requires s.Keys == {0, 1}
    ensures var g := Listed();
            var h := VerifyState(g);
            && VerifyStatus(g) == VX_SUCCESS
            && SingleWriter(Tasks(h.nodes)) && OutputsInvalid(Tasks(h.nodes), g.valid)
            && TotalNodes(h.nodes) && TotalKernels(Calls(h.nodes)) && SettingsUnwritten(h.nodes)
            && Closed(Calls(h.nodes), s)
            && Permutation([1, 0], |h.nodes|) && ProducersFirst(Calls(h.nodes), [1, 0])
            && !OutputsInvalid(Tasks(h.nodes), h.valid)
  {
    hide VerifyState, VerifyStatus, Listed, SingleWriter, OutputsInvalid, TotalNodes, TotalKernels, SettingsUnwritten,
         Closed, Permutation, ProducersFirst, Tasks, Calls, Run, RunList, Inv, ParamsOf;
    ExampleVerify();
    ExampleTotal(s);
    ExampleWiring();
    ExampleOrder();
    ExampleStale(VerifyState(Listed()));
  }

  lemma {:induction false} ExampleStale(h: GraphState<nat>)
    requires h.nodes == Listed().nodes && Inv(h) && h.verified
    ensures !OutputsInvalid(Tasks(h.nodes), h.valid)
  {
    hide ParamsOf, RunList;
    ExampleOuts();
    ExampleTasks();
    assert h.nodes[1] in h.nodes && Settled(h.nodes[1], h.valid);
    assert 0 in OutsOf(h.nodes[1].props.ports);
    assert SevenTask() in Tasks(h.nodes) by { assert Tasks(h.nodes)[1] == SevenTask(); }
    assert 0 in SevenTask().outs;
  }

  lemma {:induction false} ExampleWiring()
    ensures var nodes := Listed().nodes;
            && SingleWriter(Tasks(nodes)) && OutputsInvalid(Tasks(nodes), Listed().valid)
            && TotalNodes(nodes) && SettingsUnwritten(nodes)
  {
    hide ParamsOf;
    ExampleOuts();
    ExampleTasks();
    assert Copy().kernels[0].target == CPU && Seven().kernels[0].target == CPU;
  }

  lemma {:induction false} ExampleOrder()
    ensures Permutation([1, 0], |Listed().nodes|) && ProducersFirst(Calls(Listed().nodes), [1, 0])
  {
    hide ParamsOf, Copy, Seven;
    ExampleCalls();
    assert [1, 0][0] == 1 && [1, 0][1] == 0;
  }

  lemma {:induction false} ExampleOuts()
    ensures InsOf(Copy().ports) == [0] && OutsOf(Copy().ports) == [1]
    ensures InsOf(Seven().ports) == [] && OutsOf(Seven().ports) == [0]
  {
    ExampleTasks();
    assert Tasks(Listed().nodes)[0] == TaskOf(Copy()) && Tasks(Listed().nodes)[1] == TaskOf(Seven());
  }

  // On that graph one verification makes process copy the new value; verifying a second time
  // makes it copy the stale one.
  lemma {:induction false} ReverifyChangesResult(s: map<nat, Data>)
    returns (once: GraphState<nat>, twice: GraphState<nat>)
    requires s == map[0 := 3, 1 := 4]
    ensures once == VerifyState(Listed()) && twice == VerifyState(once)
    ensures once.verified && once.epochs <= |once.table| && RunList(once) == [1, 0]
    ensures twice.verified && twice.epochs <= |twice.table| && RunList(twice) == [0, 1]
    ensures InRange(RunList(once), |once.nodes|) && Closed(Calls(once.nodes), s)
    ensures InRange(RunList(twice), |twice.nodes|) && Closed(Calls(twice.nodes), s)
    ensures ProcessOutcome(once, s) == Outcome(VX_SUCCESS, map[0 := 7, 1 := 7])
    ensures ProcessOutcome(twice, s) == Outcome(VX_SUCCESS, map[0 := 7, 1 := 3])
  {
    hide Layers, Step, Ready, Read, Apply, Exec, Result, ParamsOf;
    var g := Listed();
    once, twice := VerifyState(g), VerifyState(VerifyState(g));
    ExampleVerify();
    ReverifyFlattens(once);
    VerifySuccess(once);
    ExampleRuns(Calls(g.nodes), s);
    ProcessIsExec(Calls(g.nodes), [1, 0], s);
    ProcessIsExec(Calls(g.nodes), [0, 1], s);
  }

  lemma {:induction false} ExampleVerify()
    ensures VerifyStatus(Listed()) == VX_SUCCESS && VerifyState(Listed()).nodes == Listed().nodes
    ensures Inv(VerifyState(Listed())) && VerifyState(Listed()).verified
    ensures RunList(VerifyState(Listed())) == [1, 0]
  {
    hide Layers, Step, Ready, ParamsOf;
    var g := Listed();
    ExampleTasks();
    ExamplePlan();
    assert FirstBad(g.nodes) == 2;
    assert InitUpTo(g.nodes, 2) == g.nodes;
    VerifySuccess(g);
    var once := VerifyState(g);
    assert once.table[..2] == [[1], [0]];
    assert Flatten([[1], [0]]) == [1, 0] by {
      assert [[1], [0]][1..] == [[0]];
      assert Flatten([[0]]) == [0] + Flatten([[0]][1..]);
    }
  }
}
