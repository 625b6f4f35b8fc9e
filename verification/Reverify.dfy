/**
 What process computes after any successful verification, in particular after a second one:
 exactly when it leaves the producers-first store, whatever the nodes' kernels compute.
 */
module Reverify {
  import opened VxStatus
  import opened Sequences
  import opened Scheduler
  import opened Dataflow
  import opened Orders
  import opened Machine

  // ---------------------------------------------------------------- nodes with other kernels

  ghost function Fitted<P>(n: NodeState<P>, k: Kernel<Data>): NodeState<P> {
    n.(wanted := n.wanted.(kernels := [Slot(CPU, k)]), props := n.props.(kernels := [Slot(CPU, k)]))
  }

  ghost function FittedNodes<P>(nodes: seq<NodeState<P>>, ks: seq<Kernel<Data>>): (r: seq<NodeState<P>>)
    requires |ks| == |nodes|
    ensures |r| == |nodes| && forall i: nat | i < |nodes| :: r[i] == Fitted(nodes[i], ks[i])
  {
    seq(|nodes|, i requires 0 <= i < |nodes| => Fitted(nodes[i], ks[i]))
  }

  // The graph with one kernel for each node and nothing else changed.
  ghost function WithKernels<P>(g: GraphState<P>, ks: seq<Kernel<Data>>): GraphState<P>
    requires |ks| == |g.nodes|
  {
    g.(nodes := FittedNodes(g.nodes, ks))
  }

  lemma {:induction false} FittedCalls<P>(nodes: seq<NodeState<P>>, ks: seq<Kernel<Data>>)
    requires |ks| == |nodes| && TotalNodes(nodes)
    ensures Calls(FittedNodes(nodes, ks)) == Rekernel(Calls(nodes), ks)
  {
    var fitted := FittedNodes(nodes, ks);
    forall i: nat | i < |nodes| ensures Calls(fitted)[i] == Rekernel(Calls(nodes), ks)[i] {
      assert nodes[i] in nodes;
      FittedCall(nodes[i], ks[i]);
    }
  }

  lemma {:induction false} FittedCall<P>(n: NodeState<P>, k: Kernel<Data>)
    requires HasKernel(n.props.kernels, CPU)
    ensures CallOf(Fitted(n, k).props) == Call(CallOf(n.props).sources, CallOf(n.props).outs, k)
  {
    assert [Slot(CPU, k)][0].target == CPU;
  }

  lemma {:induction false} FittedFirstBad<P>(nodes: seq<NodeState<P>>, ks: seq<Kernel<Data>>)
    requires |ks| == |nodes|
    ensures FirstBad(FittedNodes(nodes, ks)) == FirstBad(nodes)
  {
    var fitted := FittedNodes(nodes, ks);
    assert forall i: nat | i < |nodes| :: InitFails(fitted[i]) <==> InitFails(nodes[i]);
  }

  lemma {:induction false} FittedInit<P>(nodes: seq<NodeState<P>>, ks: seq<Kernel<Data>>, f: nat)
    requires |ks| == |nodes|
    ensures InitUpTo(FittedNodes(nodes, ks), f) == FittedNodes(InitUpTo(nodes, f), ks)
    ensures Tasks(FittedNodes(nodes, ks)) == Tasks(nodes)
  {
  }

  // Verification does not look at kernels.
  lemma {:induction false} VerifyIgnoresKernels<P>(g: GraphState<P>, ks: seq<Kernel<Data>>)
    requires |ks| == |g.nodes|
    ensures |VerifyState(g).nodes| == |g.nodes|
    ensures VerifyStatus(WithKernels(g, ks)) == VerifyStatus(g)
    ensures VerifyState(WithKernels(g, ks)) == WithKernels(VerifyState(g), ks)
  {
    hide FirstBad, InitUpTo, Tasks, FittedNodes, Schedule, After, Padded;
    var n, f := |g.nodes|, FirstBad(g.nodes);
    FittedFirstBad(g.nodes, ks);
    FittedInit(g.nodes, ks, f);
    FittedInit(g.nodes, ks, n);
    FittedInit(InitUpTo(g.nodes, n), ks, n);
  }

  // ---------------------------------------------------------------- matching the producers-first store

  // Processing runs all kernels and leaves the store that the order b leaves.
  ghost predicate Matches<P>(h: GraphState<P>, b: seq<nat>, s: map<P, Data>) {
    && h.verified && h.epochs <= |h.table| && InRange(RunList(h), |h.nodes|) && InRange(b, |h.nodes|)
    && Closed(Calls(h.nodes), s)
    && ProcessOutcome(h, s) == Outcome(VX_SUCCESS, Exec(Calls(h.nodes), b, s))
  }

  lemma {:induction false} MatchesIsExec<P>(g: GraphState<P>, b: seq<nat>, ks: seq<Kernel<Data>>, s: map<P, Data>)
    requires VerifyStatus(g) == VX_SUCCESS && |ks| == |g.nodes| == |VerifyState(g).nodes| && Total(ks)
    requires TotalNodes(VerifyState(g).nodes) && InRange(b, |g.nodes|)
    ensures var h, k := VerifyState(g), VerifyState(WithKernels(g, ks));
            var ds := Rekernel(Calls(h.nodes), ks);
            && h.epochs <= |h.table| && InRange(RunList(h), |h.nodes|)
            && Calls(k.nodes) == ds
            && (Closed(ds, s) ==> (Matches(k, b, s) <==> Exec(ds, RunList(h), s) == Exec(ds, b, s)))
  {
    hide VerifyState, VerifyStatus, FittedNodes, Calls, Rekernel, Exec, Process, Closed, Total, RunList, Settled;
    var h, k := VerifyState(g), VerifyState(WithKernels(g, ks));
    VerifySuccess(g);
    VerifyIgnoresKernels(g, ks);
    FittedCalls(h.nodes, ks);
    var ds := Rekernel(Calls(h.nodes), ks);
    SameRunList(h, ks);
    RekernelKeeps(Calls(h.nodes), ks, b);
    if Closed(ds, s) {
      ProcessIsExec(ds, RunList(h), s);
    }
  }

  lemma {:induction false} SameRunList<P>(h: GraphState<P>, ks: seq<Kernel<Data>>)
    requires |ks| == |h.nodes| && h.epochs <= |h.table|
    ensures RunList(WithKernels(h, ks)) == RunList(h)
  {
  }

  lemma {:induction false} OneWriterOfTasks<P>(nodes: seq<NodeState<P>>)
    requires SingleWriter(Tasks(nodes)) && TotalNodes(nodes)
    ensures OneWriter(Calls(nodes))
    ensures forall i: nat | i < |nodes| :: Calls(nodes)[i].outs == Tasks(nodes)[i].outs
  {
    forall i: nat | i < |nodes| ensures Calls(nodes)[i].outs == Tasks(nodes)[i].outs {
      assert nodes[i] in nodes;
    }
  }

  lemma {:induction false} VerifiedOrderIff<P>(g: GraphState<P>, b: seq<nat>)
    requires VerifyStatus(g) == VX_SUCCESS
    requires var h := VerifyState(g);
             && SingleWriter(Tasks(h.nodes)) && TotalNodes(h.nodes)
             && Permutation(b, |h.nodes|) && ProducersFirst(Calls(h.nodes), b)
    ensures var h := VerifyState(g); h.epochs <= |h.table| && InRange(RunList(h), |h.nodes|)
    ensures InOrder(Calls(VerifyState(g).nodes), RunList(VerifyState(g))) <==>
            forall ks: seq<Kernel<Data>>, s: map<P, Data> |
              |ks| == |g.nodes| && Total(ks) && Closed(Calls(VerifyState(WithKernels(g, ks)).nodes), s) ::
              Matches(VerifyState(WithKernels(g, ks)), b, s)
  {
    hide VerifyState, VerifyStatus, FittedNodes, Calls, Tasks, Rekernel, Exec, Closed, Total, RunList, Settled,
         SingleWriter, TotalNodes, ProducersFirst, InOrder, OneWriter, Matches;
    var h := VerifyState(g);
    VerifySuccess(g);
    SameCount(g);
    var cs, a := Calls(h.nodes), RunList(h);
    OneWriterOfTasks(h.nodes);
    OrderMattersIff(cs, a, b, 0, 1);
    forall ks: seq<Kernel<Data>>, s: map<P, Data> | |ks| == |g.nodes| && Total(ks)
      ensures Calls(VerifyState(WithKernels(g, ks)).nodes) == Rekernel(cs, ks)
      ensures Closed(Rekernel(cs, ks), s) ==>
                (Matches(VerifyState(WithKernels(g, ks)), b, s) <==>
                 Exec(Rekernel(cs, ks), a, s) == Exec(Rekernel(cs, ks), b, s))
    {
      MatchesIsExec(g, b, ks, s);
    }
  }

  lemma {:induction false} SameCount<P>(g: GraphState<P>)
    ensures |VerifyState(g).nodes| == |g.nodes|
  {
  }

  // After any successful verification of a single-writer graph that has a producers-first order,
  // process leaves the producers-first store for all kernels and all values exactly when every
  // consumer with outputs has the producer of each parameter it did not have to wait for in an
  // earlier epoch, or earlier in the same one.
  lemma {:induction false} ProcessMatchesIff<P>(g: GraphState<P>, b: seq<nat>)
    requires VerifyStatus(g) == VX_SUCCESS
    requires var h := VerifyState(g);
             && SingleWriter(Tasks(h.nodes)) && TotalNodes(h.nodes)
             && Permutation(b, |h.nodes|) && ProducersFirst(Calls(h.nodes), b)
    ensures VerifyState(g).epochs <= |VerifyState(g).table|
    ensures var h := VerifyState(g);
            UnawaitedInOrder(Tasks(h.nodes), Calls(h.nodes), g.valid, h.table[..h.epochs]) <==>
            forall ks: seq<Kernel<Data>>, s: map<P, Data> |
              |ks| == |g.nodes| && Total(ks) && Closed(Calls(VerifyState(WithKernels(g, ks)).nodes), s) ::
              Matches(VerifyState(WithKernels(g, ks)), b, s)
  {
    var h := VerifyState(g);
    PlanRows(g);
    VerifiedOrderIff(g, b);
    OneWriterOfTasks(h.nodes);
    RunListInOrderIff(Tasks(h.nodes), Calls(h.nodes), g.valid, GRAPH_MAX_EPOCHS);
  }

  lemma {:induction false} PlanRows<P>(g: GraphState<P>)
    requires VerifyStatus(g) == VX_SUCCESS
    ensures var h := VerifyState(g);
            && h.epochs <= |h.table|
            && h.table[..h.epochs] == Schedule(Tasks(h.nodes), g.valid, GRAPH_MAX_EPOCHS).rows
  {
    hide VerifyState, VerifyStatus, Schedule, Tasks, RunList, Settled, InitUpTo;
    VerifySuccess(g);
    NodesAreInited(g);
  }

  lemma {:induction false} NodesAreInited<P>(g: GraphState<P>)
    requires VerifyStatus(g) == VX_SUCCESS
    ensures VerifyState(g).nodes == InitUpTo(g.nodes, |g.nodes|)
  {
    hide Schedule, InitUpTo, Tasks;
  }

  // A verification that finds no output valid meets that condition.
  lemma {:induction false} NothingValidIsInOrder<P>(g: GraphState<P>)
    requires VerifyStatus(g) == VX_SUCCESS
    requires var h := VerifyState(g);
             && OutputsInvalid(Tasks(h.nodes), g.valid) && TotalNodes(h.nodes) && SettingsUnwritten(h.nodes)
    ensures var h := VerifyState(g);
            h.epochs <= |h.table| && UnawaitedInOrder(Tasks(h.nodes), Calls(h.nodes), g.valid, h.table[..h.epochs])
  {
    hide VerifyState, VerifyStatus, RunList, NotAfter, ParamsOf;
    var h := VerifyState(g);
    VerifySuccess(g);
    forall i: nat, j: nat, p |
      i < |h.nodes| && j < |h.nodes| && p in Calls(h.nodes)[i].sources && p in Calls(h.nodes)[j].outs
      ensures !Unawaited(Tasks(h.nodes)[i], g.valid, p)
    {
      OutputIsAwaited(h.nodes, g.valid, i, j, p);
    }
  }

  lemma {:induction false} OutputIsAwaited<P>(nodes: seq<NodeState<P>>, valid: set<P>, i: nat, j: nat, p: P)
    requires OutputsInvalid(Tasks(nodes), valid) && TotalNodes(nodes) && SettingsUnwritten(nodes)
    requires i < |nodes| && j < |nodes| && p in Calls(nodes)[i].sources && p in Calls(nodes)[j].outs
    ensures !Unawaited(Tasks(nodes)[i], valid, p)
  {
    hide ParamsOf;
    assert nodes[i] in nodes && nodes[j] in nodes;
    assert Tasks(nodes)[j] in Tasks(nodes);
  }

  // No node with an output is listed before, or is itself, a producer of what it reads.
  ghost predicate ListedInOrder<P, V>(cs: seq<Call<P, V>>) {
    forall i: nat, j: nat, p | i <= j < |cs| && cs[i].outs != [] && p in cs[i].sources :: p !in cs[j].outs
  }

  // Verifying a verified graph again does no harm, whatever the kernels and the values, exactly
  // when the node list itself is in order.
  lemma {:induction false} ReverifyMatchesIff<P>(g: GraphState<P>, b: seq<nat>)
    requires Inv(g) && g.verified
    requires SingleWriter(Tasks(g.nodes)) && TotalNodes(g.nodes)
    requires Permutation(b, |g.nodes|) && ProducersFirst(Calls(g.nodes), b)
    ensures ListedInOrder(Calls(g.nodes)) <==>
            forall ks: seq<Kernel<Data>>, s: map<P, Data> |
              |ks| == |g.nodes| && Total(ks) && Closed(Calls(VerifyState(WithKernels(g, ks)).nodes), s) ::
              Matches(VerifyState(WithKernels(g, ks)), b, s)
  {
    ReverifyFlattens(g);
    VerifiedOrderIff(g, b);
    ListOrderIff(Calls(g.nodes), RunList(VerifyState(g)));
  }

  lemma {:induction false} ListOrderIff<P, V>(cs: seq<Call<P, V>>, order: seq<nat>)
    requires order == seq(|cs|, i requires 0 <= i => i)
    ensures InRange(order, |cs|)
    ensures InOrder(cs, order) <==> ListedInOrder(cs)
  {
    if InOrder(cs, order) {
      forall i: nat, j: nat, p | i <= j < |cs| && cs[i].outs != [] && p in cs[i].sources ensures p !in cs[j].outs {
        assert order[i] == i && order[j] == j;
      }
    }
  }
}
