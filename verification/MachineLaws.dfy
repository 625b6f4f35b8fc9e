/**
 What the steps of the graph mean without their definitions: which ports and outputs go where, how
 many nodes a graph takes, what a verification marks, and when processing refuses.
 */
module MachineLaws {
  import opened VxStatus
  import opened Sequences
  import opened Scheduler
  import opened Dataflow
  import opened Machine

  // ---------------------------------------------------------------- ports and values

  // The tables hold exactly the parameters on ports of the wanted directions.
  lemma {:induction false} PickedIff<P>(ports: seq<Port<P>>, pick: set<Direction>, p: P)
    ensures p in ParamsOf(ports, pick) <==> exists k: nat :: k < |ports| && ports[k] == Port(p, ports[k].direction) &&
                                                            ports[k].direction in pick
  {
    if ports != [] {
      var n := |ports| - 1;
      PickedIff(ports[..n], pick, p);
      if p in ParamsOf(ports[..n], pick) {
        var k: nat :| k < n && ports[..n][k] == Port(p, ports[..n][k].direction) && ports[..n][k].direction in pick;
        assert ports[k] == ports[..n][k];
      }
      if k: nat :| k < |ports| && ports[k] == Port(p, ports[k].direction) && ports[k].direction in pick {
        assert k < n ==> ports[..n][k] == ports[k];
      }
    }
  }

  // They keep the order of the ports.
  lemma {:induction false} PickedInOrder<P>(a: seq<Port<P>>, b: seq<Port<P>>, pick: set<Direction>)
    ensures ParamsOf(a + b, pick) == ParamsOf(a, pick) + ParamsOf(b, pick)
    decreases |b|
  {
    if b == [] {
      assert a + b == a;
    } else {
      var n := |b| - 1;
      assert (a + b)[..|a + b| - 1] == a + b[..n] && (a + b)[|a + b| - 1] == b[n];
      PickedInOrder(a, b[..n], pick);
    }
  }

  // In, Out and the rest.
  lemma {:induction false} OnePort<P>(p: P)
    ensures InsOf([Port(p, In)]) == [p] && OutsOf([Port(p, In)]) == [] && SourcesOf([Port(p, In)]) == [p]
    ensures InsOf([Port(p, Out)]) == [] && OutsOf([Port(p, Out)]) == [p] && SourcesOf([Port(p, Out)]) == []
    ensures forall d | d == NonFlowing || d == Unknown ::
              InsOf([Port(p, d)]) == [] && OutsOf([Port(p, d)]) == [] && SourcesOf([Port(p, d)]) == [p]
  {
    forall d: Direction, pick: set<Direction>
      ensures ParamsOf([Port(p, d)], pick) == if d in pick then [p] else []
    {
      assert [Port(p, d)][..0] == [];
    }
  }

  // The k-th output gets the kernel's k-th value, and nothing else changes.
  lemma {:induction false} OutputsGetValues<P, V>(c: Call<P, V>, s: map<P, V>, k: nat)
    requires (forall p <- c.sources :: p in s) && Distinct(c.outs) && k < |c.outs|
    ensures Apply(c, s)[c.outs[k]] == c.kernel.value(Read(s, c.sources), k)
    ensures forall p <- s | p !in c.outs :: Apply(c, s)[p] == s[p]
  {
    assert c.outs[..|c.outs|] == c.outs;
    WrittenAt(c.outs, c.kernel, Read(s, c.sources), |c.outs|, k);
  }

  lemma {:induction false} WrittenAt<P, V>(outs: seq<P>, kernel: Kernel<V>, args: seq<V>, n: nat, k: nat)
    requires k < n <= |outs| && Distinct(outs)
    ensures outs[k] in Written(outs, kernel, args, n)
    ensures Written(outs, kernel, args, n)[outs[k]] == kernel.value(args, k)
  {
    hide Elems, Distinct;
    if k < n - 1 {
      WrittenAt(outs, kernel, args, n - 1, k);
      assert outs[k] != outs[n - 1] by { Differ(outs, k, n - 1); }
    }
  }

  lemma {:induction false} Differ<P>(s: seq<P>, j: nat, k: nat)
    requires Distinct(s) && j < k < |s|
    ensures s[j] != s[k]
  {
  }

  // The k-th call of the order succeeds on the values it finds.
  ghost predicate SucceedsAt<P, V>(cs: seq<Call<P, V>>, order: seq<nat>, s: map<P, V>, k: nat)
    requires Closed(cs, s) && InRange(order, |cs|) && k < |order|
  {
    var c := cs[order[k]];
    c.kernel.status(Read(Exec(cs, order[..k], s), c.sources)) == VX_SUCCESS
  }

  // As long as the kernels succeed on the values they find, processing runs them in order.
  lemma {:induction false} ProcessRunsWhileSuccessful<P, V>(cs: seq<Call<P, V>>, order: seq<nat>, s: map<P, V>)
    requires Closed(cs, s) && InRange(order, |cs|) && forall k: nat | k < |order| :: SucceedsAt(cs, order, s, k)
    ensures Process(cs, order, s) == Outcome(VX_SUCCESS, Exec(cs, order, s))
    decreases |order|
  {
    hide SucceedsAt;
    if order == [] {
      ProcessNothing(cs, s);
    } else {
      var init := order[..|order| - 1];
      forall k: nat | k < |init| ensures SucceedsAt(cs, init, s, k) {
        SameStep(cs, order, s, k);
      }
      ProcessRunsWhileSuccessful(cs, init, s);
      LastStep(cs, order, s);
    }
  }

  lemma {:induction false} SameStep<P, V>(cs: seq<Call<P, V>>, order: seq<nat>, s: map<P, V>, k: nat)
    requires Closed(cs, s) && InRange(order, |cs|) && k < |order| - 1
    ensures SucceedsAt(cs, order[..|order| - 1], s, k) <==> SucceedsAt(cs, order, s, k)
  {
    hide Exec;
    assert order[..|order| - 1][..k] == order[..k];
  }

  lemma {:induction false} LastStep<P, V>(cs: seq<Call<P, V>>, order: seq<nat>, s: map<P, V>)
    requires Closed(cs, s) && InRange(order, |cs|) && order != [] && SucceedsAt(cs, order, s, |order| - 1)
    requires Process(cs, order[..|order| - 1], s) == Outcome(VX_SUCCESS, Exec(cs, order[..|order| - 1], s))
    ensures Process(cs, order, s) == Outcome(VX_SUCCESS, Exec(cs, order, s))
  {
  }

  // ---------------------------------------------------------------- additions

  // The first hundred additions to a new graph are taken, in order, and the others dropped.
  lemma {:induction false} AdditionsFill<P>(valid: set<P>, ds: seq<Definition<P>>, g: GraphState<P>)
    requires Run(Fresh(valid), seq(|ds|, k requires 0 <= k < |ds| => AddNode(ds[k])), g)
    ensures |g.nodes| == if |ds| < 100 then |ds| else 100
    ensures forall k: nat | k < |g.nodes| :: g.nodes[k].wanted == ds[k] && g.nodes[k].dirty
  {
    AdditionsAppend(Fresh(valid), ds, g);
  }

  lemma {:induction false} AdditionsAppend<P>(g: GraphState<P>, ds: seq<Definition<P>>, h: GraphState<P>)
    requires !g.verified && |g.nodes| <= 100
    requires Run(g, seq(|ds|, k requires 0 <= k < |ds| => AddNode(ds[k])), h)
    ensures |h.nodes| == if |g.nodes| + |ds| < 100 then |g.nodes| + |ds| else 100
    ensures g.nodes == h.nodes[..|g.nodes|]
    ensures forall k: nat | |g.nodes| <= k < |h.nodes| :: h.nodes[k].wanted == ds[k - |g.nodes|] && h.nodes[k].dirty
    decreases |ds|
  {
    var ops := seq(|ds|, k requires 0 <= k < |ds| => AddNode(ds[k]));
    if ds != [] {
      var rest := ds[1..];
      assert ops[1..] == seq(|rest|, k requires 0 <= k < |rest| => AddNode(rest[k]));
      AdditionsAppend(Next(g, ops[0]), rest, h);
    }
  }

  // ---------------------------------------------------------------- verification

  // A verification whose inits succeed, whatever it returns, makes valid what the nodes on its run
  // list output, and nothing else.
  lemma {:induction false} VerifyMarks<P>(g: GraphState<P>, p: P)
    requires VerifyStatus(g) != VX_ERROR_INVALID_NODE
    ensures var ts := Tasks(InitUpTo(g.nodes, |g.nodes|));
            p in VerifyState(g).valid <==>
            p in g.valid || exists i: nat :: i in Flatten(PlanOf(g).rows) && i < |ts| && p in ts[i].outs
  {
    hide Layers, After, Flatten, Tasks, InitUpTo;
    var ts, rows := Tasks(InitUpTo(g.nodes, |g.nodes|)), PlanOf(g).rows;
    ValidWhenProduced(ts, g.valid, GRAPH_MAX_EPOCHS, |rows|, p);
    forall i: nat ensures i in Flatten(rows) <==> exists e: nat :: e < |rows| && i in rows[e] {
      InFlatten(rows, i);
    }
  }

  // A failing init ends the verification: the nodes before it are initialized, and nothing else
  // of the graph changes.
  lemma {:induction false} VerifyStopsAtBadNode<P>(g: GraphState<P>, f: nat)
    requires f < |g.nodes| && InitFails(g.nodes[f]) && forall i: nat | i < f :: !InitFails(g.nodes[i])
    ensures VerifyStatus(g) == VX_ERROR_INVALID_NODE
    ensures VerifyState(g) == g.(nodes := VerifyState(g).nodes) && |VerifyState(g).nodes| == |g.nodes|
    ensures forall i: nat | i < f && g.nodes[i].dirty ::
              !VerifyState(g).nodes[i].dirty && VerifyState(g).nodes[i].props == g.nodes[i].wanted
    ensures forall i: nat | i < |g.nodes| && (i >= f || !g.nodes[i].dirty) :: VerifyState(g).nodes[i] == g.nodes[i]
  {
    var e := FirstBad(g.nodes);
    assert e == f;
  }

  // ---------------------------------------------------------------- when processing refuses

  // What a client does to make a graph stale.
  ghost predicate Spoils<P>(g: GraphState<P>, op: Op<P>) {
    match op
    case AddNode(_) => !g.verified && |g.nodes| < 100
    case SetNode(_, _) => true
    case TouchUnlisted => true
    case _ => false
  }

  // No verification of the run succeeds.
  ghost predicate NoneSucceeds<P>(g: GraphState<P>, ops: seq<Op<P>>)
    decreases |ops|
  {
    ops == [] || !Enabled(g, ops[0]) ||
    ((ops[0].VerifyGraph? ==> VerifyStatus(g) != VX_SUCCESS) && NoneSucceeds(Next(g, ops[0]), ops[1..]))
  }

  lemma {:induction false} StaysUnverified<P>(g: GraphState<P>, ops: seq<Op<P>>, h: GraphState<P>)
    requires !g.verified && Run(g, ops, h) && NoneSucceeds(g, ops)
    ensures !h.verified
    decreases |ops|
  {
    if ops != [] {
      StaysUnverified(Next(g, ops[0]), ops[1..], h);
    }
  }

  lemma {:induction false} RunKeepsCore<P>(g: GraphState<P>, ops: seq<Op<P>>, h: GraphState<P>)
    requires Core(g) && Run(g, ops, h)
    ensures Core(h)
  {
    hide Core, Permutation, Run, LastVerify;
    var last := if g.verified && !CompleteRunList(g) then VX_ERROR_INVALID_GRAPH else VX_SUCCESS;
    CoreTracks(g, last);
    RunTracks(g, ops, h, last);
    CoreOf(h, LastVerify(g, ops, last));
  }

  ghost predicate CompleteRunList<P>(g: GraphState<P>) {
    g.epochs <= |g.table| && Permutation(RunList(g), |g.nodes|)
  }

  lemma {:induction false} CoreTracks<P>(g: GraphState<P>, last: Status)
    requires Core(g)
    requires last == if g.verified && !CompleteRunList(g) then VX_ERROR_INVALID_GRAPH else VX_SUCCESS
    ensures Tracks(g, last)
  {
  }

  lemma {:induction false} CoreOf<P>(g: GraphState<P>, last: Status)
    requires Tracks(g, last)
    ensures Core(g)
  {
  }

  lemma {:induction false} FreshIsCore<P>(valid: set<P>)
    ensures Core(Fresh(valid))
  {
  }

  // After an addition that is taken, a setter, or a setter of a node that is not listed, until a
  // verification succeeds, processing refuses and leaves the store alone.
  lemma {:induction false} RefusedUntilVerified<P>(valid: set<P>, before: seq<Op<P>>, g: GraphState<P>, op: Op<P>,
                                                   ops: seq<Op<P>>, h: GraphState<P>, s: map<P, Data>)
    requires Run(Fresh(valid), before, g) && Enabled(g, op) && Spoils(g, op)
    requires Run(Next(g, op), ops, h) && NoneSucceeds(Next(g, op), ops)
    ensures !h.verified && h.epochs <= |h.table|
    ensures ProcessOutcome(h, s) == Outcome(VX_ERROR_INVALID_GRAPH, s)
  {
    hide Run, NoneSucceeds;
    FreshIsCore(valid);
    RunKeepsCore(Fresh(valid), before, g);
    StaysUnverified(Next(g, op), ops, h);
    NextKeepsCore(g, op);
    RunKeepsCore(Next(g, op), ops, h);
  }

  lemma {:induction false} NextKeepsCore<P>(g: GraphState<P>, op: Op<P>)
    requires Core(g) && Enabled(g, op)
    ensures Core(Next(g, op))
  {
    assert [op][1..] == [];
    assert Run(Next(g, op), [], Next(g, op));
    assert Run(g, [op], Next(g, op));
    RunKeepsCore(g, [op], Next(g, op));
  }

  // A graph that was never verified with success refuses too.
  lemma {:induction false} NewGraphRefuses<P>(valid: set<P>, ops: seq<Op<P>>, g: GraphState<P>, s: map<P, Data>)
    requires Run(Fresh(valid), ops, g) && NoneSucceeds(Fresh(valid), ops)
    ensures !g.verified && g.epochs <= |g.table|
    ensures ProcessOutcome(g, s) == Outcome(VX_ERROR_INVALID_GRAPH, s)
  {
    hide Run, NoneSucceeds;
    StaysUnverified(Fresh(valid), ops, g);
    FreshIsCore(valid);
    RunKeepsCore(Fresh(valid), ops, g);
  }

  // After every run: if processing reports success, or changes the store, then every listed node is
  // clean and has the ports that its setters asked for.
  lemma {:induction false} ProcessedMeansCurrent<P>(valid: set<P>, ops: seq<Op<P>>, g: GraphState<P>, s: map<P, Data>)
    requires Run(Fresh(valid), ops, g) && Closed(Calls(g.nodes), s)
    ensures g.epochs <= |g.table| && (g.verified ==> InRange(RunList(g), |g.nodes|))
    ensures ProcessOutcome(g, s).status == VX_SUCCESS || ProcessOutcome(g, s).store != s ==>
              forall n <- g.nodes :: !n.dirty && n.props == n.wanted
  {
    hide Run, Calls, Process, Flatten;
    FreshIsCore(valid);
    RunKeepsCore(Fresh(valid), ops, g);
    if g.verified {
      VerifiedMeansCurrent(valid, ops, g);
    }
  }
}
