/**
 What a run list computes.  A call is one node with its kernel: it reads the parameters on its In
 and NonFlowing ports and writes those on its Out ports.  Executing the calls in any order that
 puts producers before consumers leaves the same parameter store, and the run list that
 Graph::verify builds is such an order.
 */
module Dataflow {
  import opened Scheduler
  import opened Sequences
  import opened VxStatus

  // A kernel as a pure function of the values it reads: its status, and the value it leaves on
  // its k-th Out port.
  datatype Kernel<!V> = Kernel(status: seq<V> -> Status, value: (seq<V>, nat) -> V)

  datatype Call<P, !V> = Call(sources: seq<P>, outs: seq<P>, kernel: Kernel<V>)

  datatype Outcome<P, V> = Outcome(status: Status, store: map<P, V>)

  // Every parameter the calls mention has a value.
  ghost predicate Closed<P, V>(cs: seq<Call<P, V>>, s: map<P, V>) {
    forall c <- cs :: (forall p <- c.sources :: p in s) && (forall p <- c.outs :: p in s)
  }

  ghost function Read<P, V>(s: map<P, V>, ps: seq<P>): (vs: seq<V>)
    requires forall p <- ps :: p in s
    ensures |vs| == |ps| && forall k: nat | k < |ps| :: vs[k] == s[ps[k]]
  {
    seq(|ps|, k requires 0 <= k < |ps| && ps[k] in s => s[ps[k]])
  }

  // The first n outputs of a kernel call, written in port order.
  ghost function Written<P, V>(outs: seq<P>, kernel: Kernel<V>, args: seq<V>, n: nat): (m: map<P, V>)
    requires n <= |outs|
    ensures m.Keys == Elems(outs[..n])
  {
    if n == 0 then map[]
    else
      assert outs[..n] == outs[..n - 1] + [outs[n - 1]];
      Written(outs, kernel, args, n - 1)[outs[n - 1] := kernel.value(args, n - 1)]
  }

  lemma {:induction false} WrittenNone<P, V>(s: map<P, V>, outs: seq<P>, kernel: Kernel<V>, args: seq<V>)
    ensures s + Written(outs, kernel, args, 0) == s
  {
  }

  lemma {:induction false} WrittenNext<P, V>(s: map<P, V>, outs: seq<P>, kernel: Kernel<V>, args: seq<V>, n: nat)
    requires n < |outs|
    ensures s + Written(outs, kernel, args, n + 1) ==
            (s + Written(outs, kernel, args, n))[outs[n] := kernel.value(args, n)]
  {
  }

  ghost function Result<P, V>(c: Call<P, V>, s: map<P, V>): (m: map<P, V>)
    requires forall p <- c.sources :: p in s
    ensures m.Keys == Elems(c.outs)
  {
    assert c.outs[..|c.outs|] == c.outs;
    Written(c.outs, c.kernel, Read(s, c.sources), |c.outs|)
  }

  ghost function Apply<P, V>(c: Call<P, V>, s: map<P, V>): map<P, V>
    requires forall p <- c.sources :: p in s
  {
    s + Result(c, s)
  }

  // The calls of `order`, one after the other.
  ghost function Exec<P, V>(cs: seq<Call<P, V>>, order: seq<nat>, s: map<P, V>): (t: map<P, V>)
    requires Closed(cs, s) && InRange(order, |cs|)
    ensures t.Keys == s.Keys
  {
    if order == [] then s
    else
      var n := |order| - 1;
      Apply(cs[order[n]], Exec(cs, order[..n], s))
  }

  // Graph::process on values: the calls of `order` up to the first whose kernel fails.
  ghost function Process<P, V>(cs: seq<Call<P, V>>, order: seq<nat>, s: map<P, V>): (r: Outcome<P, V>)
    requires Closed(cs, s) && InRange(order, |cs|)
    ensures r.store.Keys == s.Keys
  {
    if order == [] then Outcome(VX_SUCCESS, s)
    else
      var n := |order| - 1;
      var r := Process(cs, order[..n], s);
      var c := cs[order[n]];
      if r.status != VX_SUCCESS then r else Outcome(c.kernel.status(Read(r.store, c.sources)), Apply(c, r.store))
  }

  // After a failure nothing more runs.
  lemma {:induction false} ProcessStops<P, V>(cs: seq<Call<P, V>>, order: seq<nat>, s: map<P, V>, n: nat)
    requires Closed(cs, s) && InRange(order, |cs|) && n <= |order|
    requires Process(cs, order[..n], s).status != VX_SUCCESS
    ensures Process(cs, order, s) == Process(cs, order[..n], s)
    decreases |order|
  {
    if n < |order| {
      var init := order[..|order| - 1];
      assert init[..n] == order[..n];
      ProcessStops(cs, init, s, n);
    } else {
      assert order[..n] == order;
    }
  }

  lemma {:induction false} ProcessNothing<P, V>(cs: seq<Call<P, V>>, s: map<P, V>)
    requires Closed(cs, s)
    ensures Flatten<nat>([]) == [] && Process(cs, [], s) == Outcome(VX_SUCCESS, s)
  {
  }

  lemma {:induction false} ProcessNext<P, V>(cs: seq<Call<P, V>>, order: seq<nat>, s: map<P, V>, i: nat)
    requires Closed(cs, s) && InRange(order, |cs|) && i < |cs|
    requires Process(cs, order, s).status == VX_SUCCESS
    ensures var t := Process(cs, order, s).store;
            Process(cs, order + [i], s) == Outcome(cs[i].kernel.status(Read(t, cs[i].sources)), Apply(cs[i], t))
  {
    assert (order + [i])[..|order|] == order;
  }

  ghost predicate TotalKernels<P, V(!new)>(cs: seq<Call<P, V>>) {
    forall c <- cs, args :: c.kernel.status(args) == VX_SUCCESS
  }

  lemma {:induction false} ProcessIsExec<P, V(!new)>(cs: seq<Call<P, V>>, order: seq<nat>, s: map<P, V>)
    requires Closed(cs, s) && InRange(order, |cs|) && TotalKernels(cs)
    ensures Process(cs, order, s) == Outcome(VX_SUCCESS, Exec(cs, order, s))
  {
    if order != [] {
      ProcessIsExec(cs, order[..|order| - 1], s);
    }
  }

  // No call writes a parameter that it or an earlier call reads.
  ghost predicate ProducersFirst<P, V>(cs: seq<Call<P, V>>, order: seq<nat>)
    requires InRange(order, |cs|)
  {
    forall x, y, p | 0 <= x <= y < |order| && p in cs[order[x]].sources :: p !in cs[order[y]].outs
  }

  ghost predicate OneWriter<P, V>(cs: seq<Call<P, V>>) {
    forall i: nat, j: nat, p | i < |cs| && j < |cs| && p in cs[i].outs && p in cs[j].outs :: i == j
  }

  // ---------------------------------------------------------------- the dataflow equations

  // Call i's outputs are what its kernel computes from the store itself.
  ghost predicate Solves<P, V>(c: Call<P, V>, s: map<P, V>)
    requires forall p <- c.sources :: p in s
  {
    forall p <- c.outs :: p in s && s[p] == Result(c, s)[p]
  }

  ghost predicate Touched<P, V>(cs: seq<Call<P, V>>, order: seq<nat>, p: P)
    requires InRange(order, |cs|)
  {
    exists k: nat :: k < |order| && p in cs[order[k]].outs
  }

  lemma {:induction false} SolvesAgrees<P, V>(c: Call<P, V>, s: map<P, V>, t: map<P, V>)
    requires s.Keys == t.Keys && forall p <- c.sources :: p in s && s[p] == t[p]
    ensures Result(c, s) == Result(c, t)
  {
    assert Read(s, c.sources) == Read(t, c.sources);
  }

  lemma {:induction false} ExecTouches<P, V>(cs: seq<Call<P, V>>, order: seq<nat>, s: map<P, V>, p: P)
    requires Closed(cs, s) && InRange(order, |cs|)
    requires p in s && !Touched(cs, order, p)
    ensures Exec(cs, order, s)[p] == s[p]
  {
    if order != [] {
      var n := |order| - 1;
      assert p !in cs[order[n]].outs;
      forall k: nat | k < n ensures p !in cs[order[..n][k]].outs {
        assert order[..n][k] == order[k];
      }
      ExecTouches(cs, order[..n], s, p);
    }
  }

  // Running producers first solves the equations of all the calls that ran.
  lemma {:induction false} ExecSolves<P, V>(cs: seq<Call<P, V>>, order: seq<nat>, s: map<P, V>, x: nat)
    requires Closed(cs, s) && InRange(order, |cs|)
    requires OneWriter(cs) && Distinct(order) && ProducersFirst(cs, order)
    requires x < |order|
    ensures Solves(cs[order[x]], Exec(cs, order, s))
    decreases |order|
  {
    var n := |order| - 1;
    var c, d, before := cs[order[x]], cs[order[n]], Exec(cs, order[..n], s);
    var after := Exec(cs, order, s);
    assert after == Apply(d, before);
    forall p | p in c.sources ensures before[p] == after[p] {
      assert p !in d.outs;
    }
    SolvesAgrees(c, before, after);
    if x < n {
      assert order[..n][x] == order[x];
      ExecSolves(cs, order[..n], s, x);
      forall p | p in c.outs ensures p !in d.outs {
        assert order[x] != order[n];
      }
    }
  }

  // Two solutions of the equations that agree outside the outputs are equal.
  lemma {:induction false} SolutionsAgree<P, V>(cs: seq<Call<P, V>>, order: seq<nat>, s: map<P, V>, t: map<P, V>,
                                               n: nat)
    requires Closed(cs, s) && s.Keys == t.Keys && Permutation(order, |cs|)
    requires OneWriter(cs) && ProducersFirst(cs, order)
    requires forall c <- cs :: Solves(c, s) && Solves(c, t)
    requires forall p <- s :: Touched(cs, order, p) || s[p] == t[p]
    requires n <= |order|
    ensures forall k: nat, p | k < n && p in cs[order[k]].outs :: s[p] == t[p]
    decreases n
  {
    if n > 0 {
      SolutionsAgree(cs, order, s, t, n - 1);
      var c := cs[order[n - 1]];
      forall p | p in c.sources ensures s[p] == t[p] {
        if Touched(cs, order, p) {
          var k: nat :| k < |order| && p in cs[order[k]].outs;
          assert k < n - 1;
        }
      }
      SolvesAgrees(c, s, t);
      forall p | p in c.outs ensures s[p] == t[p] {
        assert Solves(c, s) && Solves(c, t);
      }
    }
  }

  lemma {:induction false} AllSolved<P, V>(cs: seq<Call<P, V>>, order: seq<nat>, s: map<P, V>)
    requires Closed(cs, s) && Permutation(order, |cs|)
    requires OneWriter(cs) && ProducersFirst(cs, order)
    ensures forall c <- cs :: Solves(c, Exec(cs, order, s))
  {
    forall i: nat | i < |cs| ensures Solves(cs[i], Exec(cs, order, s)) {
      assert i in order;
      var x :| 0 <= x < |order| && order[x] == i;
      ExecSolves(cs, order, s, x);
    }
  }

  lemma {:induction false} TouchedByAny<P, V>(cs: seq<Call<P, V>>, a: seq<nat>, b: seq<nat>, p: P)
    requires Permutation(a, |cs|) && Permutation(b, |cs|) && Touched(cs, a, p)
    ensures Touched(cs, b, p)
  {
    var k: nat :| k < |a| && p in cs[a[k]].outs;
    assert a[k] in b;
    var j: nat :| j < |b| && b[j] == a[k];
  }

  // Any two producers-first orders of the same calls leave the same store.
  lemma {:induction false} OrdersAgree<P, V>(cs: seq<Call<P, V>>, s: map<P, V>, a: seq<nat>, b: seq<nat>)
    requires Closed(cs, s) && OneWriter(cs)
    requires Permutation(a, |cs|) && ProducersFirst(cs, a)
    requires Permutation(b, |cs|) && ProducersFirst(cs, b)
    ensures Exec(cs, a, s) == Exec(cs, b, s)
  {
    var u, v := Exec(cs, a, s), Exec(cs, b, s);
    AllSolved(cs, a, s);
    AllSolved(cs, b, s);
    forall p | p in s ensures Touched(cs, a, p) || u[p] == v[p] {
      if !Touched(cs, a, p) {
        if Touched(cs, b, p) {
          TouchedByAny(cs, b, a, p);
        }
        ExecTouches(cs, a, s, p);
        ExecTouches(cs, b, s, p);
      }
    }
    SolutionsAgree(cs, a, u, v, |a|);
  }

  // ---------------------------------------------------------------- the verified run list

  // The calls are those of the tasks: each reads its task's inputs, and beyond them only
  // parameters no call writes (NonFlowing ports).
  ghost predicate CallsOf<P, V>(ts: seq<Task<P>>, cs: seq<Call<P, V>>) {
    && |cs| == |ts|
    && (forall i: nat | i < |ts| :: cs[i].outs == ts[i].outs)
    && (forall i: nat, p | i < |ts| && p in cs[i].sources && p !in ts[i].ins :: forall c <- cs :: p !in c.outs)
  }

  lemma {:induction false} FlattenOrder<T>(rows: seq<seq<T>>, x: nat, y: nat) returns (d: nat, e: nat)
    requires x <= y < |Flatten(rows)|
    ensures d <= e < |rows| && Flatten(rows)[x] in rows[d] && Flatten(rows)[y] in rows[e]
    decreases |rows|
  {
    var n := |rows[0]|;
    if x < n {
      d := 0;
      if y < n {
        e := 0;
      } else {
        var d', e' := FlattenOrder(rows[1..], y - n, y - n);
        e := e' + 1;
      }
    } else {
      d, e := FlattenOrder(rows[1..], x - n, y - n);
      d, e := d + 1, e + 1;
    }
  }

  // The run list of a successful verification puts producers first.
  lemma {:induction false} RunListPutsProducersFirst<P, V>(ts: seq<Task<P>>, cs: seq<Call<P, V>>, valid: set<P>,
                                                          epochs: nat)
    requires CallsOf(ts, cs) && SingleWriter(ts) && OutputsInvalid(ts, valid)
    requires Schedule(ts, valid, epochs).verdict == Scheduled
    ensures Permutation(Flatten(Schedule(ts, valid, epochs).rows), |cs|)
    ensures ProducersFirst(cs, Flatten(Schedule(ts, valid, epochs).rows))
  {
    var rows := Schedule(ts, valid, epochs).rows;
    var order := Flatten(rows);
    PlacedOnce(ts, valid, epochs);
    forall x, y, p | 0 <= x <= y < |order| && p in cs[order[x]].sources ensures p !in cs[order[y]].outs {
      if p in cs[order[y]].outs {
        var d, e := FlattenOrder(rows, x, y);
        Sound(ts, valid, epochs, d, order[x]);
        assert p in ts[order[x]].ins;
        var c: nat, j: nat :| c < d && j in rows[c] && j < |ts| && p in ts[j].outs;
        assert j == order[y];
        RowsApart(ts, valid, epochs, c, e, j);
        assert false;
      }
    }
  }

  // Order independence: processing the verified run list leaves the store that executing the
  // nodes in any other producers-first order leaves.
  lemma {:induction false} OrderIndependent<P, V(!new)>(ts: seq<Task<P>>, cs: seq<Call<P, V>>, valid: set<P>,
                                                  epochs: nat,
                                                  s: map<P, V>, other: seq<nat>)
    requires CallsOf(ts, cs) && SingleWriter(ts) && OutputsInvalid(ts, valid)
    requires Schedule(ts, valid, epochs).verdict == Scheduled
    requires Closed(cs, s) && TotalKernels(cs)
    requires Permutation(other, |cs|) && ProducersFirst(cs, other)
    ensures InRange(Flatten(Schedule(ts, valid, epochs).rows), |cs|)
    ensures Process(cs, Flatten(Schedule(ts, valid, epochs).rows), s) == Outcome(VX_SUCCESS, Exec(cs, other, s))
  {
    var order := Flatten(Schedule(ts, valid, epochs).rows);
    RunListPutsProducersFirst(ts, cs, valid, epochs);
    ProcessIsExec(cs, order, s);
    OrdersAgree(cs, s, order, other);
  }
}
