/**
 When the order of the calls matters: an order gives the producers-first store for every choice of
 kernels and values exactly when no call with outputs stands before a producer of what it reads.
 */
module Orders {
  import opened VxStatus
  import opened Sequences
  import opened Scheduler
  import opened Dataflow

  // The same ports with other kernels.
  ghost function Rekernel<P, V>(cs: seq<Call<P, V>>, ks: seq<Kernel<V>>): (r: seq<Call<P, V>>)
    requires |ks| == |cs|
    ensures |r| == |cs| && forall i: nat | i < |cs| :: r[i] == Call(cs[i].sources, cs[i].outs, ks[i])
  {
    seq(|cs|, i requires 0 <= i < |cs| => Call(cs[i].sources, cs[i].outs, ks[i]))
  }

  // Every kernel succeeds on all arguments.
  ghost predicate Total<V(!new)>(ks: seq<Kernel<V>>) {
    forall k <- ks, args :: k.status(args) == VX_SUCCESS
  }

  // A call with outputs reads nothing that it or a later call writes.
  ghost predicate InOrder<P, V>(cs: seq<Call<P, V>>, order: seq<nat>)
    requires InRange(order, |cs|)
  {
    forall x, y, p | 0 <= x <= y < |order| && cs[order[x]].outs != [] && p in cs[order[x]].sources ::
      p !in cs[order[y]].outs
  }

  lemma {:induction false} RekernelKeeps<P, V(!new)>(cs: seq<Call<P, V>>, ks: seq<Kernel<V>>, order: seq<nat>)
    requires |ks| == |cs| && InRange(order, |cs|)
    ensures OneWriter(Rekernel(cs, ks)) <==> OneWriter(cs)
    ensures ProducersFirst(Rekernel(cs, ks), order) <==> ProducersFirst(cs, order)
    ensures InOrder(Rekernel(cs, ks), order) <==> InOrder(cs, order)
    ensures Total(ks) <==> TotalKernels(Rekernel(cs, ks))
  {
    var r := Rekernel(cs, ks);
    if TotalKernels(r) {
      forall k, args | k in ks ensures k.status(args) == VX_SUCCESS {
        var i: nat :| i < |ks| && ks[i] == k;
        assert r[i] in r && r[i].kernel == k;
      }
    }
  }

  // ---------------------------------------------------------------- an order that is enough

  // Calls without outputs read nothing that matters.
  ghost function Muted<P, V>(cs: seq<Call<P, V>>): (r: seq<Call<P, V>>)
    ensures |r| == |cs|
    ensures forall i: nat | i < |cs| :: r[i] == if cs[i].outs == [] then Call([], [], cs[i].kernel) else cs[i]
  {
    seq(|cs|, i requires 0 <= i < |cs| => if cs[i].outs == [] then Call([], [], cs[i].kernel) else cs[i])
  }

  lemma {:induction false} MutedExec<P, V>(cs: seq<Call<P, V>>, order: seq<nat>, s: map<P, V>)
    requires Closed(cs, s) && InRange(order, |cs|)
    ensures Closed(Muted(cs), s) && Exec(Muted(cs), order, s) == Exec(cs, order, s)
  {
    if order != [] {
      var n := |order| - 1;
      MutedExec(cs, order[..n], s);
      var c, t := cs[order[n]], Exec(cs, order[..n], s);
      if c.outs == [] {
        NoOutsApply(c, t);
        NoOutsApply(Muted(cs)[order[n]], t);
      }
    }
  }

  lemma {:induction false} NoOutsApply<P, V>(c: Call<P, V>, s: map<P, V>)
    requires c.outs == [] && forall p <- c.sources :: p in s
    ensures Apply(c, s) == s
  {
  }

  lemma {:induction false} MutedKeeps<P, V>(cs: seq<Call<P, V>>, order: seq<nat>)
    requires InRange(order, |cs|)
    ensures |Muted(cs)| == |cs|
    ensures OneWriter(cs) ==> OneWriter(Muted(cs))
    ensures InOrder(cs, order) ==> ProducersFirst(Muted(cs), order)
  {
  }

  lemma {:induction false} ProducersFirstInOrder<P, V>(cs: seq<Call<P, V>>, order: seq<nat>)
    requires InRange(order, |cs|) && ProducersFirst(cs, order)
    ensures InOrder(cs, order)
  {
  }

  lemma {:induction false} InOrderSuffices<P, V>(cs: seq<Call<P, V>>, a: seq<nat>, b: seq<nat>, s: map<P, V>)
    requires Closed(cs, s) && OneWriter(cs) && Permutation(a, |cs|) && Permutation(b, |cs|)
    requires InOrder(cs, a) && ProducersFirst(cs, b)
    ensures Exec(cs, a, s) == Exec(cs, b, s)
  {
    hide Exec, OneWriter, ProducersFirst, InOrder, Muted;
    MutedExec(cs, a, s);
    MutedExec(cs, b, s);
    MutedKeeps(cs, a);
    MutedKeeps(cs, b);
    ProducersFirstInOrder(cs, b);
    OrdersAgree(Muted(cs), s, a, b);
  }

  // ---------------------------------------------------------------- an order that is not

  // A kernel that leaves v on all its outputs.
  ghost function Always<V>(v: V): Kernel<V> {
    Kernel(_ => VX_SUCCESS, (_, _) => v)
  }

  // A kernel that copies its m-th argument to all its outputs.
  ghost function Copies<V>(m: nat, v: V): Kernel<V> {
    Kernel(_ => VX_SUCCESS, (args, _) => if m < |args| then args[m] else v)
  }

  ghost function PortsOf<P, V>(c: Call<P, V>): seq<P> {
    c.sources + c.outs
  }

  ghost function AllPorts<P, V>(cs: seq<Call<P, V>>): (ps: set<P>)
    ensures forall c <- cs, p <- PortsOf(c) :: p in ps
  {
    if cs == [] then {}
    else
      assert forall c <- cs :: c == cs[0] || c in cs[1..];
      Elems(PortsOf(cs[0])) + AllPorts(cs[1..])
  }

  // All parameters of the calls, with the value v.
  ghost function Uniform<P, V>(cs: seq<Call<P, V>>, v: V): (s: map<P, V>)
    ensures s.Keys == AllPorts(cs) && forall p <- s :: s[p] == v
  {
    map p | p in AllPorts(cs) :: v
  }

  lemma {:induction false} UniformCloses<P, V>(cs: seq<Call<P, V>>, v: V)
    ensures Closed(cs, Uniform(cs, v))
  {
    forall c, p | c in cs && (p in c.sources || p in c.outs) ensures p in Uniform(cs, v) {
      assert p in PortsOf(c);
    }
  }

  // A kernel that does not look at the port leaves one value on all its outputs.
  lemma {:induction false} SameOnAllOuts<P, V>(c: Call<P, V>, s: map<P, V>, v: V, p: P)
    requires (forall q <- c.sources :: q in s) && p in c.outs
    requires forall k: nat :: c.kernel.value(Read(s, c.sources), k) == v
    ensures Result(c, s)[p] == v
  {
    assert c.outs[..|c.outs|] == c.outs;
    WrittenSame(c.outs, c.kernel, Read(s, c.sources), |c.outs|, v);
  }

  lemma {:induction false} WrittenSame<P, V>(outs: seq<P>, kernel: Kernel<V>, args: seq<V>, n: nat, v: V)
    requires n <= |outs| && forall k: nat :: kernel.value(args, k) == v
    ensures forall p <- Written(outs, kernel, args, n) :: Written(outs, kernel, args, n)[p] == v
  {
    if n > 0 {
      WrittenSame(outs, kernel, args, n - 1, v);
    }
  }

  // What is not written from position n on keeps its value.
  lemma {:induction false} ExecKeeps<P, V>(cs: seq<Call<P, V>>, order: seq<nat>, s: map<P, V>, n: nat, p: P)
    requires Closed(cs, s) && InRange(order, |cs|) && n <= |order| && p in s
    requires forall k: nat | n <= k < |order| :: p !in cs[order[k]].outs
    ensures Exec(cs, order, s)[p] == Exec(cs, order[..n], s)[p]
    decreases |order|
  {
    if n < |order| {
      var m := |order| - 1;
      ExecKeeps(cs, order[..m], s, n, p);
      assert order[..m][..n] == order[..n];
    } else {
      assert order[..n] == order;
    }
  }

  // The kernels that show the difference: the producer writes `one`, the consumer copies, the
  // others write `zero`.
  ghost function Telltale<V>(n: nat, consumer: nat, producer: nat, m: nat, zero: V, one: V): (ks: seq<Kernel<V>>)
    ensures |ks| == n
    ensures forall i: nat | i < n :: ks[i] ==
              if i == producer then Always(one) else if i == consumer then Copies(m, zero) else Always(zero)
  {
    seq(n, i requires 0 <= i < n =>
      if i == producer then Always(one) else if i == consumer then Copies(m, zero) else Always(zero))
  }

  lemma {:induction false} TelltaleTotal<V(!new)>(n: nat, consumer: nat, producer: nat, m: nat, zero: V, one: V)
    ensures Total(Telltale(n, consumer, producer, m, zero, one))
  {
    var ks := Telltale(n, consumer, producer, m, zero, one);
    forall k, args | k in ks ensures k.status(args) == VX_SUCCESS {
      var i: nat :| i < |ks| && ks[i] == k;
    }
  }

  // The parameter the two share, and their calls.
  ghost predicate Wired<P, V>(cs: seq<Call<P, V>>, i: nat, j: nat, m: nat, p: P, q: P, zero: V, one: V) {
    && i < |cs| && j < |cs| && i != j
    && m < |cs[i].sources| && cs[i].sources[m] == p && p in cs[j].outs && q in cs[i].outs
    && cs[i].kernel == Copies(m, zero) && cs[j].kernel == Always(one)
  }

  // Producer before consumer: the consumer's output shows the producer's value.
  lemma {:induction false} ProducerShows<P, V>(cs: seq<Call<P, V>>, b: seq<nat>, s: map<P, V>, i: nat, j: nat, m: nat,
                                               p: P, q: P, zero: V, one: V)
    requires Wired(cs, i, j, m, p, q, zero, one) && Closed(cs, s)
    requires OneWriter(cs) && Permutation(b, |cs|) && ProducersFirst(cs, b)
    ensures q in s && Exec(cs, b, s)[q] == one
  {
    hide Exec, ProducersFirst, OneWriter, Result;
    var t := Exec(cs, b, s);
    AllSolved(cs, b, s);
    assert cs[i] in cs && cs[j] in cs;
    assert Solves(cs[i], t) && Solves(cs[j], t);
    SameOnAllOuts(cs[j], t, one, p);
    assert Read(t, cs[i].sources)[m] == t[p];
    SameOnAllOuts(cs[i], t, one, q);
  }

  // Consumer before producer: it shows what was there on entry.
  lemma {:induction false} ConsumerShows<P, V>(cs: seq<Call<P, V>>, a: seq<nat>, s: map<P, V>, x: nat, y: nat, m: nat,
                                               p: P, q: P, zero: V, one: V)
    requires InRange(a, |cs|) && x < y < |a| && Wired(cs, a[x], a[y], m, p, q, zero, one)
    requires Closed(cs, s) && OneWriter(cs) && Distinct(a) && p in s && s[p] == zero
    ensures q in s && Exec(cs, a, s)[q] == zero
  {
    hide Result;
    var c, t := cs[a[x]], Exec(cs, a[..x], s);
    assert c in cs;
    ExecTouches(cs, a[..x], s, p);
    assert Read(t, c.sources)[m] == t[p] == zero;
    SameOnAllOuts(c, t, zero, q);
    assert a[..x + 1][..x] == a[..x];
    assert Exec(cs, a[..x + 1], s) == Apply(c, t);
    ExecKeeps(cs, a, s, x + 1, q);
  }

  lemma {:induction false} OutOfOrderShows<P, V(!new)>(cs: seq<Call<P, V>>, a: seq<nat>, b: seq<nat>, zero: V, one: V)
    returns (ks: seq<Kernel<V>>, s: map<P, V>)
    requires OneWriter(cs) && Permutation(a, |cs|) && Permutation(b, |cs|)
    requires ProducersFirst(cs, b) && !InOrder(cs, a) && zero != one
    ensures |ks| == |cs| && Total(ks) && Closed(Rekernel(cs, ks), s)
    ensures Exec(Rekernel(cs, ks), a, s) != Exec(Rekernel(cs, ks), b, s)
  {
    hide Exec, OneWriter, ProducersFirst, Closed, Total, InOrder;
    var x, y, m, p, q := Gap(cs, a, b);
    ks := Telltale(|cs|, a[x], a[y], m, zero, one);
    s := Uniform(Rekernel(cs, ks), zero);
    TelltaleTotal<V>(|cs|, a[x], a[y], m, zero, one);
    RekernelKeeps(cs, ks, b);
    UniformCloses(Rekernel(cs, ks), zero);
    Difference(Rekernel(cs, ks), a, b, s, x, y, m, p, q, zero, one);
  }

  // A consumer at x that stands before the producer at y.
  lemma {:induction false} Gap<P, V>(cs: seq<Call<P, V>>, a: seq<nat>, b: seq<nat>)
    returns (x: nat, y: nat, m: nat, p: P, q: P)
    requires Permutation(a, |cs|) && Permutation(b, |cs|) && ProducersFirst(cs, b) && !InOrder(cs, a)
    ensures x < y < |a| && a[x] != a[y]
    ensures m < |cs[a[x]].sources| && cs[a[x]].sources[m] == p && p in cs[a[y]].outs && q in cs[a[x]].outs
  {
    hide ProducersFirst;
    x, y, p :| x <= y < |a| && cs[a[x]].outs != [] && p in cs[a[x]].sources && p in cs[a[y]].outs;
    NotItself(cs, b, a[x], p);
    m :| m < |cs[a[x]].sources| && cs[a[x]].sources[m] == p;
    q := cs[a[x]].outs[0];
  }

  lemma {:induction false} Difference<P, V>(cs: seq<Call<P, V>>, a: seq<nat>, b: seq<nat>, s: map<P, V>,
                                            x: nat, y: nat, m: nat, p: P, q: P, zero: V, one: V)
    requires OneWriter(cs) && Permutation(a, |cs|) && Permutation(b, |cs|) && ProducersFirst(cs, b) && zero != one
    requires x < y < |a| && Wired(cs, a[x], a[y], m, p, q, zero, one)
    requires Closed(cs, s) && forall r <- s :: s[r] == zero
    ensures Exec(cs, a, s) != Exec(cs, b, s)
  {
    hide Exec, OneWriter, ProducersFirst;
    assert cs[a[x]] in cs && p in cs[a[x]].sources;
    ProducerShows(cs, b, s, a[x], a[y], m, p, q, zero, one);
    ConsumerShows(cs, a, s, x, y, m, p, q, zero, one);
  }

  lemma {:induction false} NotItself<P, V>(cs: seq<Call<P, V>>, b: seq<nat>, i: nat, p: P)
    requires Permutation(b, |cs|) && ProducersFirst(cs, b) && i < |cs| && p in cs[i].sources
    ensures p !in cs[i].outs
  {
    assert i in b;
    var z :| 0 <= z < |b| && b[z] == i;
  }

  // An order of single-writer calls leaves the producers-first store, whatever the kernels compute
  // and whatever the values are, exactly when no call with outputs stands before a producer of
  // what it reads.
  lemma {:induction false} OrderMattersIff<P, V(!new)>(cs: seq<Call<P, V>>, a: seq<nat>, b: seq<nat>, zero: V, one: V)
    requires OneWriter(cs) && Permutation(a, |cs|) && Permutation(b, |cs|)
    requires ProducersFirst(cs, b) && zero != one
    ensures InOrder(cs, a) <==>
            forall ks: seq<Kernel<V>>, s: map<P, V> | |ks| == |cs| && Total(ks) && Closed(Rekernel(cs, ks), s) ::
              Exec(Rekernel(cs, ks), a, s) == Exec(Rekernel(cs, ks), b, s)
  {
    hide Exec, InOrder, OneWriter, ProducersFirst, Total, Closed;
    if InOrder(cs, a) {
      forall ks: seq<Kernel<V>>, s: map<P, V> | |ks| == |cs| && Total(ks) && Closed(Rekernel(cs, ks), s)
        ensures Exec(Rekernel(cs, ks), a, s) == Exec(Rekernel(cs, ks), b, s)
      {
        RekernelKeeps(cs, ks, a);
        RekernelKeeps(cs, ks, b);
        InOrderSuffices(Rekernel(cs, ks), a, b, s);
      }
    } else {
      var ks, s := OutOfOrderShows(cs, a, b, zero, one);
    }
  }

  // ---------------------------------------------------------------- the verified run list

  // The position of slot k of row d when the rows are laid end to end.
  ghost function Position<T>(rows: seq<seq<T>>, d: nat, k: nat): nat
    requires d < |rows| && k < |rows[d]|
  {
    if d == 0 then k else |rows[0]| + Position(rows[1..], d - 1, k)
  }

  lemma {:induction false} AtPosition<T>(rows: seq<seq<T>>, d: nat, k: nat)
    requires d < |rows| && k < |rows[d]|
    ensures Position(rows, d, k) < |Flatten(rows)| && Flatten(rows)[Position(rows, d, k)] == rows[d][k]
  {
    if d > 0 {
      AtPosition(rows[1..], d - 1, k);
    }
  }

  lemma {:induction false} PlaceOf<T>(rows: seq<seq<T>>, x: nat) returns (d: nat, k: nat)
    requires x < |Flatten(rows)|
    ensures d < |rows| && k < |rows[d]| && Position(rows, d, k) == x
  {
    if x < |rows[0]| {
      d, k := 0, x;
    } else {
      d, k := PlaceOf(rows[1..], x - |rows[0]|);
      d := d + 1;
    }
  }

  // Slot k of row d comes before slot l of row e, or is the same.
  ghost predicate NotAfter(d: nat, k: nat, e: nat, l: nat) {
    d < e || (d == e && k <= l)
  }

  lemma {:induction false} PositionOrder<T>(rows: seq<seq<T>>, d: nat, k: nat, e: nat, l: nat)
    requires d < |rows| && k < |rows[d]| && e < |rows| && l < |rows[e]|
    ensures Position(rows, d, k) <= Position(rows, e, l) <==> NotAfter(d, k, e, l)
  {
    if d > 0 && e > 0 {
      PositionOrder(rows[1..], d - 1, k, e - 1, l);
    }
  }

  // Parameter p gave a consumer no reason to wait: it was valid on entry, or is on no In port.
  ghost predicate Unawaited<P>(t: Task<P>, valid: set<P>, p: P) {
    p in valid || p !in t.ins
  }

  // Where a consumer with outputs did not have to wait, its producer still has the earlier epoch,
  // or in the same epoch the earlier slot.
  ghost predicate UnawaitedInOrder<P, V>(ts: seq<Task<P>>, cs: seq<Call<P, V>>, valid: set<P>, rows: seq<seq<nat>>)
    requires |ts| == |cs|
  {
    forall d: nat, k: nat, e: nat, l: nat, p |
      d < |rows| && k < |rows[d]| && e < |rows| && l < |rows[e]| && rows[d][k] < |cs| && rows[e][l] < |cs| &&
      NotAfter(d, k, e, l) && cs[rows[d][k]].outs != [] && p in cs[rows[d][k]].sources &&
      Unawaited(ts[rows[d][k]], valid, p) :: p !in cs[rows[e][l]].outs
  }

  // A parameter a consumer did wait for comes from an earlier epoch.
  lemma {:induction false} AwaitedIsEarlier<P, V>(ts: seq<Task<P>>, cs: seq<Call<P, V>>, valid: set<P>, epochs: nat,
                                                  d: nat, k: nat, e: nat, l: nat, p: P)
    requires |cs| == |ts| && (forall i: nat | i < |ts| :: cs[i].outs == ts[i].outs) && SingleWriter(ts)
    requires var rows := Schedule(ts, valid, epochs).rows;
             && d < |rows| && k < |rows[d]| && e < |rows| && l < |rows[e]| && d <= e
             && rows[d][k] < |ts| && rows[e][l] < |ts|
             && !Unawaited(ts[rows[d][k]], valid, p)
    ensures p !in cs[Schedule(ts, valid, epochs).rows[e][l]].outs
  {
    hide Schedule;
    var rows := Schedule(ts, valid, epochs).rows;
    var i, j := rows[d][k], rows[e][l];
    if p in cs[j].outs {
      assert i in rows[d] && j in rows[e];
      Sound(ts, valid, epochs, d, i);
      assert ProducedBefore(ts, rows, p, d);
      var c: nat, w: nat :| c < d && w in rows[c] && w < |ts| && p in ts[w].outs;
      assert w == j;
      RowsApart(ts, valid, epochs, c, e, j);
    }
  }

  // Whatever was valid on entry, the run list leaves the producers-first store for all kernels and
  // values exactly when the consumers that did not have to wait are in order all the same.
  lemma {:induction false} RunListInOrderIff<P, V>(ts: seq<Task<P>>, cs: seq<Call<P, V>>, valid: set<P>, epochs: nat)
    requires |cs| == |ts| && (forall i: nat | i < |ts| :: cs[i].outs == ts[i].outs) && SingleWriter(ts)
    ensures InRange(Flatten(Schedule(ts, valid, epochs).rows), |cs|)
    ensures InOrder(cs, Flatten(Schedule(ts, valid, epochs).rows)) <==>
            UnawaitedInOrder(ts, cs, valid, Schedule(ts, valid, epochs).rows)
  {
    hide Schedule, Flatten, Position, NotAfter, Unawaited, SingleWriter;
    var rows := Schedule(ts, valid, epochs).rows;
    var order := Flatten(rows);
    PlacedOnce(ts, valid, epochs);
    if UnawaitedInOrder(ts, cs, valid, rows) {
      forall x: nat, y: nat, p | x <= y < |order| && cs[order[x]].outs != [] && p in cs[order[x]].sources
        ensures p !in cs[order[y]].outs
      {
        var d, k := PlaceOf(rows, x);
        var e, l := PlaceOf(rows, y);
        AtPosition(rows, d, k);
        AtPosition(rows, e, l);
        PositionOrder(rows, d, k, e, l);
        if !Unawaited(ts[order[x]], valid, p) {
          NotAfterRows(d, k, e, l);
          AwaitedIsEarlier(ts, cs, valid, epochs, d, k, e, l, p);
        }
      }
    }
    if InOrder(cs, order) {
      forall d: nat, k: nat, e: nat, l: nat, p |
        d < |rows| && k < |rows[d]| && e < |rows| && l < |rows[e]| && rows[d][k] < |cs| && rows[e][l] < |cs| &&
        NotAfter(d, k, e, l) && cs[rows[d][k]].outs != [] && p in cs[rows[d][k]].sources &&
        Unawaited(ts[rows[d][k]], valid, p)
        ensures p !in cs[rows[e][l]].outs
      {
        AtPosition(rows, d, k);
        AtPosition(rows, e, l);
        PositionOrder(rows, d, k, e, l);
      }
    }
  }

  lemma {:induction false} NotAfterRows(d: nat, k: nat, e: nat, l: nat)
    requires NotAfter(d, k, e, l)
    ensures d <= e
  {
  }
}
