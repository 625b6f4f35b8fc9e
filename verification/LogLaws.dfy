/**
 How long the log's window is: when a read takes an entry out of it, when runs never fill it, and
 how a read out of order blocks it for good.
 */
module LogLaws {
  import opened VxStatus
  import opened HelperLog

  // An entry a read is after: active, and of the reference unless it reads for the context.
  ghost predicate Sought(e: Entry, ref: Reference, isContext: bool) {
    e.active && (isContext || e.record.reference == ref)
  }

  // A read of a window that is not full returns the oldest entry it is after.
  lemma {:induction false} ReadReturnsOldest(w: seq<Entry>, capacity: nat, ref: Reference, isContext: bool)
    ensures match ReadResult(w, capacity, ref, isContext)
            case Nothing => |w| == capacity || forall k: nat | k < |w| :: !Sought(w[k], ref, isContext)
            case Got(r) =>
              && |w| != capacity
              && exists k: nat :: k < |w| && Sought(w[k], ref, isContext) && r == w[k].record &&
                                  forall j: nat | j < k :: !Sought(w[j], ref, isContext)
  {
    var k := ReadIndex(w, capacity, ref, isContext);
    assert forall j: nat | j < |w| :: Sought(w[j], ref, isContext) <==> Wanted(w[j], ref, isContext);
    if k < |w| {
      assert Sought(w[k], ref, isContext);
    }
  }

  // A read shortens the window, by its first entry, exactly when that entry is what it is after;
  // otherwise it takes at most one active flag.
  lemma {:induction false} ReadShortensIff(w: seq<Entry>, capacity: nat, ref: Reference, isContext: bool)
    ensures var v := ReadWindow(w, capacity, ref, isContext);
            if |w| != capacity && w != [] && Sought(w[0], ref, isContext) then v == w[1..]
            else
              && |v| == |w|
              && (forall k: nat | k < |w| :: v[k].record == w[k].record)
              && forall k: nat | k < |w| :: v[k].active <==>
                   w[k].active && !(|w| != capacity && Sought(w[k], ref, isContext) &&
                                    forall j: nat | j < k :: !Sought(w[j], ref, isContext))
  {
    var i := ReadIndex(w, capacity, ref, isContext);
    assert forall j: nat | j < |w| :: Sought(w[j], ref, isContext) <==> Wanted(w[j], ref, isContext);
    if |w| != capacity && i < |w| {
      assert Sought(w[i], ref, isContext);
    }
  }

  // ---------------------------------------------------------------- reading for the context

  ghost predicate ForContext(ops: seq<Op>) {
    forall op <- ops :: op.ReadOp? ==> op.isContext
  }

  // The queue never reaches the capacity.
  ghost predicate ShortQueue(capacity: nat, ops: seq<Op>) {
    forall n: nat | n <= |ops| :: |QueueAfter(ops[..n])| < capacity
  }

  ghost function Unread(q: seq<Record>): (w: seq<Entry>)
    ensures |w| == |q| && forall k: nat | k < |q| :: w[k] == Entry(q[k], true)
  {
    seq(|q|, k requires 0 <= k < |q| => Entry(q[k], true))
  }

  lemma {:induction false} Shorter(capacity: nat, ops: seq<Op>)
    requires ops != [] && ForContext(ops) && ShortQueue(capacity, ops)
    ensures ForContext(ops[..|ops| - 1]) && ShortQueue(capacity, ops[..|ops| - 1])
    ensures |QueueAfter(ops)| < capacity
  {
    var init := ops[..|ops| - 1];
    assert forall n: nat | n <= |init| :: init[..n] == ops[..n];
    assert ops[..|ops|] == ops;
  }

  // As long as the queue is shorter than the capacity, the window of a client that reads for the
  // context holds the queue and nothing else.
  lemma {:induction false} WindowIsQueue(capacity: nat, ops: seq<Op>)
    requires capacity > 0 && ForContext(ops) && ShortQueue(capacity, ops)
    ensures WindowAfter(capacity, ops) == Unread(QueueAfter(ops))
    decreases |ops|
  {
    if ops != [] {
      var init, op := ops[..|ops| - 1], ops[|ops| - 1];
      Shorter(capacity, ops);
      WindowIsQueue(capacity, init);
      var q := QueueAfter(init);
      assert op in ops;
      assert init[..|init|] == init;
      match op
      case WriteOp(r) => assert Unread(q + [r]) == Unread(q) + [Entry(r, true)];
      case ReadOp(ref, _) => ReadsFirst(q, capacity, ref);
    }
  }

  lemma {:induction false} ReadsFirst(q: seq<Record>, capacity: nat, ref: Reference)
    requires |q| < capacity
    ensures ReadWindow(Unread(q), capacity, ref, true) == Unread(QueueRest(q, ref, true))
    ensures QueueRest(q, ref, true) == if q == [] then [] else q[1..]
  {
    if q != [] {
      assert q[..0] + q[1..] == q[1..];
      assert Sought(Unread(q)[0], ref, true);
      ReadShortensIff(Unread(q), capacity, ref, true);
    }
  }

  lemma {:induction false} ActiveIsShorter(w: seq<Entry>)
    ensures |Active(w)| <= |w|
  {
    if w != [] {
      ActiveStep(w);
      ActiveIsShorter(w[1..]);
    }
  }

  // Such a client never fills the window exactly when the unread records always stay fewer than the
  // capacity: reading makes room.
  lemma {:induction false} NeverFullIffShortQueue(capacity: nat, ops: seq<Op>)
    requires capacity > 0 && ForContext(ops)
    ensures NeverFull(capacity, ops) <==> ShortQueue(capacity, ops)
  {
    if NeverFull(capacity, ops) {
      forall n: nat | n <= |ops| ensures |QueueAfter(ops[..n])| < capacity {
        assert forall m: nat | m <= n :: ops[..n][..m] == ops[..m];
        ActiveIsQueue(capacity, ops[..n]);
        ActiveIsShorter(WindowAfter(capacity, ops[..n]));
      }
    }
    if ShortQueue(capacity, ops) {
      forall n: nat | n <= |ops| ensures |WindowAfter(capacity, ops[..n])| < capacity {
        assert forall m: nat | m <= n :: ops[..n][..m] == ops[..m];
        WindowIsQueue(capacity, ops[..n]);
      }
    }
  }

  // ---------------------------------------------------------------- a read out of order

  // The first entry has been read, but not when it was the first.
  ghost predicate Blocked(w: seq<Entry>) {
    w != [] && !w[0].active
  }

  ghost function Writes(ops: seq<Op>): nat {
    if ops == [] then 0 else Writes(ops[..|ops| - 1]) + if ops[|ops| - 1].WriteOp? then 1 else 0
  }

  // From a blocked window on, reads make no room: every write lengthens the window until it is
  // full, and from then on no read returns anything.
  lemma {:induction false} BlockedFillsUp(capacity: nat, ops: seq<Op>, more: seq<Op>)
    requires capacity > 0 && Blocked(WindowAfter(capacity, ops))
    ensures var w, v, n := WindowAfter(capacity, ops), WindowAfter(capacity, ops + more), Writes(more);
            && |v| == (if |w| + n < capacity then |w| + n else capacity)
            && (|v| < capacity ==> Blocked(v))
            && (|v| == capacity ==> forall ref, isContext :: ReadResult(v, capacity, ref, isContext) == Nothing)
    decreases |more|
  {
    if more == [] {
      assert ops + more == ops;
    } else {
      var init := more[..|more| - 1];
      BlockedFillsUp(capacity, ops, init);
      var all := ops + more;
      assert all[..|all| - 1] == ops + init && all[|all| - 1] == more[|more| - 1];
      var u := WindowAfter(capacity, ops + init);
      match more[|more| - 1]
      case WriteOp(r) =>
      case ReadOp(ref, isContext) => ReadShortensIff(u, capacity, ref, isContext);
    }
  }

  ghost function OutOfOrder(a: Record, b: Record): seq<Op> {
    [WriteOp(a), WriteOp(b), ReadOp(b.reference, false), ReadOp(a.reference, false)]
  }

  lemma {:induction false} OutOfOrderPrefixes(a: Record, b: Record)
    ensures var ops := OutOfOrder(a, b);
            && ops[..3] == [WriteOp(a), WriteOp(b), ReadOp(b.reference, false)]
            && ops[..3][..2] == [WriteOp(a), WriteOp(b)]
            && ops[..3][..2][..1] == [WriteOp(a)] && ops[..3][..2][..1][..0] == []
  {
  }

  lemma {:induction false} OutOfOrderWindow(capacity: nat, a: Record, b: Record)
    requires capacity > 2 && a.reference != b.reference
    ensures WindowAfter(capacity, OutOfOrder(a, b)) == [Entry(b, false)]
  {
    hide ReadWindow;
    var ops, w, v := OutOfOrder(a, b), [Entry(a, true), Entry(b, true)], [Entry(a, true), Entry(b, false)];
    OutOfOrderPrefixes(a, b);
    assert WindowAfter(capacity, ops[..3][..2][..1]) == [Entry(a, true)];
    assert WindowAfter(capacity, ops[..3][..2]) == w;
    ReadShortensIff(w, capacity, b.reference, false);
    assert WindowAfter(capacity, ops[..3]) == v;
    ReadShortensIff(v, capacity, a.reference, false);
    assert v[1..] == [Entry(b, false)];
  }

  lemma {:induction false} OutOfOrderQueue(a: Record, b: Record)
    requires a.reference != b.reference
    ensures QueueAfter(OutOfOrder(a, b)) == []
  {
    var ops, q := OutOfOrder(a, b), [a, b];
    OutOfOrderPrefixes(a, b);
    assert QueueAfter(ops[..3][..2][..1]) == [] + [a] == [a];
    assert QueueAfter(ops[..3][..2]) == [a] + [b] == q;
    assert QueueIndex(q, b.reference, false) == 1 && q[..1] + q[2..] == [a];
    assert QueueAfter(ops[..3]) == [a];
    assert [a][..0] + [a][1..] == [];
  }

  // Two records of different references, read in the other order: all is read, and the window is
  // blocked.
  lemma {:induction false} OutOfOrderBlocks(capacity: nat, a: Record, b: Record)
    requires capacity > 2 && a.reference != b.reference
    ensures QueueAfter(OutOfOrder(a, b)) == [] && Blocked(WindowAfter(capacity, OutOfOrder(a, b)))
  {
    OutOfOrderWindow(capacity, a, b);
    OutOfOrderQueue(a, b);
  }
}
