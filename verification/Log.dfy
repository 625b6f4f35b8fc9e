/**
 The helper library's log: a ring of entries with active flags, written by the log callback and
 read selectively by reference.  The class updates the ring in place; its abstract value is the
 window of entries from `first` round to `last`.
 */
module HelperLog {
  import opened VxStatus

  // A reference is a handle; the message text is copied unread.
  type Reference = int

  datatype Record = Record(reference: Reference, status: Status, message: string)

  datatype Entry = Entry(record: Record, active: bool)

  // What a read hands back: its status, and the record it consumed, if any.
  datatype Reading = Nothing | Got(record: Record) {
    function Status(): Status {
      if Nothing? then VX_SUCCESS else record.status
    }
  }

  // ---------------------------------------------------------------- the window

  predicate Matches(r: Record, ref: Reference, isContext: bool) {
    isContext || r.reference == ref
  }

  ghost predicate Wanted(e: Entry, ref: Reference, isContext: bool) {
    e.active && Matches(e.record, ref, isContext)
  }

  // The oldest wanted entry of the window (its length if there is none).
  ghost function Oldest(w: seq<Entry>, ref: Reference, isContext: bool): (k: nat)
    ensures k <= |w|
    ensures forall j: nat | j < k :: !Wanted(w[j], ref, isContext)
    ensures k < |w| ==> Wanted(w[k], ref, isContext)
  {
    if w == [] || Wanted(w[0], ref, isContext) then 0 else 1 + Oldest(w[1..], ref, isContext)
  }

  ghost function Pushed(w: seq<Entry>, capacity: nat, r: Record): seq<Entry>
    requires |w| <= capacity && capacity > 0
  {
    (if |w| == capacity then w[1..] else w) + [Entry(r, true)]
  }

  // Deactivate entry k; the oldest entry leaves the window.
  ghost function Consumed(w: seq<Entry>, k: nat): seq<Entry>
    requires k < |w|
  {
    if k == 0 then w[1..] else w[k := w[k].(active := false)]
  }

  // Reading finds nothing in a full window: the reader's loop starts where it ends.
  ghost function ReadIndex(w: seq<Entry>, capacity: nat, ref: Reference, isContext: bool): nat {
    if |w| == capacity then |w| else Oldest(w, ref, isContext)
  }

  ghost function ReadWindow(w: seq<Entry>, capacity: nat, ref: Reference, isContext: bool): seq<Entry> {
    var k := ReadIndex(w, capacity, ref, isContext);
    if k < |w| then Consumed(w, k) else w
  }

  ghost function ReadResult(w: seq<Entry>, capacity: nat, ref: Reference, isContext: bool): Reading {
    var k := ReadIndex(w, capacity, ref, isContext);
    if k < |w| then Got(w[k].record) else Nothing
  }

  lemma {:induction false} OldestIs(w: seq<Entry>, ref: Reference, isContext: bool, k: nat)
    requires k <= |w| && (k < |w| ==> Wanted(w[k], ref, isContext))
    requires forall j: nat | j < k :: !Wanted(w[j], ref, isContext)
    ensures Oldest(w, ref, isContext) == k
  {
    var o := Oldest(w, ref, isContext);
    if o < |w| {
      assert Wanted(w[o], ref, isContext);
    }
  }

  // ---------------------------------------------------------------- ring arithmetic

  // The slot k places round from `first`.
  function Slot(first: int, k: nat, count: nat): int {
    if first + k < count then first + k else first + k - count
  }

  lemma {:induction false} Wrap(c: int, count: nat)
    requires -1 <= c < count && 0 < count
    ensures (c + 1) % count == if c + 1 == count then 0 else c + 1
  {
  }

  ghost predicate RingOk(count: nat, first: int, last: nat) {
    -1 <= first < count && last < count
  }

  ghost function Ring<T>(slots: seq<T>, first: int, last: nat): (w: seq<T>)
    requires RingOk(|slots|, first, last)
    ensures |w| <= |slots|
  {
    if first == -1 then []
    else if first < last then slots[first..last]
    else slots[first..] + slots[..last]
  }

  lemma {:induction false} RingEmpty<T>(slots: seq<T>, last: nat)
    requires last < |slots|
    ensures Ring(slots, -1, last) == []
  {
  }

  lemma {:induction false} RingAt<T>(slots: seq<T>, first: int, last: nat, k: nat)
    requires RingOk(|slots|, first, last) && first >= 0 && k <= |Ring(slots, first, last)|
    requires |Ring(slots, first, last)| == |slots| ==> k == 0
    requires Slot(first, k, |slots|) != last
    ensures k < |Ring(slots, first, last)| < |slots|
    ensures Ring(slots, first, last)[k] == slots[Slot(first, k, |slots|)]
  {
  }

  // The reader's loop stops after the whole window, and at once if the window is full.
  lemma {:induction false} RingEnd<T>(slots: seq<T>, first: int, last: nat, k: nat)
    requires RingOk(|slots|, first, last) && first >= 0 && k <= |Ring(slots, first, last)|
    requires |Ring(slots, first, last)| == |slots| ==> k == 0
    requires Slot(first, k, |slots|) == last
    ensures |Ring(slots, first, last)| == |slots| || k == |Ring(slots, first, last)|
  {
  }

  lemma {:induction false} RingPushed(slots: seq<Entry>, first: int, last: nat, e: Entry)
    requires RingOk(|slots|, first, last)
    ensures var n := |slots|;
            var next := if last + 1 == n then 0 else last + 1;
            var head := if first == -1 then last else if first == last then next else first;
            var w := Ring(slots, first, last);
            && RingOk(n, head, next)
            && Ring(slots[last := e], head, next) == (if |w| == n then w[1..] else w) + [e]
  {
    var n, w, t := |slots|, Ring(slots, first, last), slots[last := e];
    assert t[..last + 1] == slots[..last] + [e] && t[last + 1..] == slots[last + 1..];
    if first == -1 {
      assert t[last..last + 1] == [e];
    } else if first < last {
      assert t[first..last + 1] == slots[first..last] + [e];
      assert last + 1 == n ==> t[first..] == t[first..last + 1];
    } else if first == last {
      assert w[1..] == slots[last + 1..] + slots[..last];
    } else {
      assert t[first..] == slots[first..];
    }
  }

  lemma {:induction false} RingUpdated<T>(slots: seq<T>, first: int, last: nat, k: nat, e: T)
    requires RingOk(|slots|, first, last) && first >= 0 && k < |Ring(slots, first, last)|
    ensures 0 <= Slot(first, k, |slots|) < |slots|
    ensures Ring(slots[Slot(first, k, |slots|) := e], first, last) == Ring(slots, first, last)[k := e]
  {
  }

  // Advancing `first` drops the oldest entry; reaching `last` empties the ring.
  lemma {:induction false} RingDropped<T>(slots: seq<T>, first: int, last: nat)
    requires RingOk(|slots|, first, last) && first >= 0 && |Ring(slots, first, last)| < |slots|
    ensures var next := if first + 1 == |slots| then 0 else first + 1;
            Ring(slots, if next == last then -1 else next, last) == Ring(slots, first, last)[1..]
  {
  }

  // ---------------------------------------------------------------- the ring

  class Log {
    const count: nat
    const entries: array<Entry>
    var first: int
    var last: nat

    ghost predicate Valid()
      reads this
    {
      count == entries.Length > 0 && -1 <= first < count && last < count
    }

    // The entries from slot `first` round to slot `last`, oldest first.
    ghost function Window(): (w: seq<Entry>)
      requires Valid()
      reads this, entries
      ensures |w| <= count
    {
      Ring(entries[..], first, last)
    }

    constructor (capacity: nat, blank: Entry)
      requires capacity > 0
      ensures Valid() && count == capacity && Window() == []
    {
      count := capacity;
      entries := new Entry[capacity](_ => blank);
      first, last := -1, 0;
    }

    method Init()
      requires Valid()
      modifies this
      ensures Valid() && Window() == []
    {
      first := -1;
      last := 0;
    }

    // The log callback.
    method Write(r: Record)
      requires Valid()
      modifies this, entries
      ensures Valid() && Window() == Pushed(old(Window()), count, r)
    {
      Wrap(last, count);
      RingPushed(entries[..], first, last, Entry(r, true));
      entries[last] := Entry(r, true);
      if first == -1 {
        first := last;
      } else if first == last {
        first := (first + 1) % count;
      }
      last := (last + 1) % count;
    }

    method Read(ref: Reference, isContext: bool) returns (got: Reading)
      requires Valid()
      modifies this, entries
      ensures Valid()
      ensures got == ReadResult(old(Window()), count, ref, isContext)
      ensures Window() == ReadWindow(old(Window()), count, ref, isContext)
    {
      hide Ring, Oldest, Consumed;
      RingEmpty(entries[..], last);
      if first == -1 {
        return Nothing;
      }
      ghost var w := Window();
      ghost var k: nat := 0;
      var cur: nat := first;
      while cur != last
        invariant k <= |w| && cur == Slot(first, k, count)
        invariant |w| == count ==> k == 0
        invariant forall j: nat | j < k :: !Wanted(w[j], ref, isContext)
        invariant Valid() && Window() == w && first == old(first) && last == old(last)
        decreases |w| - k
      {
        RingAt(entries[..], first, last, k);
        if Matches(entries[cur].record, ref, isContext) && entries[cur].active {
          OldestIs(w, ref, isContext, k);
          got := Got(entries[cur].record);
          Consume(cur, k);
          return;
        }
        Wrap(cur, count);
        cur := (cur + 1) % count;
        k := k + 1;
      }
      RingEnd(entries[..], first, last, k);
      if |w| < count {
        OldestIs(w, ref, isContext, k);
      }
      return Nothing;
    }

    // Marks the entry read; the oldest one leaves the window.
    method Consume(cur: nat, ghost k: nat)
      requires Valid() && first >= 0 && k < |Window()| < count && cur == Slot(first, k, count)
      modifies this, entries
      ensures Valid() && Window() == Consumed(old(Window()), k)
    {
      RingUpdated(entries[..], first, last, k, entries[cur].(active := false));
      Wrap(first, count);
      RingDropped(entries[..][cur := entries[cur].(active := false)], first, last);
      entries[cur] := entries[cur].(active := false);
      if cur == first {
        first := (first + 1) % count;
        if first == last {
          first := -1;
        }
      }
    }

    method Clear(ref: Reference, isContext: bool)
      requires Valid()
      modifies this, entries
      ensures Valid() && Window() == ClearWindow(old(Window()), count, ref, isContext)
    {
      var got := Read(ref, isContext);
      while got.Status() != VX_SUCCESS
        invariant Valid()
        invariant ClearWindow(old(Window()), count, ref, isContext) ==
                  if got.Status() != VX_SUCCESS then ClearWindow(Window(), count, ref, isContext) else Window()
        decreases ActiveCount(Window()), got.Status() != VX_SUCCESS
      {
        ReadConsumes(Window(), count, ref, isContext);
        got := Read(ref, isContext);
      }
    }
  }

  ghost function ActiveCount(w: seq<Entry>): nat {
    if w == [] then 0 else ActiveCount(w[1..]) + if w[0].active then 1 else 0
  }

  lemma {:induction false} ConsumeCounts(w: seq<Entry>, k: nat)
    requires k < |w| && w[k].active
    ensures ActiveCount(Consumed(w, k)) == ActiveCount(w) - 1
  {
    if k > 0 {
      var c := w[k := w[k].(active := false)];
      assert c[1..] == w[1..][k - 1 := w[k].(active := false)];
      if k == 1 {
        assert c[1..][1..] == w[1..][1..];
      } else {
        ConsumeCounts(w[1..], k - 1);
      }
    }
  }

  lemma {:induction false} ReadConsumes(w: seq<Entry>, capacity: nat, ref: Reference, isContext: bool)
    ensures ReadResult(w, capacity, ref, isContext).Got? ==>
              ActiveCount(ReadWindow(w, capacity, ref, isContext)) < ActiveCount(w)
  {
    var k := ReadIndex(w, capacity, ref, isContext);
    if k < |w| {
      ConsumeCounts(w, k);
    }
  }

  // vxClearLog on windows: read until a read reports success.
  ghost function ClearWindow(w: seq<Entry>, capacity: nat, ref: Reference, isContext: bool): seq<Entry>
    decreases ActiveCount(w)
  {
    var rest := ReadWindow(w, capacity, ref, isContext);
    ReadConsumes(w, capacity, ref, isContext);
    if ReadResult(w, capacity, ref, isContext).Status() != VX_SUCCESS then ClearWindow(rest, capacity, ref, isContext)
    else rest
  }

  // ---------------------------------------------------------------- refinement of a queue

  // The records of the entries that satisfy `keep`, oldest first.
  ghost function Select(w: seq<Entry>, keep: Entry -> bool): seq<Record> {
    if w == [] then []
    else (if keep(w[0]) then [w[0].record] else []) + Select(w[1..], keep)
  }

  ghost function Active(w: seq<Entry>): seq<Record> {
    Select(w, (e: Entry) => e.active)
  }

  // The queue's own read: the oldest matching record, which leaves the queue.
  ghost function QueueIndex(q: seq<Record>, ref: Reference, isContext: bool): (k: nat)
    ensures k <= |q|
  {
    if q == [] || Matches(q[0], ref, isContext) then 0 else 1 + QueueIndex(q[1..], ref, isContext)
  }

  ghost function QueueResult(q: seq<Record>, ref: Reference, isContext: bool): Reading {
    var k := QueueIndex(q, ref, isContext);
    if k < |q| then Got(q[k]) else Nothing
  }

  ghost function QueueRest(q: seq<Record>, ref: Reference, isContext: bool): seq<Record> {
    var k := QueueIndex(q, ref, isContext);
    if k < |q| then q[..k] + q[k + 1..] else q
  }

  ghost function Deactivated(w: seq<Entry>, k: nat): seq<Entry>
    requires k < |w|
  {
    w[k := w[k].(active := false)]
  }

  lemma {:induction false} ConsumedIsDeactivated(w: seq<Entry>, k: nat, keep: Entry -> bool)
    requires k < |w| && !keep(w[k].(active := false))
    ensures Select(Consumed(w, k), keep) == Select(Deactivated(w, k), keep)
  {
    if k == 0 {
      assert Deactivated(w, 0)[1..] == w[1..];
    }
  }

  lemma {:induction false} ActiveStep(w: seq<Entry>)
    requires w != []
    ensures Active(w) == (if w[0].active then [w[0].record] else []) + Active(w[1..])
  {
  }

  lemma {:induction false} QueueStep(r: Record, q: seq<Record>, ref: Reference, isContext: bool)
    ensures if Matches(r, ref, isContext) then
              QueueResult([r] + q, ref, isContext) == Got(r) && QueueRest([r] + q, ref, isContext) == q
            else
              && QueueResult([r] + q, ref, isContext) == QueueResult(q, ref, isContext)
              && QueueRest([r] + q, ref, isContext) == [r] + QueueRest(q, ref, isContext)
  {
    hide QueueIndex;
    var l, k := [r] + q, QueueIndex(q, ref, isContext);
    QueueIndexStep(r, q, ref, isContext);
    if Matches(r, ref, isContext) {
      assert l[..0] + l[1..] == q;
    } else if k < |q| {
      assert l[..k + 1] == [r] + q[..k] && l[k + 2..] == q[k + 1..];
    }
  }

  lemma {:induction false} QueueIndexStep(r: Record, q: seq<Record>, ref: Reference, isContext: bool)
    ensures QueueIndex([r] + q, ref, isContext) ==
            if Matches(r, ref, isContext) then 0 else 1 + QueueIndex(q, ref, isContext)
  {
    assert ([r] + q)[1..] == q;
  }

  lemma {:induction false} ActiveRead(w: seq<Entry>, ref: Reference, isContext: bool)
    ensures var k, q := Oldest(w, ref, isContext), Active(w);
            if k < |w| then
              && QueueResult(q, ref, isContext) == Got(w[k].record)
              && QueueRest(q, ref, isContext) == Active(Deactivated(w, k))
            else QueueResult(q, ref, isContext) == Nothing && QueueRest(q, ref, isContext) == q
    decreases |w|
  {
    hide Active, QueueResult, QueueRest;
    var k := Oldest(w, ref, isContext);
    if w == [] {
      NothingActive(ref, isContext);
    } else {
      var rest := w[1..];
      ActiveStep(w);
      QueueStep(w[0].record, Active(rest), ref, isContext);
      if k == 0 {
        ActiveStep(Deactivated(w, 0));
        assert Deactivated(w, 0)[1..] == rest;
      } else {
        ActiveRead(rest, ref, isContext);
        if k < |w| {
          ActiveStep(Deactivated(w, k));
          assert Deactivated(w, k)[1..] == Deactivated(rest, k - 1);
        }
        assert !w[0].active ==> Active(w) == Active(rest);
      }
    }
  }

  lemma {:induction false} NothingActive(ref: Reference, isContext: bool)
    ensures Active([]) == [] && QueueResult([], ref, isContext) == Nothing && QueueRest([], ref, isContext) == []
  {
  }

  // While the window is not full, a read is the queue's read on the active records.
  lemma {:induction false} ReadRefinesQueue(w: seq<Entry>, capacity: nat, ref: Reference, isContext: bool)
    requires |w| < capacity
    ensures ReadResult(w, capacity, ref, isContext) == QueueResult(Active(w), ref, isContext)
    ensures Active(ReadWindow(w, capacity, ref, isContext)) == QueueRest(Active(w), ref, isContext)
  {
    ActiveRead(w, ref, isContext);
    var k := Oldest(w, ref, isContext);
    if k < |w| {
      ConsumedIsDeactivated(w, k, (e: Entry) => e.active);
    }
  }

  // A read succeeds exactly when the window is not full and holds a wanted entry.
  lemma {:induction false} ReadFindsIff(w: seq<Entry>, capacity: nat, ref: Reference, isContext: bool)
    ensures ReadResult(w, capacity, ref, isContext).Got? <==>
            |w| != capacity && exists k: nat :: k < |w| && Wanted(w[k], ref, isContext)
  {
    if k: nat :| k < |w| && Wanted(w[k], ref, isContext) {
      assert Oldest(w, ref, isContext) <= k;
    }
  }

  lemma {:induction false} SelectAppends(w: seq<Entry>, e: Entry, keep: Entry -> bool)
    ensures Select(w + [e], keep) == Select(w, keep) + if keep(e) then [e.record] else []
    decreases |w|
  {
    var l := w + [e];
    if w == [] {
      assert l[1..] == [];
    } else {
      assert l[0] == w[0] && l[1..] == w[1..] + [e];
      SelectAppends(w[1..], e, keep);
      var head, tail := if keep(w[0]) then [w[0].record] else [], if keep(e) then [e.record] else [];
      assert Select(l, keep) == head + (Select(w[1..], keep) + tail);
      assert Select(w, keep) == head + Select(w[1..], keep);
    }
  }

  // A write enqueues; only a full window loses a record, the oldest one.
  lemma {:induction false} WriteRefinesQueue(w: seq<Entry>, capacity: nat, r: Record)
    requires |w| <= capacity && capacity > 0
    ensures var q := Active(w);
            Active(Pushed(w, capacity, r)) ==
            (if |w| == capacity && w[0].active then q[1..] else q) + [r]
  {
    var kept := if |w| == capacity then w[1..] else w;
    SelectAppends(kept, Entry(r, true), (e: Entry) => e.active);
    assert Active(kept + [Entry(r, true)]) == Active(kept) + [r];
    if w != [] {
      ActiveStep(w);
    }
  }

  // ---------------------------------------------------------------- runs

  datatype Op = WriteOp(record: Record) | ReadOp(ref: Reference, isContext: bool)

  ghost function WindowAfter(capacity: nat, ops: seq<Op>): (w: seq<Entry>)
    requires capacity > 0
    ensures |w| <= capacity
  {
    if ops == [] then []
    else
      var w := WindowAfter(capacity, ops[..|ops| - 1]);
      match ops[|ops| - 1]
      case WriteOp(r) => Pushed(w, capacity, r)
      case ReadOp(ref, isContext) => ReadWindow(w, capacity, ref, isContext)
  }

  // All records written, oldest first.
  ghost function History(ops: seq<Op>): seq<Record> {
    if ops == [] then []
    else History(ops[..|ops| - 1]) + match ops[|ops| - 1] case WriteOp(r) => [r] case ReadOp(_, _) => []
  }

  ghost function Records(w: seq<Entry>): (rs: seq<Record>)
    ensures |rs| == |w| && forall k: nat | k < |w| :: rs[k] == w[k].record
  {
    seq(|w|, k requires 0 <= k < |w| => w[k].record)
  }

  ghost predicate Suffix(a: seq<Record>, b: seq<Record>) {
    |a| <= |b| && a == b[|b| - |a|..]
  }

  lemma {:induction false} PushKeepsSuffix(w: seq<Entry>, capacity: nat, r: Record, h: seq<Record>)
    requires |w| <= capacity && capacity > 0 && Suffix(Records(w), h)
    ensures Suffix(Records(Pushed(w, capacity, r)), h + [r])
  {
    assert Records(Pushed(w, capacity, r)) == (if |w| == capacity then Records(w)[1..] else Records(w)) + [r];
  }

  lemma {:induction false} ReadKeepsSuffix(w: seq<Entry>, capacity: nat, ref: Reference, isContext: bool,
                                           h: seq<Record>)
    requires Suffix(Records(w), h)
    ensures Suffix(Records(ReadWindow(w, capacity, ref, isContext)), h)
  {
    hide Oldest;
    var v := ReadWindow(w, capacity, ref, isContext);
    assert Records(v) == Records(w) || Records(v) == Records(w)[1..];
  }

  // In every reachable state, full or not, the window holds the latest records written, in
  // order, and never more than the capacity.
  lemma {:induction false} WindowIsLatestHistory(capacity: nat, ops: seq<Op>)
    requires capacity > 0
    ensures Suffix(Records(WindowAfter(capacity, ops)), History(ops))
    ensures |WindowAfter(capacity, ops)| <= capacity
    decreases |ops|
  {
    hide Suffix, Records, Pushed, ReadWindow;
    if ops == [] {
      NothingIsSuffix();
    } else {
      var init := ops[..|ops| - 1];
      WindowIsLatestHistory(capacity, init);
      assert History(init) + [] == History(init);
      match ops[|ops| - 1]
      case WriteOp(r) => PushKeepsSuffix(WindowAfter(capacity, init), capacity, r, History(init));
      case ReadOp(ref, isContext) =>
        ReadKeepsSuffix(WindowAfter(capacity, init), capacity, ref, isContext, History(init));
    }
  }

  lemma {:induction false} NothingIsSuffix()
    ensures Suffix(Records([]), [])
  {
  }

  // A window that has filled stays full, so no later read returns anything.
  lemma {:induction false} FullForever(capacity: nat, ops: seq<Op>, n: nat)
    requires capacity > 0 && n <= |ops| && |WindowAfter(capacity, ops[..n])| == capacity
    ensures |WindowAfter(capacity, ops)| == capacity
    ensures forall ref, isContext :: ReadResult(WindowAfter(capacity, ops), capacity, ref, isContext) == Nothing
    decreases |ops|
  {
    if n < |ops| {
      assert ops[..|ops| - 1][..n] == ops[..n];
      FullForever(capacity, ops[..|ops| - 1], n);
    } else {
      assert ops[..n] == ops;
    }
  }

  // The ideal, unbounded log.
  ghost function QueueAfter(ops: seq<Op>): seq<Record> {
    if ops == [] then []
    else
      var q := QueueAfter(ops[..|ops| - 1]);
      match ops[|ops| - 1]
      case WriteOp(r) => q + [r]
      case ReadOp(ref, isContext) => QueueRest(q, ref, isContext)
  }

  ghost predicate NeverFull(capacity: nat, ops: seq<Op>)
    requires capacity > 0
  {
    forall n: nat | n <= |ops| :: |WindowAfter(capacity, ops[..n])| < capacity
  }

  // Whatever was asked at whatever point of the run, the log answers like the queue.
  ghost predicate AnswersLikeQueue(capacity: nat, ops: seq<Op>)
    requires capacity > 0
  {
    forall n: nat, ref, isContext | n <= |ops| ::
      ReadResult(WindowAfter(capacity, ops[..n]), capacity, ref, isContext) ==
      QueueResult(QueueAfter(ops[..n]), ref, isContext)
  }

  lemma {:induction false} ActiveIsQueue(capacity: nat, ops: seq<Op>)
    requires capacity > 0 && NeverFull(capacity, ops)
    ensures Active(WindowAfter(capacity, ops)) == QueueAfter(ops)
    decreases |ops|
  {
    if ops != [] {
      var init := ops[..|ops| - 1];
      assert forall n: nat | n <= |init| :: init[..n] == ops[..n];
      ActiveIsQueue(capacity, init);
      var w := WindowAfter(capacity, init);
      assert init[..|init|] == init;
      match ops[|ops| - 1]
      case WriteOp(r) => WriteRefinesQueue(w, capacity, r);
      case ReadOp(ref, isContext) => ReadRefinesQueue(w, capacity, ref, isContext);
    }
  }

  // The first operation that fills the window is a write.
  lemma {:induction false} FilledByWrite(capacity: nat, ops: seq<Op>)
    requires capacity > 0 && ops != [] && |WindowAfter(capacity, ops)| == capacity
    requires |WindowAfter(capacity, ops[..|ops| - 1])| < capacity
    ensures ops[|ops| - 1].WriteOp?
  {
  }

  lemma {:induction false} FirstFull(capacity: nat, ops: seq<Op>) returns (n: nat)
    requires capacity > 0 && !NeverFull(capacity, ops)
    ensures 0 < n <= |ops| && |WindowAfter(capacity, ops[..n])| == capacity
    ensures |WindowAfter(capacity, ops[..n][..n - 1])| < capacity
  {
    n :| n <= |ops| && |WindowAfter(capacity, ops[..n])| == capacity;
    assert WindowAfter(capacity, ops[..0]) == [];
    while n > 0 && |WindowAfter(capacity, ops[..n - 1])| == capacity
      invariant n <= |ops| && |WindowAfter(capacity, ops[..n])| == capacity
    {
      n := n - 1;
    }
    assert ops[..n][..n - 1] == ops[..n - 1];
  }

  // The log answers like an unbounded queue exactly on the runs that never fill the window.
  lemma {:induction false} QueueIffNeverFull(capacity: nat, ops: seq<Op>)
    requires capacity > 0
    ensures AnswersLikeQueue(capacity, ops) <==> NeverFull(capacity, ops)
  {
    if NeverFull(capacity, ops) {
      forall n: nat, ref, isContext | n <= |ops|
        ensures ReadResult(WindowAfter(capacity, ops[..n]), capacity, ref, isContext) ==
                QueueResult(QueueAfter(ops[..n]), ref, isContext)
      {
        assert forall m: nat | m <= n :: ops[..n][..m] == ops[..m];
        ActiveIsQueue(capacity, ops[..n]);
        ReadRefinesQueue(WindowAfter(capacity, ops[..n]), capacity, ref, isContext);
      }
    } else {
      var n := FirstFull(capacity, ops);
      FilledByWrite(capacity, ops[..n]);
      assert QueueAfter(ops[..n]) != [];
      assert QueueResult(QueueAfter(ops[..n]), 0, true).Got?;
      assert ReadResult(WindowAfter(capacity, ops[..n]), capacity, 0, true) == Nothing;
    }
  }

  // ---------------------------------------------------------------- clearing

  ghost function Hits(w: seq<Entry>, ref: Reference, isContext: bool): seq<Record> {
    Select(w, (e: Entry) => Wanted(e, ref, isContext))
  }

  ghost function Others(w: seq<Entry>, ref: Reference, isContext: bool): seq<Record> {
    Select(w, (e: Entry) => e.active && !Wanted(e, ref, isContext))
  }

  lemma {:induction false} HitsRead(w: seq<Entry>, ref: Reference, isContext: bool)
    ensures var k := Oldest(w, ref, isContext);
            if k < |w| then
              && Hits(w, ref, isContext) == [w[k].record] + Hits(Deactivated(w, k), ref, isContext)
              && Others(Deactivated(w, k), ref, isContext) == Others(w, ref, isContext)
            else Hits(w, ref, isContext) == []
    decreases |w|
  {
    var k := Oldest(w, ref, isContext);
    if w != [] {
      if k == 0 {
        assert Deactivated(w, 0)[1..] == w[1..];
      } else {
        HitsRead(w[1..], ref, isContext);
        if k < |w| {
          assert Deactivated(w, k)[1..] == Deactivated(w[1..], k - 1);
        }
      }
    }
  }

  lemma {:induction false} ReadTakesFirstHit(w: seq<Entry>, capacity: nat, ref: Reference, isContext: bool)
    requires |w| != capacity
    ensures var h, v := Hits(w, ref, isContext), ReadWindow(w, capacity, ref, isContext);
            && ReadResult(w, capacity, ref, isContext) == (if h == [] then Nothing else Got(h[0]))
            && Hits(v, ref, isContext) == (if h == [] then [] else h[1..])
            && Others(v, ref, isContext) == Others(w, ref, isContext)
  {
    HitsRead(w, ref, isContext);
    var k := Oldest(w, ref, isContext);
    if k < |w| {
      ConsumedIsDeactivated(w, k, (e: Entry) => Wanted(e, ref, isContext));
      ConsumedIsDeactivated(w, k, (e: Entry) => e.active && !Wanted(e, ref, isContext));
    }
  }

  // Every hit but the last carries an error status.
  ghost predicate OnlyLastSucceeds(h: seq<Record>) {
    forall k: nat | k + 1 < |h| :: h[k].status != VX_SUCCESS
  }

  lemma {:induction false} LastSucceedsTail(h: seq<Record>)
    requires h != [] && h[0].status != VX_SUCCESS
    ensures OnlyLastSucceeds(h) <==> h[1..] == [] || OnlyLastSucceeds(h[1..])
  {
    assert forall k: nat | k + 1 < |h[1..]| :: h[1..][k] == h[k + 1];
    if h[1..] != [] && OnlyLastSucceeds(h[1..]) {
      forall k: nat | k + 1 < |h| ensures h[k].status != VX_SUCCESS {
        assert k > 0 ==> h[k] == h[1..][k - 1];
      }
    }
  }

  // Clearing always ends, leaves every other active entry alone, and leaves no active entry for
  // the reference exactly when there was none or the window was not full and no entry before
  // the last reported success.
  lemma {:induction false} ClearIff(w: seq<Entry>, capacity: nat, ref: Reference, isContext: bool)
    requires |w| <= capacity
    ensures Others(ClearWindow(w, capacity, ref, isContext), ref, isContext) == Others(w, ref, isContext)
    ensures Hits(ClearWindow(w, capacity, ref, isContext), ref, isContext) == [] <==>
            var h := Hits(w, ref, isContext); h == [] || (|w| < capacity && OnlyLastSucceeds(h))
    decreases ActiveCount(w)
  {
    var h, v := Hits(w, ref, isContext), ReadWindow(w, capacity, ref, isContext);
    if |w| < capacity {
      ReadTakesFirstHit(w, capacity, ref, isContext);
      if h != [] && h[0].status != VX_SUCCESS {
        ReadConsumes(w, capacity, ref, isContext);
        ClearIff(v, capacity, ref, isContext);
        LastSucceedsTail(h);
      }
    }
  }

  // ---------------------------------------------------------------- witnesses

  // As many writes as there are slots: the queue is not empty, yet no read finds anything.
  lemma {:induction false} FilledLog(capacity: nat, r: Record, ref: Reference, isContext: bool) returns (ops: seq<Op>)
    requires capacity > 0 && Matches(r, ref, isContext)
    ensures |ops| == capacity && forall op <- ops :: op == WriteOp(r)
    ensures QueueResult(QueueAfter(ops), ref, isContext) == Got(r)
    ensures ReadResult(WindowAfter(capacity, ops), capacity, ref, isContext) == Nothing
  {
    ops := seq(capacity, _ => WriteOp(r));
    WritesOnly(capacity, ops, r);
  }

  lemma {:induction false} WritesOnly(capacity: nat, ops: seq<Op>, r: Record)
    requires |ops| <= capacity && capacity > 0 && forall k: nat | k < |ops| :: ops[k] == WriteOp(r)
    ensures |WindowAfter(capacity, ops)| == |ops| == |QueueAfter(ops)|
    ensures forall k: nat | k < |ops| :: QueueAfter(ops)[k] == r
    decreases |ops|
  {
    if ops != [] {
      WritesOnly(capacity, ops[..|ops| - 1], r);
    }
  }

  // Two matching entries, the first with a success status: clearing stops after it.
  lemma {:induction false} ClearStopsEarly(capacity: nat, ref: Reference, first: string, second: string, status: Status)
    returns (ops: seq<Op>)
    requires capacity > 2 && status != VX_SUCCESS
    ensures ops == [WriteOp(Record(ref, VX_SUCCESS, first)), WriteOp(Record(ref, status, second))]
    ensures var w := WindowAfter(capacity, ops);
            && |w| == 2 < capacity && ActiveCount(w) == 2
            && Hits(ClearWindow(w, capacity, ref, false), ref, false) == [Record(ref, status, second)]
  {
    var a, b := Record(ref, VX_SUCCESS, first), Record(ref, status, second);
    ops := [WriteOp(a), WriteOp(b)];
    assert ops[..1] == [WriteOp(a)] && ops[..1][..0] == [];
    assert WindowAfter(capacity, ops[..1]) == [Entry(a, true)];
    var w := [Entry(a, true), Entry(b, true)];
    assert WindowAfter(capacity, ops) == w;
    assert w[1..] == [Entry(b, true)] && w[1..][1..] == [];
    assert ActiveCount(w[1..][1..]) == 0 && ActiveCount(w[1..]) == 1;
    assert ReadWindow(w, capacity, ref, false) == w[1..] && ReadResult(w, capacity, ref, false) == Got(a);
    assert ClearWindow(w, capacity, ref, false) == w[1..];
    assert Hits([], ref, false) == [];
  }
}
