/**
 Sequences without repetition, and rows of a run list laid end to end.
 */
module Sequences {

  ghost function Elems<T>(s: seq<T>): set<T> {
    set x | x in s
  }

  ghost predicate Distinct<T>(s: seq<T>) {
    forall j, k | 0 <= j < k < |s| :: s[j] != s[k]
  }

  ghost predicate InRange(row: seq<nat>, n: nat) {
    forall k | 0 <= k < |row| :: row[k] < n
  }

  ghost predicate Permutation(order: seq<nat>, n: nat) {
    Distinct(order) && InRange(order, n) && forall i: nat | i < n :: i in order
  }

  ghost function Flatten<T>(rows: seq<seq<T>>): seq<T> {
    if rows == [] then [] else rows[0] + Flatten(rows[1..])
  }

  lemma {:induction false} InFlatten<T>(rows: seq<seq<T>>, x: T)
    ensures x in Flatten(rows) <==> exists e: nat :: e < |rows| && x in rows[e]
  {
    if rows != [] {
      InFlatten(rows[1..], x);
      if x in Flatten(rows[1..]) {
        var e: nat :| e < |rows[1..]| && x in rows[1..][e];
        assert x in rows[e + 1];
      }
      if e: nat :| e < |rows| && x in rows[e] {
        assert e > 0 ==> x in rows[1..][e - 1];
      }
    }
  }

  lemma {:induction false} DistinctConcat<T>(a: seq<T>, b: seq<T>)
    requires Distinct(a) && Distinct(b)
    requires forall x <- b :: x !in a
    ensures Distinct(a + b)
  {
    forall j, k | 0 <= j < k < |a + b| ensures (a + b)[j] != (a + b)[k] {
      if j < |a| <= k {
        assert b[k - |a|] in b && a[j] in a;
      }
    }
  }

  lemma {:induction false} DistinctFlatten<T>(rows: seq<seq<T>>)
    requires forall e | 0 <= e < |rows| :: Distinct(rows[e])
    requires forall d, e, x | 0 <= d < e < |rows| && x in rows[d] :: x !in rows[e]
    ensures Distinct(Flatten(rows))
  {
    if rows != [] {
      var rest := rows[1..];
      assert forall e | 0 <= e < |rest| :: rest[e] == rows[e + 1];
      DistinctFlatten(rest);
      forall x | x in Flatten(rest) ensures x !in rows[0] {
        InFlatten(rest, x);
        var e: nat :| e < |rest| && x in rest[e];
        assert x in rows[e + 1];
      }
      DistinctConcat(rows[0], Flatten(rest));
    }
  }

  lemma {:induction false} FlattenNext<T>(rows: seq<seq<T>>, e: nat)
    requires e < |rows|
    ensures Flatten(rows[..e + 1]) == Flatten(rows[..e]) + rows[e]
    decreases e
  {
    if e > 0 {
      FlattenNext(rows[1..], e - 1);
      assert rows[..e + 1][1..] == rows[1..][..e] && rows[..e][1..] == rows[1..][..e - 1];
    } else {
      assert rows[..1] == [rows[0]];
    }
  }

  lemma {:induction false} DistinctElems<T>(s: seq<T>)
    requires Distinct(s)
    ensures |Elems(s)| == |s|
  {
    if s != [] {
      var n := |s| - 1;
      DistinctElems(s[..n]);
      assert s == s[..n] + [s[n]];
      assert Elems(s) == Elems(s[..n]) + {s[n]};
      assert s[n] !in s[..n];
    }
  }

  lemma {:induction false} PrefixDistinct<T>(rows: seq<seq<T>>, e: nat)
    requires e <= |rows| && Distinct(Flatten(rows))
    ensures Distinct(Flatten(rows[..e]))
    decreases |rows| - e
  {
    if e < |rows| {
      FlattenNext(rows, e);
      PrefixDistinct(rows, e + 1);
      var longer := Flatten(rows[..e + 1]);
      assert Flatten(rows[..e]) == longer[..|Flatten(rows[..e])|];
    } else {
      assert rows[..e] == rows;
    }
  }

  lemma {:induction false} FlattenNone<T>(rows: seq<seq<T>>)
    requires rows == []
    ensures Flatten(rows) == []
  {
  }

  lemma {:induction false} Pigeonhole(w: seq<nat>, n: nat)
    requires Distinct(w) && InRange(w, n)
    ensures |w| <= n
    decreases n
  {
    if w != [] {
      assert w[0] < n;
      if k :| 0 <= k < |w| && w[k] == n - 1 {
        var v := w[..k] + w[k + 1..];
        assert forall j | 0 <= j < |v| :: v[j] == if j < k then w[j] else w[j + 1];
        Pigeonhole(v, n - 1);
      } else {
        Pigeonhole(w, n - 1);
      }
    }
  }

  lemma {:induction false} FlattenPrefix<T>(rows: seq<seq<T>>, e: nat)
    requires e <= |rows|
    ensures Flatten(rows[..e]) <= Flatten(rows)
    decreases |rows| - e
  {
    if e < |rows| {
      FlattenNext(rows, e);
      FlattenPrefix(rows, e + 1);
    } else {
      assert rows[..e] == rows;
    }
  }
}
