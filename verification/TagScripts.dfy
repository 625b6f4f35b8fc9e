/**
 The tag scripts as they are run: each rewrites files of the fixed list and the counter file.
 */
module TagScripts {
  import opened Tags
  import opened TagLaws
  import opened TagFiles
  import opened TagHistory

  // ---------------------------------------------------------------- the scripts on the disk

  ghost predicate Named(list: seq<nat>, n: nat) {
    forall k: nat | k < |list| :: list[k] < n
  }

  // The files of the list after numbering those named by `list` in order, and the new count.
  ghost function Numbered(files: seq<string>, list: seq<nat>, count: nat): (r: (seq<string>, nat))
    requires Named(list, |files|)
    ensures |r.0| == |files|
  {
    if list == [] then (files, count)
    else
      var n := |list| - 1;
      var (fs, c) := Numbered(files, list[..n], count);
      (fs[list[n] := Update(fs[list[n]], c)], c + Reqs(fs[list[n]]))
  }

  // The files of the list after reverting those named by `list` in order.
  ghost function Reverted(files: seq<string>, list: seq<nat>): (r: seq<string>)
    requires Named(list, |files|)
    ensures |r| == |files|
  {
    if list == [] then files
    else
      var n := |list| - 1;
      var fs := Reverted(files, list[..n]);
      fs[list[n] := RevertText(fs[list[n]])]
  }

  ghost function Mapped(files: seq<string>, f: string -> string): (r: seq<string>)
    ensures |r| == |files| && forall i: nat | i < |files| :: r[i] == f(files[i])
  {
    seq(|files|, i requires 0 <= i < |files| => f(files[i]))
  }

  class Disk {
    var files: seq<string>
    // The count in the counter file; no file counts as 0.
    var saved: nat

    constructor (files: seq<string>)
      ensures this.files == files && saved == 0
    {
      this.files, saved := files, 0;
    }

    // openvx-sc-req-update.py on the named files; -reset-req-count makes the count start again.
    method RunUpdate(list: seq<nat>, restart: bool)
      requires Named(list, |files|)
      modifies this
      ensures (files, saved) == Numbered(old(files), list, if restart then 0 else old(saved))
    {
      var count := saved;
      if restart {
        count := 0;
      }
      ghost var start := count;
      for k := 0 to |list|
        invariant (files, count) == Numbered(old(files), list[..k], start)
      {
        assert list[..k + 1][..k] == list[..k];
        var text, next := UpdateFile(files[list[k]], count);
        files, count := files[list[k] := text], next;
      }
      assert list[..|list|] == list;
      saved := count;
    }

    // openvx-sc-req-update.py -revert-req-ids on the named files: the count is lost whichever
    // files are named.
    method RunRevert(list: seq<nat>)
      requires Named(list, |files|)
      modifies this
      ensures files == Reverted(old(files), list) && saved == 0
    {
      for k := 0 to |list|
        invariant files == Reverted(old(files), list[..k])
      {
        assert list[..k + 1][..k] == list[..k];
        var text := RevertFile(files[list[k]]);
        files := files[list[k] := text];
      }
      assert list[..|list|] == list;
      saved := 0;
    }

    // openvx-sc-req-remove.py, which always takes the whole list.
    method RunRemove()
      modifies this
      ensures files == Mapped(old(files), RemoveText) && saved == 0
    {
      saved := 0;
      for k := 0 to |files|
        invariant |files| == |old(files)| && saved == 0
        invariant forall i: nat | i < |files| :: files[i] == if i < k then RemoveText(old(files)[i]) else old(files)[i]
      {
        var text := RemoveFile(files[k]);
        files := files[k := text];
      }
    }
  }

  // ---------------------------------------------------------------- histories

  datatype DiskState = DiskState(files: seq<string>, saved: nat)

  datatype Op = UpdateOp(list: seq<nat>, restart: bool) | RevertOp(list: seq<nat>) | RemoveOp

  ghost predicate Enabled(d: DiskState, op: Op) {
    op == RemoveOp || Named(op.list, |d.files|)
  }

  ghost function Next(d: DiskState, op: Op): DiskState
    requires Enabled(d, op)
  {
    match op
    case UpdateOp(list, restart) =>
      var (fs, c) := Numbered(d.files, list, if restart then 0 else d.saved); DiskState(fs, c)
    case RevertOp(list) => DiskState(Reverted(d.files, list), 0)
    case RemoveOp => DiskState(Mapped(d.files, RemoveText), 0)
  }

  ghost predicate Run(d: DiskState, ops: seq<Op>, e: DiskState)
    decreases |ops|
  {
    if ops == [] then d == e else Enabled(d, ops[0]) && Run(Next(d, ops[0]), ops[1..], e)
  }

  ghost function AllLabels(files: seq<string>): multiset<string> {
    if files == [] then multiset{} else Labels(files[0]) + AllLabels(files[1..])
  }

  // The ids on the disk are distinct and within the saved count.
  ghost predicate FreshDisk(d: DiskState) {
    Fresh(AllLabels(d.files), d.saved)
  }

  ghost predicate TidyDisk(d: DiskState) {
    forall f <- d.files :: Tidy(f)
  }

  lemma {:induction false} ReplaceLabels(files: seq<string>, i: nat, f: string, more: multiset<string>)
    requires i < |files| && Labels(f) == Labels(files[i]) + more
    ensures AllLabels(files[i := f]) == AllLabels(files) + more
    decreases |files|
  {
    var gs := files[i := f];
    if i == 0 {
      assert gs[1..] == files[1..];
    } else {
      assert gs[1..] == files[1..][i - 1 := f];
      ReplaceLabels(files[1..], i - 1, f, more);
    }
  }

  // Numbering files in order adds exactly the ids between the old and the new count.
  lemma {:induction false} NumberingIssues(files: seq<string>, list: seq<nat>, count: nat)
    requires Named(list, |files|)
    ensures var r := Numbered(files, list, count);
            count <= r.1 && AllLabels(r.0) == AllLabels(files) + Issued(count, r.1 - count)
    decreases |list|
  {
    hide Issued, Reqs, Update;
    if list == [] {
      IssuedNone(count);
    } else {
      var n := |list| - 1;
      NumberingIssues(files, list[..n], count);
      var (fs, c) := Numbered(files, list[..n], count);
      var i := list[n];
      UpdateIssues(fs[i], c);
      ReplaceLabels(fs, i, Update(fs[i], c), Issued(c, Reqs(fs[i])));
      IssuedAppends(count, c - count, Reqs(fs[i]));
    }
  }

  lemma {:induction false} IssuedNone(count: nat)
    ensures Issued(count, 0) == multiset{}
  {
  }

  lemma {:induction false} IssuedAppends(count: nat, m: nat, n: nat)
    ensures Issued(count, m + n) == Issued(count, m) + Issued(count + m, n)
    decreases m
  {
    hide Issued;
    IssuedNone(count);
    if m > 0 {
      IssuedAppends(count + 1, m - 1, n);
      IssuedNext(count, m - 1 + n);
      IssuedNext(count, m - 1);
    }
  }

  lemma {:induction false} NumberingKeepsTidy(files: seq<string>, list: seq<nat>, count: nat)
    requires Named(list, |files|) && forall f <- files :: Tidy(f)
    ensures forall f <- Numbered(files, list, count).0 :: Tidy(f)
    decreases |list|
  {
    if list != [] {
      var n := |list| - 1;
      NumberingKeepsTidy(files, list[..n], count);
      var (fs, c) := Numbered(files, list[..n], count);
      assert fs[list[n]] in fs;
      UpdateKeepsTidy(fs[list[n]], c);
    }
  }

  // Reverting takes the ids of the named files and leaves the other files alone.
  lemma {:induction false} RevertedFile(files: seq<string>, list: seq<nat>, i: nat)
    requires Named(list, |files|) && i < |files|
    ensures i in list ==> Labels(Reverted(files, list)[i]) == multiset{}
    ensures i !in list ==> Reverted(files, list)[i] == files[i]
    decreases |list|
  {
    if list != [] {
      var n := |list| - 1;
      RevertedFile(files, list[..n], i);
      assert list == list[..n] + [list[n]];
      if i == list[n] {
        RevertLeavesNoLabel(Reverted(files, list[..n])[i], {']', '\n'}, false);
      }
    }
  }

  lemma {:induction false} RevertedKeepsTidy(files: seq<string>, list: seq<nat>)
    requires Named(list, |files|) && forall f <- files :: Tidy(f)
    ensures forall f <- Reverted(files, list) :: Tidy(f)
    decreases |list|
  {
    if list != [] {
      var n := |list| - 1;
      RevertedKeepsTidy(files, list[..n]);
      var fs := Reverted(files, list[..n]);
      assert fs[list[n]] in fs;
      RevertKeepsTidy(fs[list[n]], 0, false);
    }
  }

  lemma {:induction false} NoLabelsIff(files: seq<string>)
    ensures AllLabels(files) == multiset{} <==> forall f <- files :: Labels(f) == multiset{}
  {
    if files != [] {
      var rest := files[1..];
      NoLabelsIff(rest);
      NothingInSum(Labels(files[0]), AllLabels(rest));
      if forall f <- files :: Labels(f) == multiset{} {
        assert files[0] in files && forall f <- rest :: f in files;
      }
      if AllLabels(files) == multiset{} {
        forall i: nat | i < |files| ensures Labels(files[i]) == multiset{} {
          assert i > 0 ==> files[i] == rest[i - 1] && rest[i - 1] in rest;
        }
      }
    }
  }

  lemma {:induction false} NothingInSum(a: multiset<string>, b: multiset<string>)
    ensures a + b == multiset{} <==> a == multiset{} && b == multiset{}
  {
    if x :| x in a {
      assert x in a + b;
    } else if x :| x in b {
      assert x in a + b;
    }
  }

  lemma {:induction false} RemovingIsFresh(files: seq<string>)
    requires forall f <- files :: Tidy(f)
    ensures AllLabels(Mapped(files, RemoveText)) == multiset{}
    ensures forall f <- Mapped(files, RemoveText) :: Tidy(f)
  {
    var gs := Mapped(files, RemoveText);
    forall i: nat | i < |gs| ensures Labels(gs[i]) == multiset{} && Tidy(gs[i]) {
      assert files[i] in files;
      RemoveTextClean(files[i]);
      CleanText(gs[i], 0, 0);
    }
    NoLabelsIff(gs);
  }

  datatype Left = NeverReset | Left(labels: multiset<string>)

  // The ids on the disk where the history last made the count start again (`last` if it never did):
  // after a revert or a remove, and before a numbering that restarts.
  ghost function LeftAtReset(d: DiskState, ops: seq<Op>, last: Left): Left
    decreases |ops|
  {
    if ops == [] || !Enabled(d, ops[0]) then last
    else
      var e := Next(d, ops[0]);
      LeftAtReset(e, ops[1..],
                  match ops[0]
                  case UpdateOp(_, restart) => if restart then Left(AllLabels(d.files)) else last
                  case _ => Left(AllLabels(e.files)))
  }

  // The ids are those left at the last reset and those issued since.
  ghost predicate Tracks(d: DiskState, last: Left) {
    match last
    case NeverReset => FreshDisk(d)
    case Left(labels) => AllLabels(d.files) == labels + Issued(0, d.saved)
  }

  lemma {:induction false} RunTracks(d: DiskState, ops: seq<Op>, e: DiskState, last: Left)
    requires Tracks(d, last) && Run(d, ops, e)
    ensures Tracks(e, LeftAtReset(d, ops, last))
    decreases |ops|
  {
    hide AllLabels, Issued, Numbered, Fresh;
    if ops != [] {
      var m := Next(d, ops[0]);
      match ops[0] {
        case UpdateOp(list, restart) =>
          var start := if restart then 0 else d.saved;
          NumberingIssues(d.files, list, start);
          IssuedNone(0);
          IssuedAppends(0, start, m.saved - start);
          if !restart && last == NeverReset {
            IssuingKeepsFresh(AllLabels(d.files), d.saved, m.saved - d.saved);
          }
          RunTracks(m, ops[1..], e, if restart then Left(AllLabels(d.files)) else last);
        case _ =>
          IssuedNone(0);
          RunTracks(m, ops[1..], e, Left(AllLabels(m.files)));
      }
    }
  }

  // Ids left over from before the count started again can not be fresh: they are issued again, or
  // lie beyond the count.
  lemma {:induction false} LeftOversClash(labels: multiset<string>, n: nat)
    ensures Fresh(labels + Issued(0, n), n) <==> labels == multiset{}
  {
    IssuedIsFresh(0, n);
    if x :| x in labels {
      if k: nat :| 0 < k <= n && x == Padded(k) {
        IssuedHas(0, n, k);
      }
      assert x in labels + Issued(0, n);
      assert (labels + Issued(0, n))[x] == labels[x] + Issued(0, n)[x];
    } else {
      assert labels + Issued(0, n) == Issued(0, n);
    }
  }

  lemma {:induction false} IssuedHas(count: nat, n: nat, k: nat)
    requires count < k <= count + n
    ensures Padded(k) in Issued(count, n)
    decreases n
  {
    if k > count + 1 {
      IssuedHas(count + 1, n - 1, k);
    }
  }

  // Whole histories, exactly: from fresh files, after any sequence of updates, restarted updates,
  // reverts of any files and removes, the ids are distinct and within the saved count if and only
  // if no id was left where the count last started again.
  lemma {:induction false} HistoryIsFreshIff(d: DiskState, ops: seq<Op>, e: DiskState)
    requires FreshDisk(d) && Run(d, ops, e)
    ensures FreshDisk(e) <==>
            LeftAtReset(d, ops, NeverReset) == NeverReset || LeftAtReset(d, ops, NeverReset) == Left(multiset{})
  {
    hide Fresh, AllLabels, Issued, LeftAtReset, Run;
    RunTracks(d, ops, e, NeverReset);
    var last := LeftAtReset(d, ops, NeverReset);
    if last.Left? {
      LeftOversClash(last.labels, e.saved);
    }
  }

  // Reverting some files and losing the count is safe exactly if the other files have no ids.
  lemma {:induction false} PartialRevertIsFreshIff(d: DiskState, list: seq<nat>)
    requires Named(list, |d.files|)
    ensures FreshDisk(Next(d, RevertOp(list))) <==>
            forall i: nat | i < |d.files| && i !in list :: Labels(d.files[i]) == multiset{}
  {
    hide Fresh, AllLabels, Issued, Reverted, Labels;
    var fs := Reverted(d.files, list);
    IssuedNone(0);
    LeftOversClash(AllLabels(fs), 0);
    assert AllLabels(fs) + multiset{} == AllLabels(fs);
    NoLabelsIff(fs);
    forall i: nat | i < |fs| ensures i in list ==> Labels(fs[i]) == multiset{}
      ensures i !in list ==> fs[i] == d.files[i]
    {
      RevertedFile(d.files, list, i);
    }
    if forall f <- fs :: Labels(f) == multiset{} {
      forall i: nat | i < |d.files| && i !in list ensures Labels(d.files[i]) == multiset{} {
        assert fs[i] in fs;
      }
    }
  }

  // Restarting the count is safe exactly if there are no ids yet.
  lemma {:induction false} RestartIsFreshIff(d: DiskState, list: seq<nat>)
    requires Named(list, |d.files|)
    ensures FreshDisk(Next(d, UpdateOp(list, true))) <==> AllLabels(d.files) == multiset{}
  {
    hide Fresh, AllLabels, Issued, Numbered;
    NumberingIssues(d.files, list, 0);
    LeftOversClash(AllLabels(d.files), Numbered(d.files, list, 0).1);
  }

  // An update that goes on counting, a revert of all files, or a remove.
  ghost predicate Regular(op: Op, n: nat) {
    match op
    case UpdateOp(_, restart) => !restart
    case RevertOp(list) => forall i: nat | i < n :: i in list
    case RemoveOp => true
  }

  // From fresh files every regular history keeps the ids fresh - with removes, if no tag of the
  // files hangs on a bracket.
  lemma {:induction false} IdsStayFresh(d: DiskState, ops: seq<Op>, e: DiskState)
    requires FreshDisk(d) && Run(d, ops, e) && forall op <- ops :: Regular(op, |d.files|)
    requires RemoveOp in ops ==> TidyDisk(d)
    ensures FreshDisk(e)
    decreases |ops|
  {
    hide Fresh, AllLabels, Issued, Numbered, Reverted, Labels;
    if ops != [] {
      assert ops[0] in ops;
      NextIsFresh(d, ops[0]);
      if TidyDisk(d) {
        NextIsTidy(d, ops[0]);
      }
      assert RemoveOp in ops[1..] ==> RemoveOp in ops;
      IdsStayFresh(Next(d, ops[0]), ops[1..], e);
    }
  }

  lemma {:induction false} NextIsFresh(d: DiskState, op: Op)
    requires FreshDisk(d) && Enabled(d, op) && Regular(op, |d.files|) && (op == RemoveOp ==> TidyDisk(d))
    ensures FreshDisk(Next(d, op))
  {
    hide Fresh, AllLabels, Issued, Numbered, Reverted;
    match op {
      case UpdateOp(list, _) =>
        NumberingIssues(d.files, list, d.saved);
        IssuingKeepsFresh(AllLabels(d.files), d.saved, Next(d, op).saved - d.saved);
      case RevertOp(list) =>
        PartialRevertIsFreshIff(d, list);
      case RemoveOp =>
        RemovingIsFresh(d.files);
        IssuedNone(0);
        LeftOversClash(multiset{}, 0);
        assert multiset{} + Issued(0, 0) == multiset{};
    }
  }

  lemma {:induction false} NextIsTidy(d: DiskState, op: Op)
    requires TidyDisk(d) && Enabled(d, op)
    ensures TidyDisk(Next(d, op)) && |Next(d, op).files| == |d.files|
  {
    hide Numbered, Reverted, Tidy;
    match op {
      case UpdateOp(list, restart) => NumberingKeepsTidy(d.files, list, if restart then 0 else d.saved);
      case RevertOp(list) => RevertedKeepsTidy(d.files, list);
      case RemoveOp => RemovingIsFresh(d.files);
    }
  }

  // ---------------------------------------------------------------- when removing is safe

  ghost predicate Hooked(s: string) {
    Ends(s, "[") || Ends(s, "[*")
  }

  ghost predicate NoMarks(s: string) {
    forall i: nat | i <= |s| :: !(MARK <= s[i..])
  }

  // A hook of n characters - "[" or "[*" - and a blank at the end, behind another hook.
  ghost predicate UnsafeAt(p: string, n: nat)
    requires 1 <= n <= 2
  {
    |p| > n && p[|p| - n - 1..] == MARK[..n] + " " && Hooked(p[..|p| - n - 1])
  }

  // The text before a tag from which removing the tag can uncover another one: it ends with '['
  // or '[*', or it does so twice with a blank at the end.
  ghost predicate Unsafe(p: string) {
    Hooked(p) || UnsafeAt(p, 1) || UnsafeAt(p, 2)
  }

  // No separator starts inside x when t follows.
  ghost predicate NoneInside(x: string, t: string, sep: string) {
    forall i: nat | i < |x| :: !(sep <= (x + t)[i..])
  }

  lemma {:induction false} NoneInsideTail(x: string, t: string, sep: string)
    requires x != "" && NoneInside(x, t, sep)
    ensures (x + t)[1..] == x[1..] + t && NoneInside(x[1..], t, sep) && !(sep <= x + t)
  {
    assert (x + t)[0..] == x + t && (x + t)[1..] == x[1..] + t;
    forall i: nat | i < |x[1..]| ensures !(sep <= (x[1..] + t)[i..]) {
      assert (x[1..] + t)[i..] == (x + t)[i + 1..];
    }
  }

  lemma {:induction false} KeepsUnmarked(x: string, t: string, sep: string)
    requires sep != "" && NoneInside(x, t, sep)
    ensures Erase(x + t, sep, "", {']'}, false) == x + Erase(t, sep, "", {']'}, false)
    decreases |x|
  {
    hide Erase, NoneInside;
    if x == "" {
      assert x + t == t;
    } else {
      NoneInsideTail(x, t, sep);
      KeepsUnmarked(x[1..], t, sep);
      EraseChar(x + t, sep, "", {']'}, false);
      assert (x + t)[0] == x[0] && x == [x[0]] + x[1..];
    }
  }

  // The hook at the end of a text.
  ghost function HookOf(s: string, k: nat): nat {
    if s == "" then k else Hook2(HookOf(s[..|s| - 1], k), s[|s| - 1])
  }

  lemma {:induction false} HookOfCons(s: string, k: nat)
    requires s != ""
    ensures HookOf(s, k) == HookOf(s[1..], Hook2(k, s[0]))
    decreases |s|
  {
    if |s| > 1 {
      var i := s[..|s| - 1];
      HookOfCons(i, k);
      assert i[1..] == s[1..][..|s| - 2] && i[0] == s[0];
      assert HookOf(s[1..], Hook2(k, s[0])) == Hook2(HookOf(i[1..], Hook2(k, s[0])), s[|s| - 1]);
    } else {
      assert s[..0] == "" && s[1..] == "";
    }
  }

  lemma {:induction false} EndsIs(s: string)
    ensures Ends(s, "[") <==> s != "" && s[|s| - 1] == '['
    ensures Ends(s, "[*") <==> |s| >= 2 && s[|s| - 2] == '[' && s[|s| - 1] == '*'
  {
    var n := |s|;
    if n >= 2 {
      assert s[n - 2..] == [s[n - 2], s[n - 1]];
    }
    if n >= 1 {
      assert s[n - 1..] == [s[n - 1]];
    }
  }

  lemma {:induction false} HookedIff(s: string)
    ensures HookOf(s, 0) <= 2
    ensures HookOf(s, 0) == 1 <==> Ends(s, "[")
    ensures HookOf(s, 0) == 2 <==> Ends(s, "[*")
    decreases |s|
  {
    hide Ends;
    EndsIs(s);
    if s != "" {
      HookedIff(s[..|s| - 1]);
      EndsIs(s[..|s| - 1]);
    }
  }

  lemma {:induction false} Hooks2Prefix(p: string, t: string, k: nat)
    requires NoneInside(p, t, MARK)
    ensures Hooks2(p + t, k) == Hooks2(t, HookOf(p, k))
    decreases |p|
  {
    if p == "" {
      assert p + t == t;
    } else {
      NoneInsideTail(p, t, MARK);
      HookOfCons(p, k);
      assert (p + t)[0] == p[0];
      Hooks2Prefix(p[1..], t, Hook2(k, p[0]));
    }
  }

  lemma {:induction false} NoMarksHooks2(s: string, k: nat)
    requires NoMarks(s)
    ensures Hooks2(s, k) >= 0
    decreases |s|
  {
    if s != "" {
      assert s[0..] == s;
      NoMarksTail(s, 1);
      NoMarksHooks2(s[1..], Hook2(k, s[0]));
    }
  }

  lemma {:induction false} NoMarksTail(s: string, n: nat)
    requires NoMarks(s) && n <= |s|
    ensures NoMarks(s[n..])
  {
    forall i: nat | i <= |s[n..]| ensures !(MARK <= s[n..][i..]) {
      assert s[n..][i..] == s[n + i..];
    }
  }

  // No mark starts inside x if none does alone and x does not end with a piece of one that t
  // completes.
  lemma {:induction false} Seam(x: string, t: string)
    requires NoMarks(x) && (!Hooked(x) || (t != "" && t[0] == '['))
    ensures NoneInside(x, t, MARK)
  {
    var s := x + t;
    forall i: nat | i < |x| ensures !(MARK <= s[i..]) {
      MarkIs(s[i..]);
      MarkIs(x[i..]);
      if i + 1 == |x| {
        assert x[i..] == [x[i]] && s[i..] == [x[i]] + t;
      } else if i + 2 == |x| {
        assert x[i..] == [x[i], x[i + 1]] && s[i..] == [x[i], x[i + 1]] + t;
      } else {
        assert s[i..] == x[i..] + t;
      }
    }
  }

  lemma {:induction false} SpacedSeam(x: string, t: string)
    requires NoneInside(x, t, MARK) && (x == "" || x[|x| - 1] != ' ' || !(MARK <= t))
    ensures NoneInside(x, t, SPACED_MARK)
  {
    var s := x + t;
    forall i: nat | i < |x| ensures !(SPACED_MARK <= s[i..]) {
      MarkIs(s[i..]);
      assert s[i..][1..] == s[i + 1..] && s[i] == x[i];
      if i + 1 == |x| {
        assert s[i + 1..] == t;
      }
    }
  }

  // What removing a tag between p and q does when q holds no mark.
  lemma {:induction false} RemoveAround(p: string, q: string)
    requires NoMarks(p) && NoMarks(q)
    ensures if Ends(p, " ") then
              Remove(p + (REQ + q)) == Erase(p[..|p| - 1] + q, MARK, "", {']'}, false)
            else
              && Remove(p + (REQ + q)) == Erase(p + (REQ + q), MARK, "", {']'}, false) == p + q
  {
    hide Erase;
    var t := REQ + q;
    var tag := Required("0");
    assert t[0] == '[' && t == MARK + (Body(tag, false) + "*]" + q) && MARK <= t;
    PlainKept(q);
    Seam(p, t);
    if Ends(p, " ") {
      var r := p[..|p| - 1];
      assert p == r + " " && p + t == r + (" " + t);
      assert (" " + t)[4..] == Body(tag, false) + "*]" + q && SPACED_MARK <= " " + t;
      ShorterInside(r, t);
      SpacedSeam(r, " " + t);
      KeepsUnmarked(r, " " + t, SPACED_MARK);
      EraseMark(" " + t, SPACED_MARK, "", {']'}, false);
      SkipsTagEnd(tag, false, q, SPACED_MARK, "", {']'});
      assert "" + q == q;
    } else {
      SpacedSeam(p, t);
      KeepsUnmarked(p, t, SPACED_MARK);
      ReqInside(q);
      KeepsUnmarked(REQ, q, SPACED_MARK);
      KeepsUnmarked(p, t, MARK);
      EraseMark(t, MARK, "", {']'}, false);
      SkipsTagEnd(tag, false, q, MARK, "", {']'});
      assert t[3..] == Body(tag, false) + "*]" + q && "" + q == q;
      assert p == "" || p[|p| - 1..] == [p[|p| - 1]];
    }
  }

  lemma {:induction false} PlainKept(q: string)
    requires NoMarks(q)
    ensures Erase(q, MARK, "", {']'}, false) == q && Erase(q, SPACED_MARK, "", {']'}, false) == q
  {
    assert q + "" == q;
    KeepsUnmarked(q, "", MARK);
    forall i: nat | i < |q| ensures !(SPACED_MARK <= (q + "")[i..]) {
      MarkIs(q[i..]);
      assert q[i..][1..] == q[i + 1..];
    }
    KeepsUnmarked(q, "", SPACED_MARK);
  }

  lemma {:induction false} ReqInside(q: string)
    ensures NoneInside(REQ, q, SPACED_MARK)
  {
    forall i: nat | i < |REQ| ensures !(SPACED_MARK <= (REQ + q)[i..]) {
      assert (REQ + q)[i..][0] == REQ[i];
    }
  }

  // A blank between r and t does not make marks start inside r.
  lemma {:induction false} ShorterInside(r: string, t: string)
    requires NoneInside(r + " ", t, MARK)
    ensures NoneInside(r, " " + t, MARK)
  {
    assert r + " " + t == r + (" " + t);
    forall i: nat | i < |r| ensures !(MARK <= (r + (" " + t))[i..]) {
    }
  }

  lemma {:induction false} UncoversTag(x: string)
    ensures Labels(x + Tag(1)) != multiset{}
    decreases |x|
  {
    if x == "" {
      LabelsOfTag(1, "");
      assert x + Tag(1) == Tag(1) + "";
      assert Padded(1) in Labels(Tag(1) + "");
    } else {
      UncoversTag(x[1..]);
      assert (x + Tag(1))[1..] == x[1..] + Tag(1);
    }
  }

  // A numbered tag without its first n characters.
  ghost function TagTail(n: nat): string
    requires 1 <= n <= 2
  {
    Tag(1)[n..]
  }

  lemma {:induction false} TagTailIs(n: nat)
    requires 1 <= n <= 2
    ensures '[' !in TagTail(n) && '\n' !in TagTail(n)
    ensures MARK[..n] + TagTail(n) == Tag(1)
  {
    var p := Padded(1);
    var x := (if n == 1 then "*R" else "R") + p + "*]";
    assert TagTail(n) == x;
    forall c | c in x ensures c != '[' && c != '\n' {
      assert IsDigit(c) || c == '*' || c == 'R' || c == ']';
    }
  }

  // The length of the hook at the end of s.
  ghost function HookLength(s: string): (n: nat)
    ensures 1 <= n <= 2
  {
    if Ends(s, "[") then 1 else 2
  }

  ghost function CulpritAt(p: string, n: nat): string
    requires 1 <= n <= 2 && UnsafeAt(p, n)
  {
    MARK[n..] + "]" + TagTail(HookLength(p[..|p| - n - 1]))
  }

  // The tail that turns an unsafe beginning into a numbered tag.
  ghost function Culprit(p: string): string {
    if Hooked(p) then TagTail(HookLength(p))
    else if UnsafeAt(p, 1) then CulpritAt(p, 1)
    else if UnsafeAt(p, 2) then CulpritAt(p, 2)
    else ""
  }

  lemma {:induction false} NoBracketNoMark(q: string)
    requires '[' !in q
    ensures NoMarks(q)
  {
    forall i: nat | i <= |q| ensures !(MARK <= q[i..]) {
      MarkIs(q[i..]);
      assert i < |q| ==> q[i..][0] == q[i] && q[i] in q;
    }
  }

  lemma {:induction false} CulpritHasNoMark(p: string)
    ensures NoMarks(Culprit(p))
  {
    hide NoMarks, TagTail, HookLength, UnsafeAt, Hooked;
    TagTailIs(1);
    TagTailIs(2);
    assert MARK[1..] == "*R" && MARK[2..] == "R";
    NoBracketNoMark(Culprit(p));
  }

  // What is left of a text after the second pass skips one mark.
  lemma {:induction false} SecondPassSkips(r: string, z: string)
    requires NoMarks(r) && '[' !in z
    ensures Erase(r + (MARK + "]" + z), MARK, "", {']'}, false) == r + z
  {
    hide Erase;
    var t := MARK + "]" + z;
    Seam(r, t);
    KeepsUnmarked(r, t, MARK);
    EraseMark(t, MARK, "", {']'}, false);
    assert t[3..] == "]" + z && ("]" + z)[1..] == z && "" + z == z;
    assert ("]" + z)[0] == ']' && !(MARK <= "]" + z);
    EraseChar("]" + z, MARK, "", {']'}, true);
    KeepsOver(z, "", MARK, "", {']'});
    NothingErased(MARK, "", {']'}, false);
    assert z + "" == z;
  }

  lemma {:induction false} HookIs(s: string)
    requires Hooked(s)
    ensures HookLength(s) <= |s| && s == s[..|s| - HookLength(s)] + MARK[..HookLength(s)]
  {
    EndsIs(s);
  }

  lemma {:induction false} UnsafeUncovers(p: string)
    requires NoMarks(p) && Unsafe(p)
    ensures Labels(Remove(p + (REQ + Culprit(p)))) != multiset{}
  {
    hide Remove, Labels, NoMarks, TagTail, Hooked, UnsafeAt, CulpritAt;
    if Hooked(p) {
      UnsafeHooked(p);
    } else if UnsafeAt(p, 1) {
      UnsafeBlankAt(p, 1);
    } else {
      UnsafeBlankAt(p, 2);
    }
  }

  lemma {:induction false} UnsafeHooked(p: string)
    requires NoMarks(p) && Hooked(p)
    ensures Labels(Remove(p + (REQ + Culprit(p)))) != multiset{}
  {
    hide Erase, Remove, Labels, NoMarks, TagTail, HookLength, Ends;
    CulpritHasNoMark(p);
    RemoveAround(p, Culprit(p));
    var n := HookLength(p);
    HookIs(p);
    TagTailIs(n);
    HookedNoBlank(p);
    assert p + Culprit(p) == p[..|p| - n] + (MARK[..n] + TagTail(n));
    UncoversTag(p[..|p| - n]);
  }

  lemma {:induction false} UnsafeBlankAt(p: string, n: nat)
    requires NoMarks(p) && 1 <= n <= 2 && UnsafeAt(p, n) && Culprit(p) == CulpritAt(p, n)
    ensures Labels(Remove(p + (REQ + Culprit(p)))) != multiset{}
  {
    hide Erase, Remove, Labels, NoMarks, TagTail, HookLength, Culprit;
    CulpritHasNoMark(p);
    RemoveAround(p, Culprit(p));
    EndsBlank(p, n);
    UnsafeBlank(p, p[..|p| - n - 1], n);
  }

  lemma {:induction false} HookedNoBlank(p: string)
    requires Hooked(p)
    ensures !Ends(p, " ")
  {
    EndsIs(p);
    assert p[|p| - 1..] == [p[|p| - 1]];
  }

  lemma {:induction false} EndsBlank(p: string, n: nat)
    requires 1 <= n <= 2 && |p| > n && p[|p| - n - 1..] == MARK[..n] + " "
    ensures Ends(p, " ") && p == p[..|p| - n - 1] + (MARK[..n] + " ")
    ensures p[..|p| - 1] == p[..|p| - n - 1] + MARK[..n]
  {
    assert p[|p| - 1..] == p[|p| - n - 1..][n..];
  }

  // Behind a hook, a second hook and a blank, the first pass joins up a mark; the second pass
  // erases it and joins up the tag.
  lemma {:induction false} UnsafeBlank(p: string, r: string, n: nat)
    requires NoMarks(p) && 1 <= n <= 2 && p == r + (MARK[..n] + " ") && Hooked(r)
    ensures Labels(Erase(p[..|p| - 1] + (MARK[n..] + "]" + TagTail(HookLength(r))), MARK, "", {']'}, false)) !=
            multiset{}
  {
    hide Erase, Labels, NoMarks, TagTail, HookLength, Ends;
    var m := HookLength(r);
    var z := TagTail(m);
    HookIs(r);
    TagTailIs(m);
    assert MARK[..n] + MARK[n..] == MARK;
    assert p[..|p| - 1] == r + MARK[..n];
    assert p[..|p| - 1] + (MARK[n..] + "]" + z) == r + (MARK + "]" + z);
    assert r == p[..|r|];
    NoMarksPrefix(p, |r|);
    SecondPassSkips(r, z);
    assert r + z == r[..|r| - m] + (MARK[..m] + z);
    UncoversTag(r[..|r| - m]);
  }

  lemma {:induction false} SafeUncoversNothing(p: string, q: string)
    requires NoMarks(p) && NoMarks(q) && !Unsafe(p)
    ensures Labels(Remove(p + (REQ + q))) == multiset{}
  {
    hide Erase, Remove, Labels;
    RemoveAround(p, q);
    if Ends(p, " ") {
      var r := p[..|p| - 1];
      SafeBlank(p, q);
      SecondPassClean(r + q, 0, false);
      CleanText(Erase(r + q, MARK, "", {']'}, false), 0, 0);
    } else {
      var t := REQ + q;
      Seam(p, t);
      Hooks2Prefix(p, t, 0);
      HookedIff(p);
      NoMarksHooks2("EQ*]" + q, 0) by {
        ReqTailNoMarks(q);
      }
      assert t[3..] == "EQ*]" + q;
      SecondPassClean(p + t, 0, false);
      CleanText(Erase(p + t, MARK, "", {']'}, false), 0, 0);
    }
  }

  lemma {:induction false} ReqTailNoMarks(q: string)
    requires NoMarks(q)
    ensures NoMarks("EQ*]" + q)
  {
    var s := "EQ*]" + q;
    forall i: nat | i <= |s| ensures !(MARK <= s[i..]) {
      if i < 4 {
        assert s[i..][0] == s[i];
      } else {
        assert s[i..] == q[i - 4..];
      }
    }
  }

  lemma {:induction false} SafeBlank(p: string, q: string)
    requires NoMarks(p) && NoMarks(q) && !Unsafe(p) && Ends(p, " ")
    ensures Hooks2(p[..|p| - 1] + q, 0) >= 0
  {
    hide Hooks2, NoMarks;
    var r := p[..|p| - 1];
    assert p == r + " ";
    NoMarksPrefix(p, |r|);
    if Hooked(r) {
      HookIs(r);
      SafeBlankHook(p, r, r[..|r| - HookLength(r)], HookLength(r), q);
    } else {
      Seam(r, q);
      Hooks2Prefix(r, q, 0);
      HookedIff(r);
      NoMarksHooks2(q, 0);
    }
  }

  lemma {:induction false} SafeBlankHook(p: string, r: string, u: string, n: nat, q: string)
    requires NoMarks(r) && NoMarks(q) && !Unsafe(p) && 1 <= n <= 2 && p == r + " " && r == u + MARK[..n]
    ensures Hooks2(r + q, 0) >= 0
  {
    hide Hooks2, NoMarks, Hooked;
    var x := MARK[..n];
    assert p[|p| - n - 1..] == x + " " && u == p[..|p| - n - 1] == r[..|u|];
    assert !UnsafeAt(p, n) && !Hooked(u);
    NoMarksPrefix(r, |u|);
    Seam(u, x + q);
    assert r + q == u + (x + q);
    Hooks2Prefix(u, x + q, 0);
    NotHooked(u);
    AtMostOneMark(n, q);
  }

  lemma {:induction false} NotHooked(s: string)
    requires !Hooked(s)
    ensures HookOf(s, 0) == 0
  {
    HookedIff(s);
  }

  lemma {:induction false} NoMarksPrefix(s: string, n: nat)
    requires NoMarks(s) && n <= |s|
    ensures NoMarks(s[..n])
  {
    forall i: nat | i <= n ensures !(MARK <= s[..n][i..]) {
      MarkIs(s[..n][i..]);
      MarkIs(s[i..]);
      assert s[i..] == s[..n][i..] + s[n..];
    }
  }

  lemma {:induction false} AtMostOneMark(n: nat, q: string)
    requires 1 <= n <= 2 && NoMarks(q)
    ensures Hooks2(MARK[..n] + q, 0) >= 0
  {
    var x := MARK[..n];
    var s := x + q;
    MarkIs(s);
    if MARK <= s {
      assert s[3..] == q[3 - |x|..];
      NoMarksTail(q, 3 - |x|);
      NoMarksHooks2(s[3..], 0);
    } else {
      forall i: nat | i <= |s| ensures !(MARK <= s[i..]) {
        MarkIs(s[i..]);
        if i >= |x| {
          assert s[i..] == q[i - |x|..];
        } else {
          assert i < |s| ==> s[i..][0] == s[i];
        }
      }
      NoMarksHooks2(s, 0);
    }
  }

  // Removing a tag uncovers a numbered one for some continuation of the text exactly when what
  // stands before the tag is unsafe.
  lemma {:induction false} RemovingIsSafeIff(p: string)
    requires NoMarks(p)
    ensures (forall q | NoMarks(q) :: Labels(Remove(p + (REQ + q))) == multiset{}) <==> !Unsafe(p)
  {
    forall q | NoMarks(q) && !Unsafe(p) ensures Labels(Remove(p + (REQ + q))) == multiset{} {
      SafeUncoversNothing(p, q);
    }
    if Unsafe(p) {
      CulpritHasNoMark(p);
      UnsafeUncovers(p);
    }
  }

  // So without a condition ids do not stay fresh: from a file with no numbered tag, removing can
  // leave one although the count starts again from 0.
  lemma {:induction false} RemoveUncoversTag() returns (d: DiskState)
    ensures FreshDisk(d) && AllLabels(d.files) == multiset{}
    ensures !FreshDisk(Next(d, RemoveOp))
  {
    var q := Culprit("[");
    var text := "[" + (REQ + q);
    d := DiskState([text], 0);
    assert NoMarks("[") && Ends("[", "[");
    UnsafeUncovers("[");
    UnnumberedExample(q);
    OneLineText(text);
    var e := Next(d, RemoveOp);
    assert e.files[0] == Remove(text);
    assert d.files[1..] == [] && e.files[1..] == [];
    assert AllLabels(e.files) == Labels(Remove(text));
    var x :| x in Labels(Remove(text));
    assert !Between(x, 0, 0);
  }

  lemma {:induction false} OneLineText(text: string)
    requires forall k | 0 <= k < |text| :: text[k] != '\n'
    ensures RemoveText(text) == Remove(text)
  {
    if text != "" {
      ReadOneLine(text);
      assert [text][1..] == [] && RemoveLines([]) == "";
      assert RemoveText(text) == Remove(text) + "";
    }
  }

  lemma {:induction false} UnnumberedExample(q: string)
    requires q == Culprit("[")
    ensures Labels("[" + (REQ + q)) == multiset{}
    ensures forall k | 0 <= k < |"[" + (REQ + q)| :: ("[" + (REQ + q))[k] != '\n'
  {
    hide Labels, TagTail;
    assert Ends("[", "[");
    TagTailIs(1);
    assert '[' !in q && '\n' !in q;
    assert q + "" == q;
    NoBracketNoLabel(q, "");
    LabelsOfNothing();
    LabelsOfReq(q);
    BracketNoLabel(REQ + q);
    var s := "[" + (REQ + q);
    forall k | 0 <= k < |s| ensures s[k] != '\n' {
      if k >= 8 {
        assert s[k] == q[k - 8] && q[k - 8] in q;
      }
    }
  }

  lemma {:induction false} LabelsOfNothing()
    ensures Labels("") == multiset{}
  {
  }

  // A bracket before another one starts no tag.
  lemma {:induction false} BracketNoLabel(t: string)
    requires t != "" && t[0] == '['
    ensures Labels("[" + t) == Labels(t)
  {
    var s := "[" + t;
    LabelNeedsMark(s);
    assert s[1] == '[';
    assert s[1..] == t;
  }
}
