/**
 What decides whether ids stay fresh: the words of erasing runs alone, since erasing does not see
 numbering.  And a run in which an id is issued twice.
 */
module TagRuns {
  import opened Tags
  import opened TagLaws
  import opened TagFiles
  import opened TagHistory
  import opened TagScripts
  import opened TagNumbering

  // ---------------------------------------------------------------- erasing runs

  datatype Eraser = Reverting | Removing

  ghost function ErasedFile(f: string, eraser: Eraser): string {
    match eraser
    case Reverting => RevertText(f)
    case Removing => RemoveText(f)
  }

  ghost function ErasedFiles(files: seq<string>, eraser: Eraser): (r: seq<string>)
    ensures |r| == |files| && forall i: nat | i < |files| :: r[i] == ErasedFile(files[i], eraser)
  {
    Mapped(files, (f: string) => ErasedFile(f, eraser))
  }

  // The files after a word of erasing runs and nothing else.
  ghost function Worded(files: seq<string>, word: seq<Eraser>): seq<string>
    decreases |word|
  {
    if word == [] then files else Worded(ErasedFiles(files, word[0]), word[1..])
  }

  ghost function AllOf(n: nat): (list: seq<nat>)
    ensures |list| == n && forall k: nat | k < n :: list[k] == k
  {
    seq(n, k requires 0 <= k => k)
  }

  // Updates that go on counting, reverts of the whole list once through, and removes.
  ghost predicate Plain(op: Op, n: nat) {
    match op
    case UpdateOp(_, restart) => !restart
    case RevertOp(list) => list == AllOf(n)
    case RemoveOp => true
  }

  ghost function Erasers(ops: seq<Op>): seq<Eraser> {
    if ops == [] then []
    else
      (match ops[0] case UpdateOp(_, _) => [] case RevertOp(_) => [Reverting] case RemoveOp => [Removing]) +
      Erasers(ops[1..])
  }

  lemma {:induction false} RevertedPrefix(files: seq<string>, k: nat)
    requires k <= |files|
    ensures Named(AllOf(|files|)[..k], |files|)
    ensures forall i: nat | i < |files| ::
              Reverted(files, AllOf(|files|)[..k])[i] == if i < k then RevertText(files[i]) else files[i]
  {
    var list := AllOf(|files|);
    if k > 0 {
      RevertedPrefix(files, k - 1);
      assert list[..k][..k - 1] == list[..k - 1];
    }
  }

  lemma {:induction false} RevertedAll(files: seq<string>)
    ensures Named(AllOf(|files|), |files|)
    ensures Reverted(files, AllOf(|files|)) == ErasedFiles(files, Reverting)
  {
    RevertedPrefix(files, |files|);
    assert AllOf(|files|)[..|files|] == AllOf(|files|);
  }

  // ---------------------------------------------------------------- erasing does not see numbering

  // Erasing makes the same of both.
  ghost predicate Alike(x: string, y: string) {
    RevertText(x) == RevertText(y) && RemoveText(x) == RemoveText(y)
  }

  ghost predicate AllAlike(xs: seq<string>, ys: seq<string>) {
    |xs| == |ys| && forall i: nat | i < |xs| :: Alike(xs[i], ys[i])
  }

  lemma {:induction false} NumberingIsAlike(files: seq<string>, list: seq<nat>, count: nat, ys: seq<string>)
    requires Named(list, |files|) && AllAlike(files, ys)
    ensures AllAlike(Numbered(files, list, count).0, ys)
    decreases |list|
  {
    hide RevertText, RemoveText;
    if list != [] {
      var n := |list| - 1;
      NumberingIsAlike(files, list[..n], count, ys);
      var (fs, c) := Numbered(files, list[..n], count);
      RevertTextIgnoresUpdate(fs[list[n]], c);
      RemoveTextIgnoresUpdate(fs[list[n]], c);
    }
  }

  lemma {:induction false} ErasingAlike(xs: seq<string>, ys: seq<string>, eraser: Eraser)
    requires AllAlike(xs, ys)
    ensures ErasedFiles(xs, eraser) == ErasedFiles(ys, eraser)
  {
    forall i: nat | i < |xs| ensures ErasedFile(xs[i], eraser) == ErasedFile(ys[i], eraser) {
      assert Alike(xs[i], ys[i]);
    }
  }

  lemma {:induction false} SelfAlike(xs: seq<string>)
    ensures AllAlike(xs, xs)
  {
  }

  // An erasing step on alike files.
  lemma {:induction false} EraserStep(d: DiskState, ys: seq<string>, op: Op)
    requires Enabled(d, op) && Plain(op, |d.files|) && !op.UpdateOp? && AllAlike(d.files, ys)
    ensures Next(d, op).files == ErasedFiles(ys, if op == RemoveOp then Removing else Reverting)
  {
    hide AllAlike, RevertText, RemoveText, Reverted;
    RevertedAll(d.files);
    ErasingAlike(d.files, ys, Removing);
    ErasingAlike(d.files, ys, Reverting);
    var rs := ErasedFiles(d.files, Removing);
    assert Mapped(d.files, RemoveText) == rs;
  }

  lemma {:induction false} LeftIsWord(d: DiskState, ys: seq<string>, ops: seq<Op>, e: DiskState, last: Left)
    requires Run(d, ops, e) && AllAlike(d.files, ys) && forall op <- ops :: Plain(op, |d.files|)
    ensures LeftAtReset(d, ops, last) ==
            if Erasers(ops) == [] then last else Left(AllLabels(Worded(ys, Erasers(ops))))
    decreases |ops|
  {
    hide AllAlike, AllLabels, Numbered, Reverted, AllOf, Mapped;
    if ops != [] {
      var m := Next(d, ops[0]);
      assert ops[0] in ops;
      match ops[0] {
        case UpdateOp(list, _) =>
          NumberingIsAlike(d.files, list, d.saved, ys);
          AlikeCount(d.files, m.files, ys);
          LeftIsWord(m, ys, ops[1..], e, last);
          assert [] + Erasers(ops[1..]) == Erasers(ops[1..]);
        case _ =>
          var eraser := if ops[0] == RemoveOp then Removing else Reverting;
          EraserStep(d, ys, ops[0]);
          AlikeCount(d.files, d.files, ys);
          SelfAlike(m.files);
          LeftIsWord(m, m.files, ops[1..], e, Left(AllLabels(m.files)));
          assert Erasers(ops) == [eraser] + Erasers(ops[1..]);
          assert ([eraser] + Erasers(ops[1..]))[1..] == Erasers(ops[1..]);
      }
    }
  }

  lemma {:induction false} AlikeCount(xs: seq<string>, zs: seq<string>, ys: seq<string>)
    requires AllAlike(xs, ys) && AllAlike(zs, ys)
    ensures |xs| == |zs| == |ys|
  {
  }

  // Whether the ids are fresh after a history is decided by its erasing runs alone, wherever and
  // however often files were numbered in between.
  lemma {:induction false} WordsDecideFreshness(d: DiskState, ops: seq<Op>, e: DiskState)
    requires FreshDisk(d) && Run(d, ops, e) && forall op <- ops :: Plain(op, |d.files|)
    ensures FreshDisk(e) <==>
            Erasers(ops) == [] || AllLabels(Worded(d.files, Erasers(ops))) == multiset{}
  {
    hide AllAlike, AllLabels, Fresh, LeftAtReset, Worded;
    SelfAlike(d.files);
    LeftIsWord(d, d.files, ops, e, NeverReset);
    HistoryIsFreshIff(d, ops, e);
  }

  lemma {:induction false} WordedSnoc(files: seq<string>, word: seq<Eraser>, eraser: Eraser)
    ensures Worded(files, word + [eraser]) == ErasedFiles(Worded(files, word), eraser)
    decreases |word|
  {
    if word == [] {
      assert ([] + [eraser])[1..] == [];
    } else {
      assert (word + [eraser])[1..] == word[1..] + [eraser];
      WordedSnoc(ErasedFiles(files, word[0]), word[1..], eraser);
    }
  }

  lemma {:induction false} RevertingLeavesNothing(files: seq<string>)
    ensures AllLabels(ErasedFiles(files, Reverting)) == multiset{}
  {
    var gs := ErasedFiles(files, Reverting);
    forall i: nat | i < |gs| ensures Labels(gs[i]) == multiset{} {
      RevertLeavesNoLabel(files[i], {']', '\n'}, false);
    }
    NoLabelsIff(gs);
  }

  // The history that erases as the word says.
  ghost function OpsOf(word: seq<Eraser>, n: nat): (ops: seq<Op>)
    ensures forall op <- ops :: Plain(op, n)
    ensures Erasers(ops) == word
  {
    if word == [] then []
    else
      var op := if word[0] == Removing then RemoveOp else RevertOp(AllOf(n));
      var rest := OpsOf(word[1..], n);
      assert ([op] + rest)[1..] == rest;
      [op] + rest
  }

  lemma {:induction false} RunsToEnd(d: DiskState, word: seq<Eraser>) returns (e: DiskState)
    ensures Run(d, OpsOf(word, |d.files|), e)
    decreases |word|
  {
    hide Mapped, Reverted;
    var ops := OpsOf(word, |d.files|);
    e := d;
    if word != [] {
      assert ops[1..] == OpsOf(word[1..], |d.files|);
      assert Named(AllOf(|d.files|), |d.files|);
      e := RunsToEnd(Next(d, ops[0]), word[1..]);
    }
  }

  // The ids of fresh files stay fresh over all such histories exactly when no word of erasing runs
  // that ends with a remove uncovers an id in the files.
  lemma {:induction false} AlwaysFreshIff(d: DiskState)
    requires FreshDisk(d)
    ensures (forall ops: seq<Op>, e: DiskState |
               Run(d, ops, e) && (forall op <- ops :: Plain(op, |d.files|)) :: FreshDisk(e)) <==>
            (forall word: seq<Eraser> :: AllLabels(ErasedFiles(Worded(d.files, word), Removing)) == multiset{})
  {
    hide FreshDisk, AllLabels, Worded, Run, Erasers, Plain;
    if forall word: seq<Eraser> :: AllLabels(ErasedFiles(Worded(d.files, word), Removing)) == multiset{} {
      forall ops: seq<Op>, e: DiskState | Run(d, ops, e) && (forall op <- ops :: Plain(op, |d.files|))
        ensures FreshDisk(e)
      {
        WordsDecideFreshness(d, ops, e);
        var word := Erasers(ops);
        if word != [] {
          var init, eraser := word[..|word| - 1], word[|word| - 1];
          assert word == init + [eraser];
          WordedSnoc(d.files, init, eraser);
          RevertingLeavesNothing(Worded(d.files, init));
          assert eraser == Removing || eraser == Reverting;
          assert AllLabels(ErasedFiles(Worded(d.files, init), eraser)) == multiset{};
        }
      }
    } else {
      var word: seq<Eraser> :| AllLabels(ErasedFiles(Worded(d.files, word), Removing)) != multiset{};
      var ops := OpsOf(word + [Removing], |d.files|);
      var e := RunsToEnd(d, word + [Removing]);
      WordsDecideFreshness(d, ops, e);
      WordedSnoc(d.files, word, Removing);
    }
  }

  // ---------------------------------------------------------------- an id issued twice

  // One line with two tags, each inside the brackets of text that erasing it joins up: the first to
  // a numbered tag, the second to one that is numbered next.
  const HIDDEN: string := "[[*REQ*]*R00001*][[*REQ*]*REQ*]"

  const UNCOVERED: string := "[*R00001*][*REQ*]"

  lemma {:induction false} FirstTag()
    ensures Tag(1) == "[*R00001*]" && Padded(1) == "00001"
  {
    assert Decimal(1) == "1";
    assert Zeros(4) == "0000";
  }

  lemma {:induction false} HiddenHasNoLabel()
    ensures Labels(HIDDEN) == multiset{}
  {
    hide Labels;
    var t := "[" + (REQ + "*REQ*]");
    var s := "*R00001*]" + t;
    assert HIDDEN == "[" + (REQ + s);
    BracketNoLabel(REQ + s);
    LabelsOfReq(s);
    NoBracketNoLabel("*R00001*]", t);
    BracketNoLabel(REQ + "*REQ*]");
    LabelsOfReq("*REQ*]");
    NoBracketNoLabel("*REQ*]", "");
    assert "*REQ*]" + "" == "*REQ*]";
    LabelsOfNothing();
  }

  // Erasing a tag that stands behind a bracket.
  lemma {:induction false} ErasesInside(rest: string)
    ensures Erase("[" + (REQ + rest), MARK, "", {']'}, false) == "[" + Erase(rest, MARK, "", {']'}, false)
  {
    hide Erase;
    var t := REQ + rest;
    var s := "[" + t;
    assert s[0] == '[' && s[1] == '[' && !(MARK <= s) && s[1..] == t;
    EraseChar(s, MARK, "", {']'}, false);
    EraseMark(t, MARK, "", {']'}, false);
    assert t[3..] == "EQ*" + ("]" + rest);
    SkipsOver("EQ*", "]" + rest, MARK, "", {']'});
    assert ("]" + rest)[0] == ']' && !(MARK <= "]" + rest) && ("]" + rest)[1..] == rest;
    EraseChar("]" + rest, MARK, "", {']'}, true);
    assert "" + Erase(rest, MARK, "", {']'}, false) == Erase(rest, MARK, "", {']'}, false);
  }

  // The two texts in pieces.
  lemma {:induction false} Pieces()
    ensures HIDDEN == "[" + (REQ + ("*R00001*]" + ("[" + (REQ + "*REQ*]"))))
    ensures UNCOVERED == "[" + ("*R00001*]" + ("[" + "*REQ*]"))
    ensures forall c <- HIDDEN :: c != ' ' && c != '\n'
  {
  }

  lemma {:induction false} SecondPassUncovers()
    ensures Erase(HIDDEN, MARK, "", {']'}, false) == UNCOVERED
  {
    hide Erase;
    Pieces();
    var u := "[" + (REQ + "*REQ*]");
    ErasesInside("*R00001*]" + u);
    KeepsOver("*R00001*]", u, MARK, "", {']'});
    ErasesInside("*REQ*]");
    KeepsOver("*REQ*]", "", MARK, "", {']'});
    NothingErased(MARK, "", {']'}, false);
    assert "*REQ*]" + "" == "*REQ*]";
  }

  lemma {:induction false} RemovingUncovers()
    ensures RemoveText(HIDDEN) == UNCOVERED
  {
    hide Erase, RemoveText;
    Pieces();
    assert forall k | 0 <= k < |HIDDEN| :: HIDDEN[k] in HIDDEN;
    OneLineText(HIDDEN);
    KeepsAll(HIDDEN);
    SecondPassUncovers();
  }

  lemma {:induction false} KeepsAll(x: string)
    requires ' ' !in x
    ensures Erase(x, SPACED_MARK, "", {']'}, false) == x
  {
    hide Erase;
    KeepsOver(x, "", SPACED_MARK, "", {']'});
    NothingErased(SPACED_MARK, "", {']'}, false);
    assert x + "" == x;
  }

  // Removing and numbering a file without ids can issue an id that is already there.
  lemma {:induction false} RemoveReissues() returns (d: DiskState, e: DiskState)
    ensures FreshDisk(d) && d.files == [HIDDEN] && AllLabels(d.files) == multiset{}
    ensures Run(d, [RemoveOp, UpdateOp([0], false)], e) && e.saved == 1
    ensures AllLabels(e.files)["00001"] == 2
  {
    hide Labels, Update, RemoveText;
    d := DiskState([HIDDEN], 0);
    HiddenHasNoLabel();
    assert AllLabels(d.files) == Labels(HIDDEN) + AllLabels(d.files[1..]);
    RemovingUncovers();
    var m := Next(d, RemoveOp);
    assert m.files == [UNCOVERED];
    e := Next(m, UpdateOp([0], false));
    UncoveredLabels();
    NumberedOnce(UNCOVERED);
    TwoSteps(d, RemoveOp, UpdateOp([0], false), m, e);
    OneFileLabels(e.files[0]);
    assert e.files == [e.files[0]];
  }

  lemma {:induction false} UncoveredLabels()
    ensures Labels(UNCOVERED) == multiset{"00001"} && Reqs(UNCOVERED) == 1
    ensures Labels(Update(UNCOVERED, 0)) == multiset{"00001", "00001"}
  {
    hide Labels, Update;
    FirstTag();
    assert UNCOVERED == Tag(1) + REQ && REQ + "" == REQ;
    LabelsOfTag(1, REQ);
    LabelsOfReq("");
    LabelsOfNothing();
    ReqsOver("[*R00001*]", REQ);
    UpdateIssues(UNCOVERED, 0);
    IssuedNext(0, 0);
    IssuedNone(1);
  }

  // Text in which no [*REQ*] starts.
  lemma {:induction false} ReqsOver(x: string, t: string)
    requires x == "[*R00001*]" && t == REQ
    ensures Reqs(x + t) == 1
  {
    var s := x + t;
    assert s[3] == '0';
    var r := s[1..];
    assert Reqs(s) == Reqs(r);
    PlainReqs("*R00001*]", t);
    assert r == "*R00001*]" + t;
    assert t[7..] == "" && Reqs("") == 0;
  }

  lemma {:induction false} NumberedOnce(f: string)
    ensures Named([0], 1) && Numbered([f], [0], 0) == ([Update(f, 0)], Reqs(f))
  {
    assert [0][..0] == [];
    assert Numbered([f], [], 0) == ([f], 0);
    assert [f][0 := Update(f, 0)] == [Update(f, 0)];
  }

  lemma {:induction false} OneFileLabels(f: string)
    ensures AllLabels([f]) == Labels(f)
  {
    assert [f][1..] == [];
  }

  lemma {:induction false} TwoSteps(d: DiskState, a: Op, b: Op, m: DiskState, e: DiskState)
    requires Enabled(d, a) && m == Next(d, a) && Enabled(m, b) && e == Next(m, b)
    ensures Run(d, [a, b], e)
  {
    assert [a, b][1..] == [b] && [b][1..] == [];
    assert Run(e, [], e) && Run(m, [b], e);
  }
}
