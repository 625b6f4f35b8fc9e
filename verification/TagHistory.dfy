/**
 Ids over whole histories: numbering, reverting the whole list and removing, in any order, keep
 all ids in all files distinct and within the saved count - removing only on text in which no tag
 hangs on a bracket.
 */
module TagHistory {
  import opened Tags
  import opened TagLaws
  import opened TagFiles

  // ---------------------------------------------------------------- reading labels

  // Reads the rest of a numbered tag after its '[': '*', 'R', digits, '*', ']'.
  ghost function Match(t: string, state: nat, digits: string): string
    decreases |t|
  {
    if t == "" then ""
    else if state == 0 && t[0] == '*' then Match(t[1..], 1, digits)
    else if state == 1 && t[0] == 'R' then Match(t[1..], 2, digits)
    else if state == 2 && IsDigit(t[0]) then Match(t[1..], 3, digits + [t[0]])
    else if state == 3 && IsDigit(t[0]) then Match(t[1..], 3, digits + [t[0]])
    else if state == 3 && t[0] == '*' then Match(t[1..], 4, digits)
    else if state == 4 && t[0] == ']' then digits
    else ""
  }

  // The id of the numbered tag that starts here ("" if none does).
  ghost function LabelAt(s: string): string {
    if s != "" && s[0] == '[' then Match(s[1..], 0, "") else ""
  }

  // The ids of all numbered tags of a text, with multiplicity.
  ghost function Labels(s: string): multiset<string>
    decreases |s|
  {
    if s == "" then multiset{}
    else (if LabelAt(s) != "" then multiset{LabelAt(s)} else multiset{}) + Labels(s[1..])
  }

  lemma {:induction false} LabelNeedsMark(s: string)
    ensures LabelAt(s) != "" ==> MARK <= s
  {
    if LabelAt(s) != "" {
      var t := s[1..];
      assert t != "" && t[0] == '*';
      var u := t[1..];
      assert Match(u, 1, "") != "";
      assert u[0] == 'R';
    }
  }

  lemma {:induction false} MatchUpdate(t: string, count: nat, state: nat, digits: string)
    ensures Match(Update(t, count), state, digits) == Match(t, state, digits)
    decreases |t|
  {
    if t == "" {
      NothingToUpdate(count);
    } else if REQ <= t {
      assert Update(t, count)[0] == '[' == t[0];
    } else {
      UpdateStep(t, count);
      var u := Update(t, count);
      assert u[0] == t[0] && u[1..] == Update(t[1..], count);
      MatchUpdate(t[1..], count, 1, digits);
      MatchUpdate(t[1..], count, 2, digits);
      MatchUpdate(t[1..], count, 3, digits + [t[0]]);
      MatchUpdate(t[1..], count, 4, digits);
    }
  }

  lemma {:induction false} MatchDigits(d: string, t: string, digits: string)
    requires forall c <- d :: IsDigit(c)
    ensures Match(d + "*]" + t, 3, digits) == digits + d
    decreases |d|
  {
    var s := d + "*]" + t;
    if d == "" {
      assert s[0] == '*' && s[1..][0] == ']' && digits + d == digits;
    } else {
      assert d[0] in d && s[0] == d[0] && s[1..] == d[1..] + "*]" + t;
      MatchDigits(d[1..], t, digits + [d[0]]);
      assert digits + [d[0]] + d[1..] == digits + d;
    }
  }

  lemma {:induction false} TagLabel(n: nat, t: string)
    ensures LabelAt(Tag(n) + t) == Padded(n)
  {
    var p := Padded(n);
    var s := Tag(n) + t;
    var rest := p[1..] + "*]" + t;
    assert s[0] == '[' && s[1] == '*' && s[2] == 'R' && s[3] == p[0] && p[0] in p;
    assert s[1..][1..][1..][1..] == rest;
    assert Match(s[1..], 0, "") == Match(s[1..][1..], 1, "") == Match(s[1..][1..][1..], 2, "") ==
           Match(rest, 3, "" + [p[0]]);
    MatchDigits(p[1..], t, [p[0]]);
    assert [p[0]] + p[1..] == p && "" + [p[0]] == [p[0]];
  }

  lemma {:induction false} NoBracketNoLabel(x: string, t: string)
    requires '[' !in x
    ensures Labels(x + t) == Labels(t)
    decreases |x|
  {
    if x == "" {
      assert x + t == t;
    } else {
      assert x[0] in x && (x + t)[0] == x[0] && (x + t)[1..] == x[1..] + t;
      NoBracketNoLabel(x[1..], t);
    }
  }

  lemma {:induction false} LabelsOfTag(n: nat, t: string)
    ensures Labels(Tag(n) + t) == multiset{Padded(n)} + Labels(t)
  {
    var x := "*R" + Padded(n) + "*]";
    TagLabel(n, t);
    assert (Tag(n) + t)[1..] == x + t;
    forall c | c in x ensures c != '[' {
      assert IsDigit(c) || c == '*' || c == 'R' || c == ']';
    }
    NoBracketNoLabel(x, t);
  }

  lemma {:induction false} LabelsOfReq(t: string)
    ensures Labels(REQ + t) == Labels(t)
  {
    var s := REQ + t;
    assert s[1..][0] == '*' && s[1..][1..][0] == 'R' && s[1..][1..][1..][0] == 'E';
    assert Match(s[1..], 0, "") == Match(s[1..][1..], 1, "") == Match(s[1..][1..][1..], 2, "") == "";
    assert s[1..] == "*REQ*]" + t;
    NoBracketNoLabel("*REQ*]", t);
  }

  // ---------------------------------------------------------------- what numbering issues

  ghost function Issued(count: nat, n: nat): multiset<string>
    decreases n
  {
    if n == 0 then multiset{} else multiset{Padded(count + 1)} + Issued(count + 1, n - 1)
  }

  // Numbering adds exactly the next ids, one for each [*REQ*], and keeps the old ones.
  lemma {:induction false} UpdateIssues(s: string, count: nat)
    ensures Labels(Update(s, count)) == Labels(s) + Issued(count, Reqs(s))
    decreases |s|
  {
    hide LabelAt, Update, Reqs;
    if s == "" {
      NothingToUpdate(count);
    } else if REQ <= s {
      UpdateIssues(s[7..], count + 1);
      UpdateIssuesTag(s, count);
    } else {
      UpdateIssues(s[1..], count);
      LabelsKept(s, count);
    }
  }

  lemma {:induction false} IssuedNext(count: nat, n: nat)
    ensures Issued(count, n + 1) == multiset{Padded(count + 1)} + Issued(count + 1, n)
  {
  }

  lemma {:induction false} UpdateIssuesTag(s: string, count: nat)
    requires REQ <= s
    requires Labels(Update(s[7..], count + 1)) == Labels(s[7..]) + Issued(count + 1, Reqs(s[7..]))
    ensures Labels(Update(s, count)) == Labels(s) + Issued(count, Reqs(s))
  {
    hide Labels, Tag, Update, Reqs, Issued;
    UpdateTagStep(s, count);
    LabelsOfTag(count + 1, Update(s[7..], count + 1));
    assert s == REQ + s[7..];
    LabelsOfReq(s[7..]);
    IssuedNext(count, Reqs(s[7..]));
  }

  lemma {:induction false} LabelsKept(s: string, count: nat)
    requires s != "" && !(REQ <= s)
    ensures Reqs(s) == Reqs(s[1..])
    ensures LabelAt(Update(s, count)) == LabelAt(s) && Update(s, count) != ""
    ensures Update(s, count)[1..] == Update(s[1..], count)
  {
    hide Update, Reqs;
    UpdateStep(s, count);
    var u := Update(s, count);
    assert u[0] == s[0] && u[1..] == Update(s[1..], count);
    MatchUpdate(s[1..], count, 0, "");
  }

  ghost predicate Between(x: string, lo: nat, hi: nat) {
    exists n: nat :: lo < n <= hi && x == Padded(n)
  }

  // All ids distinct, and each printed from a number up to the saved count.
  ghost predicate Fresh(labels: multiset<string>, saved: nat) {
    forall x <- labels :: labels[x] == 1 && Between(x, 0, saved)
  }

  lemma {:induction false} IssuedIsFresh(count: nat, n: nat)
    ensures forall x <- Issued(count, n) :: Issued(count, n)[x] == 1 && Between(x, count, count + n)
    decreases n
  {
    if n > 0 {
      IssuedIsFresh(count + 1, n - 1);
      var rest := Issued(count + 1, n - 1);
      forall x | x in Issued(count, n) ensures Issued(count, n)[x] == 1 && Between(x, count, count + n) {
        if x in rest {
          var k: nat :| count + 1 < k <= count + n && x == Padded(k);
          if x == Padded(count + 1) {
            PaddedInjective(k, count + 1);
          }
        } else {
          assert x == Padded(count + 1);
        }
      }
    }
  }

  lemma {:induction false} IssuingKeepsFresh(labels: multiset<string>, count: nat, n: nat)
    requires Fresh(labels, count)
    ensures Fresh(labels + Issued(count, n), count + n)
  {
    var issued := Issued(count, n);
    IssuedIsFresh(count, n);
    forall x | x in labels + issued ensures (labels + issued)[x] == 1 && Between(x, 0, count + n) {
      if x in labels {
        var j: nat :| 0 < j <= count && x == Padded(j);
        if x in issued {
          var k: nat :| count < k <= count + n && x == Padded(k);
          PaddedInjective(j, k);
        }
      } else {
        var k: nat :| count < k <= count + n && x == Padded(k);
      }
    }
  }

  // ---------------------------------------------------------------- reverting leaves no id

  // A kept character does not start a mark that was not there.
  lemma {:induction false} KeptStartsNoMark(s: string, stop: set<char>)
    requires s != "" && !(MARK <= s)
    ensures !(MARK <= [s[0]] + Erase(s[1..], MARK, REQ, stop, false))
  {
    var t := s[1..];
    var o := Erase(t, MARK, REQ, stop, false);
    MarkIs(s);
    MarkIs([s[0]] + o);
    if t != "" && !(MARK <= t) {
      EraseChar(t, MARK, REQ, stop, false);
      assert o[0] == t[0] == s[1];
      var u := t[1..];
      if u != "" && !(MARK <= u) {
        EraseChar(u, MARK, REQ, stop, false);
        assert o[1] == u[0] == s[2];
      }
    }
  }

  lemma {:induction false} RevertLeavesNoLabel(s: string, stop: set<char>, skip: bool)
    ensures Labels(Erase(s, MARK, REQ, stop, skip)) == multiset{}
    decreases |s|
  {
    if s != "" {
      if MARK <= s {
        RevertLeavesNoLabel(s[3..], stop, true);
        LabelsOfReq(Erase(s[3..], MARK, REQ, stop, true));
      } else {
        RevertLeavesNoLabel(s[1..], stop, skip && s[0] !in stop);
        if !skip {
          KeptStartsNoMark(s, stop);
          var o := Erase(s, MARK, REQ, stop, false);
          LabelNeedsMark(o);
          assert o[1..] == Erase(s[1..], MARK, REQ, stop, false);
        }
      }
    }
  }

  // ---------------------------------------------------------------- tidy text

  // How much of '[', '[*', '[ ' or '[* ' the text read so far ends with (1 to 4; 0 for none).
  function Hook(k: nat, c: char): nat {
    if c == '[' then 1
    else if k == 1 && c == '*' then 2
    else if k == 1 && c == ' ' then 3
    else if k == 2 && c == ' ' then 4
    else 0
  }

  // The same without the blank.
  function Hook2(k: nat, c: char): nat {
    if c == '[' then 1 else if k == 1 && c == '*' then 2 else 0
  }

  // Reads a text from hook k; -1 if a mark hangs on a hook, else the hook at its end.
  ghost function Hooks(s: string, k: nat): int
    decreases |s|
  {
    if s == "" then k
    else if MARK <= s then if k == 0 then Hooks(s[3..], 0) else -1
    else Hooks(s[1..], Hook(k, s[0]))
  }

  ghost function Hooks2(s: string, k: nat): int
    decreases |s|
  {
    if s == "" then k
    else if MARK <= s then if k == 0 then Hooks2(s[3..], 0) else -1
    else Hooks2(s[1..], Hook2(k, s[0]))
  }

  // -1 if the text, read from hook k, completes a mark.
  ghost function Scan(s: string, k: nat): int
    decreases |s|
  {
    if s == "" then k
    else if k == 2 && s[0] == 'R' then -1
    else Scan(s[1..], Hook2(k, s[0]))
  }

  // No tag hangs on a bracket.
  ghost predicate Tidy(s: string) {
    Hooks(s, 0) >= 0
  }

  ghost predicate Ends(s: string, x: string) {
    |x| <= |s| && s[|s| - |x|..] == x
  }

  // The text ends with "[" or "[*", or with one of these and a blank.
  ghost predicate Hanging(p: string) {
    Ends(p, "[") || Ends(p, "[*") || Ends(p, "[ ") || Ends(p, "[* ")
  }

  ghost predicate NothingHangs(p: string, s: string) {
    forall i: nat | i <= |s| && MARK <= s[i..] :: !Hanging(p + s[..i])
  }

  // A text is tidy exactly when no "[*R" in it directly follows a "[" or a "[*", with or without
  // a blank in between.
  lemma {:induction false} TidyIff(s: string)
    ensures Tidy(s) <==> NothingHangs("", s)
  {
    HooksFrom("", s);
  }

  ghost function HookAt(p: string): (k: nat)
    ensures k == 0 <==> !Hanging(p)
  {
    if Ends(p, "[") then 1 else if Ends(p, "[*") then 2
    else if Ends(p, "[ ") then 3 else if Ends(p, "[* ") then 4 else 0
  }

  lemma {:induction false} HookAtStep(p: string, c: char)
    ensures HookAt(p + [c]) == Hook(HookAt(p), c)
  {
    hide Ends, Hanging;
    assert "" + ['['] == "[" && "[" + ['*'] == "[*" && "[" + [' '] == "[ " && "[*" + [' '] == "[* ";
    EndsStep(p, c, "", '[');
    EndsStep(p, c, "[", '*');
    EndsStep(p, c, "[", ' ');
    EndsStep(p, c, "[*", ' ');
    EndsNothing(p);
    LastOf(p, "[", "[*");
  }

  lemma {:induction false} EndsNothing(p: string)
    ensures Ends(p, "")
  {
  }

  lemma {:induction false} EndsStep(p: string, c: char, x: string, d: char)
    ensures Ends(p + [c], x + [d]) <==> c == d && Ends(p, x)
  {
    if |x| <= |p| {
      var t := (p + [c])[|p| - |x|..];
      assert t == p[|p| - |x|..] + [c];
      assert t[..|x|] == p[|p| - |x|..] && (x + [d])[..|x|] == x;
      assert t[|x|] == c && (x + [d])[|x|] == d;
    }
  }

  lemma {:induction false} LastOf(p: string, x: string, y: string)
    requires x != "" && y != "" && x[|x| - 1] != y[|y| - 1]
    ensures !(Ends(p, x) && Ends(p, y))
  {
    if Ends(p, x) {
      assert p[|p| - |x|..][|x| - 1] == x[|x| - 1];
    }
    if Ends(p, y) {
      assert p[|p| - |y|..][|y| - 1] == y[|y| - 1];
    }
  }

  lemma {:induction false} HooksFrom(p: string, s: string)
    ensures Hooks(s, HookAt(p)) >= 0 <==> NothingHangs(p, s)
    decreases |s|
  {
    hide HookAt, Hanging;
    if s != "" {
      var n := if MARK <= s then 3 else 1;
      MarkIs(s);
      var q := p + s[..n];
      if MARK <= s {
        assert q == p + ['['] + ['*'] + ['R'];
        HookAtStep(p, '[');
        HookAtStep(p + ['['], '*');
        HookAtStep(p + ['['] + ['*'], 'R');
        MarkIs(s[1..]);
        MarkIs(s[2..]);
      } else {
        assert q == p + [s[0]];
        HookAtStep(p, s[0]);
      }
      HooksFrom(q, s[n..]);
      HangsShift(p, s, n);
    }
  }

  lemma {:induction false} HangsShift(p: string, s: string, n: nat)
    requires 0 < n <= |s| && forall i: nat | 0 < i < n :: !(MARK <= s[i..])
    ensures NothingHangs(p, s) <==> (MARK <= s ==> !Hanging(p)) && NothingHangs(p + s[..n], s[n..])
  {
    hide Hanging;
    assert s[0..] == s && p + s[..0] == p;
    assert forall i: nat | i <= |s[n..]| :: s[n..][i..] == s[n + i..] && p + s[..n] + s[n..][..i] == p + s[..n + i];
    assert forall j: nat | n <= j <= |s| :: s[j..] == s[n..][j - n..];
  }

  lemma {:induction false} HooksOver(x: string, t: string)
    requires '[' !in x
    ensures Hooks(x + t, 0) == Hooks(t, 0)
    decreases |x|
  {
    if x == "" {
      assert x + t == t;
    } else {
      assert x[0] in x && (x + t)[0] == x[0] && (x + t)[1..] == x[1..] + t;
      HooksOver(x[1..], t);
    }
  }

  lemma {:induction false} HooksAtTag(p: Piece, numbered: bool, t: string, k: nat)
    requires p.Required? && forall c <- p.id :: IsDigit(c)
    ensures Hooks(MARK + (Body(p, numbered) + "*]" + t), k) == if k == 0 then Hooks(t, 0) else -1
  {
    var x := Body(p, numbered) + "*]";
    forall c | c in x ensures c != '[' {
      assert IsDigit(c) || c == 'E' || c == 'Q' || c == '*' || c == ']';
    }
    HooksOver(x, t);
    assert (MARK + (x + t))[3..] == x + t;
  }

  lemma {:induction false} NumberingKeepsHooks(ps: seq<Piece>, k: nat)
    requires IdsOk(ps)
    ensures Hooks(Render(ps, true), k) == Hooks(Render(ps, false), k)
    decreases |ps|
  {
    if ps != [] {
      forall n: bool ensures
        Hooks(Render(ps, n), k) ==
        if ps[0].Required? then if k == 0 then Hooks(Render(ps[1..], n), 0) else -1
        else if |ps| >= 3 && ps[..3] == [Plain('['), Plain('*'), Plain('R')] then
          if k == 0 then Hooks(Render(ps[3..], n), 0) else -1
        else Hooks(Render(ps[1..], n), Hook(k, ps[0].c))
      {
        HooksRendered(ps, n, k);
      }
      if ps[0].Required? {
        NumberingKeepsHooks(ps[1..], 0);
      } else if |ps| >= 3 && ps[..3] == [Plain('['), Plain('*'), Plain('R')] {
        NumberingKeepsHooks(ps[3..], 0);
      } else {
        NumberingKeepsHooks(ps[1..], Hook(k, ps[0].c));
      }
    }
  }

  lemma {:induction false} HooksRendered(ps: seq<Piece>, numbered: bool, k: nat)
    requires ps != [] && IdsOk(ps)
    ensures Hooks(Render(ps, numbered), k) ==
            if ps[0].Required? then if k == 0 then Hooks(Render(ps[1..], numbered), 0) else -1
            else if |ps| >= 3 && ps[..3] == [Plain('['), Plain('*'), Plain('R')] then
              if k == 0 then Hooks(Render(ps[3..], numbered), 0) else -1
            else Hooks(Render(ps[1..], numbered), Hook(k, ps[0].c))
  {
    hide Render;
    var r := Render(ps, numbered);
    MarkShows(ps, numbered);
    RenderStep(ps, numbered);
    if ps[0].Required? {
      HooksAtTag(ps[0], numbered, Render(ps[1..], numbered), k);
      assert r == MARK + r[3..];
    }
  }

  lemma {:induction false} UpdateKeepsTidy(s: string, count: nat)
    ensures Tidy(Update(s, count)) <==> Tidy(s)
  {
    ParseRenders(s, count);
    NumberingKeepsHooks(Parse(s, count), 0);
  }

  lemma {:induction false} RevertKeepsTidy(s: string, k: nat, skip: bool)
    requires Hooks(s, k) >= 0
    ensures Hooks(Erase(s, MARK, REQ, {']', '\n'}, skip), if skip then 0 else k) >= 0
    decreases |s|
  {
    var stop: set<char> := {']', '\n'};
    if s != "" {
      if MARK <= s {
        RevertKeepsTidy(s[3..], 0, true);
        var o := Erase(s[3..], MARK, REQ, stop, true);
        HooksAtTag(Required("0"), false, o, 0);
        assert REQ + o == MARK + ("EQ" + "*]" + o);
      } else {
        RevertKeepsTidy(s[1..], Hook(k, s[0]), skip && s[0] !in stop);
        if !skip {
          KeptStartsNoMark(s, stop);
          var o := Erase(s, MARK, REQ, stop, false);
          assert o[1..] == Erase(s[1..], MARK, REQ, stop, false);
        }
      }
    }
  }

  // ---------------------------------------------------------------- removing from tidy text

  function Bare(k: nat): nat {
    if k <= 2 then k else 0
  }

  // In the first pass a kept character does not start a mark that was not there.
  lemma {:induction false} FirstPassStartsNoMark(s: string, k: nat)
    requires s != "" && !(MARK <= s) && Hooks(s, k) >= 0
    ensures !(MARK <= [s[0]] + Erase(s[1..], SPACED_MARK, "", {']'}, false))
  {
    var t := s[1..];
    var o := Erase(t, SPACED_MARK, "", {']'}, false);
    MarkIs(s);
    MarkIs(t);
    MarkIs([s[0]] + o);
    if s[0] == '[' && t != "" {
      if SPACED_MARK <= t {
        HookedBlank(t, 1);
      } else {
        EraseChar(t, SPACED_MARK, "", {']'}, false);
        assert o[0] == t[0] == s[1];
        var u := t[1..];
        if t[0] == '*' && u != "" {
          if SPACED_MARK <= u {
            assert !(MARK <= t);
            HookedBlank(u, 2);
          } else {
            EraseChar(u, SPACED_MARK, "", {']'}, false);
            assert o[1] == u[0] == s[2];
          }
        }
      }
    }
  }

  // A mark after a blank after a hook is not tidy.
  lemma {:induction false} HookedBlank(t: string, k: nat)
    requires 1 <= k <= 2 && SPACED_MARK <= t
    ensures Hooks(t, k) == -1
  {
    MarkIs(t);
  }

  lemma {:induction false} FirstPassTidy(s: string, k: nat, skip: bool)
    requires Hooks(s, k) >= 0 && k <= 4
    ensures var h := Hooks2(Erase(s, SPACED_MARK, "", {']'}, skip), if skip then 0 else Bare(k));
            h >= 0 && (Hooks(s, k) == 0 ==> h == 0)
    decreases |s|
  {
    hide Erase;
    MarkIs(s);
    if s == "" {
      NothingErased(SPACED_MARK, "", {']'}, skip);
    } else if SPACED_MARK <= s {
      assert s[1..][3..] == s[4..];
      if 1 <= k <= 2 {
        HookedBlank(s, k);
      }
      FirstPassTidy(s[4..], 0, true);
      EraseMark(s, SPACED_MARK, "", {']'}, skip);
      var o := Erase(s[4..], SPACED_MARK, "", {']'}, true);
      assert "" + o == o;
    } else if MARK <= s {
      FirstPassTidy(s[3..], 0, skip);
      assert s == MARK + s[3..];
      if skip {
        SkipsOver(MARK, s[3..], SPACED_MARK, "", {']'});
      } else {
        KeepsOver(MARK, s[3..], SPACED_MARK, "", {']'});
        var o := Erase(s[3..], SPACED_MARK, "", {']'}, false);
        assert (MARK + o)[3..] == o;
      }
    } else {
      FirstPassTidy(s[1..], Hook(k, s[0]), skip && s[0] != ']');
      EraseChar(s, SPACED_MARK, "", {']'}, skip);
      if !skip {
        FirstPassStartsNoMark(s, k);
        var o := Erase(s, SPACED_MARK, "", {']'}, false);
        assert o[1..] == Erase(s[1..], SPACED_MARK, "", {']'}, false);
      }
    }
  }

  ghost function Pending(k: nat): string {
    if k == 1 then "[" else if k == 2 then "[*" else ""
  }

  lemma {:induction false} SecondPassClean(s: string, k: nat, skip: bool)
    requires Hooks2(s, k) >= 0 && k <= 2
    requires skip || k == 0 || !(MARK <= Pending(k) + s)
    ensures var h := Scan(Erase(s, MARK, "", {']'}, skip), if skip then 0 else k);
            h >= 0 && (Hooks2(s, k) == 0 ==> h == 0)
    decreases |s|
  {
    hide Erase;
    MarkIs(s);
    if s == "" {
      NothingErased(MARK, "", {']'}, skip);
    } else if MARK <= s {
      SecondPassClean(s[3..], 0, true);
      EraseMark(s, MARK, "", {']'}, skip);
      var o := Erase(s[3..], MARK, "", {']'}, true);
      assert "" + o == o;
    } else {
      var j := Hook2(k, s[0]);
      EraseChar(s, MARK, "", {']'}, skip);
      if skip {
        SecondPassClean(s[1..], j, s[0] != ']');
      } else {
        MarkIs(Pending(k) + s);
        MarkIs(Pending(j) + s[1..]);
        SecondPassClean(s[1..], j, false);
        var o := Erase(s, MARK, "", {']'}, false);
        assert o[1..] == Erase(s[1..], MARK, "", {']'}, false) && o[0] == s[0];
      }
    }
  }

  lemma {:induction false} RemoveClean(line: string)
    requires Tidy(line)
    ensures Scan(Remove(line), 0) >= 0
    ensures Hooks(line, 0) == 0 ==> Scan(Remove(line), 0) == 0
  {
    FirstPassTidy(line, 0, false);
    SecondPassClean(Erase(line, SPACED_MARK, "", {']'}, false), 0, false);
  }

  lemma {:induction false} ScanConcat(a: string, b: string, k: nat)
    requires Scan(a, k) >= 0
    ensures Scan(a + b, k) == Scan(b, Scan(a, k))
    decreases |a|
  {
    if a == "" {
      assert a + b == b;
    } else {
      assert (a + b)[0] == a[0] && (a + b)[1..] == a[1..] + b;
      ScanConcat(a[1..], b, Hook2(k, a[0]));
    }
  }

  lemma {:induction false} HooksByLine(line: string, rest: string, k: nat)
    requires FullLine(line) && Hooks(line + rest, k) >= 0
    ensures Hooks(line, k) == 0 && Hooks(rest, 0) >= 0
    decreases |line|
  {
    var s := line + rest;
    PrefixInLine(MARK, line, rest);
    if MARK <= line {
      MarksInLine(line, MARK);
      assert s[3..] == line[3..] + rest;
      HooksByLine(line[3..], rest, 0);
    } else {
      assert s[1..] == line[1..] + rest && s[0] == line[0];
      if |line| > 1 {
        HooksByLine(line[1..], rest, Hook(k, line[0]));
      }
    }
  }

  lemma {:induction false} RemoveTextClean(text: string)
    requires Tidy(text)
    ensures Scan(RemoveText(text), 0) >= 0
    decreases |text|
  {
    hide Remove;
    var lines := ReadLines(text);
    LinesConcat(text);
    LinesAreLines(text);
    if |lines| == 1 {
      assert Concat(lines) == lines[0];
      RemoveClean(text);
      assert lines[1..] == [] && RemoveLines([]) == "";
      assert RemoveText(text) == Remove(text) + "" == Remove(text);
    } else if |lines| > 1 {
      var line, rest := lines[0], Concat(lines[1..]);
      HooksByLine(line, rest, 0);
      RemoveClean(line);
      ReadFullLine(line, rest);
      RemoveTextClean(rest);
      ScanConcat(Remove(line), RemoveText(rest), 0);
    }
  }

  // Text that completes no mark holds no tag at all.
  lemma {:induction false} CleanText(s: string, k: nat, j: nat)
    requires Scan(s, k) >= 0
    ensures Labels(s) == multiset{} && Hooks(s, j) >= 0
    decreases |s|
  {
    if s != "" {
      MarkIs(s);
      LabelNeedsMark(s);
      if s[0] == '[' && |s| >= 3 && s[1] == '*' {
        assert s[1..][0] == '*' && s[1..][1..][0] == s[2];
      }
      CleanText(s[1..], Hook2(k, s[0]), Hook(j, s[0]));
    }
  }
}
