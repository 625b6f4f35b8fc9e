/**
 What a run of the update script does to each file and to the count, and how wide an id is.
 */
module TagNumbering {
  import opened Tags
  import opened TagLaws
  import opened TagFiles
  import opened TagHistory
  import opened TagScripts

  // ---------------------------------------------------------------- one text

  // Text without a bracket that stands at the start of a numbered text stood there before.
  lemma {:induction false} PrefixKept(x: string, t: string, count: nat)
    requires '[' !in x && x <= Update(t, count)
    ensures x <= t
    decreases |x|
  {
    if x != "" {
      assert x[0] in x;
      if t == "" || !(REQ <= t) {
        var u := Update(t[1..], count);
        assert Update(t, count) == [t[0]] + u;
        assert x[1..] <= u by {
          assert Update(t, count)[..|x|] == x && u[..|x| - 1] == Update(t, count)[1..|x|];
        }
        PrefixKept(x[1..], t[1..], count);
        assert x == [x[0]] + x[1..];
      }
    }
  }

  lemma {:induction false} PlainReqs(x: string, t: string)
    requires '[' !in x
    ensures Reqs(x + t) == Reqs(t)
    decreases |x|
  {
    if x == "" {
      assert x + t == t;
    } else {
      assert (x + t)[0] == x[0] && x[0] in x;
      assert (x + t)[1..] == x[1..] + t;
      PlainReqs(x[1..], t);
    }
  }

  lemma {:induction false} ReqsOverTag(n: nat, t: string)
    ensures Reqs(Tag(n) + t) == Reqs(t)
  {
    var x := "*R" + Padded(n) + "*]";
    var s := Tag(n) + t;
    assert s == "[" + (x + t) && s[1..] == x + t;
    assert s[3] == Padded(n)[0] && Padded(n)[0] in Padded(n);
    assert !(REQ <= s);
    forall c | c in x ensures c != '[' {
      assert c in Padded(n) || c == '*' || c == 'R' || c == ']';
    }
    PlainReqs(x, t);
  }

  // No [*REQ*] is left after numbering.
  lemma {:induction false} UpdateLeavesNoReq(s: string, count: nat)
    ensures Reqs(Update(s, count)) == 0
    decreases |s|
  {
    hide Tag;
    if s != "" {
      if REQ <= s {
        UpdateLeavesNoReq(s[7..], count + 1);
        ReqsOverTag(count + 1, Update(s[7..], count + 1));
      } else {
        var u := Update(s[1..], count);
        UpdateLeavesNoReq(s[1..], count);
        if REQ <= [s[0]] + u {
          assert "*REQ*]" <= u by {
            assert REQ == "[" + "*REQ*]" && ([s[0]] + u)[1..] == u;
            assert ([s[0]] + u)[..7] == REQ && u[..6] == REQ[1..];
          }
          PrefixKept("*REQ*]", s[1..], count);
        }
        assert ([s[0]] + u)[1..] == u;
      }
    }
  }

  // Without [*REQ*] there is nothing to number.
  lemma {:induction false} UpdateKeepsNumbered(s: string, count: nat)
    requires Reqs(s) == 0
    ensures Update(s, count) == s
    decreases |s|
  {
    if s != "" {
      UpdateKeepsNumbered(s[1..], count);
    }
  }

  // ---------------------------------------------------------------- a run

  // The [*REQ*] tags of the distinct files that `list` names.
  ghost function Counted(files: seq<string>, list: seq<nat>): nat
    requires Named(list, |files|)
  {
    if list == [] then 0
    else
      var n := |list| - 1;
      Counted(files, list[..n]) + if list[n] in list[..n] then 0 else Reqs(files[list[n]])
  }

  // The same for the part of `list` before it first names file i.
  ghost function CountedBefore(files: seq<string>, list: seq<nat>, i: nat): nat
    requires Named(list, |files|) && i in list
  {
    var init := list[..|list| - 1];
    if i in init then CountedBefore(files, init, i) else Counted(files, init)
  }

  lemma {:induction false} CountedBeforeFirst(files: seq<string>, list: seq<nat>, k: nat)
    requires Named(list, |files|) && k < |list| && list[k] !in list[..k]
    ensures CountedBefore(files, list, list[k]) == Counted(files, list[..k])
    decreases |list|
  {
    var n := |list| - 1;
    if k < n {
      assert list[..n][..k] == list[..k] && list[..n][k] == list[k];
      CountedBeforeFirst(files, list[..n], k);
    }
  }

  // An update numbers every named file, with the count that the files named before it leave, so
  // that no [*REQ*] stays, and leaves the other files alone; the count grows by the tags of all the
  // named files.
  lemma {:induction false} EveryNamedFileIsNumbered(files: seq<string>, list: seq<nat>, count: nat, i: nat)
    requires Named(list, |files|)
    ensures var r := Numbered(files, list, count);
            && r.1 == count + Counted(files, list)
            && (i < |files| && i !in list ==> r.0[i] == files[i])
            && (i in list ==>
                  && r.0[i] == Update(files[i], count + CountedBefore(files, list, i))
                  && Reqs(r.0[i]) == 0)
    decreases |list|
  {
    hide Update, Reqs;
    if list != [] {
      var n := |list| - 1;
      var j := list[n];
      assert list == list[..n] + [j];
      EveryNamedFileIsNumbered(files, list[..n], count, i);
      EveryNamedFileIsNumbered(files, list[..n], count, j);
      var (fs, c) := Numbered(files, list[..n], count);
      UpdateLeavesNoReq(fs[j], c);
      if j in list[..n] {
        UpdateKeepsNumbered(fs[j], c);
      }
    }
  }

  // For the script: every named file is numbered, the others are as they were, and the saved count
  // has grown by the number of tags.
  lemma {:induction false} UpdateRun(d: DiskState, list: seq<nat>, restart: bool)
    requires Named(list, |d.files|)
    ensures var e := Next(d, UpdateOp(list, restart));
            && |e.files| == |d.files|
            && e.saved == (if restart then 0 else d.saved) + Counted(d.files, list)
            && (forall i: nat | i < |d.files| :: if i in list then Reqs(e.files[i]) == 0 else e.files[i] == d.files[i])
  {
    var start := if restart then 0 else d.saved;
    EveryNamedFileIsNumbered(d.files, list, start, 0);
    forall i: nat | i < |d.files|
      ensures i in list ==> Reqs(Numbered(d.files, list, start).0[i]) == 0
      ensures i !in list ==> Numbered(d.files, list, start).0[i] == d.files[i]
    {
      EveryNamedFileIsNumbered(d.files, list, start, i);
    }
  }

  // ---------------------------------------------------------------- reverting

  // Reverting a second time changes nothing.
  lemma {:induction false} ReversionStays(s: string, skip: bool)
    ensures RevertText(Erase(s, MARK, REQ, {']', '\n'}, skip)) == Erase(s, MARK, REQ, {']', '\n'}, skip)
    decreases |s|
  {
    hide Erase;
    var stop: set<char> := {']', '\n'};
    if s == "" {
      NothingErased(MARK, REQ, stop, skip);
      NothingErased(MARK, REQ, stop, false);
    } else if MARK <= s {
      EraseMark(s, MARK, REQ, stop, skip);
      ReversionStays(s[3..], true);
      RevertTextOfTag(Erase(s[3..], MARK, REQ, stop, true));
    } else {
      EraseChar(s, MARK, REQ, stop, skip);
      if skip {
        ReversionStays(s[1..], s[0] !in stop);
      } else {
        ReversionStays(s[1..], false);
        var o := Erase(s[1..], MARK, REQ, stop, false);
        KeptStartsNoMark(s, stop);
        EraseChar([s[0]] + o, MARK, REQ, stop, false);
        assert ([s[0]] + o)[1..] == o;
      }
    }
  }

  lemma {:induction false} RevertTextOfTag(o: string)
    ensures RevertText(REQ + o) == REQ + RevertText(o)
  {
    hide Erase;
    var stop: set<char> := {']', '\n'};
    var s := REQ + o;
    assert MARK <= s;
    EraseMark(s, MARK, REQ, stop, false);
    assert s[3..] == "EQ*" + ("]" + o);
    SkipsOver("EQ*", "]" + o, MARK, REQ, stop);
    assert ("]" + o)[0] == ']' && !(MARK <= "]" + o) && ("]" + o)[1..] == o;
    EraseChar("]" + o, MARK, REQ, stop, true);
  }

  // Reverting named files reverts each of them, however often it is named, and no other.
  lemma {:induction false} EveryNamedFileIsReverted(files: seq<string>, list: seq<nat>)
    requires Named(list, |files|)
    ensures forall i: nat | i < |files| ::
              Reverted(files, list)[i] == if i in list then RevertText(files[i]) else files[i]
    decreases |list|
  {
    hide RevertText;
    if list != [] {
      var n := |list| - 1;
      EveryNamedFileIsReverted(files, list[..n]);
      assert list == list[..n] + [list[n]];
      ReversionStaysText(files[list[n]]);
    }
  }

  lemma {:induction false} ReversionStaysText(f: string)
    ensures RevertText(RevertText(f)) == RevertText(f)
  {
    hide Erase;
    ReversionStays(f, false);
  }

  // A file is reverted line by line.
  lemma {:induction false} RevertsByLine(lines: seq<string>)
    requires LinesOk(lines)
    ensures RevertText(Concat(lines)) == Concat(RevertedLines(lines))
    decreases |lines|
  {
    hide Erase, RevertText;
    if lines == [] {
      NoText();
    } else {
      assert LinesOk(lines[1..]);
      RevertsByLine(lines[1..]);
      assert RevertedLines(lines)[1..] == RevertedLines(lines[1..]);
      if |lines| > 1 {
        FirstLine(lines[0], Concat(lines[1..]));
      } else {
        LastLine(lines[0]);
        assert Concat(lines) == lines[0] + "" == lines[0];
        assert Concat(RevertedLines(lines)) == Revert(lines[0]) + "";
      }
    }
  }

  ghost function RevertedLines(lines: seq<string>): (r: seq<string>)
    ensures |r| == |lines| && forall k: nat | k < |lines| :: r[k] == Revert(lines[k])
  {
    seq(|lines|, k requires 0 <= k < |lines| => Revert(lines[k]))
  }

  lemma {:induction false} NoText()
    ensures RevertText("") == ""
  {
  }

  lemma {:induction false} FirstLine(line: string, rest: string)
    requires FullLine(line)
    ensures RevertText(line + rest) == Revert(line) + RevertText(rest)
  {
    hide Erase;
    EraseByLine(line, rest, MARK, REQ, false);
  }

  lemma {:induction false} LastLine(line: string)
    requires NoInnerNewline(line)
    ensures RevertText(line) == Revert(line)
  {
    hide Erase;
    EraseLastLine(line, MARK, REQ, false);
  }

  // ---------------------------------------------------------------- the width of an id

  ghost function Pow10(k: nat): nat {
    if k == 0 then 1 else 10 * Pow10(k - 1)
  }

  lemma {:induction false} DecimalWidth(n: nat, k: nat)
    requires k > 0
    ensures |Decimal(n)| <= k <==> n < Pow10(k)
  {
    if n >= 10 {
      if k > 1 {
        DecimalWidth(n / 10, k - 1);
      }
    } else if k > 1 {
      DecimalWidth(n, k - 1);
    }
  }

  // Ids have five digits up to 99999, and as many as the number has from then on.
  lemma {:induction false} PaddedWidth(n: nat)
    ensures n <= 99999 ==> |Padded(n)| == 5
    ensures n > 99999 ==> Padded(n) == Decimal(n) && |Padded(n)| > 5
  {
    hide Decimal;
    DecimalWidth(n, 5);
    assert Pow10(5) == 10 * (10 * (10 * (10 * (10 * Pow10(0)))));
  }
}
