/**
 The laws of the tag scripts on arbitrary strings: numbering the tags changes neither what revert
 nor what remove makes of a text, and reverting undoes numbering exactly when every "[*R" of the
 text begins a [*REQ*].
 */
module TagLaws {
  import opened Tags

  // A text cut at its [*REQ*] tags, each with the id that update gives it.
  datatype Piece = Plain(c: char) | Required(id: string)

  ghost function Body(p: Piece, numbered: bool): string
    requires p.Required?
  {
    if numbered then p.id else "EQ"
  }

  // The text before (or after) numbering.
  ghost function Render(ps: seq<Piece>, numbered: bool): string {
    if ps == [] then ""
    else (match ps[0]
          case Plain(c) => [c]
          case Required(_) => MARK + Body(ps[0], numbered) + "*]") + Render(ps[1..], numbered)
  }

  ghost predicate IdsOk(ps: seq<Piece>) {
    forall p <- ps :: p.Required? ==> forall c <- p.id :: IsDigit(c)
  }

  ghost function Parse(s: string, count: nat): seq<Piece>
    decreases |s|
  {
    if s == "" then []
    else if REQ <= s then [Required(Padded(count + 1))] + Parse(s[|REQ|..], count + 1)
    else [Plain(s[0])] + Parse(s[1..], count)
  }

  lemma {:induction false} ParseRenders(s: string, count: nat)
    ensures IdsOk(Parse(s, count))
    ensures Render(Parse(s, count), false) == s
    ensures Render(Parse(s, count), true) == Update(s, count)
    decreases |s|
  {
    if s != "" {
      if REQ <= s {
        ParseRenders(s[|REQ|..], count + 1);
        assert s == REQ + s[|REQ|..];
        assert MARK + "EQ" + "*]" == REQ;
      } else {
        ParseRenders(s[1..], count);
        assert s == [s[0]] + s[1..];
      }
    }
  }

  // Skipping passes over text that holds neither a stop character nor the start of a separator.
  lemma {:induction false} SkipsOver(x: string, t: string, sep: string, mark: string, stop: set<char>)
    requires sep != "" && forall c <- x :: c != sep[0] && c !in stop
    ensures Erase(x + t, sep, mark, stop, true) == Erase(t, sep, mark, stop, true)
    decreases |x|
  {
    if x == "" {
      assert x + t == t;
    } else {
      var y := x[1..];
      assert x[0] in x;
      assert (x + t)[1..] == y + t && (x + t)[0] == x[0];
      assert !(sep <= x + t);
      forall c | c in y ensures c in x {
      }
      SkipsOver(x[1..], t, sep, mark, stop);
    }
  }

  // A tag ends the skipping.
  lemma {:induction false} SkipsTagEnd(p: Piece, numbered: bool, t: string, sep: string, mark: string, stop: set<char>)
    requires p.Required? && (forall c <- p.id :: IsDigit(c))
    requires sep != "" && (sep[0] == '[' || sep[0] == ' ')
    requires ']' in stop && stop <= {']', '\n'}
    ensures Erase(Body(p, numbered) + "*]" + t, sep, mark, stop, true) == Erase(t, sep, mark, stop, false)
  {
    var x := Body(p, numbered) + "*";
    forall c | c in x ensures c != sep[0] && c !in stop {
      assert IsDigit(c) || c == 'E' || c == 'Q' || c == '*';
    }
    assert Body(p, numbered) + "*]" + t == x + ("]" + t);
    SkipsOver(x, "]" + t, sep, mark, stop);
    assert ("]" + t)[1..] == t;
  }

  lemma {:induction false} MarkIs(s: string)
    ensures MARK <= s <==> |s| >= 3 && s[0] == '[' && s[1] == '*' && s[2] == 'R'
    ensures SPACED_MARK <= s <==> s != "" && s[0] == ' ' && MARK <= s[1..]
  {
  }

  lemma {:induction false} RenderStep(ps: seq<Piece>, numbered: bool)
    requires ps != []
    ensures var r := Render(ps, numbered);
            if ps[0].Plain? then r != "" && r[0] == ps[0].c && r[1..] == Render(ps[1..], numbered)
            else MARK <= r && r[3..] == Body(ps[0], numbered) + "*]" + Render(ps[1..], numbered)
  {
  }

  // A mark shows in the text exactly when it shows in the numbered text, and unless it is a tag
  // it is spelled out in both.
  lemma {:induction false} MarkShows(ps: seq<Piece>, numbered: bool)
    ensures MARK <= Render(ps, numbered) <==>
            ps != [] && (ps[0].Required? || (|ps| >= 3 && ps[..3] == [Plain('['), Plain('*'), Plain('R')]))
    ensures MARK <= Render(ps, numbered) && ps[0].Plain? ==> Render(ps, numbered)[3..] == Render(ps[3..], numbered)
  {
    hide Render;
    MarkIs(Render(ps, numbered));
    if ps == [] {
      NothingRenders(numbered);
    } else {
      RenderStep(ps, numbered);
      if ps[0].Plain? {
        MarkShowsPlain(ps, numbered);
      }
    }
  }

  lemma {:induction false} NothingRenders(numbered: bool)
    ensures Render([], numbered) == ""
  {
  }

  lemma {:induction false} MarkShowsPlain(ps: seq<Piece>, numbered: bool)
    requires ps != [] && ps[0].Plain?
    ensures MARK <= Render(ps, numbered) <==> |ps| >= 3 && ps[..3] == [Plain('['), Plain('*'), Plain('R')]
    ensures MARK <= Render(ps, numbered) ==> Render(ps, numbered)[3..] == Render(ps[3..], numbered)
  {
    hide Render;
    var r := Render(ps, numbered);
    MarkIs(r);
    RenderStep(ps, numbered);
    NothingRenders(numbered);
    var qs := ps[1..];
    if qs != [] {
      RenderStep(qs, numbered);
      assert r[1..][1..] == r[2..];
      if qs[0].Plain? {
        var os := qs[1..];
        if os != [] {
          RenderStep(os, numbered);
          assert r[2..][1..] == r[3..];
          assert os[1..] == ps[3..];
          assert ps[..3] == [ps[0], qs[0], os[0]];
        }
      }
    }
  }

  // ---------------------------------------------------------------- erasing rendered text

  ghost predicate Stops(stop: set<char>) {
    ']' in stop && stop <= {']', '\n'}
  }

  lemma {:induction false} EraseMark(s: string, sep: string, mark: string, stop: set<char>, skip: bool)
    requires sep != "" && sep <= s
    ensures Erase(s, sep, mark, stop, skip) == mark + Erase(s[|sep|..], sep, mark, stop, true)
  {
  }

  // One step of erasing marks in a rendered text.
  lemma {:induction false} EraseRendered(ps: seq<Piece>, numbered: bool, mark: string, stop: set<char>, skip: bool)
    requires ps != [] && IdsOk(ps) && Stops(stop)
    ensures Erase(Render(ps, numbered), MARK, mark, stop, skip) ==
            if ps[0].Required? then mark + Erase(Render(ps[1..], numbered), MARK, mark, stop, false)
            else if |ps| >= 3 && ps[..3] == [Plain('['), Plain('*'), Plain('R')] then
              mark + Erase(Render(ps[3..], numbered), MARK, mark, stop, true)
            else if skip then Erase(Render(ps[1..], numbered), MARK, mark, stop, ps[0].c !in stop)
            else [ps[0].c] + Erase(Render(ps[1..], numbered), MARK, mark, stop, false)
  {
    hide Render, Erase;
    var r := Render(ps, numbered);
    MarkShows(ps, numbered);
    RenderStep(ps, numbered);
    if MARK <= r {
      EraseMark(r, MARK, mark, stop, skip);
      if ps[0].Required? {
        SkipsTagEnd(ps[0], numbered, Render(ps[1..], numbered), MARK, mark, stop);
      }
    } else {
      EraseChar(r, MARK, mark, stop, skip);
    }
  }

  // Erasing marks makes the same of a text before and after numbering.
  lemma {:induction false} EraseIgnoresNumbers(ps: seq<Piece>, mark: string, stop: set<char>, skip: bool)
    requires IdsOk(ps) && Stops(stop)
    ensures Erase(Render(ps, true), MARK, mark, stop, skip) == Erase(Render(ps, false), MARK, mark, stop, skip)
    decreases |ps|
  {
    if ps != [] {
      EraseRendered(ps, true, mark, stop, skip);
      EraseRendered(ps, false, mark, stop, skip);
      if ps[0].Required? {
        EraseIgnoresNumbers(ps[1..], mark, stop, false);
      } else if |ps| >= 3 && ps[..3] == [Plain('['), Plain('*'), Plain('R')] {
        EraseIgnoresNumbers(ps[3..], mark, stop, true);
      } else {
        EraseIgnoresNumbers(ps[1..], mark, stop, skip && ps[0].c !in stop);
      }
    }
  }

  // revert undoes numbering as far as it makes the same text of both.
  lemma {:induction false} RevertIgnoresUpdate(s: string, count: nat)
    ensures Revert(Update(s, count)) == Revert(s)
  {
    ParseRenders(s, count);
    EraseIgnoresNumbers(Parse(s, count), REQ, {']'}, false);
  }

  // ---------------------------------------------------------------- the first pass of remove

  lemma {:induction false} KeepsOver(x: string, t: string, sep: string, mark: string, stop: set<char>)
    requires sep != "" && forall c <- x :: c != sep[0]
    ensures Erase(x + t, sep, mark, stop, false) == x + Erase(t, sep, mark, stop, false)
    decreases |x|
  {
    if x == "" {
      assert x + t == t;
    } else {
      var y := x[1..];
      assert x[0] in x && x == [x[0]] + y;
      assert (x + t)[1..] == y + t && (x + t)[0] == x[0];
      assert !(sep <= x + t);
      forall c | c in y ensures c in x {
      }
      KeepsOver(y, t, sep, mark, stop);
    }
  }

  ghost predicate SpacedTag(ps: seq<Piece>) {
    |ps| >= 2 && ps[0] == Plain(' ') && ps[1].Required?
  }

  ghost predicate SpacedMark(ps: seq<Piece>) {
    |ps| >= 4 && ps[..4] == [Plain(' '), Plain('['), Plain('*'), Plain('R')]
  }

  // What the first pass of remove leaves, piece by piece.
  ghost function FirstPass(ps: seq<Piece>, skip: bool): seq<Piece>
    decreases |ps|
  {
    if ps == [] then []
    else if SpacedTag(ps) then FirstPass(ps[2..], false)
    else if SpacedMark(ps) then FirstPass(ps[4..], true)
    else if skip then FirstPass(ps[1..], ps[0].Plain? && ps[0].c != ']')
    else [ps[0]] + FirstPass(ps[1..], false)
  }

  lemma {:induction false} FirstPassIds(ps: seq<Piece>, skip: bool)
    requires IdsOk(ps)
    ensures IdsOk(FirstPass(ps, skip))
    decreases |ps|
  {
    if ps != [] {
      if SpacedTag(ps) {
        FirstPassIds(ps[2..], false);
      } else if SpacedMark(ps) {
        FirstPassIds(ps[4..], true);
      } else {
        FirstPassIds(ps[1..], skip && ps[0].Plain? && ps[0].c != ']');
      }
    }
  }

  lemma {:induction false} SpacedMarkShows(ps: seq<Piece>, numbered: bool)
    requires ps != []
    ensures SPACED_MARK <= Render(ps, numbered) <==> SpacedTag(ps) || SpacedMark(ps)
    ensures SpacedTag(ps) ==> Render(ps, numbered)[4..] == Body(ps[1], numbered) + "*]" + Render(ps[2..], numbered)
    ensures SpacedMark(ps) ==> Render(ps, numbered)[4..] == Render(ps[4..], numbered)
  {
    hide Render;
    var r := Render(ps, numbered);
    MarkIs(r);
    RenderStep(ps, numbered);
    if ps[0].Plain? {
      var qs := ps[1..];
      MarkShows(qs, numbered);
      assert ps[0] == Plain(' ') ==>
             (SpacedMark(ps) <==> |qs| >= 3 && qs[..3] == ps[1..4] == [Plain('['), Plain('*'), Plain('R')]);
      assert |r| >= 4 ==> r[1..][3..] == r[4..];
      if qs != [] {
        RenderStep(qs, numbered);
        assert qs[1..] == ps[2..];
        assert |qs| >= 3 ==> qs[3..] == ps[4..];
      }
    }
  }

  lemma {:induction false} TagText(p: Piece, numbered: bool) returns (x: string)
    requires p.Required? && forall c <- p.id :: IsDigit(c)
    ensures x == MARK + Body(p, numbered) + "*"
    ensures forall c <- x :: c != ' ' && c != ']' && c != '\n'
  {
    x := MARK + Body(p, numbered) + "*";
    forall c | c in x ensures c != ' ' && c != ']' && c != '\n' {
      assert IsDigit(c) || c == 'E' || c == 'Q' || c == '*' || c == '[' || c == 'R';
    }
  }

  // The first pass keeps text without blanks, or skips to its end.
  lemma {:induction false} FirstPassOver(x: string, t: string, skip: bool)
    requires forall c <- x :: c != ' ' && c != ']'
    ensures Erase(x + "]" + t, SPACED_MARK, "", {']'}, skip) ==
            (if skip then "" else x + "]") + Erase(t, SPACED_MARK, "", {']'}, false)
  {
    hide Erase;
    var r := "]" + t;
    assert x + "]" + t == x + r;
    assert r[0] == ']' && !(SPACED_MARK <= r) && r[1..] == t;
    EraseChar(r, SPACED_MARK, "", {']'}, true);
    if skip {
      SkipsOver(x, r, SPACED_MARK, "", {']'});
    } else {
      KeepsOver(x + "]", t, SPACED_MARK, "", {']'});
    }
  }

  lemma {:induction false} FirstPassTag(ps: seq<Piece>, numbered: bool, skip: bool)
    requires ps != [] && IdsOk(ps) && ps[0].Required?
    ensures Erase(Render(ps, numbered), SPACED_MARK, "", {']'}, skip) ==
            (if skip then "" else MARK + Body(ps[0], numbered) + "*]") +
            Erase(Render(ps[1..], numbered), SPACED_MARK, "", {']'}, false)
  {
    hide Erase;
    var x := TagText(ps[0], numbered);
    assert x + "]" == MARK + Body(ps[0], numbered) + "*]";
    FirstPassOver(x, Render(ps[1..], numbered), skip);
  }

  lemma {:induction false} FirstPassIsErase(ps: seq<Piece>, numbered: bool, skip: bool)
    requires IdsOk(ps)
    ensures Erase(Render(ps, numbered), SPACED_MARK, "", {']'}, skip) == Render(FirstPass(ps, skip), numbered)
    decreases |ps|
  {
    hide Erase;
    var r := Render(ps, numbered);
    if ps == [] {
      NothingErased(SPACED_MARK, "", {']'}, skip);
    } else {
      SpacedMarkShows(ps, numbered);
      RenderStep(ps, numbered);
      if SpacedTag(ps) {
        EraseMark(r, SPACED_MARK, "", {']'}, skip);
        SkipsTagEnd(ps[1], numbered, Render(ps[2..], numbered), SPACED_MARK, "", {']'});
        FirstPassIsErase(ps[2..], numbered, false);
      } else if SpacedMark(ps) {
        EraseMark(r, SPACED_MARK, "", {']'}, skip);
        FirstPassIsErase(ps[4..], numbered, true);
      } else {
        FirstPassIsErase(ps[1..], numbered, skip && ps[0].Plain? && ps[0].c != ']');
        if ps[0].Required? {
          FirstPassTag(ps, numbered, skip);
        } else {
          EraseChar(r, SPACED_MARK, "", {']'}, skip);
        }
        if !skip {
          assert FirstPass(ps, false) == [ps[0]] + FirstPass(ps[1..], false);
          assert FirstPass(ps, false)[1..] == FirstPass(ps[1..], false);
        }
      }
    }
  }

  lemma {:induction false} NothingErased(sep: string, mark: string, stop: set<char>, skip: bool)
    requires sep != ""
    ensures Erase("", sep, mark, stop, skip) == ""
  {
  }

  // remove makes the same text of a line before and after numbering.
  lemma {:induction false} RemoveIgnoresUpdate(s: string, count: nat)
    ensures Remove(Update(s, count)) == Remove(s)
  {
    hide Erase, Render;
    var ps := Parse(s, count);
    ParseRenders(s, count);
    FirstPassIsErase(ps, true, false);
    FirstPassIsErase(ps, false, false);
    FirstPassIds(ps, false);
    EraseIgnoresNumbers(FirstPass(ps, false), "", {']'}, false);
  }

  // ---------------------------------------------------------------- the round trip

  // Every "[*R" begins a [*REQ*].
  ghost predicate OnlyReqs(s: string) {
    forall i: nat | i <= |s| :: MARK <= s[i..] ==> REQ <= s[i..]
  }

  lemma {:induction false} OnlyReqsTail(s: string, k: nat)
    requires k <= |s| && forall i: nat | i < k :: MARK <= s[i..] ==> REQ <= s[i..]
    ensures OnlyReqs(s) <==> OnlyReqs(s[k..])
  {
    forall i: nat | i <= |s[k..]| ensures s[k..][i..] == s[k + i..] {
    }
    if OnlyReqs(s[k..]) {
      forall i: nat | i <= |s| && MARK <= s[i..] ensures REQ <= s[i..] {
        if i >= k {
          assert s[i..] == s[k..][i - k..];
        }
      }
    }
  }

  lemma {:induction false} ReqReverted(s: string)
    requires REQ <= s
    ensures Revert(s) == REQ + Revert(s[7..])
  {
    assert s == MARK + "EQ*" + "]" + s[7..];
    assert s[3..] == "EQ*" + ("]" + s[7..]);
    SkipsOver("EQ*", "]" + s[7..], MARK, REQ, {']'});
    assert ("]" + s[7..])[1..] == s[7..];
  }

  lemma {:induction false} NoMarkInside(s: string)
    requires REQ <= s
    ensures forall i: nat | 0 < i < 7 :: !(MARK <= s[i..])
  {
    forall i: nat | 0 < i < 7 ensures !(MARK <= s[i..]) {
      assert s[i..][0] == s[i] == REQ[i];
    }
  }

  lemma {:induction false} RevertFixesIff(s: string)
    ensures Revert(s) == s <==> OnlyReqs(s)
    decreases |s|
  {
    if s == "" {
    } else if REQ <= s {
      ReqReverted(s);
      NoMarkInside(s);
      OnlyReqsTail(s, 7);
      RevertFixesIff(s[7..]);
      assert s == REQ + s[7..];
    } else if MARK <= s {
      assert s[0..] == s && !OnlyReqs(s);
      assert REQ <= Revert(s);
    } else {
      OnlyReqsTail(s, 1);
      RevertFixesIff(s[1..]);
      assert s == [s[0]] + s[1..];
    }
  }

  // Reverting undoes numbering exactly when every "[*R" of the text begins a [*REQ*].
  lemma {:induction false} RoundTripIff(s: string, count: nat)
    ensures Revert(Update(s, count)) == s <==> OnlyReqs(s)
  {
    RevertIgnoresUpdate(s, count);
    RevertFixesIff(s);
  }

  // A bare mark is not undone: numbering leaves it alone, and reverting makes a tag of it.
  lemma {:induction false} BareMarkIsNotUndone(count: nat)
    ensures Update(MARK, count) == MARK && Revert(Update(MARK, count)) == REQ != MARK
  {
    hide Erase;
    assert MARK[1..] == "*R" && MARK[1..][1..] == "R" && MARK[1..][1..][1..] == "";
    assert Update(MARK, count) == MARK;
    EraseMark(MARK, MARK, REQ, {']'}, false);
    assert MARK[3..] == "";
    NothingErased(MARK, REQ, {']'}, true);
    assert REQ + "" == REQ;
  }
}
