/**
 Which lines become platforms: the newline goes, what follows a NUL does not count, and a line needs
 more than four characters.
 */
module PlatformLaws {
  import opened Values
  import opened Platforms

  // A text as a line without its newline.
  ghost predicate Bare(s: string) {
    '\0' !in s && (s == "" || s[|s| - 1] != '\n')
  }

  // The newline that ends a text is not part of the line.
  lemma {:induction false} NewlineGoes(s: string)
    requires '\0' !in s
    ensures LineIn(s + "\n") == s
  {
    CutWhole(s + "\n");
    assert (s + "\n")[..|s|] == s;
  }

  // A text without one is the line as it is.
  lemma {:induction false} BareIsLine(s: string)
    requires Bare(s)
    ensures LineIn(s) == s
  {
    CutWhole(s);
  }

  lemma {:induction false} CutWhole(s: string)
    requires '\0' !in s
    ensures Cut(s) == s
  {
    var c := Cut(s);
    assert s[..|s|] == s;
    assert forall k | 0 <= k < |s| :: s[k] in s;
  }

  // What follows a NUL does not count.
  lemma {:induction false} NulEnds(s: string, t: string)
    requires '\0' !in s
    ensures LineIn(s + ['\0'] + t) == LineIn(s)
  {
    var r := s + ['\0'] + t;
    assert r[..|s|] == s && r[|s|] == '\0';
    CutIs(r, |s|);
    CutWhole(s);
  }

  // A line becomes a platform exactly if it has more than four characters.
  lemma {:induction false} LineIsKeptIff(s: string)
    requires Bare(s)
    ensures Kept([s]) == Kept([s + "\n"]) == if |s| >= 5 then [s] else []
  {
    hide LineIn;
    KeptOne(s);
    KeptOne(s + "\n");
    BareIsLine(s);
    NewlineGoes(s);
  }

  // Texts are taken one by one, in order.
  lemma {:induction false} KeptInOrder(a: seq<string>, b: seq<string>)
    ensures Kept(a + b) == Kept(a) + Kept(b)
    decreases |b|
  {
    hide LineIn;
    if b == [] {
      assert a + b == a;
    } else {
      var n := |b| - 1;
      assert (a + b)[..|a + b| - 1] == a + b[..n] && (a + b)[|a + b| - 1] == b[n];
      KeptInOrder(a, b[..n]);
    }
  }

  ghost function WithNewlines(texts: seq<string>): (r: seq<string>)
    ensures |r| == |texts| && forall k: nat | k < |texts| :: r[k] == texts[k] + "\n"
  {
    seq(|texts|, k requires 0 <= k < |texts| => texts[k] + "\n")
  }

  // A scan finds the same platforms whether or not the lines end with a newline.
  lemma {:induction false} NewlinesDoNotMatter(texts: seq<string>)
    requires forall s <- texts :: Bare(s)
    ensures Entries(Kept(WithNewlines(texts))) == Entries(Kept(texts))
  {
    SameKept(texts);
  }

  lemma {:induction false} SameKept(texts: seq<string>)
    requires forall s <- texts :: Bare(s)
    ensures Kept(WithNewlines(texts)) == Kept(texts)
  {
    hide Kept, LineIn, Bare;
    if texts != [] {
      var n := |texts| - 1;
      var init, last := texts[..n], texts[n];
      assert texts == init + [last];
      assert last in texts && forall s <- init :: s in texts;
      SameKept(init);
      LineIsKeptIff(last);
      assert WithNewlines(texts) == WithNewlines(init) + [last + "\n"];
      KeptInOrder(init, [last]);
      KeptInOrder(WithNewlines(init), [last + "\n"]);
    } else {
      assert WithNewlines(texts) == texts;
    }
  }

  // One line of a file: no newline but at its end, and no NUL.
  ghost predicate IsLine(s: string) {
    '\0' !in s && forall k | 0 <= k < |s| - 1 :: s[k] != '\n'
  }

  // No path of a scanned line holds a newline.
  lemma {:induction false} NoPathHoldsNewline(texts: seq<string>)
    requires forall s <- texts :: IsLine(s)
    ensures forall e <- Entries(Kept(texts)) :: '\n' !in e.openvx && (e.vxu == None || '\n' !in e.vxu.value)
  {
    hide EntryOf, Kept;
    KeptHoldNoNewline(texts);
    forall e | e in Entries(Kept(texts)) ensures '\n' !in e.openvx && (e.vxu == None || '\n' !in e.vxu.value) {
      var k: nat :| k < |Kept(texts)| && Entries(Kept(texts))[k] == e;
      assert Kept(texts)[k] in Kept(texts);
      RejoinIsLine(Kept(texts)[k]);
      PartsOfLine(e);
    }
  }

  lemma {:induction false} PartsOfLine(e: Entry)
    ensures forall c <- e.openvx :: c in Rejoin(e)
    ensures e.vxu != None ==> forall c <- e.vxu.value :: c in Rejoin(e)
  {
  }

  lemma {:induction false} KeptHoldNoNewline(texts: seq<string>)
    requires forall s <- texts :: IsLine(s)
    ensures forall line <- Kept(texts) :: '\n' !in line
  {
    hide LineIn, IsLine;
    if texts != [] {
      var n := |texts| - 1;
      assert texts[n] in texts && forall s <- texts[..n] :: s in texts;
      KeptHoldNoNewline(texts[..n]);
      LineHoldsNoNewline(texts[n]);
    }
  }

  lemma {:induction false} LineHoldsNoNewline(s: string)
    requires IsLine(s)
    ensures '\n' !in LineIn(s)
  {
    hide LineIn;
    if s != "" && s[|s| - 1] == '\n' {
      var b := s[..|s| - 1];
      assert s == b + "\n";
      NewlineGoes(b);
    } else {
      BareIsLine(s);
    }
  }
}
