/**
 The requirement-tag scripts.  `update` replaces each [*REQ*] by a numbered tag, `revert` turns
 every tag back into [*REQ*], `remove` erases tags.  The scripts work with split and join; each
 loop is proved equal to a scanner that reads the text from left to right, and the laws relating
 the three are proved about the scanners, for every string.
 */
module Tags {

  const REQ := "[*REQ*]"
  const MARK := "[*R"
  const SPACED_MARK := " [*R"

  // ---------------------------------------------------------------- split and join

  // Python's str.split with a separator: leftmost, non-overlapping.
  function Split(s: string, sep: string): (items: seq<string>)
    requires sep != ""
    ensures |items| >= 1
    decreases |s|
  {
    if s == "" then [""]
    else if sep <= s then [""] + Split(s[|sep|..], sep)
    else
      var rest := Split(s[1..], sep);
      [[s[0]] + rest[0]] + rest[1..]
  }

  // Python's str.join.
  function Join(items: seq<string>, sep: string): string {
    if items == [] then ""
    else if |items| == 1 then items[0]
    else items[0] + sep + Join(items[1..], sep)
  }

  // What follows the first ']' of an item (nothing if there is none), as the scripts compute it.
  function AfterBracket(item: string): string {
    Join(Split(item, "]")[1..], "]")
  }

  // ---------------------------------------------------------------- printing of ids

  function Digit(d: nat): char
    requires d < 10
  {
    '0' + d as char
  }

  function Decimal(n: nat): (s: string)
    ensures s != "" && forall c <- s :: IsDigit(c)
  {
    if n < 10 then [Digit(n)] else Decimal(n / 10) + [Digit(n % 10)]
  }

  function Zeros(k: nat): (s: string)
    ensures |s| == k && forall c <- s :: c == '0'
  {
    seq(k, _ => '0')
  }

  predicate IsDigit(c: char) {
    '0' <= c <= '9'
  }

  // %05d
  function Padded(n: nat): (s: string)
    ensures s != "" && forall c <- s :: IsDigit(c)
  {
    var d := Decimal(n);
    (if |d| < 5 then Zeros(5 - |d|) else "") + d
  }

  function Tag(n: nat): string {
    MARK + Padded(n) + "*]"
  }

  ghost function Value(s: string): nat
    requires forall c <- s :: IsDigit(c)
  {
    if s == "" then 0
    else
      var last := s[|s| - 1];
      assert last in s && IsDigit(last);
      10 * Value(s[..|s| - 1]) + last as int - '0' as int
  }

  lemma {:induction false} DecimalValue(n: nat)
    ensures Value(Decimal(n)) == n
    decreases n
  {
    if n >= 10 {
      DecimalValue(n / 10);
      var s := Decimal(n);
      assert s[..|s| - 1] == Decimal(n / 10);
    } else {
      assert Decimal(n)[..0] == "";
    }
  }

  lemma {:induction false} LeadingZeros(z: string, s: string)
    requires (forall c <- z :: c == '0') && (forall c <- s :: IsDigit(c))
    ensures forall c <- z + s :: IsDigit(c)
    ensures Value(z + s) == Value(s)
    decreases |z| + |s|
  {
    var t := z + s;
    if s != "" {
      assert t[..|t| - 1] == z + s[..|s| - 1];
      LeadingZeros(z, s[..|s| - 1]);
    } else if z != "" {
      var y := z[..|z| - 1];
      assert t == z && t[..|t| - 1] == y + "";
      forall c | c in y ensures c == '0' {
        assert c in z;
      }
      LeadingZeros(y, "");
      assert z[|z| - 1] in z;
    }
  }

  // Zero-padded printing is injective.
  lemma {:induction false} PaddedInjective(m: nat, n: nat)
    requires Padded(m) == Padded(n)
    ensures m == n
  {
    PaddedValue(m);
    PaddedValue(n);
  }

  lemma {:induction false} PaddedValue(n: nat)
    ensures Value(Padded(n)) == n
  {
    var d := Decimal(n);
    DecimalValue(n);
    LeadingZeros(if |d| < 5 then Zeros(5 - |d|) else "", d);
  }

  // ---------------------------------------------------------------- the scanners

  ghost function Update(s: string, count: nat): string
    decreases |s|
  {
    if s == "" then ""
    else if REQ <= s then Tag(count + 1) + Update(s[|REQ|..], count + 1)
    else [s[0]] + Update(s[1..], count)
  }

  // The number of [*REQ*] tags.
  ghost function Reqs(s: string): nat
    decreases |s|
  {
    if s == "" then 0
    else if REQ <= s then 1 + Reqs(s[|REQ|..])
    else Reqs(s[1..])
  }

  // Replace every `sep` by `mark` and skip what follows it up to a stop character, the next
  // `sep` or the end.
  ghost function Erase(s: string, sep: string, mark: string, stop: set<char>, skip: bool): string
    requires sep != ""
    decreases |s|
  {
    if s == "" then ""
    else if sep <= s then mark + Erase(s[|sep|..], sep, mark, stop, true)
    else if skip then Erase(s[1..], sep, mark, stop, s[0] !in stop)
    else [s[0]] + Erase(s[1..], sep, mark, stop, false)
  }

  ghost function Revert(s: string): string {
    Erase(s, MARK, REQ, {']'}, false)
  }

  // remove's two passes over a line.
  ghost function Remove(s: string): string {
    Erase(Erase(s, SPACED_MARK, "", {']'}, false), MARK, "", {']'}, false)
  }

  // ---------------------------------------------------------------- the loops

  // The first k + 1 items with what the loop puts between them.
  ghost function Weave(items: seq<string>, glue: nat -> string, k: nat): string
    requires k < |items|
  {
    if k == 0 then items[0] else Weave(items, glue, k - 1) + glue(k) + items[k]
  }

  lemma {:induction false} WeaveShift(first: string, rest: seq<string>, glue: nat -> string, k: nat)
    requires k < |rest|
    ensures Weave([first] + rest, glue, k + 1) == first + glue(1) + Weave(rest, (n: nat) => glue(n + 1), k)
    decreases k
  {
    if k > 0 {
      WeaveShift(first, rest, glue, k - 1);
    }
  }

  lemma {:induction false} WeaveHead(x: string, items: seq<string>, glue: nat -> string, k: nat)
    requires k < |items|
    ensures Weave([x + items[0]] + items[1..], glue, k) == x + Weave(items, glue, k)
    decreases k
  {
    var l := [x + items[0]] + items[1..];
    if k > 0 {
      WeaveHead(x, items, glue, k - 1);
      assert l[k] == items[k];
      assert Weave(l, glue, k) == (x + Weave(items, glue, k - 1)) + glue(k) + items[k];
    }
  }

  lemma {:induction false} WeaveSame(items: seq<string>, f: nat -> string, g: nat -> string, k: nat)
    requires k < |items| && forall n: nat | 0 < n <= k :: f(n) == g(n)
    ensures Weave(items, f, k) == Weave(items, g, k)
    decreases k
  {
    if k > 0 {
      WeaveSame(items, f, g, k - 1);
    }
  }

  lemma {:induction false} UpdateIsWeave(s: string, count: nat)
    ensures |Split(s, REQ)| == Reqs(s) + 1
    ensures Weave(Split(s, REQ), (n: nat) => Tag(count + n), Reqs(s)) == Update(s, count)
    decreases |s|, 1
  {
    hide Tag;
    var f := (n: nat) => Tag(count + n);
    if s != "" {
      if REQ <= s {
        UpdateIsWeaveTag(s, count);
      } else {
        UpdateIsWeave(s[1..], count);
        WeaveHead([s[0]], Split(s[1..], REQ), f, Reqs(s[1..]));
      }
    }
  }

  lemma {:induction false} UpdateTagStep(s: string, count: nat)
    requires REQ <= s
    ensures Update(s, count) == Tag(count + 1) + Update(s[7..], count + 1) && Reqs(s) == 1 + Reqs(s[7..])
    ensures Split(s, REQ) == [""] + Split(s[7..], REQ)
  {
  }

  lemma {:induction false} UpdateIsWeaveTag(s: string, count: nat)
    requires REQ <= s
    ensures |Split(s, REQ)| == Reqs(s) + 1
    ensures Weave(Split(s, REQ), (n: nat) => Tag(count + n), Reqs(s)) == Update(s, count)
    decreases |s|, 0
  {
    hide Tag, Update, Reqs, Split;
    var f, g := (n: nat) => Tag(count + n), (n: nat) => Tag(count + 1 + n);
    var t := s[7..];
    UpdateTagStep(s, count);
    var items, k := Split(t, REQ), Reqs(t);
    UpdateIsWeave(t, count + 1);
    WeaveShift("", items, f, k);
    WeaveSame(items, (n: nat) => f(n + 1), g, k);
    assert Update(s, count) == f(1) + Update(t, count + 1);
  }

  // Numbering one line.
  method UpdateLine(line: string, start: nat) returns (out: string, count: nat)
    ensures out == Update(line, start) && count == start + Reqs(line)
  {
    UpdateIsWeave(line, start);
    ghost var f := (n: nat) => Tag(start + n);
    var items := Split(line, REQ);
    count := start;
    out := items[0];
    for k := 1 to |items|
      invariant count == start + k - 1
      invariant out == Weave(items, f, k - 1)
    {
      count := count + 1;
      out := out + Tag(count);
      out := out + items[k];
    }
  }

  lemma {:induction false} JoinSplit(s: string)
    ensures Join(Split(s, "]"), "]") == s
    decreases |s|
  {
    if s != "" {
      var rest := Split(s[1..], "]");
      JoinSplit(s[1..]);
      if "]" <= s {
        assert Split(s, "]") == [""] + rest && ([""] + rest)[1..] == rest;
        assert s == "]" + s[1..];
      } else {
        JoinHead([s[0]], rest);
        assert s == [s[0]] + s[1..];
      }
    }
  }

  lemma {:induction false} JoinHead(x: string, items: seq<string>)
    requires |items| >= 1
    ensures Join([x + items[0]] + items[1..], "]") == x + Join(items, "]")
  {
    var l := [x + items[0]] + items[1..];
    assert l[1..] == items[1..];
    if |items| > 1 {
      assert Join(l, "]") == x + items[0] + "]" + Join(items[1..], "]");
    }
  }

  // Dropping up to the first ']' from the left.
  lemma {:induction false} AfterBracketStep(c: char, item: string)
    ensures AfterBracket([c] + item) == if c == ']' then item else AfterBracket(item)
    ensures AfterBracket("") == ""
  {
    var s, rest := [c] + item, Split(item, "]");
    assert s[1..] == item;
    if c == ']' {
      JoinSplit(item);
      assert Split(s, "]") == [""] + rest && ([""] + rest)[1..] == rest;
    } else {
      assert !("]" <= s);
      assert Split(s, "]")[1..] == rest[1..];
    }
  }

  // The items of an erasing pass: all but the first stripped, and the first one too when the
  // scanner starts skipping.
  ghost function Pass(items: seq<string>, skip: bool): (r: seq<string>)
    ensures |r| == |items|
    ensures forall k: nat | k < |r| :: r[k] == if k == 0 && !skip then items[0] else AfterBracket(items[k])
  {
    seq(|items|, k requires 0 <= k < |items| => if k == 0 && !skip then items[0] else AfterBracket(items[k]))
  }

  lemma {:induction false} PassAtMark(rest: seq<string>, skip: bool)
    ensures Pass([""] + rest, skip) == [""] + Pass(rest, true)
  {
    hide AfterBracket;
    AfterBracketStep('x', "");
    var p, q := Pass([""] + rest, skip), [""] + Pass(rest, true);
    forall k: nat | k < |p| ensures p[k] == q[k] {
      assert k > 0 ==> ([""] + rest)[k] == rest[k - 1];
    }
  }

  lemma {:induction false} PassAtChar(c: char, rest: seq<string>, skip: bool)
    requires |rest| >= 1
    ensures var p := Pass([[c] + rest[0]] + rest[1..], skip);
            if skip then p == Pass(rest, c != ']')
            else p == [[c] + Pass(rest, false)[0]] + Pass(rest, false)[1..]
  {
    hide AfterBracket;
    AfterBracketStep(c, rest[0]);
    var items := [[c] + rest[0]] + rest[1..];
    assert forall k: nat | 0 < k < |items| :: items[k] == rest[k];
  }

  lemma {:induction false} EraseIsWeave(s: string, sep: string, mark: string, skip: bool)
    requires sep != ""
    ensures Erase(s, sep, mark, {']'}, skip) ==
            Weave(Pass(Split(s, sep), skip), (n: nat) => mark, |Split(s, sep)| - 1)
    decreases |s|
  {
    hide AfterBracket, Pass;
    if s == "" {
      AfterBracketStep('x', "");
    } else if sep <= s {
      EraseIsWeaveMark(s, sep, mark, skip);
    } else {
      EraseIsWeaveChar(s, sep, mark, skip);
    }
  }

  lemma {:induction false} EraseIsWeaveChar(s: string, sep: string, mark: string, skip: bool)
    requires sep != "" && !(sep <= s) && s != ""
    ensures Erase(s, sep, mark, {']'}, skip) ==
            Weave(Pass(Split(s, sep), skip), (n: nat) => mark, |Split(s, sep)| - 1)
    decreases |s|, 0
  {
    hide AfterBracket, Pass, Split, Erase, Weave;
    var rest := Split(s[1..], sep);
    SplitChar(s, sep);
    EraseChar(s, sep, mark, {']'}, skip);
    PassAtChar(s[0], rest, skip);
    EraseIsWeave(s[1..], sep, mark, skip && s[0] != ']');
    if !skip {
      WeaveHead([s[0]], Pass(rest, false), (n: nat) => mark, |rest| - 1);
    }
  }

  lemma {:induction false} SplitChar(s: string, sep: string)
    requires sep != "" && !(sep <= s) && s != ""
    ensures Split(s, sep) == [[s[0]] + Split(s[1..], sep)[0]] + Split(s[1..], sep)[1..]
  {
  }

  lemma {:induction false} EraseChar(s: string, sep: string, mark: string, stop: set<char>, skip: bool)
    requires sep != "" && !(sep <= s) && s != ""
    ensures Erase(s, sep, mark, stop, skip) ==
            if skip then Erase(s[1..], sep, mark, stop, s[0] !in stop)
            else [s[0]] + Erase(s[1..], sep, mark, stop, false)
  {
  }

  lemma {:induction false} EraseIsWeaveMark(s: string, sep: string, mark: string, skip: bool)
    requires sep != "" && sep <= s && s != ""
    ensures Erase(s, sep, mark, {']'}, skip) ==
            Weave(Pass(Split(s, sep), skip), (n: nat) => mark, |Split(s, sep)| - 1)
    decreases |s|, 0
  {
    hide AfterBracket, Pass;
    var t := s[|sep|..];
    var rest := Split(t, sep);
    var f := (n: nat) => mark;
    EraseIsWeave(t, sep, mark, true);
    PassAtMark(rest, skip);
    WeaveShift("", Pass(rest, true), f, |rest| - 1);
    WeaveSame(Pass(rest, true), (n: nat) => f(n + 1), f, |rest| - 1);
  }

  // One erasing pass over a line, as all three loops do it.
  method EraseLine(line: string, sep: string, mark: string) returns (out: string, count: nat)
    requires sep != ""
    ensures out == Erase(line, sep, mark, {']'}, false)
    ensures count == |Split(line, sep)| - 1
  {
    hide AfterBracket, Split, Erase;
    EraseIsWeave(line, sep, mark, false);
    var items := Split(line, sep);
    ghost var f := (n: nat) => mark;
    ghost var pass := Pass(items, false);
    count := 0;
    out := items[0];
    for k := 1 to |items|
      invariant count == k - 1
      invariant out == Weave(pass, f, k - 1)
    {
      count := count + 1;
      assert Weave(pass, f, k) == Weave(pass, f, k - 1) + mark + AfterBracket(items[k]);
      out := out + mark + AfterBracket(items[k]);
    }
  }

  method RevertLine(line: string) returns (out: string, count: nat)
    ensures out == Revert(line) && count == |Split(line, MARK)| - 1
  {
    out, count := EraseLine(line, MARK, REQ);
  }

  method RemoveLine(line: string) returns (out: string, count: nat)
    ensures out == Remove(line)
  {
    var once, spaced := EraseLine(line, SPACED_MARK, "");
    var rest;
    out, rest := EraseLine(once, MARK, "");
    count := spaced + rest;
  }
}
