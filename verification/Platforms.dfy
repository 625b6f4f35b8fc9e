/**
 The list of platforms of the installable client driver: a linked list built by appends, one
 element per configuration line, and its copy-out.
 */
module Platforms {
  import opened Sequences
  import opened Values
  import opened VxStatus

  // The two library paths of a platform.
  datatype Entry = Entry(openvx: string, vxu: Option<string>)

  // ---------------------------------------------------------------- strings

  // The C string in a buffer: what comes before the first NUL.
  ghost function Cut(s: string): (c: string)
    ensures |c| <= |s| && c == s[..|c|] && '\0' !in c
    ensures |c| < |s| ==> s[|c|] == '\0'
  {
    if s == [] || s[0] == '\0' then [] else [s[0]] + Cut(s[1..])
  }

  lemma {:induction false} CutIs(s: string, n: nat)
    requires n < |s| && s[n] == '\0' && '\0' !in s[..n]
    ensures Cut(s) == s[..n]
  {
    assert forall k | 0 <= k < n :: s[k] == s[..n][k];
    var c := Cut(s);
    assert forall k | 0 <= k < |c| :: c[k] in c && c[k] == s[k];
  }

  // Without a trailing newline.
  ghost function Chomp(s: string): string {
    if s != [] && s[|s| - 1] == '\n' then s[..|s| - 1] else s
  }

  // The position of the first separator, or the length.
  ghost function Separator(s: string): (n: nat)
    ensures n <= |s| && ';' !in s[..n] && (n < |s| ==> s[n] == ';')
  {
    if s == [] || s[0] == ';' then 0
    else
      assert forall n: nat | n < |s| :: s[..n + 1] == [s[0]] + s[1..][..n];
      1 + Separator(s[1..])
  }

  // What a line says.
  ghost function EntryOf(line: string): Entry {
    var n := Separator(line);
    if n < |line| then Entry(line[..n], Some(line[n + 1..])) else Entry(line, None)
  }

  ghost function Rejoin(e: Entry): string {
    e.openvx + match e.vxu case None => "" case Some(p) => ";" + p
  }

  // The paths rejoined give the line back, and the first path has no separator.
  lemma {:induction false} RejoinIsLine(line: string)
    ensures Rejoin(EntryOf(line)) == line && ';' !in EntryOf(line).openvx
  {
    var n := Separator(line);
    if n == |line| {
      assert line[..n] == line;
    }
  }

  // There is no other way to read a line.
  lemma {:induction false} EntryIsUnique(line: string, e: Entry)
    requires Rejoin(e) == line && ';' !in e.openvx
    ensures e == EntryOf(line)
  {
    var m := |e.openvx|;
    assert forall k | 0 <= k < m :: line[k] == e.openvx[k];
    assert e.vxu.Some? ==> line[m] == ';' && line[m + 1..] == e.vxu.value;
    assert line[..m] == e.openvx;
    SeparatorIs(line, m);
  }

  // The line in a buffer.
  ghost function LineIn(buffer: string): string {
    Chomp(Cut(buffer))
  }

  // The lines that are long enough to name a platform.
  ghost function Kept(buffers: seq<string>): seq<string> {
    if buffers == [] then []
    else
      var n := |buffers| - 1;
      Kept(buffers[..n]) + if |LineIn(buffers[n])| > 4 then [LineIn(buffers[n])] else []
  }

  ghost function Entries(lines: seq<string>): (es: seq<Entry>)
    ensures |es| == |lines| && forall k | 0 <= k < |es| :: es[k] == EntryOf(lines[k])
  {
    seq(|lines|, k requires 0 <= k < |lines| => EntryOf(lines[k]))
  }

  lemma {:induction false} KeptOne(buffer: string)
    ensures Kept([buffer]) == if |LineIn(buffer)| > 4 then [LineIn(buffer)] else []
  {
    assert [buffer][..0] == [];
    assert Kept([]) == [];
  }

  // ---------------------------------------------------------------- buffers

  method Strlen(a: array<char>) returns (len: nat)
    requires '\0' in a[..]
    ensures len < a.Length && a[len] == '\0' && a[..len] == Cut(a[..]) && '\0' !in a[..len]
  {
    ghost var end :| 0 <= end < a.Length && a[end] == '\0';
    len := 0;
    while a[len] != '\0'
      invariant len <= end && '\0' !in a[..len]
      decreases end - len
    {
      len := len + 1;
    }
    CutIs(a[..], len);
  }

  // A copy of the C string that starts at `start`.
  method StringAt(a: array<char>, start: nat) returns (s: string)
    requires start < a.Length && '\0' in a[start..]
    ensures s == Cut(a[start..])
  {
    ghost var end :| start <= end < a.Length && a[end] == '\0';
    var i := start;
    s := "";
    while a[i] != '\0'
      invariant start <= i <= end && '\0' !in a[start..i] && s == a[start..i]
      decreases end - i
    {
      s := s + [a[i]];
      i := i + 1;
    }
    CutIs(a[start..], i - start);
  }

  // Ends the first path at the first separator of the line; the result is where the second path
  // begins, or zero.
  method EndFirstPath(fileName: array<char>, len: nat) returns (posVxu: nat)
    requires len < fileName.Length && fileName[len] == '\0' && '\0' !in fileName[..len]
    modifies fileName
    ensures var line := old(fileName[..len]);
            var n := Separator(line);
            && Cut(fileName[..]) == line[..n] && posVxu == (if n < len then n + 1 else 0) && posVxu <= len
            && '\0' in fileName[..] && '\0' in fileName[posVxu..]
            && (n < len ==> Cut(fileName[posVxu..]) == line[n + 1..])
  {
    ghost var line := fileName[..len];
    for i := 0 to len
      invariant fileName[..] == old(fileName[..]) && ';' !in line[..i]
    {
      if fileName[i] == ';' {
        SeparatorIs(line, i);
        fileName[i] := '\0';
        CutIs(fileName[..], i);
        assert fileName[i + 1..][..len - i - 1] == line[i + 1..];
        assert fileName[i + 1..][len - i - 1] == '\0';
        CutIs(fileName[i + 1..], len - i - 1);
        return i + 1;
      }
    }
    SeparatorIs(line, len);
    CutIs(fileName[..], len);
    return 0;
  }

  lemma {:induction false} SeparatorIs(s: string, n: nat)
    requires n <= |s| && ';' !in s[..n] && (n < |s| ==> s[n] == ';')
    ensures Separator(s) == n
  {
    var m := Separator(s);
    assert forall k | 0 <= k < m :: s[k] == s[..m][k];
    assert forall k | 0 <= k < n :: s[k] == s[..n][k];
  }

  lemma {:induction false} MakesEntry(line: string, e: Entry)
    requires var n := Separator(line);
             && e.openvx == line[..n]
             && e.vxu == if n < |line| then Some(line[n + 1..]) else None
    ensures e == EntryOf(line)
  {
    assert line[..|line|] == line;
  }

  // ---------------------------------------------------------------- the list

  class Platform {
    var next: Platform?
    var pathOpenvx: string
    var pathVxu: Option<string>

    constructor ()
      ensures next == null && pathOpenvx == "" && pathVxu == None
    {
      next, pathOpenvx, pathVxu := null, "", None;
    }

    method StorePaths(fileName: array<char>, posVxu: nat)
      requires pathVxu == None && posVxu < fileName.Length && '\0' in fileName[..] && '\0' in fileName[posVxu..]
      modifies `pathOpenvx, `pathVxu
      ensures pathOpenvx == Cut(fileName[..])
      ensures pathVxu == if posVxu > 0 then Some(Cut(fileName[posVxu..])) else None
    {
      pathOpenvx := StringAt(fileName, 0);
      if posVxu > 0 {
        var path := StringAt(fileName, posVxu);
        pathVxu := Some(path);
      }
    }

    function Paths(): Entry
      reads `pathOpenvx, `pathVxu
    {
      Entry(pathOpenvx, pathVxu)
    }
  }

  class Registry {
    var platformHead: Platform?
    // The platforms of the list, in order.
    ghost var list: seq<Platform>

    constructor ()
      ensures Valid() && list == []
    {
      platformHead, list := null, [];
    }

    ghost function After(k: int): Platform?
      reads `list
    {
      if 0 <= k < |list| then list[k] else null
    }

    ghost predicate Valid()
      reads this, list`next
    {
      && Distinct(list)
      && platformHead == After(0)
      && forall k | 0 <= k < |list| :: list[k].next == After(k + 1)
    }

    ghost function Content(): (es: seq<Entry>)
      reads this, list
      ensures |es| == |list| && forall k | 0 <= k < |es| :: es[k] == list[k].Paths()
    {
      seq(|list|, k requires 0 <= k < |list| reads this, list => list[k].Paths())
    }

    lemma {:induction false} NextInList(p: Platform)
      requires Valid() && p in list
      ensures p.next == null || p.next in list
    {
      var i :| 0 <= i < |list| && list[i] == p;
      assert i + 1 < |list| ==> list[i + 1] in list;
    }

    // The platform reached from p by following `next` k times.
    ghost function Walk(p: Platform?, k: nat): Platform?
      requires Valid() && (p == null || p in list)
      reads this, list
    {
      if k == 0 || p == null then p
      else
        NextInList(p);
        Walk(p.next, k - 1)
    }

    // From the head every platform is reached, in order, after as many steps as its position, and
    // then the end: the list is acyclic and holds nothing else.
    lemma {:induction false} WalkThrough(j: nat, k: nat)
      requires Valid()
      ensures After(j) == null || After(j) in list
      ensures Walk(After(j), k) == After(j + k)
      decreases k
    {
      if k > 0 && j < |list| {
        WalkThrough(j + 1, k - 1);
      }
    }

    // Appends a platform.
    method Append(platform: Platform)
      requires Valid() && platform !in list && platform.next == null
      modifies this, list
      ensures Valid() && list == old(list) + [platform]
      ensures forall p: Platform | p in list :: p.pathOpenvx == old(p.pathOpenvx) && p.pathVxu == old(p.pathVxu)
      ensures Content() == old(Content()) + [platform.Paths()]
    {
      if platformHead == null {
        platformHead := platform;
      } else {
        var platformLast := platformHead;
        ghost var k := 0;
        while platformLast.next != null
          invariant 0 <= k < |list| && platformLast == list[k]
          decreases |list| - k
        {
          platformLast := platformLast.next;
          k := k + 1;
        }
        platformLast.next := platform;
      }
      list := list + [platform];
    }

    // vxIcdAddPlatform; allocation succeeds.
    method AddPlatform(fileName: array<char>)
      requires Valid() && '\0' in fileName[..]
      modifies this, list, fileName
      ensures Valid() && old(list) <= list && forall i | |old(list)| <= i < |list| :: fresh(list[i])
      ensures Content() == old(Content()) + Entries(Kept([old(fileName[..])]))
    {
      hide Valid, Kept;
      ghost var buffer := fileName[..];
      KeptOne(buffer);
      var len := Strlen(fileName);
      if len > 0 && fileName[len - 1] == '\n' {
        len := len - 1;
        fileName[len] := '\0';
      }
      assert LineIn(buffer) == fileName[..len];
      if len > 4 {
        AddLine(fileName, len);
      }
    }

    // The branch for a line that is long enough.
    method AddLine(fileName: array<char>, len: nat)
      requires Valid() && len < fileName.Length && fileName[len] == '\0' && '\0' !in fileName[..len]
      modifies this, list, fileName
      ensures Valid() && old(list) <= list && forall i | |old(list)| <= i < |list| :: fresh(list[i])
      ensures Content() == old(Content()) + [EntryOf(old(fileName[..len]))]
    {
      hide Valid, EntryOf, Separator, Cut;
      ghost var line := fileName[..len];
      var posVxu := EndFirstPath(fileName, len);
      var platform := new Platform();
      Append(platform);
      ghost var linked := Content();
      platform.StorePaths(fileName, posVxu);
      MakesEntry(line, platform.Paths());
      PathsChanged(platform, linked);
    }

    // Only the paths of the last platform are new.
    lemma {:induction false} PathsChanged(platform: Platform, linked: seq<Entry>)
      requires Distinct(list) && list != [] && list[|list| - 1] == platform && |linked| == |list|
      requires forall k | 0 <= k < |list| && list[k] != platform :: list[k].Paths() == linked[k]
      ensures Content() == linked[..|list| - 1] + [platform.Paths()]
    {
    }

    // One vendor's file: its first line in a buffer.
    method AddText(text: string)
      requires Valid()
      modifies this, list
      ensures Valid() && old(list) <= list && forall i | |old(list)| <= i < |list| :: fresh(list[i])
      ensures Content() == old(Content()) + Entries(Kept([text + ['\0']]))
    {
      hide Valid, Kept;
      var fileName := new char[|text| + 1](i requires 0 <= i <= |text| => if i < |text| then text[i] else '\0');
      assert fileName[..] == text + ['\0'];
      assert fileName[|text|] in fileName[..];
      AddPlatform(fileName);
    }

    // The scan of the vendors' files, each a buffer with the first line read from it.
    method Scan(texts: seq<string>)
      requires Valid()
      modifies this, list
      ensures Valid() && old(list) <= list && forall i | |old(list)| <= i < |list| :: fresh(list[i])
      ensures Content() == old(Content()) + Entries(Kept(texts))
    {
      hide Valid, Kept, Content, Entries;
      KeptNone();
      ghost var older := list;
      for n := 0 to |texts|
        invariant Valid() && older <= list && forall i | |older| <= i < |list| :: fresh(list[i])
        invariant Content() == old(Content()) + Entries(Kept(texts[..n]))
      {
        KeptNext(texts, n);
        AddText(texts[n]);
      }
      assert texts[..|texts|] == texts;
    }

    // vxIcdGetPlatforms: scans if the list is empty, then copies out.  The number of items is
    // only stored when there are platforms.
    method GetPlatforms(capacity: nat, platform: array<Platform?>, texts: seq<string>)
      returns (status: Status, numItems: Option<nat>)
      requires Valid() && capacity <= platform.Length
      modifies this, list, platform
      ensures Valid() && status == VX_SUCCESS
      ensures old(platformHead) != null ==> list == old(list) && Content() == old(Content())
      ensures old(platformHead) == null ==> Content() == Entries(Kept(texts))
      ensures var n := if capacity < |list| then capacity else |list|;
              && n <= platform.Length
              && numItems == (if list == [] then None else Some(n))
              && (forall k | 0 <= k < n :: platform[k] == list[k])
              && (forall k | n <= k < platform.Length :: platform[k] == old(platform[k]))
    {
      if platformHead == null {
        Scan(texts);
      }
      numItems := CopyOut(capacity, platform);
      status := VX_SUCCESS;
    }

    method CopyOut(capacity: nat, platform: array<Platform?>) returns (numItems: Option<nat>)
      requires Valid() && capacity <= platform.Length
      modifies platform
      ensures var n := if capacity < |list| then capacity else |list|;
              && n <= platform.Length
              && numItems == (if list == [] then None else Some(n))
              && (forall k | 0 <= k < n :: platform[k] == list[k])
              && (forall k | n <= k < platform.Length :: platform[k] == old(platform[k]))
    {
      numItems := None;
      if platformHead != null {
        var n := 0;
        var p := platformHead;
        while p != null && n < capacity
          invariant n <= capacity && n <= |list| && p == After(n)
          invariant forall k | 0 <= k < n :: platform[k] == list[k]
          invariant forall k | n <= k < platform.Length :: platform[k] == old(platform[k])
        {
          platform[n] := p;
          n := n + 1;
          p := p.next;
        }
        numItems := Some(n);
      }
    }
  }

  lemma {:induction false} KeptNone()
    ensures Entries(Kept([])) == []
  {
  }

  lemma {:induction false} KeptNext(texts: seq<string>, n: nat)
    requires n < |texts|
    ensures Entries(Kept(texts[..n + 1])) == Entries(Kept(texts[..n])) + Entries(Kept([texts[n] + ['\0']]))
  {
    KeptOne(texts[n] + ['\0']);
    SameCut(texts[n]);
    assert texts[..n + 1][..n] == texts[..n];
  }

  lemma {:induction false} SameCut(text: string)
    ensures Cut(text + ['\0']) == Cut(text)
  {
    var c := Cut(text);
    assert (text + ['\0'])[..|c|] == c;
    CutIs(text + ['\0'], |c|);
  }

  // After a scan the platforms, rejoined, are the lines of more than four characters, in order.
  lemma {:induction false} RejoinedLines(lines: seq<string>, k: nat)
    requires k < |lines|
    ensures Rejoin(Entries(lines)[k]) == lines[k]
    ensures forall es: seq<Entry> |
              |es| == |lines| && (forall j | 0 <= j < |es| :: Rejoin(es[j]) == lines[j] && ';' !in es[j].openvx) ::
              es == Entries(lines)
  {
    RejoinIsLine(lines[k]);
    forall es: seq<Entry> |
      |es| == |lines| && (forall j | 0 <= j < |es| :: Rejoin(es[j]) == lines[j] && ';' !in es[j].openvx)
      ensures es == Entries(lines)
    {
      forall j | 0 <= j < |es| ensures es[j] == Entries(lines)[j] {
        EntryIsUnique(lines[j], es[j]);
      }
    }
  }
}
