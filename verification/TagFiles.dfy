/**
 The tag scripts on whole files: each reads a file as lines, rewrites line by line and writes the
 lines back.  Numbering and reverting act on the whole text; removing acts on each line.
 */
module TagFiles {
  import opened Tags
  import opened TagLaws

  // ---------------------------------------------------------------- lines

  // Python's readlines: cut after every newline.
  function ReadLines(text: string): (lines: seq<string>)
    ensures text != "" <==> lines != []
  {
    if text == "" then []
    else
      var rest := ReadLines(text[1..]);
      if text[0] == '\n' || rest == [] then [[text[0]]] + rest else [[text[0]] + rest[0]] + rest[1..]
  }

  function Concat(lines: seq<string>): string {
    if lines == [] then "" else lines[0] + Concat(lines[1..])
  }

  // A newline at the end and nowhere else.
  ghost predicate FullLine(line: string) {
    line != "" && line[|line| - 1] == '\n' && forall k | 0 <= k < |line| - 1 :: line[k] != '\n'
  }

  lemma {:induction false} LinesConcat(text: string)
    ensures Concat(ReadLines(text)) == text
    decreases |text|
  {
    if text != "" {
      var rest, lines := ReadLines(text[1..]), ReadLines(text);
      LinesConcat(text[1..]);
      assert text == [text[0]] + text[1..];
      if text[0] == '\n' || rest == [] {
        assert lines[1..] == rest;
      } else {
        assert lines[1..] == rest[1..];
        assert Concat(rest) == rest[0] + Concat(rest[1..]);
      }
    }
  }

  ghost predicate NoInnerNewline(line: string) {
    forall k | 0 <= k < |line| - 1 :: line[k] != '\n'
  }

  ghost predicate LinesOk(lines: seq<string>) {
    && (forall k: nat | k < |lines| :: NoInnerNewline(lines[k]))
    && (forall k: nat | k + 1 < |lines| :: FullLine(lines[k]))
  }

  // All lines but the last are full.
  lemma {:induction false} LinesAreLines(text: string)
    ensures LinesOk(ReadLines(text))
    decreases |text|
  {
    if text != "" {
      var rest, lines := ReadLines(text[1..]), ReadLines(text);
      LinesAreLines(text[1..]);
      var joined := text[0] != '\n' && rest != [];
      forall k: nat | k < |lines|
        ensures NoInnerNewline(lines[k]) && (k < |lines| - 1 ==> FullLine(lines[k]))
      {
        if k == 0 && !joined {
          assert lines[0] == [text[0]];
        } else {
          var j := if joined then k else k - 1;
          assert NoInnerNewline(rest[j]) && (j < |rest| - 1 ==> FullLine(rest[j]));
          if k == 0 {
            HeadOfLine(text[0], rest[0]);
            assert lines[0] == [text[0]] + rest[0];
          } else {
            assert lines[k] == rest[j];
          }
        }
      }
    }
  }

  lemma {:induction false} HeadOfLine(c: char, line: string)
    requires c != '\n'
    ensures FullLine(line) ==> FullLine([c] + line)
    ensures NoInnerNewline(line) ==> NoInnerNewline([c] + line)
  {
  }

  // A separator without newline does not reach over the end of a line.
  lemma {:induction false} PrefixInLine(sep: string, line: string, rest: string)
    requires line != "" && line[|line| - 1] == '\n' && '\n' !in sep
    ensures sep <= line + rest <==> sep <= line
  {
    if |line| <= |sep| {
      var last := |line| - 1;
      assert sep[last] in sep;
      assert sep[last] != (line + rest)[last];
    }
  }

  lemma {:induction false} MarksInLine(line: string, sep: string)
    requires FullLine(line) && sep <= line && '\n' !in sep
    ensures |sep| < |line| && FullLine(line[|sep|..])
  {
    PrefixInLine(sep, line, "");
    assert |sep| == |line| ==> sep == line;
  }

  // ---------------------------------------------------------------- numbering

  lemma {:induction false} UpdateByLine(line: string, rest: string, count: nat)
    requires FullLine(line)
    ensures Update(line + rest, count) == Update(line, count) + Update(rest, count + Reqs(line))
    ensures Reqs(line + rest) == Reqs(line) + Reqs(rest)
    decreases |line|
  {
    hide Update, Reqs;
    PrefixInLine(REQ, line, rest);
    if REQ <= line {
      UpdateByLineTag(line, rest, count);
    } else {
      UpdateStep(line, count);
      UpdateStep(line + rest, count);
      assert (line + rest)[1..] == line[1..] + rest;
      if |line| > 1 {
        UpdateByLine(line[1..], rest, count);
      } else {
        NothingToUpdate(count);
      }
    }
  }

  lemma {:induction false} UpdateStep(s: string, count: nat)
    requires s != "" && !(REQ <= s)
    ensures Update(s, count) == [s[0]] + Update(s[1..], count) && Reqs(s) == Reqs(s[1..])
  {
  }

  lemma {:induction false} UpdateByLineTag(line: string, rest: string, count: nat)
    requires FullLine(line) && REQ <= line && REQ <= line + rest
    ensures Update(line + rest, count) == Update(line, count) + Update(rest, count + Reqs(line))
    ensures Reqs(line + rest) == Reqs(line) + Reqs(rest)
    decreases |line|, 0
  {
    hide Tag;
    MarksInLine(line, REQ);
    assert (line + rest)[7..] == line[7..] + rest;
    UpdateByLine(line[7..], rest, count + 1);
    var u := Update(line[7..], count + 1);
    assert Update(line, count) == Tag(count + 1) + u;
    assert Update(line + rest, count) == Tag(count + 1) + (u + Update(rest, count + Reqs(line)));
  }

  // The plain mode of the update script on one file.
  method UpdateFile(text: string, start: nat) returns (out: string, count: nat)
    ensures out == Update(text, start) && count == start + Reqs(text)
  {
    hide Update, Reqs, ReadLines;
    var lines := ReadLines(text);
    LinesConcat(text);
    LinesAreLines(text);
    out, count := "", start;
    for k := 0 to |lines|
      invariant Update(text, start) == out + Update(Concat(lines[k..]), count)
      invariant start + Reqs(text) == count + Reqs(Concat(lines[k..]))
    {
      var line, next := UpdateLine(lines[k], count);
      assert lines[k..][1..] == lines[k + 1..];
      if k + 1 < |lines| {
        UpdateByLine(lines[k], Concat(lines[k + 1..]), count);
      } else {
        NothingToUpdate(next);
        assert Concat(lines[k..]) == lines[k];
      }
      out, count := out + line, next;
    }
    NothingToUpdate(count);
  }

  lemma {:induction false} NothingToUpdate(count: nat)
    ensures Update("", count) == "" && Reqs("") == 0
  {
  }

  // ---------------------------------------------------------------- reverting

  // revert on a text: skipping also ends at the end of a line.
  ghost function RevertText(text: string): string {
    Erase(text, MARK, REQ, {']', '\n'}, false)
  }

  lemma {:induction false} EraseByLine(line: string, rest: string, sep: string, mark: string, skip: bool)
    requires FullLine(line) && sep != "" && '\n' !in sep
    ensures Erase(line + rest, sep, mark, {']', '\n'}, skip) ==
            Erase(line, sep, mark, {']'}, skip) + Erase(rest, sep, mark, {']', '\n'}, false)
    decreases |line|
  {
    var s := line + rest;
    PrefixInLine(sep, line, rest);
    if sep <= line {
      MarksInLine(line, sep);
      assert s[|sep|..] == line[|sep|..] + rest;
      EraseByLine(line[|sep|..], rest, sep, mark, true);
    } else {
      assert s[1..] == line[1..] + rest;
      if |line| > 1 {
        EraseByLine(line[1..], rest, sep, mark, skip && line[0] != ']');
      } else {
        NothingErased(sep, mark, {']'}, true);
        NothingErased(sep, mark, {']'}, false);
      }
    }
  }

  // On a line without inner newline the two ways to skip are the same.
  lemma {:induction false} EraseLastLine(line: string, sep: string, mark: string, skip: bool)
    requires sep != "" && forall k | 0 <= k < |line| - 1 :: line[k] != '\n'
    ensures Erase(line, sep, mark, {']', '\n'}, skip) == Erase(line, sep, mark, {']'}, skip)
    decreases |line|
  {
    if line != "" {
      if sep <= line {
        EraseLastLine(line[|sep|..], sep, mark, true);
      } else if |line| == 1 {
        NothingErased(sep, mark, {']'}, true);
        NothingErased(sep, mark, {']'}, false);
        NothingErased(sep, mark, {']', '\n'}, true);
        NothingErased(sep, mark, {']', '\n'}, false);
      } else {
        EraseLastLine(line[1..], sep, mark, skip && line[0] != ']');
      }
    }
  }

  method RevertFile(text: string) returns (out: string)
    ensures out == RevertText(text)
  {
    hide Erase, ReadLines;
    var lines := ReadLines(text);
    LinesConcat(text);
    LinesAreLines(text);
    out := "";
    for k := 0 to |lines|
      invariant RevertText(text) == out + RevertText(Concat(lines[k..]))
    {
      var line, count := RevertLine(lines[k]);
      assert lines[k..][1..] == lines[k + 1..];
      if k + 1 < |lines| {
        EraseByLine(lines[k], Concat(lines[k + 1..]), MARK, REQ, false);
      } else {
        EraseLastLine(lines[k], MARK, REQ, false);
        assert Concat(lines[k..]) == lines[k];
        NothingErased(MARK, REQ, {']', '\n'}, false);
      }
      out := out + line;
    }
    NothingErased(MARK, REQ, {']', '\n'}, false);
  }

  // ---------------------------------------------------------------- removing

  ghost function RemoveLines(lines: seq<string>): string {
    if lines == [] then "" else Remove(lines[0]) + RemoveLines(lines[1..])
  }

  ghost function RemoveText(text: string): string {
    RemoveLines(ReadLines(text))
  }

  method RemoveFile(text: string) returns (out: string)
    ensures out == RemoveText(text)
  {
    hide Erase, Remove;
    var lines := ReadLines(text);
    out := "";
    for k := 0 to |lines|
      invariant RemoveText(text) == out + RemoveLines(lines[k..])
    {
      var line, count := RemoveLine(lines[k]);
      assert lines[k..][1..] == lines[k + 1..];
      out := out + line;
    }
  }

  lemma {:induction false} ReadFullLine(line: string, rest: string)
    requires FullLine(line)
    ensures ReadLines(line + rest) == [line] + ReadLines(rest)
    decreases |line|
  {
    assert (line + rest)[1..] == line[1..] + rest && (line + rest)[0] == line[0];
    if |line| > 1 {
      ReadFullLine(line[1..], rest);
      assert line == [line[0]] + line[1..];
    } else {
      assert line == [line[0]];
    }
  }

  lemma {:induction false} UpdateKeepsLine(line: string, count: nat)
    requires FullLine(line)
    ensures FullLine(Update(line, count))
    decreases |line|
  {
    if REQ <= line {
      MarksInLine(line, REQ);
      UpdateKeepsLine(line[7..], count + 1);
      var t := Tag(count + 1);
      forall k | 0 <= k < |t| ensures t[k] != '\n' {
        TagHasNoNewline(count + 1, k);
      }
      LongerLine(t, Update(line[7..], count + 1));
    } else if |line| > 1 {
      UpdateKeepsLine(line[1..], count);
      LongerLine([line[0]], Update(line[1..], count));
    } else {
      NothingToUpdate(count);
    }
  }

  lemma {:induction false} LongerLine(x: string, line: string)
    requires FullLine(line) && forall k | 0 <= k < |x| :: x[k] != '\n'
    ensures FullLine(x + line)
  {
  }

  lemma {:induction false} TagHasNoNewline(n: nat, k: nat)
    requires k < |Tag(n)|
    ensures Tag(n)[k] != '\n'
  {
    var p := Padded(n);
    if 3 <= k < 3 + |p| {
      assert Tag(n)[k] == p[k - 3] && p[k - 3] in p;
    }
  }

  // remove makes the same of a file before and after numbering.
  lemma {:induction false} RemoveTextIgnoresUpdate(text: string, count: nat)
    ensures RemoveText(Update(text, count)) == RemoveText(text)
    decreases |text|
  {
    hide Update, Reqs, Remove;
    var lines := ReadLines(text);
    LinesConcat(text);
    LinesAreLines(text);
    if text == "" {
      NothingToUpdate(count);
    } else if |lines| == 1 {
      assert Concat(lines) == lines[0] == text;
      RemoveIgnoresUpdate(text, count);
      UpdateOneLine(text, count);
    } else {
      var line, rest := lines[0], Concat(lines[1..]);
      UpdateByLine(line, rest, count);
      ReadFullLine(line, rest);
      UpdateKeepsLine(line, count);
      ReadFullLine(Update(line, count), Update(rest, count + Reqs(line)));
      RemoveTextIgnoresUpdate(rest, count + Reqs(line));
      RemoveIgnoresUpdate(line, count);
    }
  }

  // A text of one line stays one line.
  lemma {:induction false} UpdateOneLine(text: string, count: nat)
    requires text != "" && |ReadLines(text)| == 1
    ensures ReadLines(Update(text, count)) == [Update(text, count)]
  {
    LinesConcat(text);
    LinesAreLines(text);
    assert text == ReadLines(text)[0];
    if text[|text| - 1] == '\n' {
      UpdateKeepsLine(text, count);
      ReadFullLine(Update(text, count), "");
      assert Update(text, count) + "" == Update(text, count);
    } else {
      UpdateNoNewline(text, count);
      ReadOneLine(Update(text, count));
    }
  }

  lemma {:induction false} UpdateNoNewline(s: string, count: nat)
    requires s != "" && forall k | 0 <= k < |s| :: s[k] != '\n'
    ensures Update(s, count) != "" && forall k | 0 <= k < |Update(s, count)| :: Update(s, count)[k] != '\n'
    decreases |s|
  {
    if REQ <= s {
      var t := Tag(count + 1);
      forall k | 0 <= k < |t| ensures t[k] != '\n' {
        TagHasNoNewline(count + 1, k);
      }
      if s[7..] != "" {
        UpdateNoNewline(s[7..], count + 1);
      } else {
        NothingToUpdate(count + 1);
      }
    } else if |s| > 1 {
      UpdateNoNewline(s[1..], count);
    } else {
      NothingToUpdate(count);
    }
  }

  lemma {:induction false} ReadOneLine(s: string)
    requires s != "" && forall k | 0 <= k < |s| :: s[k] != '\n'
    ensures ReadLines(s) == [s]
  {
    if |s| > 1 {
      ReadOneLine(s[1..]);
      assert s == [s[0]] + s[1..];
    } else {
      assert s == [s[0]];
    }
  }

  // revert makes the same of a file before and after numbering.
  lemma {:induction false} RevertTextIgnoresUpdate(text: string, count: nat)
    ensures RevertText(Update(text, count)) == RevertText(text)
  {
    ParseRenders(text, count);
    EraseIgnoresNumbers(Parse(text, count), REQ, {']', '\n'}, false);
  }
}
