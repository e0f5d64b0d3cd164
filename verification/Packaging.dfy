/** The packaging script as a text format: the line the bump writes, the bump's own reader,
    and the reader of the release script. */
module Packaging {
  import opened Text
  import opened Versions
  import Decimal

  // ---------- files as lines ----------

  /** Python's text mode: "\r\n" and a lone "\r" read as "\n". */
  function Universal(text: string): (r: string)
    ensures '\r' !in r
    ensures '\r' !in text ==> r == text
  {
    if text == "" then ""
    else if text[0] == '\r' then
      "\n" + Universal(if |text| > 1 && text[1] == '\n' then text[2..] else text[1..])
    else [text[0]] + Universal(text[1..])
  }

  lemma {:induction false} UniversalAppend(a: string, b: string)
    requires '\r' !in a
    ensures Universal(a + b) == a + Universal(b)
  {
    if a == "" {
      assert a + b == b;
    } else {
      UniversalAppend(a[1..], b);
      TailOfSum(a, b);
      Assoc([a[0]], a[1..], Universal(b));
      assert a == [a[0]] + a[1..];
    }
  }

  /** Every kind of line break becomes one "\n". */
  lemma UniversalBreak(a: string, b: string)
    requires '\r' !in a
    ensures Universal(a + "\r\n" + b) == a + "\n" + Universal(b)
    ensures (b == "" || b[0] != '\n') ==> Universal(a + "\r" + b) == a + "\n" + Universal(b)
  {
    UniversalAppend(a, "\r\n" + b);
    UniversalAppend(a, "\r" + b);
    Assoc(a, "\r\n", b);
    Assoc(a, "\r", b);
    Assoc(a, "\n", Universal(b));
    assert ("\r\n" + b)[2..] == b && ("\r" + b)[1..] == b;
  }

  /** readlines(): each line keeps its "\n"; only the last may lack one. */
  function Lines(text: string): seq<string>
  {
    if text == "" then []
    else
      var n := Span(text, NotNewline);
      if n == |text| then [text] else [text[..n + 1]] + Lines(text[n + 1..])
  }

  lemma {:induction false} LinesFacts(text: string)
    ensures WellFormed(Lines(text)) && Concat(Lines(text)) == text
    decreases |text|
  {
    if text != "" {
      CutLine(text);
      var n := Span(text, NotNewline);
      if n < |text| {
        LinesFacts(text[n + 1..]);
        ConsLine(text[..n + 1], Lines(text[n + 1..]));
      }
    }
  }

  lemma CutLine(text: string)
    ensures var n := Span(text, NotNewline);
      if n < |text| then Terminated(text[..n + 1]) && text[..n + 1] + text[n + 1..] == text else '\n' !in text
  {
    SpanFacts(text, NotNewline);
    var n := Span(text, NotNewline);
    hide Span;
    assert '\n' !in text[..n];
    if n < |text| {
      assert text[n] == '\n';
      LineUpTo(text, n);
    } else {
      assert text[..n] == text;
    }
  }

  lemma LineUpTo(text: string, n: nat)
    requires n < |text| && text[n] == '\n' && '\n' !in text[..n]
    ensures Terminated(text[..n + 1]) && text[..n + 1] + text[n + 1..] == text
  {
    assert text[..n + 1][..n] == text[..n];
  }

  lemma ConsLine(line: string, rest: seq<string>)
    requires Terminated(line) && WellFormed(rest)
    ensures WellFormed([line] + rest) && Concat([line] + rest) == line + Concat(rest)
  {
    assert ([line] + rest)[1..] == rest;
  }

  predicate NotNewline(c: char)
  {
    c != '\n'
  }

  predicate Terminated(line: string)
  {
    line != "" && line[|line| - 1] == '\n' && '\n' !in line[..|line| - 1]
  }

  predicate WellFormed(lines: seq<string>)
  {
    && (forall i :: 0 <= i < |lines| - 1 ==> Terminated(lines[i]))
    && (lines != [] ==> Terminated(lines[|lines| - 1]) || (lines[|lines| - 1] != "" && '\n' !in lines[|lines| - 1]))
  }

  lemma LinesOfTerminated(line: string, rest: string)
    requires Terminated(line)
    ensures Lines(line + rest) == [line] + Lines(rest)
  {
    var n := |line| - 1;
    assert line + rest == line[..n] + (line[n..] + rest);
    SpanAppend(line[..n], line[n..] + rest, NotNewline);
    assert (line + rest)[..n + 1] == line;
    assert (line + rest)[n + 1..] == rest;
  }

  lemma {:induction false} LinesAppend(lines: seq<string>, rest: string)
    requires forall l <- lines :: Terminated(l)
    ensures Lines(Concat(lines) + rest) == lines + Lines(rest)
  {
    if lines == [] {
      assert Concat(lines) + rest == rest;
    } else {
      LinesAppend(lines[1..], rest);
      var more := Concat(lines[1..]) + rest;
      LinesOfTerminated(lines[0], more);
      Assoc(lines[0], Concat(lines[1..]), rest);
      assert lines == [lines[0]] + lines[1..];
      Assoc([lines[0]], lines[1..], Lines(rest));
    }
  }

  lemma LinesOfConcat(lines: seq<string>)
    requires WellFormed(lines)
    ensures Lines(Concat(lines)) == lines
  {
    if lines != [] {
      var last := |lines| - 1;
      var front, tail := lines[..last], lines[last..];
      assert lines == front + tail;
      ConcatAppend(front, tail);
      LinesAppend(front, Concat(tail));
      assert Concat(tail) == lines[last] + "" == lines[last];
      if Terminated(lines[last]) {
        LinesOfTerminated(lines[last], "");
      } else {
        SpanAppend(lines[last], "", NotNewline);
        assert lines[last] + "" == lines[last];
      }
    }
  }

  /** The lines a script sees when it opens the file in text mode. */
  function FileLines(text: string): seq<string>
  {
    Lines(Universal(text))
  }

  // ---------- the line format ----------

  predicate WordChar(c: char)
  {
    'A' <= c <= 'Z' || 'a' <= c <= 'z' || Decimal.IsDigit(c) || c == '_'
  }

  /** A shell variable name: literal in the patterns of both readers. */
  predicate Word(name: string)
  {
    name != "" && forall c <- name :: WordChar(c)
  }

  predicate LineSafe(url: string)
  {
    '\n' !in url && '\r' !in url
  }

  /** What \s matches in a Python str pattern. */
  predicate PyBlank(c: char)
  {
    var n := c as int;
    9 <= n <= 13 || 28 <= n <= 32 || n == 0x85 || n == 0xA0 || n == 0x1680 || 0x2000 <= n <= 0x200A
    || n == 0x2028 || n == 0x2029 || n == 0x202F || n == 0x205F || n == 0x3000
  }

  function VersionLine(name: string, v: Version, url: string): string
  {
    name + "=" + Body(v, url) + "\n"
  }

  function Body(v: Version, url: string): string
  {
    Print(v) + "  " + "#" + (" " + url)
  }

  function Rewrite(lines: seq<string>, name: string, line: string): (r: seq<string>)
    ensures |r| == |lines|
  {
    seq(|lines|, i requires 0 <= i < |lines| => if name <= lines[i] then line else lines[i])
  }

  /** The whole file after the bump. */
  function Written(text: string, name: string, v: Version, url: string): string
  {
    Concat(Rewrite(FileLines(text), name, VersionLine(name, v, url)))
  }

  // ---------- the bump's reader ----------

  /** The pattern NAME=((?:[0-9]+\.){1,3}[0-9]+)\s+#.*$ read declaratively: some split of the
      line into the parts it asks for. */
  ghost predicate Reads(name: string, line: string, parts: seq<string>)
  {
    && 2 <= |parts| <= 4
    && NumericParts(parts)
    && exists blank: string, tail: string ::
         && line == Layout(name, Join(parts, '.'), blank, tail)
         && Gap(blank)
         && DotStar(tail)
  }

  function Layout(name: string, body: string, blank: string, tail: string): string
  {
    name + "=" + (body + (blank + ("#" + tail)))
  }

  predicate Gap(blank: string)
  {
    blank != "" && forall c <- blank :: PyBlank(c)
  }

  /** `.*$`: no line break but a final one. */
  predicate DotStar(tail: string)
  {
    forall i :: 0 <= i < |tail| - 1 ==> tail[i] != '\n'
  }

  /** The same pattern as a scan. */
  function MatchLine(name: string, line: string): Option<Version>
  {
    if name + "=" <= line then MatchValue(line[|name| + 1..]) else None
  }

  /** After "NAME=": the longest digit-and-dot run, then the comment. */
  function MatchValue(rest: string): Option<Version>
  {
    var n := Span(rest, VersionChar);
    if IsComment(rest[n..]) then ReadParts(rest[..n]) else None
  }

  /** `\s+#.*$`: the longest blank run, then '#'. */
  predicate IsComment(gap: string)
  {
    var m := Span(gap, PyBlank);
    0 < m < |gap| && gap[m] == '#' && DotStar(gap[m + 1..])
  }

  function ReadParts(body: string): Option<Version>
  {
    var parts := Split(body, '.');
    if 2 <= |parts| <= 4 && NumericParts(parts) then Some(PartValues(parts)) else None
  }

  lemma CommentParts(gap: string) returns (blank: string, tail: string)
    requires IsComment(gap)
    ensures gap == blank + ("#" + tail) && Gap(blank) && DotStar(tail)
  {
    var m := Span(gap, PyBlank);
    SpanFacts(gap, PyBlank);
    blank, tail := gap[..m], gap[m + 1..];
  }

  lemma CommentOf(blank: string, tail: string)
    requires Gap(blank) && DotStar(tail)
    ensures IsComment(blank + ("#" + tail)) && !VersionChar((blank + ("#" + tail))[0])
  {
    SpanAppend(blank, "#" + tail, PyBlank);
    assert blank[0] in blank;
    assert (blank + ("#" + tail))[|blank| + 1..] == tail;
  }

  lemma MatchLineSound(name: string, line: string) returns (parts: seq<string>)
    requires MatchLine(name, line).Some?
    ensures Reads(name, line, parts) && MatchLine(name, line) == Some(PartValues(parts))
  {
    hide Span, Split, Join;
    var rest := line[|name| + 1..];
    var n := Span(rest, VersionChar);
    var body, gap := rest[..n], rest[n..];
    parts := Split(body, '.');
    JoinOfSplit(body, '.');
    var blank, tail := CommentParts(gap);
    assert rest == body + gap;
    assert line == name + "=" + rest;
    assert line == Layout(name, Join(parts, '.'), blank, tail);
  }

  lemma MatchLineComplete(name: string, line: string, parts: seq<string>)
    requires Reads(name, line, parts)
    ensures MatchLine(name, line) == Some(PartValues(parts))
  {
    var blank, tail :| line == Layout(name, Join(parts, '.'), blank, tail) && Gap(blank) && DotStar(tail);
    MatchLineOn(name, parts, blank, tail);
  }

  lemma MatchValueOn(parts: seq<string>, blank: string, tail: string)
    requires NumericParts(parts) && Gap(blank) && DotStar(tail)
    ensures MatchValue(Join(parts, '.') + (blank + ("#" + tail)))
         == if 2 <= |parts| <= 4 then Some(PartValues(parts)) else None
  {
    var body, gap := Join(parts, '.'), blank + ("#" + tail);
    SplitNumeric(parts);
    CommentOf(blank, tail);
    SpanAppend(body, gap, VersionChar);
    assert (body + gap)[..|body|] == body && (body + gap)[|body|..] == gap;
  }

  lemma MatchLineOn(name: string, parts: seq<string>, blank: string, tail: string)
    requires NumericParts(parts) && Gap(blank) && DotStar(tail)
    ensures MatchLine(name, Layout(name, Join(parts, '.'), blank, tail))
         == if 2 <= |parts| <= 4 then Some(PartValues(parts)) else None
  {
    MatchValueOn(parts, blank, tail);
    var rest := Join(parts, '.') + (blank + ("#" + tail));
    assert Layout(name, Join(parts, '.'), blank, tail)[|name| + 1..] == rest;
  }

  /** Scan and pattern agree on every line, and a line reads in at most one way. */
  lemma MatchLineIff(name: string, line: string, v: Version)
    ensures MatchLine(name, line) == Some(v) <==> exists parts :: Reads(name, line, parts) && PartValues(parts) == v
  {
    if MatchLine(name, line) == Some(v) {
      var parts := MatchLineSound(name, line);
    }
    forall parts | Reads(name, line, parts) && PartValues(parts) == v ensures MatchLine(name, line) == Some(v) {
      MatchLineComplete(name, line, parts);
    }
  }

  /** The first line that matches decides; None stands for the reader's exception. */
  function ReadVersion(lines: seq<string>, name: string): Option<Version>
  {
    if lines == [] then None
    else if MatchLine(name, lines[0]).Some? then MatchLine(name, lines[0])
    else ReadVersion(lines[1..], name)
  }

  lemma {:induction false} ReadVersionSkips(before: seq<string>, after: seq<string>, name: string)
    requires forall l <- before :: MatchLine(name, l).None?
    ensures ReadVersion(before + after, name) == ReadVersion(after, name)
  {
    hide MatchLine;
    if before == [] {
      assert before + after == after;
    } else {
      ReadVersionSkips(before[1..], after, name);
      TailOfSum(before, after);
    }
  }

  lemma MatchHasName(name: string, line: string)
    requires MatchLine(name, line).Some?
    ensures name <= line
  {
    PrefixTransitive(name, name + "=", line);
  }

  /** The reader raises exactly when no line has the pattern; otherwise the first such line, which
      starts with the name, gives the version. */
  lemma {:induction false} ReadVersionExact(lines: seq<string>, name: string)
    ensures ReadVersion(lines, name).None? <==> forall l <- lines :: MatchLine(name, l).None?
    ensures ReadVersion(lines, name).Some? ==> exists k :: FirstMatch(lines, name, k, ReadVersion(lines, name))
  {
    hide MatchLine;
    if lines != [] {
      ReadVersionExact(lines[1..], name);
      if MatchLine(name, lines[0]).Some? {
        assert lines[0] in lines;
        MatchHasName(name, lines[0]);
        assert FirstMatch(lines, name, 0, ReadVersion(lines, name));
      } else if ReadVersion(lines, name).Some? {
        var k :| FirstMatch(lines[1..], name, k, ReadVersion(lines, name));
        assert lines[1..][k] == lines[k + 1] && lines[k + 1] in lines;
        assert forall j :: 1 <= j < k + 1 ==> lines[j] == lines[1..][j - 1];
        assert FirstMatch(lines, name, k + 1, ReadVersion(lines, name));
      } else {
        assert forall l <- lines :: l == lines[0] || l in lines[1..];
      }
    }
  }

  ghost predicate FirstMatch(lines: seq<string>, name: string, k: int, found: Option<Version>)
  {
    && 0 <= k < |lines| && name <= lines[k] && MatchLine(name, lines[k]) == found
    && forall j :: 0 <= j < k ==> MatchLine(name, lines[j]).None?
  }

  // ---------- write, then read ----------

  ghost predicate HasLine(lines: seq<string>, name: string)
  {
    exists k :: 0 <= k < |lines| && name <= lines[k]
  }

  lemma FirstLine(lines: seq<string>, name: string) returns (k: nat)
    requires HasLine(lines, name)
    ensures k < |lines| && name <= lines[k] && forall j :: 0 <= j < k ==> !(name <= lines[j])
  {
    k := 0;
    while !(name <= lines[k])
      invariant k < |lines|
      invariant forall j :: 0 <= j < k ==> !(name <= lines[j])
      invariant exists i :: k <= i < |lines| && name <= lines[i]
      decreases |lines| - k
    {
      k := k + 1;
    }
  }

  lemma NonNameLinesDoNotMatch(lines: seq<string>, name: string)
    requires forall l <- lines :: !(name <= l)
    ensures forall l <- lines :: MatchLine(name, l).None?
  {
    assert name <= name + "=";
  }

  function Head(name: string, v: Version): string
  {
    name + "=" + (Print(v) + "  # ")
  }

  lemma VersionLineFromHead(name: string, v: Version, url: string)
    ensures VersionLine(name, v, url) == Head(name, v) + (url + "\n")
  {
    assert Body(v, url) == Print(v) + "  # " + url;
  }

  lemma HeadIsPlain(name: string, v: Version)
    requires Word(name)
    ensures '\n' !in Head(name, v) && '\r' !in Head(name, v)
  {
    PrintChars(v);
  }

  /** A line that starts with the written head reads as the written version, whatever follows. */
  lemma HeadMatches(name: string, v: Version, tail: string)
    requires Word(name) && DotStar(tail)
    ensures MatchLine(name, Head(name, v) + tail) == if 2 <= |v| <= 4 then Some(v) else None
  {
    PartValuesOfPrint(v);
    assert Head(name, v) + tail == Layout(name, Print(v), "  ", " " + tail);
    MatchLineOn(name, PrintParts(v), "  ", " " + tail);
  }

  lemma LinesOfHead(head: string, rest: string)
    requires head != "" && '\n' !in head
    ensures var ls := Lines(head + rest); ls != [] && head <= ls[0] && DotStar(ls[0][|head|..])
  {
    SpanAppend(head, rest, NotNewline);
    LinesFacts(head + rest);
    var ls := Lines(head + rest);
    assert head + rest != "";
    assert |ls[0]| >= |head| && ls[0] <= head + rest;
    hide Lines, Span;
    FirstLineEnds(ls);
    HeadOfPrefix(head, rest, ls[0]);
  }

  lemma FirstLineEnds(lines: seq<string>)
    requires WellFormed(lines) && lines != []
    ensures lines[0] != "" && forall i :: 0 <= i < |lines[0]| - 1 ==> lines[0][i] != '\n'
  {
    var first := lines[0];
    if Terminated(first) {
      assert forall i :: 0 <= i < |first| - 1 ==> first[i] == first[..|first| - 1][i];
    }
  }

  lemma HeadOfPrefix(head: string, rest: string, first: string)
    requires first <= head + rest && |head| <= |first|
    requires forall i :: 0 <= i < |first| - 1 ==> first[i] != '\n'
    ensures head <= first && DotStar(first[|head|..])
  {
    assert first[..|head|] == head;
  }

  lemma RewrittenUpTo(lines: seq<string>, name: string, line: string, k: nat)
    requires k < |lines| && name <= lines[k] && forall i :: 0 <= i < k ==> !(name <= lines[i])
    ensures Rewrite(lines, name, line) == lines[..k] + ([line] + Rewrite(lines, name, line)[k + 1..])
  {
    var after := Rewrite(lines, name, line);
    assert after[k] == line && after[..k] == lines[..k];
    assert after == after[..k] + ([after[k]] + after[k + 1..]);
  }

  lemma FrontIsTerminated(lines: seq<string>, k: nat)
    requires WellFormed(lines) && k < |lines|
    ensures forall l <- lines[..k] :: Terminated(l)
  {
  }

  /** The written file up to its first rewritten line. */
  lemma WrittenUpToHead(text: string, name: string, v: Version, url: string) returns (front: seq<string>, rest: string)
    requires HasLine(FileLines(text), name)
    ensures Written(text, name, v, url) == Concat(front) + (Head(name, v) + rest)
    ensures forall l <- front :: Terminated(l) && !(name <= l)
    ensures '\r' !in Concat(front)
  {
    hide Lines, Universal, Rewrite, WellFormed, Terminated, Concat, Head, VersionLine;
    var lines := FileLines(text);
    var k := FirstLine(lines, name);
    var line := VersionLine(name, v, url);
    front := lines[..k];
    var more := Rewrite(lines, name, line)[k + 1..];
    RewrittenUpTo(lines, name, line, k);
    ConcatAppend(front, [line] + more);
    ConcatOfOne(line, more);
    VersionLineFromHead(name, v, url);
    rest := url + "\n" + Concat(more);
    Assoc(Head(name, v), url + "\n", Concat(more));
    LinesFacts(Universal(text));
    FrontIsTerminated(lines, k);
    PiecesAvoid(lines, '\r');
    ConcatAvoids(front, '\r');
  }

  lemma ConcatOfOne(line: string, more: seq<string>)
    ensures Concat([line] + more) == line + Concat(more)
  {
    assert ([line] + more)[1..] == more;
  }

  lemma FileLinesUpToHead(front: seq<string>, head: string, rest: string) returns (tail: string, more: seq<string>)
    requires forall l <- front :: Terminated(l)
    requires '\r' !in Concat(front) && '\r' !in head && '\n' !in head && head != ""
    ensures FileLines(Concat(front) + (head + rest)) == front + ([head + tail] + more) && DotStar(tail)
  {
    UniversalAppend(Concat(front), head + rest);
    UniversalAppend(head, rest);
    var body := head + Universal(rest);
    LinesAppend(front, body);
    LinesOfHead(head, Universal(rest));
    var seen := Lines(body);
    tail, more := seen[0][|head|..], seen[1..];
    assert head + tail == seen[0];
    assert [head + tail] + more == seen;
  }

  /** Reading the written file gives back the written version for every URL, line breaks
      included, provided the version has two to four components. */
  lemma WriteThenRead(text: string, name: string, v: Version, url: string)
    requires Word(name) && HasLine(FileLines(text), name) && 2 <= |v| <= 4
    ensures ReadVersion(FileLines(Written(text, name, v, url)), name) == Some(v)
  {
    var front, rest := WrittenUpToHead(text, name, v, url);
    HeadIsPlain(name, v);
    var tail, more := FileLinesUpToHead(front, Head(name, v), rest);
    HeadMatches(name, v, tail);
    NonNameLinesDoNotMatch(front, name);
    ReadVersionSkips(front, [Head(name, v) + tail] + more, name);
  }

  lemma {:induction false} PiecesAvoid(lines: seq<string>, c: char)
    requires c !in Concat(lines)
    ensures forall l <- lines :: c !in l
  {
    if lines != [] {
      PiecesAvoid(lines[1..], c);
    }
  }

  lemma {:induction false} ConcatAvoids(lines: seq<string>, c: char)
    requires forall l <- lines :: c !in l
    ensures c !in Concat(lines)
  {
    if lines != [] {
      ConcatAvoids(lines[1..], c);
    }
  }

  lemma VersionLineTerminated(name: string, v: Version, url: string)
    requires Word(name) && LineSafe(url)
    ensures Terminated(VersionLine(name, v, url)) && '\r' !in VersionLine(name, v, url)
    ensures VersionLine(name, v, url) == Head(name, v) + (url + "\n")
  {
    HeadIsPlain(name, v);
    VersionLineFromHead(name, v, url);
    assert VersionLine(name, v, url)[..|VersionLine(name, v, url)| - 1] == Head(name, v) + url;
  }

  lemma RawLinesOfWritten(text: string, name: string, v: Version, url: string)
    requires Word(name) && LineSafe(url)
    ensures Lines(Written(text, name, v, url)) == Rewrite(FileLines(text), name, VersionLine(name, v, url))
    ensures '\r' !in Written(text, name, v, url)
  {
    hide Lines, Universal, Rewrite, WellFormed, Terminated, Concat, VersionLine;
    var line := VersionLine(name, v, url);
    var after := Rewrite(FileLines(text), name, line);
    VersionLineTerminated(name, v, url);
    LinesFacts(Universal(text));
    PiecesAvoid(FileLines(text), '\r');
    RewriteKeepsShape(FileLines(text), name, line);
    ConcatAvoids(after, '\r');
    LinesOfConcat(after);
  }

  lemma RewriteKeepsShape(lines: seq<string>, name: string, line: string)
    requires WellFormed(lines) && Terminated(line) && '\r' !in line && forall l <- lines :: '\r' !in l
    ensures WellFormed(Rewrite(lines, name, line)) && forall l <- Rewrite(lines, name, line) :: '\r' !in l
  {
    hide Terminated;
  }

  /** With a one-line URL, what a script reads back is the rewritten list of lines: as many as
      before, every line not starting with the name untouched. */
  lemma LinesOfWritten(text: string, name: string, v: Version, url: string)
    requires Word(name) && LineSafe(url)
    ensures FileLines(Written(text, name, v, url)) == Rewrite(FileLines(text), name, VersionLine(name, v, url))
    ensures |FileLines(Written(text, name, v, url))| == |FileLines(text)|
    ensures forall i :: 0 <= i < |FileLines(text)| ==>
      FileLines(Written(text, name, v, url))[i]
        == if name <= FileLines(text)[i] then VersionLine(name, v, url) else FileLines(text)[i]
  {
    RawLinesOfWritten(text, name, v, url);
  }

  /** An independent reader of the comment: what follows the first '#' of a line and one space. */
  function UrlOf(line: string): Option<string>
  {
    var at := First(line, "#");
    if at.None? || !(" " <= line[at.value + 1..]) then None else Some(Bare(line[at.value + 2..]))
  }

  lemma UrlOfParts(front: string, url: string)
    requires '#' !in front
    ensures UrlOf(front + ("#" + (" " + (url + "\n")))) == Some(url)
  {
    var rest := " " + (url + "\n");
    var line := front + ("#" + rest);
    FirstHash(front, rest);
    hide First;
    DropTwo(front, "#", rest);
    TakeDrop(" ", url + "\n");
    TakeDrop(url, "\n");
    assert line[|front| + 2..] == line[|front| + 1..][1..];
  }

  /** The written line carries the URL in its comment, whole. */
  lemma UrlReadsBack(name: string, v: Version, url: string)
    requires Word(name) && LineSafe(url)
    ensures UrlOf(VersionLine(name, v, url)) == Some(url)
  {
    HeadHasNoHash(name, v);
    LineAroundHash(name, v, url);
    hide Print, Word, VersionLine, UrlOf;
    UrlOfParts(name + "=" + Print(v) + "  ", url);
  }

  lemma LineAroundHash(name: string, v: Version, url: string)
    ensures VersionLine(name, v, url) == name + "=" + Print(v) + "  " + ("#" + (" " + (url + "\n")))
  {
    hide Print;
    assert VersionLine(name, v, url) == name + "=" + Body(v, url) + "\n";
  }

  lemma HeadHasNoHash(name: string, v: Version)
    requires Word(name)
    ensures '#' !in name + "=" + Print(v) + "  "
  {
    PrintChars(v);
  }

  lemma FirstHash(front: string, rest: string)
    requires '#' !in front
    ensures First(front + ("#" + rest), "#") == Some(|front|)
  {
    FirstChar(front, '#', rest);
    Assoc(front, "#", rest);
  }

  /** The exact condition for reading back a one-line URL's version: two to four components.
      Every other version leaves a file on which the reader raises. */
  lemma WriteThenReadIff(text: string, name: string, v: Version, url: string)
    requires Word(name) && LineSafe(url) && HasLine(FileLines(text), name)
    ensures ReadVersion(FileLines(Written(text, name, v, url)), name) == if 2 <= |v| <= 4 then Some(v) else None
  {
    if 2 <= |v| <= 4 {
      WriteThenRead(text, name, v, url);
    } else {
      LinesOfWritten(text, name, v, url);
      VersionLineTerminated(name, v, url);
      HeadMatches(name, v, url + "\n");
      var after := FileLines(Written(text, name, v, url));
      forall l <- after ensures MatchLine(name, l).None? {
        assert name <= name + "=";
      }
      ReadVersionExact(after, name);
    }
  }

  // ---------- several writes ----------

  /** Writing twice is writing the last value. */
  lemma LastWriteWins(text: string, name: string, v: Version, url: string, v': Version, url': string)
    requires Word(name) && LineSafe(url)
    ensures Written(Written(text, name, v, url), name, v', url') == Written(text, name, v', url')
  {
    LinesOfWritten(text, name, v, url);
    assert name <= VersionLine(name, v, url);
    var line' := VersionLine(name, v', url');
    assert Rewrite(Rewrite(FileLines(text), name, VersionLine(name, v, url)), name, line')
        == Rewrite(FileLines(text), name, line');
  }

  /** Where the '=' of a written line stands tells the name. */
  lemma WordHolds(word: string, s: string, i: int)
    requires Word(word) && word <= s && 0 <= i < |s| && !WordChar(s[i])
    ensures i >= |word|
  {
    assert forall j :: 0 <= j < |word| ==> s[j] == word[j] && word[j] in word;
  }

  lemma PrefixOfVersionLine(name: string, other: string, v: Version, url: string)
    requires Word(name) && Word(other)
    ensures other <= VersionLine(name, v, url) <==> other <= name
    ensures other + "=" <= VersionLine(name, v, url) <==> other == name
  {
    var line := VersionLine(name, v, url);
    assert name <= line && line[|name|] == '=';
    if other <= line {
      WordHolds(other, line, |name|);
    }
    if other + "=" <= line {
      assert line[|other|] == (other + "=")[|other|];
      WordHolds(name, line, |other|);
    }
    if other <= name {
      assert other <= line;
    }
  }

  lemma RewritesCommute(lines: seq<string>, name: string, line: string, name': string, line': string)
    requires name <= line && name' <= line'
    requires name <= line' <==> name <= name'
    requires name' <= line <==> name' <= name
    requires name != name'
    ensures Rewrite(Rewrite(lines, name, line), name', line') == Rewrite(Rewrite(lines, name', line'), name, line)
  {
    forall i | 0 <= i < |lines| && name <= lines[i] && name' <= lines[i] ensures name <= name' || name' <= name {
      if |name| <= |name'| {
        assert name == lines[i][..|name|] == name'[..|name|];
      } else {
        assert name' == lines[i][..|name'|] == name[..|name'|];
      }
    }
  }

  /** Writes for two different names commute, even when one name is a prefix of the other. */
  lemma WritesCommute(text: string, name: string, v: Version, url: string, name': string, v': Version, url': string)
    requires Word(name) && Word(name') && name != name' && LineSafe(url) && LineSafe(url')
    ensures Written(Written(text, name, v, url), name', v', url')
      == Written(Written(text, name', v', url'), name, v, url)
  {
    LinesOfWritten(text, name, v, url);
    LinesOfWritten(text, name', v', url');
    PrefixOfVersionLine(name, name', v, url);
    PrefixOfVersionLine(name', name, v', url');
    PrefixOfVersionLine(name, name, v, url);
    PrefixOfVersionLine(name', name', v', url');
    RewritesCommute(FileLines(text), name, VersionLine(name, v, url), name', VersionLine(name', v', url'));
  }

  lemma {:induction false} ReadVersionSameMatches(a: seq<string>, b: seq<string>, name: string)
    requires |a| == |b| && forall i :: 0 <= i < |a| ==> MatchLine(name, a[i]) == MatchLine(name, b[i])
    ensures ReadVersion(a, name) == ReadVersion(b, name)
  {
    if a != [] {
      ReadVersionSameMatches(a[1..], b[1..], name);
    }
  }

  /** A write for one name keeps another readable name's version exactly when the written name
      is not a prefix of the other; otherwise it destroys the other's lines. */
  lemma OtherReadingKept(text: string, name: string, v: Version, url: string, other: string)
    requires Word(name) && Word(other) && name != other && LineSafe(url)
    requires ReadVersion(FileLines(text), other).Some?
    ensures !(name <= other) ==>
      ReadVersion(FileLines(Written(text, name, v, url)), other) == ReadVersion(FileLines(text), other)
    ensures name <= other ==> ReadVersion(FileLines(Written(text, name, v, url)), other).None?
  {
    LinesOfWritten(text, name, v, url);
    PrefixOfVersionLine(name, other, v, url);
    var lines, after := FileLines(text), FileLines(Written(text, name, v, url));
    assert other <= other + "=";
    if name <= other {
      forall l <- after ensures MatchLine(other, l).None? {
        PrefixTransitive(name, other, l);
        PrefixTransitive(other, other + "=", l);
      }
      ReadVersionExact(after, other);
    } else {
      forall i | 0 <= i < |lines| ensures MatchLine(other, lines[i]) == MatchLine(other, after[i]) {
        if name <= lines[i] && other + "=" <= lines[i] {
          TwoPrefixes(name, other, lines[i]);
        }
      }
      ReadVersionSameMatches(lines, after, other);
    }
  }

  lemma TwoPrefixes(name: string, other: string, line: string)
    requires Word(name) && name <= line && other + "=" <= line
    ensures name <= other
  {
    assert line[|other|] == (other + "=")[|other|];
    WordHolds(name, line, |other|);
    assert name == line[..|name|] == other[..|name|];
  }

  // ---------- the release script's reader ----------

  function Bare(line: string): string
  {
    if line != "" && line[|line| - 1] == '\n' then line[..|line| - 1] else line
  }

  function LastHash(s: string): (n: nat)
    requires '#' in s
    ensures n < |s| && s[n] == '#' && forall i :: n < i < |s| ==> s[i] != '#'
  {
    if s[|s| - 1] == '#' then |s| - 1
    else
      assert s == s[..|s| - 1] + [s[|s| - 1]];
      LastHash(s[..|s| - 1])
  }

  function DropSpaces(s: string): (r: string)
    ensures forall c :: c in r <==> c in s && c != ' '
  {
    if s == "" then "" else (if s[0] == ' ' then "" else [s[0]]) + DropSpaces(s[1..])
  }

  // The two sed commands on one line: the greedy group of 's/NAME=(.*)(\s?#.*)/\1/p' runs to the
  // last '#', text before NAME= stays, and the second command deletes every space.
  function SedLine(name: string, line: string): Option<string>
  {
    var at := First(line, name + "=");
    if at.None? then None
    else
      var rest := line[at.value + |name| + 1..];
      if '#' !in rest then None else Some(DropSpaces(line[..at.value] + rest[..LastHash(rest)]))
  }

  function SedOutput(lines: seq<string>, name: string): string
  {
    if lines == [] then ""
    else
      var out := SedLine(name, Bare(lines[0]));
      (if out.Some? then out.value + "\n" else "") + SedOutput(lines[1..], name)
  }

  predicate IsNewline(c: char)
  {
    c == '\n'
  }

  /** $(version NAME): the shell drops trailing newlines. */
  function ShipitVersion(text: string, name: string): string
  {
    DropTrailing(SedOutput(Lines(text), name), IsNewline)
  }

  lemma {:induction false} DropSpacesAppend(a: string, b: string)
    ensures DropSpaces(a + b) == DropSpaces(a) + DropSpaces(b)
  {
    if a == "" {
      assert a + b == b;
    } else {
      DropSpacesAppend(a[1..], b);
      TailOfSum(a, b);
      var first := if a[0] == ' ' then "" else [a[0]];
      Assoc(first, DropSpaces(a[1..]), DropSpaces(b));
    }
  }

  lemma {:induction false} DropSpacesNone(s: string)
    requires ' ' !in s
    ensures DropSpaces(s) == s
  {
    if s != "" {
      DropSpacesNone(s[1..]);
    }
  }

  /** What the release script cuts out of a line whose name stands at its start. */
  lemma SedOfBody(name: string, body: string)
    requires '#' in body
    ensures SedLine(name, name + "=" + body) == Some(DropSpaces(body[..LastHash(body)]))
  {
    var line := name + "=" + body;
    assert At(line, name + "=", 0);
    assert line[|name| + 1..] == body;
    assert line[..0] + body[..LastHash(body)] == body[..LastHash(body)];
  }

  lemma LastHashIs(a: string, b: string)
    ensures '#' in a + "#" + b
    ensures '#' !in b ==> LastHash(a + "#" + b) == |a|
    ensures LastHash(a + "#" + b) >= |a|
    ensures '#' in b ==> LastHash(a + "#" + b) > |a|
  {
    var s := a + "#" + b;
    assert s[|a|] == '#';
    var n := LastHash(s);
    if n > |a| {
      assert b[n - |a| - 1] == s[n];
    }
    assert s[|a| + 1..] == b;
  }

  lemma SedOfParts(name: string, front: string, back: string)
    ensures SedLine(name, name + "=" + (front + "#" + back)).Some?
    ensures '#' !in back ==> SedLine(name, name + "=" + (front + "#" + back)).value == DropSpaces(front)
    ensures '#' in back ==> '#' in SedLine(name, name + "=" + (front + "#" + back)).value
    ensures forall c <- SedLine(name, name + "=" + (front + "#" + back)).value :: c in front || c == '#' || c in back
    ensures DropSpaces(front) <= SedLine(name, name + "=" + (front + "#" + back)).value
  {
    hide SedLine, LastHash, DropSpaces;
    var body := front + "#" + back;
    LastHashIs(front, back);
    SedOfBody(name, body);
    CutParts(front, back, LastHash(body));
    var extra := body[|front|..LastHash(body)];
    DropSpacesAppend(front, extra);
    if '#' in back {
      assert extra[0] in DropSpaces(extra);
    } else {
      assert DropSpaces(front + "") == DropSpaces(front) by {
        assert front + "" == front;
      }
    }
  }

  lemma CutParts(front: string, back: string, n: nat)
    requires |front| <= n <= |front| + |back|
    ensures var body := front + "#" + back;
      && body[..n] == front + body[|front|..n] && (n > |front| ==> body[|front|..n][0] == '#')
      && (n == |front| ==> body[|front|..n] == "")
      && forall c <- body[..n] :: c in front || c == '#' || c in back
  {
    var body := front + "#" + back;
    assert forall c <- body[..n] :: c in body;
  }

  lemma VersionAndSpaces(v: Version)
    ensures var front := Print(v) + "  ";
      DropSpaces(front) == Print(v) && Print(v) != "" && '\n' !in front && '#' !in Print(v)
  {
    PrintChars(v);
    hide Print, DropSpaces;
    DropSpacesAppend(Print(v), "  ");
    DropSpacesNone(Print(v));
    TwoSpaces();
    assert Print(v) + "" == Print(v);
  }

  lemma SpaceAndUrl(url: string)
    requires LineSafe(url)
    ensures '\n' !in " " + url && ('#' in " " + url <==> '#' in url)
  {
  }

  lemma SedOfVersionLine(name: string, v: Version, url: string)
    requires Word(name) && LineSafe(url)
    ensures var out := SedLine(name, Bare(VersionLine(name, v, url)));
      out.Some? && '\n' !in out.value && out.value != "" && (out.value == Print(v) <==> '#' !in url)
  {
    hide Print, SedLine, Bare, DropSpaces, VersionLine, LineSafe, Word;
    BareVersionLine(name, v, url);
    VersionAndSpaces(v);
    SpaceAndUrl(url);
    SedOfParts(name, Print(v) + "  ", " " + url);
  }

  lemma TwoSpaces()
    ensures DropSpaces("  ") == ""
  {
    assert "  "[1..] == " " && " "[1..] == "";
  }

  lemma BareVersionLine(name: string, v: Version, url: string)
    ensures Bare(VersionLine(name, v, url)) == name + "=" + (Print(v) + "  " + "#" + (" " + url))
  {
    assert VersionLine(name, v, url) == name + "=" + Body(v, url) + "\n";
  }

  /** What the two commands make of any line: without NAME= before a '#' they print nothing; else
      the text around the first NAME=, up to the last '#', without its spaces. */
  lemma SedLineCuts(name: string, front: string, group: string, comment: string)
    requires '#' !in comment
    requires First(front + name + "=" + group + "#" + comment, name + "=") == Some(|front|)
    ensures SedLine(name, front + name + "=" + group + "#" + comment) == Some(DropSpaces(front + group))
  {
    var rest := group + "#" + comment;
    var line := front + name + "=" + group + "#" + comment;
    Assoc(front + name + "=", group, "#");
    Assoc(front + name + "=", group + "#", comment);
    assert line == front + name + "=" + rest;
    TakeDrop(front + name + "=", rest);
    assert line[..|front|] == front;
    LastHashIs(group, comment);
    assert rest[..|group|] == group;
  }

  lemma SedLineNone(name: string, line: string)
    ensures SedLine(name, line).None? <==> forall i: nat :: At(line, name + "=", i) ==> '#' !in line[i + |name| + 1..]
  {
    var at := First(line, name + "=");
    if at.Some? {
      forall i: nat | At(line, name + "=", i) && '#' in line[i + |name| + 1..]
        ensures '#' in line[at.value + |name| + 1..]
      {
        var k :| 0 <= k < |line[i + |name| + 1..]| && line[i + |name| + 1..][k] == '#';
        assert line[at.value + |name| + 1..][i - at.value + k] == '#';
      }
    }
  }

  // ---------- what the shell makes of the output ----------

  predicate AllNewlines(s: string)
  {
    forall c <- s :: c == '\n'
  }

  /** The line contributes at most an empty output line. */
  predicate Quiet(name: string, line: string)
  {
    SedLine(name, Bare(line)).None? || SedLine(name, Bare(line)).value == ""
  }

  /** Line k prints `out`, nothing is printed before it and nothing but empty lines after it. */
  ghost predicate PrintsOnly(lines: seq<string>, name: string, k: nat, out: string)
  {
    && k < |lines| && SedLine(name, Bare(lines[k])) == Some(out)
    && (forall i :: 0 <= i < k ==> SedLine(name, Bare(lines[i])).None?)
    && forall i :: k < i < |lines| ==> Quiet(name, lines[i])
  }

  lemma TrimmedIsFirst(out: string, rest: string, p: string)
    requires '\n' !in out && '\n' !in p && p != ""
    ensures DropTrailing(out + "\n" + rest, IsNewline) == p <==> out == p && AllNewlines(rest)
  {
    var s := out + "\n" + rest;
    assert s == out + ("\n" + rest);
    var r := DropTrailing(s, IsNewline);
    if out == p && AllNewlines(rest) {
      assert p[|p| - 1] in p;
      DropTrailingIs(out, "\n" + rest, IsNewline);
    }
    if r == p {
      NewlineFollows(s, p);
      assert s == p + ['\n'] + s[|p| + 1..] && s == out + ['\n'] + rest;
      CutAtFirst(p, s[|p| + 1..], out, rest, '\n');
    }
  }

  lemma NewlineFollows(s: string, p: string)
    requires DropTrailing(s, IsNewline) == p && '\n' in s && '\n' !in p
    ensures |p| < |s| && s[|p|] == '\n' && AllNewlines(s[|p| + 1..])
  {
    assert p <= s && s != p;
  }

  lemma BareHasNoNewline(lines: seq<string>)
    requires WellFormed(lines)
    ensures forall l <- lines :: '\n' !in Bare(l)
    ensures lines != [] ==> WellFormed(lines[1..])
  {
  }

  lemma SedLineChars(name: string, line: string)
    requires '\n' !in line
    ensures SedLine(name, line).Some? ==> '\n' !in SedLine(name, line).value
  {
  }

  lemma {:induction false} QuietOutput(lines: seq<string>, name: string)
    requires WellFormed(lines)
    ensures AllNewlines(SedOutput(lines, name)) <==> forall i :: 0 <= i < |lines| ==> Quiet(name, lines[i])
  {
    hide SedLine, Bare, WellFormed;
    if lines != [] {
      BareHasNoNewline(lines);
      assert lines[0] in lines;
      SedLineChars(name, Bare(lines[0]));
      QuietOutput(lines[1..], name);
      var out := SedLine(name, Bare(lines[0]));
      if out.Some? && out.value != "" {
        assert SedOutput(lines, name)[0] == out.value[0] && out.value[0] in out.value;
      }
      assert forall i :: 0 < i < |lines| ==> lines[i] == lines[1..][i - 1];
    }
  }

  /** What $(...) leaves of the output is one nonempty line exactly when one line of the file
      prints it first and the others print nothing but, after it, empty lines. */
  lemma {:induction false} TrimmedOutputIff(lines: seq<string>, name: string, p: string)
    requires WellFormed(lines) && '\n' !in p && p != ""
    ensures DropTrailing(SedOutput(lines, name), IsNewline) == p <==> exists k: nat :: PrintsOnly(lines, name, k, p)
  {
    hide SedLine, Bare, WellFormed, Quiet, DropTrailing;
    if lines == [] {
      NothingTrimmed();
    } else {
      BareHasNoNewline(lines);
      assert lines[0] in lines;
      SedLineChars(name, Bare(lines[0]));
      var rest := lines[1..];
      assert forall i :: 0 < i < |lines| ==> lines[i] == rest[i - 1];
      var out := SedLine(name, Bare(lines[0]));
      if out.Some? {
        TrimmedIsFirst(out.value, SedOutput(rest, name), p);
        QuietOutput(rest, name);
        assert PrintsOnly(lines, name, 0, p) <==>
          out.value == p && forall i :: 0 <= i < |rest| ==> Quiet(name, rest[i]);
      } else {
        assert "" + SedOutput(rest, name) == SedOutput(rest, name);
        TrimmedOutputIff(rest, name, p);
        ShiftPrintsOnly(lines, name, p);
      }
    }
  }

  lemma NothingTrimmed()
    ensures DropTrailing("", IsNewline) == ""
  {
  }

  lemma ShiftPrintsOnly(lines: seq<string>, name: string, p: string)
    requires lines != [] && SedLine(name, Bare(lines[0])).None?
    ensures (exists k: nat :: PrintsOnly(lines, name, k, p)) <==> exists k: nat :: PrintsOnly(lines[1..], name, k, p)
  {
    hide SedLine, Bare, Quiet;
    var rest := lines[1..];
    if k: nat :| PrintsOnly(lines, name, k, p) {
      assert PrintsOnly(rest, name, k - 1, p);
    }
    if k: nat :| PrintsOnly(rest, name, k, p) {
      assert forall i :: 0 < i < |lines| ==> lines[i] == rest[i - 1];
      assert PrintsOnly(lines, name, k + 1, p);
    }
  }

  /** Exactly one line carries the name; the lines before it print nothing and the lines after it
      nothing but empty lines. */
  ghost predicate Alone(lines: seq<string>, name: string, k: nat)
  {
    && k < |lines| && name <= lines[k]
    && (forall i :: 0 <= i < k ==> !(name <= lines[i]) && SedLine(name, Bare(lines[i])).None?)
    && forall i :: k < i < |lines| ==> !(name <= lines[i]) && Quiet(name, lines[i])
  }

  lemma AloneInRewritten(lines: seq<string>, name: string, line: string, p: string)
    requires name <= line && HasLine(lines, name) && p != "" && !Quiet(name, line)
    ensures (exists k: nat :: PrintsOnly(Rewrite(lines, name, line), name, k, p))
       <==> SedLine(name, Bare(line)) == Some(p) && exists k: nat :: Alone(lines, name, k)
  {
    hide SedLine, Bare;
    var after := Rewrite(lines, name, line);
    if k: nat :| PrintsOnly(after, name, k, p) {
      OtherLinesAreQuiet(after, name, line, k, p);
      forall i | 0 <= i < |lines| && name <= lines[i] ensures i == k {
        assert after[i] == line;
      }
      assert forall i :: 0 <= i < |lines| && i != k ==> after[i] == lines[i];
      assert Alone(lines, name, k);
    }
    if k: nat :| SedLine(name, Bare(line)) == Some(p) && Alone(lines, name, k) {
      assert PrintsOnly(after, name, k, p);
    }
  }

  lemma OtherLinesAreQuiet(after: seq<string>, name: string, line: string, k: nat, p: string)
    requires PrintsOnly(after, name, k, p) && !Quiet(name, line)
    ensures forall i :: 0 <= i < |after| && i != k ==> after[i] != line
  {
    hide SedLine, Bare;
  }

  /** The two readers return the same text on a written file exactly when the URL has no '#', one
      line carries the name, and no other line prints anything. Two such lines, for instance, give
      the release script the version twice. */
  lemma TwoReadersAgree(text: string, name: string, v: Version, url: string)
    requires Word(name) && LineSafe(url) && HasLine(FileLines(text), name)
    ensures ShipitVersion(Written(text, name, v, url), name) == Print(v)
       <==> '#' !in url && exists k: nat :: Alone(FileLines(text), name, k)
  {
    hide SedOutput, SedLine, DropTrailing, Rewrite, WellFormed, HasLine, Lines, Universal;
    var line := VersionLine(name, v, url);
    var after := Rewrite(FileLines(text), name, line);
    SedOfVersionLine(name, v, url);
    RawLinesOfWritten(text, name, v, url);
    LinesFacts(Written(text, name, v, url));
    PrintChars(v);
    TrimmedOutputIff(after, name, Print(v));
    AloneInRewritten(FileLines(text), name, line, Print(v));
    assert name <= line;
  }
}
