/** The ttar text archive: blocks of a header line with a path, then the content; and the spec
    helper that looks an entry up by splitting on the header. */
module Ttar {
  import opened Text
  import Packaging

  /** A marker that introduces a path: any non-empty piece of one line. */
  type Header = h: string | h != "" && '\n' !in h witness "="

  /** The marker in the archives of this release. */
  const HEADER: Header := "========================== 0600 "

  datatype Member = Member(path: string, content: string)

  datatype Lookup = Content(text: string) | Missing | NotFound(paths: seq<string>)

  // ---------- writing ----------

  function Block(h: Header, m: Member): string
  {
    "\n" + (h + (m.path + ("\n" + m.content + "\n")))
  }

  function Blocks(h: Header, ms: seq<Member>): string
  {
    if ms == [] then "" else Block(h, ms[0]) + Blocks(h, ms[1..])
  }

  function Archive(h: Header, lead: string, ms: seq<Member>, trail: string): string
  {
    lead + (Blocks(h, ms) + trail)
  }

  // ---------- reading ----------

  /** A text cut at its markers: what precedes the first, then each captured path with the text
      that follows it. */
  datatype Cut = Cut(lead: string, found: seq<Member>)

  function CutAt(h: Header, text: string): Cut
    decreases |text|
  {
    var at := First(text, h);
    if at.None? then Cut(text, [])
    else
      var rest := text[at.value + |h|..];
      var n := Span(rest, Packaging.NotNewline);
      var more := CutAt(h, rest[n..]);
      Cut(text[..at.value], [Member(rest[..n], more.lead)] + more.found)
  }

  function Flat(ms: seq<Member>): seq<string>
  {
    if ms == [] then [] else [ms[0].path, ms[0].content] + Flat(ms[1..])
  }

  /** String#split on marker(.*): texts and captured paths alternate. */
  function Pieces(h: Header, text: string): seq<string>
  {
    [CutAt(h, text).lead] + Flat(CutAt(h, text).found)
  }

  /** split drops trailing empty fields. */
  function DropEmpty(pieces: seq<string>): (r: seq<string>)
    ensures r <= pieces
  {
    if pieces != [] && pieces[|pieces| - 1] == "" then DropEmpty(pieces[..|pieces| - 1]) else pieces
  }

  predicate IsVcapPath(s: string)
  {
    First(s, "/var/vcap").Some?
  }

  /** The piece after the first one equal to the path; `seen` collects the paths passed by. */
  function LookupIn(entries: seq<string>, path: string, seen: seq<string>): Lookup
  {
    if entries == [] then NotFound(seen)
    else if entries[0] == path then (if |entries| > 1 then Content(entries[1]) else Missing)
    else LookupIn(entries[1..], path, if IsVcapPath(entries[0]) then seen + [entries[0]] else seen)
  }

  function Answer(h: Header, text: string, path: string): Lookup
  {
    LookupIn(DropEmpty(Pieces(h, text)), path, [])
  }

  method TtarEntry(text: string, path: string) returns (r: Lookup)
    ensures r == Answer(HEADER, text, path)
  {
    var entries := DropEmpty(Pieces(HEADER, text));
    var paths: seq<string> := [];
    assert entries[0..] == entries;
    for i := 0 to |entries|
      invariant LookupIn(entries, path, []) == LookupIn(entries[i..], path, paths)
    {
      var e := entries[i];
      assert entries[i..][1..] == entries[i + 1..];
      if e == path {
        return if i + 1 < |entries| then Content(entries[i + 1]) else Missing;
      }
      if IsVcapPath(e) {
        paths := paths + [e];
      }
    }
    return NotFound(paths);
  }

  // ---------- the reader, law by law ----------

  function Uncut(h: Header, found: seq<Member>): string
  {
    if found == [] then "" else h + (found[0].path + (found[0].content + Uncut(h, found[1..])))
  }

  lemma UncutCons(h: Header, m: Member, found: seq<Member>)
    ensures Uncut(h, [m] + found) == h + (m.path + (m.content + Uncut(h, found)))
  {
    assert ([m] + found)[1..] == found;
  }

  lemma PartsOf(text: string, at: nat, h: string, n: nat)
    requires At(text, h, at) && at + |h| + n <= |text|
    ensures var rest := text[at + |h|..]; text == text[..at] + (h + (rest[..n] + rest[n..]))
  {
    var rest := text[at + |h|..];
    assert rest == rest[..n] + rest[n..];
    assert text == text[..at] + text[at..] && text[at..] == text[at..at + |h|] + rest;
  }

  /** Nothing is lost in cutting: the pieces with their markers are the text. */
  lemma {:induction false} CutRejoins(h: Header, text: string)
    ensures CutAt(h, text).lead + Uncut(h, CutAt(h, text).found) == text
    decreases |text|
  {
    hide CutAt, First, Span, Uncut, At;
    var at := First(text, h);
    if at.None? {
      NoMarker(h, text);
    } else {
      FirstFits(h, text);
      var rest := text[at.value + |h|..];
      var n := Span(rest, Packaging.NotNewline);
      CutUnfolds(h, text, at.value);
      CutRejoins(h, rest[n..]);
      RejoinStep(h, text, at.value, n, CutAt(h, rest[n..]));
    }
  }

  lemma RejoinStep(h: Header, text: string, at: nat, n: nat, more: Cut)
    requires At(text, h, at) && at + |h| + n <= |text|
    requires more.lead + Uncut(h, more.found) == text[at + |h|..][n..]
    ensures text[..at] + Uncut(h, [Member(text[at + |h|..][..n], more.lead)] + more.found) == text
  {
    hide Uncut, At;
    UncutCons(h, Member(text[at + |h|..][..n], more.lead), more.found);
    PartsOf(text, at, h, n);
  }

  lemma FirstFits(h: Header, text: string)
    ensures First(text, h).Some? ==> First(text, h).value + |h| <= |text| && At(text, h, First(text, h).value)
  {
  }

  /** No path runs past its line. */
  lemma {:induction false} CutPathsAreLines(h: Header, text: string)
    ensures forall i :: 0 <= i < |CutAt(h, text).found| ==> '\n' !in CutAt(h, text).found[i].path
    decreases |text|
  {
    hide CutAt, First, Span, At;
    var at := First(text, h);
    if at.None? {
      NoMarker(h, text);
    } else {
      FirstFits(h, text);
      var rest := text[at.value + |h|..];
      CutUnfolds(h, text, at.value);
      OneLine(rest);
      CutPathsAreLines(h, rest[Span(rest, Packaging.NotNewline)..]);
    }
  }

  lemma NoMarker(h: Header, text: string)
    requires First(text, h).None?
    ensures CutAt(h, text) == Cut(text, []) && text + Uncut(h, []) == text
  {
  }

  lemma OneLine(rest: string)
    ensures '\n' !in rest[..Span(rest, Packaging.NotNewline)]
  {
    SpanFacts(rest, Packaging.NotNewline);
    hide Span;
  }

  /** The fields alternate: the leading text, then every captured path with the text after it. */
  lemma PiecesAlternate(h: Header, text: string)
    ensures var cut, pieces := CutAt(h, text), Pieces(h, text);
      && |pieces| == 1 + 2 * |cut.found| && pieces[0] == cut.lead
      && forall k :: 0 <= k < |cut.found| ==>
           pieces[1 + 2 * k] == cut.found[k].path && pieces[2 + 2 * k] == cut.found[k].content
  {
    hide CutAt;
    FlatAlternates(CutAt(h, text).found);
  }

  lemma {:induction false} FlatAlternates(ms: seq<Member>)
    ensures |Flat(ms)| == 2 * |ms|
    ensures forall k :: 0 <= k < |ms| ==> Flat(ms)[2 * k] == ms[k].path && Flat(ms)[2 * k + 1] == ms[k].content
  {
    if ms != [] {
      FlatAlternates(ms[1..]);
      forall k | 0 <= k < |ms| ensures Flat(ms)[2 * k] == ms[k].path && Flat(ms)[2 * k + 1] == ms[k].content {
        if k > 0 {
          assert ms[1..][k - 1] == ms[k] && Flat(ms)[2 * k] == Flat(ms[1..])[2 * (k - 1)];
          assert Flat(ms)[2 * k + 1] == Flat(ms[1..])[2 * (k - 1) + 1];
        }
      }
    }
  }

  /** The fields of the text as split gives them: all up to the last nonempty one. */
  lemma {:induction false} DropEmptyIs(pieces: seq<string>)
    ensures DropEmpty(pieces) <= pieces
    ensures DropEmpty(pieces) != [] ==> DropEmpty(pieces)[|DropEmpty(pieces)| - 1] != ""
    ensures forall i :: |DropEmpty(pieces)| <= i < |pieces| ==> pieces[i] == ""
  {
    if pieces != [] && pieces[|pieces| - 1] == "" {
      DropEmptyIs(pieces[..|pieces| - 1]);
    }
  }

  /** Entry i of the list is the first equal to the path. */
  predicate FirstEntry(entries: seq<string>, path: string, i: nat)
  {
    i < |entries| && entries[i] == path && forall j :: 0 <= j < i ==> entries[j] != path
  }

  /** The answer for a path that is among the fields is the field after its first occurrence, or
      none if that is the last field. */
  lemma {:induction false} LookupFound(entries: seq<string>, path: string, seen: seq<string>, i: nat)
    requires FirstEntry(entries, path, i)
    ensures LookupIn(entries, path, seen) == if i + 1 < |entries| then Content(entries[i + 1]) else Missing
  {
    if i > 0 {
      LookupFound(entries[1..], path, if IsVcapPath(entries[0]) then seen + [entries[0]] else seen, i - 1);
    }
  }

  /** The positions that a failed lookup reports: those of the fields holding /var/vcap, in order. */
  ghost predicate Reported(entries: seq<string>, paths: seq<string>, idx: seq<nat>)
  {
    && |paths| == |idx| && (forall a, b :: 0 <= a < b < |idx| ==> idx[a] < idx[b])
    && (forall k :: 0 <= k < |idx| ==> idx[k] < |entries| && paths[k] == entries[idx[k]])
    && forall i :: 0 <= i < |entries| ==> (i in idx <==> Contains(entries[i], "/var/vcap"))
  }

  lemma ReportedSnoc(entries: seq<string>, e: string, paths: seq<string>, idx: seq<nat>)
    requires Reported(entries, paths, idx)
    ensures Contains(e, "/var/vcap") ==> Reported(entries + [e], paths + [e], idx + [|entries|])
    ensures !Contains(e, "/var/vcap") ==> Reported(entries + [e], paths, idx)
  {
    hide Contains;
    assert forall i :: 0 <= i < |entries| ==> (entries + [e])[i] == entries[i];
    assert forall i :: i in idx + [|entries|] <==> i in idx || i == |entries|;
  }

  lemma VcapIff(e: string)
    ensures IsVcapPath(e) <==> Contains(e, "/var/vcap")
  {
  }

  lemma {:induction false} LookupFails(
      before: seq<string>, entries: seq<string>, path: string, seen: seq<string>, idx: seq<nat>)
    returns (all: seq<nat>)
    requires path !in entries && Reported(before, seen, idx)
    ensures LookupIn(entries, path, seen).NotFound?
    ensures Reported(before + entries, LookupIn(entries, path, seen).paths, all)
    decreases |entries|
  {
    if entries == [] {
      all := idx;
      assert before + entries == before;
    } else {
      var e := entries[0];
      VcapIff(e);
      ReportedSnoc(before, e, seen, idx);
      hide Reported, IsVcapPath, Contains;
      assert entries == [e] + entries[1..];
      Assoc(before, [e], entries[1..]);
      assert forall x :: x in entries[1..] ==> x in entries;
      if IsVcapPath(e) {
        all := LookupFails(before + [e], entries[1..], path, seen + [e], idx + [|before|]);
      } else {
        all := LookupFails(before + [e], entries[1..], path, seen, idx);
      }
    }
  }

  /** The failing answer: a path among no fields of the text is reported with exactly the fields
      that hold /var/vcap, in their order. */
  lemma AbsentIsReported(h: Header, text: string, path: string) returns (idx: seq<nat>)
    requires path !in DropEmpty(Pieces(h, text))
    ensures Answer(h, text, path).NotFound?
    ensures Reported(DropEmpty(Pieces(h, text)), Answer(h, text, path).paths, idx)
  {
    var entries := DropEmpty(Pieces(h, text));
    hide Pieces, DropEmpty, LookupIn;
    assert Reported([], [], []);
    idx := LookupFails([], entries, path, [], []);
    assert [] + entries == entries;
  }

  // ---------- what every lookup returns ----------

  ghost predicate Clean(h: Header, s: string)
  {
    !Contains(s, h)
  }

  predicate TextSlot(s: string)
  {
    s == "" || s[0] == '\n'
  }

  lemma FirstCleans(h: Header, text: string)
    ensures var at := First(text, h); Clean(h, if at.Some? then text[..at.value] else text)
  {
    var at := First(text, h);
    if at.Some? {
      forall i: nat | At(text[..at.value], h, i) ensures At(text, h, i) && i < at.value {
        assert text[..at.value][i..i + |h|] == text[i..i + |h|];
      }
    }
  }

  lemma AfterLine(rest: string)
    ensures TextSlot(rest[Span(rest, Packaging.NotNewline)..])
  {
    SpanFacts(rest, Packaging.NotNewline);
  }

  lemma PrefixOfSlot(a: string, b: string)
    requires a <= b && TextSlot(b)
    ensures TextSlot(a)
  {
  }

  /** Cut texts are free of the marker, and each one after a path starts with a newline or is
      empty. */
  ghost predicate Shaped(h: Header, cut: Cut, text: string)
  {
    && Clean(h, cut.lead) && cut.lead <= text
    && forall i :: 0 <= i < |cut.found| ==> Clean(h, cut.found[i].content) && TextSlot(cut.found[i].content)
  }

  lemma ShapedCons(h: Header, text: string, lead: string, path: string, more: Cut, after: string)
    requires Clean(h, lead) && lead <= text && Shaped(h, more, after) && TextSlot(after)
    ensures Shaped(h, Cut(lead, [Member(path, more.lead)] + more.found), text)
  {
    hide Clean;
    PrefixOfSlot(more.lead, after);
  }

  lemma NoCut(h: Header, text: string)
    requires First(text, h).None?
    ensures CutAt(h, text) == Cut(text, []) && Shaped(h, CutAt(h, text), text)
  {
    FirstCleans(h, text);
  }

  lemma {:induction false} CutShapes(h: Header, text: string)
    ensures Shaped(h, CutAt(h, text), text)
    decreases |text|
  {
    hide CutAt, First, Clean, Span, Shaped, TextSlot;
    var at := First(text, h);
    if at.None? {
      NoCut(h, text);
    } else {
      var rest := text[at.value + |h|..];
      var n := Span(rest, Packaging.NotNewline);
      FirstCleans(h, text);
      AfterLine(rest);
      CutUnfolds(h, text, at.value);
      CutShapes(h, rest[n..]);
      ShapedCons(h, text, text[..at.value], rest[..n], CutAt(h, rest[n..]), rest[n..]);
    }
  }

  lemma CutUnfolds(h: Header, text: string, at: nat)
    requires First(text, h) == Some(at)
    ensures var rest := text[at + |h|..]; var n := Span(rest, Packaging.NotNewline);
      var more := CutAt(h, rest[n..]);
      CutAt(h, text) == Cut(text[..at], [Member(rest[..n], more.lead)] + more.found)
  {
  }

  predicate Absolute(path: string)
  {
    path != "" && path[0] == '/'
  }

  lemma {:induction false} LookupInFlat(ms: seq<Member>, entries: seq<string>, path: string, seen: seq<string>)
    requires entries <= Flat(ms) && Absolute(path)
    requires forall m <- ms :: TextSlot(m.content)
    requires LookupIn(entries, path, seen).Content?
    ensures Member(path, LookupIn(entries, path, seen).text) in ms
  {
    var seen' := if IsVcapPath(entries[0]) then seen + [entries[0]] else seen;
    assert ms[0] in ms;
    if entries[0] != path {
      var after := entries[1..];
      assert after != [] && after[0] == ms[0].content != path;
      assert after[1..] <= Flat(ms[1..]) by {
        assert Flat(ms)[2..] == Flat(ms[1..]);
        assert after[1..] == entries[2..] <= Flat(ms)[2..];
      }
      LookupInFlat(ms[1..], after[1..], path, if IsVcapPath(after[0]) then seen' + [after[0]] else seen');
    } else {
      assert entries[1] == Flat(ms)[1];
      assert ms[0] == Member(path, entries[1]);
    }
  }

  /** On every text that does not itself start with '/', looking up an absolute path never takes
      a text for a path: it returns the marker-free text after a captured path equal to it. */
  lemma LookupIsSlot(h: Header, text: string, path: string)
    requires Absolute(path) && !Absolute(text) && Answer(h, text, path).Content?
    ensures Member(path, Answer(h, text, path).text) in CutAt(h, text).found
    ensures Clean(h, Answer(h, text, path).text) && TextSlot(Answer(h, text, path).text)
  {
    CutShapes(h, text);
    var cut := CutAt(h, text);
    assert forall m <- cut.found :: Clean(h, m.content) && TextSlot(m.content);
    var pieces := [cut.lead] + Flat(cut.found);
    var entries := DropEmpty(pieces);
    assert pieces[1..] == Flat(cut.found);
    assert entries[0] == cut.lead != path;
    assert entries[1..] <= pieces[1..];
    LookupInFlat(cut.found, entries[1..], path, if IsVcapPath(entries[0]) then [] + [entries[0]] else []);
  }

  lemma {:induction false} NotAmongFields(ms: seq<Member>, path: string)
    requires Absolute(path) && forall m <- ms :: m.path != path && TextSlot(m.content)
    ensures path !in Flat(ms)
  {
    if ms != [] {
      assert ms[0] in ms;
      NotAmongFields(ms[1..], path);
    }
  }

  /** An absolute path that was not captured is not found. */
  lemma AbsentPath(h: Header, text: string, path: string)
    requires Absolute(path) && !Absolute(CutAt(h, text).lead)
    requires forall m <- CutAt(h, text).found :: m.path != path
    ensures Answer(h, text, path).NotFound?
  {
    CutShapes(h, text);
    var cut := CutAt(h, text);
    assert forall m <- cut.found :: TextSlot(m.content);
    hide CutAt, DropEmpty, LookupIn, Flat, Shaped;
    NotAmongFields(cut.found, path);
    var pieces := [cut.lead] + Flat(cut.found);
    assert path !in pieces;
    DropEmptyIs(pieces);
    assert forall e <- DropEmpty(pieces) :: e in pieces;
    var idx := AbsentIsReported(h, text, path);
  }

  // ---------- round trip ----------

  /** The text slot after member j: its content between the newlines around it. */
  function Slot(ms: seq<Member>, trail: string, j: nat): string
    requires j < |ms|
  {
    ("\n" + ms[j].content + "\n") + if j + 1 < |ms| then "\n" else trail
  }

  function Slots(ms: seq<Member>, trail: string): (r: seq<Member>)
    ensures |r| == |ms|
  {
    seq(|ms|, j requires 0 <= j < |ms| => Member(ms[j].path, Slot(ms, trail, j)))
  }

  predicate Newlines(s: string)
  {
    forall c <- s :: c == '\n'
  }

  predicate GoodPath(path: string)
  {
    Absolute(path) && '\n' !in path
  }

  /** No earlier member has the path of member j. */
  predicate IsFirst(ms: seq<Member>, j: nat)
  {
    j < |ms| && forall i :: 0 <= i < j ==> ms[i].path != ms[j].path
  }

  predicate Wellformed(lead: string, ms: seq<Member>, trail: string)
  {
    Newlines(lead) && Newlines(trail) && trail != "" && forall m <- ms :: GoodPath(m.path)
  }

  lemma AtBefore(y: string, b: string, h: Header, i: nat)
    requires i <= |y| && At(y + ['\n'] + b, h, i)
    ensures At(y, h, i)
  {
    var s := y + ['\n'] + b;
    assert i + |h| <= |y| by {
      if i + |h| > |y| {
        StraddleHoldsSeparator(y, '\n', b, h, i);
      }
    }
    assert s[i..i + |h|] == y[i..i + |h|];
  }

  lemma FirstAfterNewline(h: Header, y: string, rest: string)
    requires Clean(h, y)
    ensures First(y + ['\n'] + (h + rest), h) == Some(|y| + 1)
  {
    var text := y + ['\n'] + (h + rest);
    assert text[|y| + 1..|y| + 1 + |h|] == h;
    assert At(text, h, |y| + 1);
    var at := First(text, h).value;
    if at <= |y| {
      AtBefore(y, h + rest, h, at);
    }
  }

  lemma NewlinesAreClean(h: Header, s: string)
    requires Newlines(s)
    ensures Clean(h, s)
  {
    forall i: nat ensures !At(s, h, i) {
      if i + |h| <= |s| {
        assert s[i] in s;
        assert s[i..i + |h|][0] == '\n';
        assert h[0] in h;
      }
    }
  }

  lemma CleanWithNewlines(h: Header, content: string, tail: string)
    requires Newlines(tail)
    ensures Clean(h, "\n" + content + "\n" + tail) <==> Clean(h, content)
  {
    var inner := "\n" + content;
    NewlinesAreClean(h, "");
    NewlinesAreClean(h, tail);
    assert "" + ['\n'] + content == inner;
    NoStraddle("", '\n', content, h);
    NoStraddle(inner, '\n', tail, h);
  }

  lemma CutStep(h: Header, y: string, path: string, after: string)
    requires Clean(h, y) && '\n' !in path && after != "" && after[0] == '\n'
    ensures CutAt(h, y + ['\n'] + (h + (path + after)))
         == Cut(y + ['\n'], [Member(path, CutAt(h, after).lead)] + CutAt(h, after).found)
  {
    hide CutAt, First, Clean;
    var rest := path + after;
    var text := y + ['\n'] + (h + rest);
    FirstAfterNewline(h, y, rest);
    CutUnfolds(h, text, |y + ['\n']|);
    TakeDrop(y + ['\n'], h + rest);
    DropTwo(y + ['\n'], h, rest);
    LineEndsAt(path, after);
    TakeDrop(path, after);
  }

  lemma LineEndsAt(line: string, after: string)
    requires '\n' !in line && after != "" && after[0] == '\n'
    ensures Span(line + after, Packaging.NotNewline) == |line|
  {
    SpanAppend(line, after, Packaging.NotNewline);
  }

  lemma BlocksCons(h: Header, ms: seq<Member>, y: string, trail: string)
    requires ms != []
    ensures y + (Blocks(h, ms) + trail)
      == y + ['\n'] + (h + (ms[0].path + (("\n" + ms[0].content + "\n") + (Blocks(h, ms[1..]) + trail))))
  {
    var m, body, more := ms[0], "\n" + ms[0].content + "\n", Blocks(h, ms[1..]);
    Assoc(Block(h, m), more, trail);
    Assoc("\n", h + (m.path + body), more + trail);
    Assoc(h, m.path + body, more + trail);
    Assoc(m.path, body, more + trail);
    Assoc(y, "\n", h + (m.path + (body + (more + trail))));
  }

  lemma {:induction false} CutOfBlocks(h: Header, y: string, ms: seq<Member>, trail: string)
    requires Clean(h, y) && Clean(h, y + trail) && Newlines(trail) && trail != ""
    requires forall m <- ms :: GoodPath(m.path) && Clean(h, m.content)
    ensures CutAt(h, y + (Blocks(h, ms) + trail))
         == Cut(y + if ms == [] then trail else "\n", Slots(ms, trail))
    decreases ms
  {
    if ms == [] {
      assert y + ("" + trail) == y + trail;
    } else {
      var m, body := ms[0], "\n" + ms[0].content + "\n";
      assert m in ms;
      BlocksCons(h, ms, y, trail);
      CutStep(h, y, m.path, body + (Blocks(h, ms[1..]) + trail));
      CleanWithNewlines(h, m.content, "");
      assert body + "" == body;
      CleanWithNewlines(h, m.content, trail);
      CutOfBlocks(h, body, ms[1..], trail);
      SlotsCons(ms, trail);
    }
  }

  lemma SlotsCons(ms: seq<Member>, trail: string)
    requires ms != []
    ensures Slots(ms, trail) == [Member(ms[0].path, Slot(ms, trail, 0))] + Slots(ms[1..], trail)
  {
    forall j | 1 <= j < |ms| ensures Slot(ms, trail, j) == Slot(ms[1..], trail, j - 1) {
      assert ms[1..][j - 1] == ms[j];
    }
  }

  lemma {:induction false} LookupFlat(ms: seq<Member>, j: nat, seen: seq<string>)
    requires IsFirst(ms, j) && Absolute(ms[j].path)
    requires forall m <- ms :: TextSlot(m.content)
    ensures LookupIn(Flat(ms), ms[j].path, seen) == Content(ms[j].content)
  {
    if j > 0 {
      var flat := Flat(ms);
      assert ms[0] in ms;
      assert flat[1..][0] == ms[0].content && flat[1..][1..] == Flat(ms[1..]);
      var seen' := if IsVcapPath(flat[0]) then seen + [flat[0]] else seen;
      LookupFlat(ms[1..], j - 1, if IsVcapPath(flat[1]) then seen' + [flat[1]] else seen');
    }
  }

  lemma {:induction false} FlatEnds(ms: seq<Member>)
    requires ms != []
    ensures Flat(ms) != [] && Flat(ms)[|Flat(ms)| - 1] == ms[|ms| - 1].content
  {
    if |ms| > 1 {
      FlatEnds(ms[1..]);
    } else {
      assert Flat(ms[1..]) == [];
    }
  }

  lemma AnswerFinds(h: Header, lead: string, ms: seq<Member>, trail: string, j: nat)
    requires Wellformed(lead, ms, trail) && IsFirst(ms, j)
    requires forall m <- ms :: Clean(h, m.content)
    ensures Answer(h, Archive(h, lead, ms, trail), ms[j].path) == Content(Slot(ms, trail, j))
  {
    hide Clean, CutAt, Blocks, Flat, LookupIn, DropEmpty, Slots, IsVcapPath;
    NewlinesAreClean(h, lead);
    NewlinesAreClean(h, lead + trail);
    CutOfBlocks(h, lead, ms, trail);
    var slots := Slots(ms, trail);
    assert Pieces(h, Archive(h, lead, ms, trail)) == [lead + "\n"] + Flat(slots);
    LeadIsNoPath(lead);
    SlotsKeepPaths(ms, trail, j);
    assert ms[j] in ms;
    LookupPieces(lead + "\n", slots, j);
  }

  /** Nor is a path of no member of a well-formed archive without markers in its contents. */
  lemma OnlyMembersAreFound(h: Header, lead: string, ms: seq<Member>, trail: string, path: string)
    requires Wellformed(lead, ms, trail) && Absolute(path)
    requires forall m <- ms :: Clean(h, m.content) && m.path != path
    ensures Answer(h, Archive(h, lead, ms, trail), path).NotFound?
  {
    hide Clean, CutAt, Blocks, Answer;
    NewlinesAreClean(h, lead);
    NewlinesAreClean(h, lead + trail);
    CutOfBlocks(h, lead, ms, trail);
    LeadIsNoPath(lead);
    var more := if ms == [] then trail else "\n";
    assert !Absolute(lead + more) by {
      if lead + more != "" {
        assert (lead + more)[0] in lead || (lead + more)[0] in more;
      }
    }
    forall m | m in Slots(ms, trail) ensures m.path != path {
      var j :| 0 <= j < |ms| && Slots(ms, trail)[j] == m;
      assert ms[j] in ms;
    }
    AbsentPath(h, Archive(h, lead, ms, trail), path);
  }

  lemma LeadIsNoPath(lead: string)
    requires Newlines(lead)
    ensures !Absolute(lead + "\n")
  {
    assert (lead + "\n")[0] == if lead == "" then '\n' else lead[0];
    assert lead != "" ==> lead[0] in lead;
  }

  lemma SlotsKeepPaths(ms: seq<Member>, trail: string, j: nat)
    requires IsFirst(ms, j)
    ensures IsFirst(Slots(ms, trail), j) && forall m <- Slots(ms, trail) :: TextSlot(m.content)
    ensures Slots(ms, trail)[j].path == ms[j].path && Slots(ms, trail)[j].content == Slot(ms, trail, j)
    ensures Slots(ms, trail)[|ms| - 1].content != ""
  {
    assert forall i :: 0 <= i < |ms| ==> Slots(ms, trail)[i].path == ms[i].path;
  }

  lemma LookupPieces(first: string, slots: seq<Member>, j: nat)
    requires first != "" && !Absolute(first)
    requires IsFirst(slots, j) && Absolute(slots[j].path) && slots[|slots| - 1].content != ""
    requires forall m <- slots :: TextSlot(m.content)
    ensures LookupIn(DropEmpty([first] + Flat(slots)), slots[j].path, []) == Content(slots[j].content)
  {
    FlatEnds(slots);
    var pieces := [first] + Flat(slots);
    assert pieces[|pieces| - 1] == slots[|slots| - 1].content;
    assert pieces[1..] == Flat(slots);
    LookupFlat(slots, j, if IsVcapPath(first) then [] + [first] else []);
  }

  /** Every member that is the first of its path can be looked up with its own content exactly
      when no content holds the archive's marker. (Contents that are shadowed by an earlier member
      of the same path are taken to be free of it.) */
  lemma RoundTripIff(h: Header, lead: string, ms: seq<Member>, trail: string)
    requires Wellformed(lead, ms, trail)
    requires forall j :: 0 <= j < |ms| && !IsFirst(ms, j) ==> Clean(h, ms[j].content)
    ensures (forall j :: 0 <= j < |ms| && IsFirst(ms, j) ==>
              Answer(h, Archive(h, lead, ms, trail), ms[j].path) == Content(Slot(ms, trail, j)))
       <==> (forall m <- ms :: Clean(h, m.content))
  {
    hide Clean, Archive, Answer, Wellformed;
    var text := Archive(h, lead, ms, trail);
    if forall m <- ms :: Clean(h, m.content) {
      forall j | 0 <= j < |ms| && IsFirst(ms, j) ensures Answer(h, text, ms[j].path) == Content(Slot(ms, trail, j)) {
        AnswerFinds(h, lead, ms, trail, j);
      }
    }
    if forall j :: 0 <= j < |ms| && IsFirst(ms, j) ==> Answer(h, text, ms[j].path) == Content(Slot(ms, trail, j)) {
      forall j | 0 <= j < |ms| ensures Clean(h, ms[j].content) {
        if IsFirst(ms, j) {
          FoundIsClean(h, lead, ms, trail, j);
        }
      }
    }
  }

  lemma FoundIsClean(h: Header, lead: string, ms: seq<Member>, trail: string, j: nat)
    requires Wellformed(lead, ms, trail) && j < |ms|
    requires Answer(h, Archive(h, lead, ms, trail), ms[j].path) == Content(Slot(ms, trail, j))
    ensures Clean(h, ms[j].content)
  {
    assert ms[j] in ms;
    StartsWithNewline(h, lead, ms, trail);
    LookupIsSlot(h, Archive(h, lead, ms, trail), ms[j].path);
    CleanWithNewlines(h, ms[j].content, if j + 1 < |ms| then "\n" else trail);
  }

  lemma StartsWithNewline(h: Header, lead: string, ms: seq<Member>, trail: string)
    requires Newlines(lead) && ms != []
    ensures Archive(h, lead, ms, trail)[0] == '\n'
  {
    if lead != "" {
      assert lead[0] in lead;
    }
  }
}
