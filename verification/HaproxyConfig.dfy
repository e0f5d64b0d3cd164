/** The spec helper that reads an haproxy configuration into sections. */
module HaproxyConfig {
  import opened Text

  type Section = (string, seq<string>)

  /** Ruby's \s. */
  predicate Space(c: char)
  {
    c == ' ' || '\t' <= c <= '\r'
  }

  /** Comment lines and empty lines are dropped first. */
  predicate IsComment(line: string)
  {
    var n := Span(line, Space);
    n < |line| && line[n] == '#'
  }

  predicate IsNoise(line: string)
  {
    line == "" || IsComment(line)
  }

  function Kept(lines: seq<string>): seq<string>
  {
    if lines == [] then []
    else (if IsNoise(lines[0]) then [] else [lines[0]]) + Kept(lines[1..])
  }

  /** A line that does not start with whitespace opens a section. */
  predicate IsHeader(line: string)
  {
    line != "" && !Space(line[0])
  }

  function BodyLength(lines: seq<string>): (n: nat)
    ensures n <= |lines|
  {
    if lines == [] || IsHeader(lines[0]) then 0 else 1 + BodyLength(lines[1..])
  }

  function Trimmed(lines: seq<string>): seq<string>
  {
    if lines == [] then [] else [Strip(lines[0])] + Trimmed(lines[1..])
  }

  /** Lines before the first header belong to no section. */
  function Sections(lines: seq<string>): seq<Section>
    decreases |lines|
  {
    if lines == [] then []
    else if !IsHeader(lines[0]) then Sections(lines[1..])
    else
      var n := BodyLength(lines[1..]);
      [(lines[0], Trimmed(lines[1..n + 1]))] + Sections(lines[n + 1..])
  }

  /** to_h: a later section replaces an earlier one of the same name. */
  function ToMap(sections: seq<Section>): map<string, seq<string>>
  {
    if sections == [] then map[]
    else
      var last := |sections| - 1;
      ToMap(sections[..last])[sections[last].0 := sections[last].1]
  }

  /** None stands for the exception raised when the last line kept is a header. */
  function ParseLines(lines: seq<string>): Option<map<string, seq<string>>>
  {
    var kept := Kept(lines);
    if kept != [] && IsHeader(kept[|kept| - 1]) then None else Some(ToMap(Sections(kept)))
  }

  /** The empty pieces that Ruby's split leaves out at the end are noise in any case. */
  function Parse(text: string): Option<map<string, seq<string>>>
  {
    ParseLines(Split(text, '\n'))
  }

  // ---------- layout does not matter ----------

  lemma {:induction false} KeptAppend(a: seq<string>, b: seq<string>)
    ensures Kept(a + b) == Kept(a) + Kept(b)
  {
    if a == [] {
      assert a + b == b;
    } else {
      hide IsNoise;
      KeptAppend(a[1..], b);
      TailOfSum(a, b);
    }
  }

  /** Two kept lines that the reader cannot tell apart: the same line, or body lines that differ
      in surrounding blanks only. */
  predicate Alike(a: string, b: string)
  {
    a == b || (!IsHeader(a) && !IsHeader(b) && Strip(a) == Strip(b))
  }

  predicate AllAlike(a: seq<string>, b: seq<string>)
  {
    |a| == |b| && forall i :: 0 <= i < |a| ==> Alike(a[i], b[i])
  }

  lemma {:induction false} AlikeBodies(a: seq<string>, b: seq<string>)
    requires AllAlike(a, b)
    ensures BodyLength(a) == BodyLength(b)
    ensures forall n :: 0 <= n <= BodyLength(a) ==> Trimmed(a[..n]) == Trimmed(b[..n])
  {
    if a != [] {
      assert Alike(a[0], b[0]);
      AlikeBodies(a[1..], b[1..]);
      forall n | 0 <= n <= BodyLength(a) ensures Trimmed(a[..n]) == Trimmed(b[..n]) {
        if n > 0 {
          assert a[..n][1..] == a[1..][..n - 1] && b[..n][1..] == b[1..][..n - 1];
        }
      }
    }
  }

  lemma {:induction false} AlikeSections(a: seq<string>, b: seq<string>)
    requires AllAlike(a, b)
    ensures Sections(a) == Sections(b)
    decreases |a|
  {
    hide IsHeader, Strip, Trimmed, BodyLength;
    if a != [] {
      assert Alike(a[0], b[0]);
      if IsHeader(a[0]) {
        AlikeBodies(a[1..], b[1..]);
        var n := BodyLength(a[1..]);
        assert a[1..n + 1] == a[1..][..n] && b[1..n + 1] == b[1..][..n];
        AlikeSections(a[n + 1..], b[n + 1..]);
      } else {
        AlikeSections(a[1..], b[1..]);
      }
    }
  }

  /** Empty lines, comments and the indentation of body lines never change the result: files whose
      kept lines are pairwise alike read the same, exceptions included. */
  lemma LayoutIsIrrelevant(a: seq<string>, b: seq<string>)
    requires AllAlike(Kept(a), Kept(b))
    ensures ParseLines(a) == ParseLines(b)
  {
    hide Kept, IsNoise, Strip, Sections;
    var k, m := Kept(a), Kept(b);
    AlikeSections(k, m);
    if k != [] {
      assert Alike(k[|k| - 1], m[|m| - 1]);
    }
  }

  lemma CommentIsNoise(blanks: string, rest: string)
    requires forall c <- blanks :: Space(c)
    ensures IsNoise(blanks + ("#" + rest))
  {
    SpanAppend(blanks, "#" + rest, Space);
  }

  lemma NoiseIsDropped(lines: seq<string>, i: nat, noise: string)
    requires i <= |lines| && IsNoise(noise)
    ensures ParseLines(lines[..i] + [noise] + lines[i..]) == ParseLines(lines)
  {
    hide Kept, ParseLines;
    var front, back := lines[..i], lines[i..];
    KeptAppend(front + [noise], back);
    KeptAppend(front, [noise]);
    KeptAppend(front, back);
    NoiseIsNotKept(noise);
    assert lines == front + back;
    assert Kept(front) + [] == Kept(front);
    LayoutIsIrrelevant(front + [noise] + back, lines);
  }

  /** Inserting an empty line anywhere changes nothing, nor does a '#' after any whitespace (TAB to CR
      and the space) with anything behind it. */
  lemma NoiseIsIrrelevant(lines: seq<string>, i: nat, blanks: string, rest: string)
    requires i <= |lines| && forall c <- blanks :: c as int in {9, 10, 11, 12, 13, 32}
    ensures ParseLines(lines[..i] + [""] + lines[i..]) == ParseLines(lines)
    ensures ParseLines(lines[..i] + [blanks + ("#" + rest)] + lines[i..]) == ParseLines(lines)
  {
    CommentIsNoise(blanks, rest);
    NoiseIsDropped(lines, i, "");
    NoiseIsDropped(lines, i, blanks + ("#" + rest));
  }

  lemma NoiseIsNotKept(noise: string)
    requires IsNoise(noise)
    ensures Kept([noise]) == []
  {
    hide IsNoise;
    assert Kept([noise][1..]) == [];
  }

  // ---------- round trip ----------

  predicate GoodHeader(line: string)
  {
    IsHeader(line) && line[0] != '#' && '\n' !in line
  }

  /** A property line as the reader returns it: trimmed, not a comment. */
  predicate GoodProperty(line: string)
  {
    line != "" && line[0] != '#' && !RubyBlank(line[0]) && !RubyBlank(line[|line| - 1]) && '\n' !in line
  }

  predicate GoodIndent(indent: string)
  {
    indent != "" && forall c <- indent :: c == ' ' || c == '\t'
  }

  predicate GoodSection(s: Section)
  {
    GoodHeader(s.0) && forall p <- s.1 :: GoodProperty(p)
  }

  function Indented(indent: string, properties: seq<string>): seq<string>
  {
    if properties == [] then [] else [indent + properties[0]] + Indented(indent, properties[1..])
  }

  function PrintLines(indent: string, sections: seq<Section>): seq<string>
  {
    if sections == [] then []
    else [sections[0].0] + Indented(indent, sections[0].1) + PrintLines(indent, sections[1..])
  }

  function Print(indent: string, sections: seq<Section>): string
  {
    if sections == [] then "" else Join(PrintLines(indent, sections), '\n')
  }

  lemma IndentedLine(indent: string, p: string)
    requires GoodIndent(indent) && GoodProperty(p)
    ensures !IsNoise(indent + p) && !IsHeader(indent + p) && Strip(indent + p) == p && '\n' !in indent + p
  {
    assert indent[0] in indent;
    SpanAppend(indent, p, Space);
    assert Span(p, Space) == 0;
    assert (indent + p)[|indent|] == p[0];
    StripIs(indent, p, "");
    assert indent + p + "" == indent + p;
  }

  ghost predicate BodyFor(body: seq<string>, ps: seq<string>)
  {
    && |body| == |ps| && Trimmed(body) == ps && Kept(body) == body
    && forall l <- body :: '\n' !in l && !IsHeader(l)
  }

  lemma {:induction false} BodyLines(indent: string, ps: seq<string>)
    requires GoodIndent(indent) && forall p <- ps :: GoodProperty(p)
    ensures BodyFor(Indented(indent, ps), ps)
  {
    if ps != [] {
      assert ps[0] in ps;
      IndentedLine(indent, ps[0]);
      hide GoodIndent, GoodProperty, IsNoise, IsHeader, Strip;
      BodyLines(indent, ps[1..]);
      var body := Indented(indent, ps);
      assert body[1..] == Indented(indent, ps[1..]);
      assert [ps[0]] + ps[1..] == ps;
    }
  }

  lemma {:induction false} BodyEnds(body: seq<string>, rest: seq<string>)
    requires forall l <- body :: !IsHeader(l)
    requires rest == [] || IsHeader(rest[0])
    ensures BodyLength(body + rest) == |body|
  {
    if body == [] {
      assert body + rest == rest;
    } else {
      assert body[0] in body;
      BodyEnds(body[1..], rest);
      assert (body + rest)[1..] == body[1..] + rest;
    }
  }

  lemma SectionsUnfold(lines: seq<string>)
    requires lines != [] && IsHeader(lines[0])
    ensures var n := BodyLength(lines[1..]);
      Sections(lines) == [(lines[0], Trimmed(lines[1..n + 1]))] + Sections(lines[n + 1..])
  {
  }

  /** One printed section in front of other lines. */
  lemma SectionsCons(header: string, body: seq<string>, ps: seq<string>, rest: seq<string>)
    requires GoodHeader(header) && BodyFor(body, ps) && (rest == [] || IsHeader(rest[0]))
    ensures var lines := [header] + body + rest;
      Sections(lines) == [(header, ps)] + Sections(rest) && Kept(lines) == [header] + body + Kept(rest)
  {
    KeptCons(header, body, rest);
    HeaderIsHeader(header);
    hide Kept, IsHeader, Trimmed, Sections, GoodHeader;
    SectionsInFront(header, body, rest);
  }

  lemma SectionsInFront(header: string, body: seq<string>, rest: seq<string>)
    requires IsHeader(header) && (forall l <- body :: !IsHeader(l)) && (rest == [] || IsHeader(rest[0]))
    ensures Sections([header] + body + rest) == [(header, Trimmed(body))] + Sections(rest)
  {
    BodyEnds(body, rest);
    hide IsHeader, Trimmed, BodyLength, Sections;
    var lines, after := [header] + body + rest, body + rest;
    Assoc([header], body, rest);
    TakeDrop(body, rest);
    assert lines[0] == header && lines[1..] == after;
    assert lines[1..|body| + 1] == after[..|body|] && lines[|body| + 1..] == after[|body|..];
    SectionsUnfold(lines);
  }

  lemma KeptCons(header: string, body: seq<string>, rest: seq<string>)
    requires GoodHeader(header) && Kept(body) == body
    ensures Kept([header] + body + rest) == [header] + body + Kept(rest)
  {
    KeptAppend([header] + body, rest);
    KeptAppend([header], body);
    assert Span(header, Space) == 0;
    assert Kept([header]) == [header] + Kept([header][1..]) == [header];
  }

  ghost predicate Printed(lines: seq<string>, sections: seq<Section>)
  {
    && Kept(lines) == lines && Sections(lines) == sections && (forall l <- lines :: '\n' !in l)
    && (lines == [] <==> sections == []) && (lines != [] ==> IsHeader(lines[0]))
  }

  lemma {:induction false} SectionsOfPrint(indent: string, sections: seq<Section>)
    requires GoodIndent(indent) && forall s <- sections :: GoodSection(s)
    ensures Printed(PrintLines(indent, sections), sections)
  {
    if sections != [] {
      var (header, ps) := sections[0];
      assert sections[0] in sections;
      BodyLines(indent, ps);
      SectionsOfPrint(indent, sections[1..]);
      hide GoodIndent, Sections, Kept, Indented;
      SectionsCons(header, Indented(indent, ps), ps, PrintLines(indent, sections[1..]));
      assert sections == [(header, ps)] + sections[1..];
    }
  }

  lemma {:induction false} LastLine(indent: string, sections: seq<Section>)
    requires GoodIndent(indent) && sections != [] && forall s <- sections :: GoodSection(s)
    ensures PrintLines(indent, sections) != []
    ensures var lines := PrintLines(indent, sections);
      IsHeader(lines[|lines| - 1]) <==> sections[|sections| - 1].1 == []
  {
    assert sections[0] in sections;
    if |sections| > 1 {
      LastLine(indent, sections[1..]);
    } else {
      var body := Indented(indent, sections[0].1);
      BodyLines(indent, sections[0].1);
      assert PrintLines(indent, sections[1..]) == [];
      assert PrintLines(indent, sections) == [sections[0].0] + body;
      if body != [] {
        assert body[|body| - 1] in body;
      }
    }
  }

  /** Reading a printed list of sections gives back every section's lines, in order; it raises
      exactly when the last section has no line. */
  lemma RoundTripIff(indent: string, sections: seq<Section>)
    requires GoodIndent(indent) && forall s <- sections :: GoodSection(s)
    ensures Parse(Print(indent, sections))
      == if sections != [] && sections[|sections| - 1].1 == [] then None else Some(ToMap(sections))
  {
    if sections == [] {
      assert Kept([""]) == Kept([""][1..]) == [];
    } else {
      SectionsOfPrint(indent, sections);
      LastLine(indent, sections);
      hide PrintLines, Sections, Kept, GoodSection, GoodIndent, IsHeader;
      SplitOfJoin(PrintLines(indent, sections), '\n');
    }
  }

  /** A line of a section's body: it starts with whitespace, and no '#' is its first other character. */
  ghost predicate BodyLine(line: string)
  {
    && line != "" && Space(line[0])
    && forall n :: 0 <= n < |line| && (forall k :: 0 <= k < n ==> Space(line[k])) && !Space(line[n]) ==> line[n] != '#'
  }

  lemma BodyLineIsKept(line: string)
    requires BodyLine(line)
    ensures !IsNoise(line) && !IsHeader(line)
  {
    SpanFacts(line, Space);
    var n := Span(line, Space);
    assert forall k :: 0 <= k < n ==> line[k] == line[..n][k];
  }

  lemma {:induction false} BodyLinesAreKept(body: seq<string>)
    requires forall l <- body :: BodyLine(l)
    ensures Kept(body) == body && forall l <- body :: !IsHeader(l)
  {
    hide BodyLine, IsNoise, IsHeader;
    if body != [] {
      assert body[0] in body;
      BodyLineIsKept(body[0]);
      BodyLinesAreKept(body[1..]);
      assert body == [body[0]] + body[1..];
    }
  }

  /** Whatever is no comment and not empty is read: under a header, every line that starts with
      whitespace is a property, in order and without its outer blanks, blank lines included; lines in
      front of the first header belong to nothing. */
  lemma BodyLinesAreRead(front: seq<string>, header: string, body: seq<string>)
    requires (forall l <- front :: BodyLine(l)) && GoodHeader(header) && body != [] && forall l <- body :: BodyLine(l)
    ensures ParseLines(front + ([header] + body)) == Some(map[header := Trimmed(body)])
  {
    hide Kept, BodyLine, GoodHeader, Sections, Trimmed, IsHeader;
    var lines := [header] + body;
    BlockIsKept(front, header, body);
    BodyLinesAreKept(front);
    BodyLinesAreKept(body);
    HeaderIsHeader(header);
    assert body[|body| - 1] in body && (front + lines)[|front + lines| - 1] == body[|body| - 1];
    SectionsAfter(front, lines);
    SectionOfBlock(header, body);
    OneSection(header, Trimmed(body));
  }

  lemma BlockIsKept(front: seq<string>, header: string, body: seq<string>)
    requires (forall l <- front :: BodyLine(l)) && GoodHeader(header) && forall l <- body :: BodyLine(l)
    ensures Kept(front + ([header] + body)) == front + ([header] + body)
  {
    hide Kept, BodyLine, GoodHeader;
    BodyLinesAreKept(front);
    BodyLinesAreKept(body);
    KeptOne(header);
    KeptAppend(front, [header] + body);
    KeptAppend([header], body);
  }

  lemma SectionOfBlock(header: string, body: seq<string>)
    requires IsHeader(header) && forall l <- body :: !IsHeader(l)
    ensures Sections([header] + body) == [(header, Trimmed(body))]
  {
    SectionsInFront(header, body, []);
    hide Trimmed, IsHeader;
    assert [header] + body + [] == [header] + body;
    assert [(header, Trimmed(body))] + Sections([]) == [(header, Trimmed(body))];
  }

  lemma HeaderIsHeader(header: string)
    requires GoodHeader(header)
    ensures IsHeader(header)
  {
  }

  lemma OneSection(header: string, ps: seq<string>)
    ensures ToMap([(header, ps)]) == map[header := ps]
  {
    assert [(header, ps)][..0] == [];
  }

  lemma KeptOne(header: string)
    requires GoodHeader(header)
    ensures Kept([header]) == [header]
  {
    assert Span(header, Space) == 0;
    assert Kept([header]) == [header] + Kept([header][1..]) == [header];
  }

  lemma {:induction false} SectionsAfter(front: seq<string>, rest: seq<string>)
    requires forall l <- front :: !IsHeader(l)
    ensures Sections(front + rest) == Sections(rest)
  {
    if front == [] {
      assert front + rest == rest;
    } else {
      assert front[0] in front;
      SectionsAfter(front[1..], rest);
      TailOfSum(front, rest);
    }
  }

  /** Of several sections with one header the last one is found. */
  lemma {:induction false} LastSectionWins(sections: seq<Section>, i: nat)
    requires i < |sections| && forall k :: i < k < |sections| ==> sections[k].0 != sections[i].0
    ensures sections[i].0 in ToMap(sections) && ToMap(sections)[sections[i].0] == sections[i].1
  {
    var last := |sections| - 1;
    if i < last {
      LastSectionWins(sections[..last], i);
    }
  }

  lemma {:induction false} OnlySections(sections: seq<Section>, header: string)
    requires header in ToMap(sections)
    ensures exists i :: 0 <= i < |sections| && sections[i].0 == header
  {
    var last := |sections| - 1;
    if sections != [] && header != sections[last].0 {
      OnlySections(sections[..last], header);
      var i :| 0 <= i < |sections[..last]| && sections[..last][i].0 == header;
      assert sections[i].0 == header;
    }
  }

  /** With different headers, each section is found under its own. */
  lemma {:induction false} DistinctSectionsAreFound(sections: seq<Section>, i: nat)
    requires i < |sections|
    requires forall j, k :: 0 <= j < k < |sections| ==> sections[j].0 != sections[k].0
    ensures sections[i].0 in ToMap(sections) && ToMap(sections)[sections[i].0] == sections[i].1
  {
    var last := |sections| - 1;
    if i < last {
      DistinctSectionsAreFound(sections[..last], i);
    }
  }
}
