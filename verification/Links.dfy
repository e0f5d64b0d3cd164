/** Releases offered on a link page: the pattern search in one link, the scan over all links, and
    which versions it reveals. */
module Links {
  import opened Text
  import opened Versions
  import opened Selection
  import Decimal

  // ---------- the pattern ----------

  /** The pinned version is inserted into the pattern as it is: its dots match any character. */
  predicate Wild(pattern: string, s: string)
  {
    |pattern| == |s| && forall i :: 0 <= i < |s| ==> s[i] == pattern[i] || (pattern[i] == '.' && s[i] != '\n')
  }

  /** `(?:\.[0-9])+` or nothing. */
  predicate DotDigits(s: string)
  {
    s == "" || (|s| >= 2 && s[0] == '.' && Decimal.IsDigit(s[1]) && DotDigits(s[2..]))
  }

  /** What the version group of the pattern can match. */
  predicate LinkVersion(pinned: string, text: string)
  {
    |pinned| < |text| && Wild(pinned, text[..|pinned|]) && DotDigits(text[|pinned|..])
  }

  /** How far the greedy repetition runs. */
  function DotDigitsLength(s: string): (n: nat)
    ensures n <= |s|
  {
    if |s| >= 2 && s[0] == '.' && Decimal.IsDigit(s[1]) then 2 + DotDigitsLength(s[2..]) else 0
  }

  const EXTENSION := ".tar.gz"

  /** The version group if the pattern matches at the start of s. */
  function TextAt(name: string, pinned: string, s: string): Option<string>
  {
    if !(name + "-" <= s) then None
    else
      var rest := s[|name| + 1..];
      if |rest| < |pinned| || !Wild(pinned, rest[..|pinned|]) then None
      else
        var end := |pinned| + DotDigitsLength(rest[|pinned|..]);
        if end > |pinned| && EXTENSION <= rest[end..] then Some(rest[..end]) else None
  }

  /** re.search: the leftmost match at or after `from`. */
  function Search(name: string, pinned: string, href: string, from: nat := 0): Option<string>
    decreases |href| - from
  {
    if from > |href| then None
    else if TextAt(name, pinned, href[from..]).Some? then TextAt(name, pinned, href[from..])
    else Search(name, pinned, href, from + 1)
  }

  lemma {:induction false} DotDigitsOfLength(s: string)
    ensures DotDigits(s[..DotDigitsLength(s)])
  {
    var n := DotDigitsLength(s);
    if n > 0 {
      DotDigitsOfLength(s[2..]);
      assert s[..n][2..] == s[2..][..n - 2];
    }
  }

  /** Before the extension the repetition cannot stop elsewhere. */
  lemma {:induction false} LengthOfDotDigits(s: string, n: nat)
    requires n <= |s| && DotDigits(s[..n]) && EXTENSION <= s[n..]
    ensures DotDigitsLength(s) == n
  {
    assert s[n] == EXTENSION[0] && s[n + 1] == EXTENSION[1];
    if n > 0 {
      assert s[..n][2..] == s[2..][..n - 2] && s[n..] == s[2..][n - 2..];
      assert s[..n][0] == s[0] && s[..n][1] == s[1];
      LengthOfDotDigits(s[2..], n - 2);
    }
  }

  lemma TextAtSound(name: string, pinned: string, s: string)
    requires TextAt(name, pinned, s).Some?
    ensures var text := TextAt(name, pinned, s).value; LinkVersion(pinned, text) && name + "-" + (text + EXTENSION) <= s
  {
    hide Wild, DotDigits, DotDigitsLength;
    var rest := s[|name| + 1..];
    var after := rest[|pinned|..];
    DotDigitsOfLength(after);
    var end := |pinned| + DotDigitsLength(after);
    assert rest[..end][..|pinned|] == rest[..|pinned|] && rest[..end][|pinned|..] == after[..end - |pinned|];
    assert s == name + "-" + rest;
    assert rest == rest[..end] + rest[end..];
    PrefixInRest(rest[..end], EXTENSION, rest[end..]);
    PrefixInRest(name + "-", rest[..end] + EXTENSION, rest);
  }

  lemma TextAtComplete(name: string, pinned: string, s: string, text: string)
    requires LinkVersion(pinned, text) && name + "-" + (text + EXTENSION) <= s
    ensures TextAt(name, pinned, s) == Some(text)
  {
    hide Wild, DotDigits, DotDigitsLength;
    var rest := s[|name| + 1..];
    PrefixTransitive(name + "-", name + "-" + (text + EXTENSION), s);
    assert s == name + "-" + rest;
    PrefixInRest(name + "-", text + EXTENSION, rest);
    TextIsTaken(pinned, rest, text);
  }

  /** The greedy reading finds the version group exactly when the pattern, read declaratively,
      matches at the start, and then no other group is possible. */
  lemma TextAtIff(name: string, pinned: string, s: string, text: string)
    ensures TextAt(name, pinned, s) == Some(text) <==> LinkVersion(pinned, text) && name + "-" + text + EXTENSION <= s
  {
    hide LinkVersion, TextAt;
    Assoc(name + "-", text, EXTENSION);
    if TextAt(name, pinned, s).Some? {
      TextAtSound(name, pinned, s);
    }
    if LinkVersion(pinned, text) && name + "-" + text + EXTENSION <= s {
      TextAtComplete(name, pinned, s, text);
    }
  }

  lemma TextIsTaken(pinned: string, rest: string, text: string)
    requires text + EXTENSION <= rest && LinkVersion(pinned, text)
    ensures rest[..|pinned|] == text[..|pinned|] && |pinned| + DotDigitsLength(rest[|pinned|..]) == |text|
    ensures EXTENSION <= rest[|text|..] && rest[..|text|] == text
  {
    hide Wild, DotDigits, DotDigitsLength;
    var after, n := rest[|pinned|..], |text| - |pinned|;
    assert rest == text + EXTENSION + rest[|text + EXTENSION|..];
    assert rest[..|text|] == text && rest[|text|..] == EXTENSION + rest[|text + EXTENSION|..];
    assert after[..n] == text[|pinned|..] && after[n..] == rest[|text|..];
    LengthOfDotDigits(after, n);
  }

  lemma PrefixInRest(a: string, b: string, rest: string)
    ensures a + b <= a + rest <==> b <= rest
  {
    if a + b <= a + rest {
      assert (a + rest)[..|a + b|][|a|..] == b;
      assert rest[..|b|] == b;
    }
    if b <= rest {
      assert rest == b + rest[|b|..];
      assert a + rest == a + b + rest[|b|..];
    }
  }

  /** The first position from `from` on at which the pattern matches. */
  ghost predicate LeftmostAt(name: string, pinned: string, href: string, from: nat, i: nat)
  {
    && from <= i <= |href| && TextAt(name, pinned, href[i..]).Some?
    && forall j :: from <= j < i ==> TextAt(name, pinned, href[j..]).None?
  }

  /** The search takes the group at the leftmost match, and finds nothing exactly when the pattern
      matches nowhere. */
  lemma {:induction false} SearchIsLeftmost(name: string, pinned: string, href: string, from: nat)
    ensures Search(name, pinned, href, from).Some? ==> exists i: nat ::
      LeftmostAt(name, pinned, href, from, i) && Search(name, pinned, href, from) == TextAt(name, pinned, href[i..])
    ensures Search(name, pinned, href, from).None? <==>
      forall i :: from <= i <= |href| ==> TextAt(name, pinned, href[i..]).None?
    decreases |href| - from
  {
    hide TextAt;
    if from <= |href| {
      if TextAt(name, pinned, href[from..]).Some? {
        assert LeftmostAt(name, pinned, href, from, from);
      } else {
        var next := from + 1;
        SearchIsLeftmost(name, pinned, href, next);
        var found := Search(name, pinned, href, next);
        if i: nat :| LeftmostAt(name, pinned, href, next, i) && found == TextAt(name, pinned, href[i..]) {
          assert LeftmostAt(name, pinned, href, from, i);
        }
      }
    }
  }

  /** A search that succeeds matched the pattern somewhere in the link. */
  lemma {:induction false} FoundIsLinkVersion(name: string, pinned: string, href: string, from: nat)
    requires Search(name, pinned, href, from).Some?
    ensures LinkVersion(pinned, Search(name, pinned, href, from).value)
    decreases |href| - from
  {
    hide TextAt, LinkVersion;
    var here := TextAt(name, pinned, href[from..]);
    if here.Some? {
      TextAtIff(name, pinned, href[from..], here.value);
    } else {
      FoundIsLinkVersion(name, pinned, href, from + 1);
    }
  }

  // ---------- the scan over a page ----------

  /** A dependency offered on a link page. `parse` stands for version.parse, None for its exception,
      `join` for making a link absolute. */
  datatype LinkSource = LinkSource(
    name: string, pinned: string, parse: string -> Option<Version>, join: string -> string)
  {
    function Found(href: string): Option<string>
    {
      Search(name, pinned, href)
    }

    function ReleaseOf(href: string, text: string): Release
      requires parse(text).Some?
    {
      Release(name + "-" + text, join(href), name + "-" + text + EXTENSION, parse(text).value)
    }

    predicate Bad(href: string)
    {
      Found(href).Some? && parse(Found(href).value).None?
    }

    /** The releases of the first n links. */
    function Candidates(hrefs: seq<string>, n: nat): seq<Release>
      requires n <= |hrefs| && forall i :: 0 <= i < n ==> !Bad(hrefs[i])
    {
      if n == 0 then []
      else
        assert !Bad(hrefs[n - 1]);
        var found := Found(hrefs[n - 1]);
        Candidates(hrefs, n - 1) + if found.Some? then [ReleaseOf(hrefs[n - 1], found.value)] else []
    }

    ghost predicate FirstBad(hrefs: seq<string>, i: nat)
    {
      i < |hrefs| && Bad(hrefs[i]) && forall j :: 0 <= j < i ==> !Bad(hrefs[j])
    }

    /** What the scan must return: the first link whose version does not parse raises; otherwise the
        earliest greatest release of the matching links, or the no-release exception. */
    ghost predicate Outcome(hrefs: seq<string>, r: Result<Release>)
    {
      && (forall i: nat :: FirstBad(hrefs, i) ==> r == Err(Unparseable(Found(hrefs[i]).value)))
      && ((forall i :: 0 <= i < |hrefs| ==> !Bad(hrefs[i])) ==>
            var cs := Candidates(hrefs, |hrefs|);
            if cs == [] then r == Err(NoRelease)
            else exists k: nat :: FirstGreatest(cs, k) && r == Ok(cs[k]))
    }

    method FetchLatestRelease(hrefs: seq<string>) returns (r: Result<Release>)
      ensures Outcome(hrefs, r)
    {
      hide FirstGreatest;
      var versions: seq<Release> := [];
      for i := 0 to |hrefs|
        invariant forall j :: 0 <= j < i ==> !Bad(hrefs[j])
        invariant versions == Candidates(hrefs, i)
      {
        var found := Search(name, pinned, hrefs[i]);
        if found.Some? {
          var version := parse(found.value);
          if version.None? {
            assert FirstBad(hrefs, i);
            return Err(Unparseable(found.value));
          }
          versions := versions + [ReleaseOf(hrefs[i], found.value)];
        }
      }
      r := FetchFromLinks(versions);
    }

    lemma {:induction false} CandidateHasLink(hrefs: seq<string>, n: nat, k: nat) returns (i: nat)
      requires n <= |hrefs| && (forall i :: 0 <= i < n ==> !Bad(hrefs[i])) && k < |Candidates(hrefs, n)|
      ensures i < n && Found(hrefs[i]).Some? && Candidates(hrefs, n)[k] == ReleaseOf(hrefs[i], Found(hrefs[i]).value)
      ensures k == |Candidates(hrefs, i)|
    {
      if k < |Candidates(hrefs, n - 1)| {
        i := CandidateHasLink(hrefs, n - 1, k);
      } else {
        i := n - 1;
      }
    }

    lemma {:induction false} LinkHasCandidate(hrefs: seq<string>, n: nat, i: nat)
      requires i < n <= |hrefs| && (forall j :: 0 <= j < n ==> !Bad(hrefs[j])) && Found(hrefs[i]).Some?
      ensures |Candidates(hrefs, i)| < |Candidates(hrefs, n)|
      ensures Candidates(hrefs, n)[|Candidates(hrefs, i)|] == ReleaseOf(hrefs[i], Found(hrefs[i]).value)
    {
      hide Search;
      if i < n - 1 {
        LinkHasCandidate(hrefs, n - 1, i);
      }
    }

    lemma {:induction false} FirstBadExists(hrefs: seq<string>, i: nat) returns (first: nat)
      requires i < |hrefs| && Bad(hrefs[i])
      ensures FirstBad(hrefs, first)
    {
      if j :| 0 <= j < i && Bad(hrefs[j]) {
        first := FirstBadExists(hrefs, j);
      } else {
        first := i;
      }
    }

    /** What a scan that returns has found, field by field: it met no unparseable group, and took the
        earliest of the links with the greatest version, with the absolute form of that link and
        the matched file name, with and without its extension. */
    lemma LinkChosen(hrefs: seq<string>, r: Result<Release>) returns (i: nat)
      requires Outcome(hrefs, r) && r.Ok?
      ensures i < |hrefs| && Search(name, pinned, hrefs[i]).Some?
      ensures var text := Search(name, pinned, hrefs[i]).value;
        && parse(text) == Some(r.value.version) && r.value.url == join(hrefs[i])
        && r.value.name == name + "-" + text && r.value.file == name + "-" + text + ".tar.gz"
      ensures forall j: nat :: j < |hrefs| && Search(name, pinned, hrefs[j]).Some? ==>
        && parse(Search(name, pinned, hrefs[j]).value).Some?
        && !Less(r.value.version, parse(Search(name, pinned, hrefs[j]).value).value)
        && (j < i ==> Less(parse(Search(name, pinned, hrefs[j]).value).value, r.value.version))
    {
      hide Search, Less, Candidates;
      if b :| 0 <= b < |hrefs| && Bad(hrefs[b]) {
        var first := FirstBadExists(hrefs, b);
      }
      var cs := Candidates(hrefs, |hrefs|);
      assert cs != [];
      var k: nat :| FirstGreatest(cs, k) && r == Ok(cs[k]);
      i := CandidateHasLink(hrefs, |hrefs|, k);
      forall j: nat | j < |hrefs| && Search(name, pinned, hrefs[j]).Some?
        ensures parse(Search(name, pinned, hrefs[j]).value).Some?
        ensures !Less(r.value.version, parse(Search(name, pinned, hrefs[j]).value).value)
        ensures j < i ==> Less(parse(Search(name, pinned, hrefs[j]).value).value, r.value.version)
      {
        assert !Bad(hrefs[j]);
        LinkHasCandidate(hrefs, |hrefs|, j);
        if j < i {
          LinkHasCandidate(hrefs, i, j);
        }
      }
    }

    /** What a scan that raises has met: a group that does not parse, or no matching link. */
    lemma LinkRaised(hrefs: seq<string>, r: Result<Release>)
      requires Outcome(hrefs, r) && r.Err?
      ensures match r.error
        case Unparseable(text) =>
          exists i :: 0 <= i < |hrefs| && Search(name, pinned, hrefs[i]) == Some(text) && parse(text).None?
        case NoRelease => forall i :: 0 <= i < |hrefs| ==> Search(name, pinned, hrefs[i]).None?
        case _ => false
    {
      hide Search, Less, Candidates;
      if b :| 0 <= b < |hrefs| && Bad(hrefs[b]) {
        var first := FirstBadExists(hrefs, b);
      } else if i :| 0 <= i < |hrefs| && Found(hrefs[i]).Some? {
        LinkHasCandidate(hrefs, |hrefs|, i);
      }
    }
  }

  // ---------- which versions are visible ----------

  function DotParts(v: seq<nat>): string
  {
    if v == [] then "" else "." + Decimal.Print(v[0]) + DotParts(v[1..])
  }

  lemma {:induction false} PrintIsDotParts(v: Version)
    ensures Print(v) == Decimal.Print(v[0]) + DotParts(v[1..])
    decreases |v|
  {
    var parts := PrintParts(v);
    if |v| > 1 {
      assert parts[1..] == PrintParts(v[1..]);
      PrintIsDotParts(v[1..]);
      assert v[1..][1..] == v[2..];
      assert parts[0] + "." + (Decimal.Print(v[1]) + DotParts(v[2..]))
        == parts[0] + ("." + Decimal.Print(v[1]) + DotParts(v[2..]));
    } else {
      assert DotParts(v[1..]) == "";
    }
  }

  lemma {:induction false} DotPartsAppend(a: seq<nat>, b: seq<nat>)
    ensures DotParts(a + b) == DotParts(a) + DotParts(b)
  {
    if a == [] {
      assert a + b == b;
    } else {
      DotPartsAppend(a[1..], b);
      TailOfSum(a, b);
      Assoc("." + Decimal.Print(a[0]), DotParts(a[1..]), DotParts(b));
    }
  }

  lemma OneDigit(n: nat)
    ensures |Decimal.Print(n)| == 1 <==> n < 10
  {
  }

  lemma {:induction false} DotDigitsIff(v: seq<nat>)
    ensures DotDigits(DotParts(v)) <==> forall i :: 0 <= i < |v| ==> v[i] < 10
  {
    if v != [] {
      var digits, rest := Decimal.Print(v[0]), DotParts(v[1..]);
      var text := DotParts(v);
      OneDigit(v[0]);
      DotDigitsIff(v[1..]);
      assert text == "." + digits + rest && text[1] == digits[0];
      assert Decimal.IsDigit(digits[0]) by {
        assert digits[0] in digits;
      }
      if v[0] < 10 {
        assert text[2..] == rest;
        if forall i :: 0 <= i < |v| ==> v[i] < 10 {
          assert forall i :: 0 <= i < |v[1..]| ==> v[1..][i] == v[i + 1];
        }
        if forall i :: 0 <= i < |v[1..]| ==> v[1..][i] < 10 {
          forall i | 0 <= i < |v| ensures v[i] < 10 {
            if i > 0 {
              assert v[1..][i - 1] == v[i];
            }
          }
        }
      } else {
        assert text[2..][0] == digits[1] && digits[1] in digits;
      }
    }
  }

  lemma PrintAppend(pinned: Version, more: seq<nat>)
    ensures Print(pinned + more) == Print(pinned) + DotParts(more)
  {
    PrintIsDotParts(pinned);
    PrintIsDotParts(pinned + more);
    assert (pinned + more)[1..] == pinned[1..] + more;
    DotPartsAppend(pinned[1..], more);
    Assoc(Decimal.Print(pinned[0]), DotParts(pinned[1..]), DotParts(more));
  }

  predicate OneDigitEach(more: seq<nat>)
  {
    more != [] && forall i :: 0 <= i < |more| ==> more[i] < 10
  }

  lemma LinkVersionIff(pinned: Version, more: seq<nat>)
    ensures LinkVersion(Print(pinned), Print(pinned + more)) <==> OneDigitEach(more)
  {
    hide Print, DotDigits;
    PrintAppend(pinned, more);
    var a, b := Print(pinned), DotParts(more);
    TakeDrop(a, b);
    DotDigitsIff(more);
    assert more != [] <==> b != "";
    PrintChars(pinned);
    assert Wild(a, a) by {
      forall i | 0 <= i < |a| ensures a[i] != '\n' {
        assert a[i] in a;
      }
    }
  }

  /** A version group that starts with the pinned version itself is the print of a version: the
      pinned one followed by one-digit components. */
  lemma {:induction false} DotDigitsArePrinted(s: string) returns (more: seq<nat>)
    requires DotDigits(s)
    ensures s == DotParts(more) && forall i :: 0 <= i < |more| ==> more[i] < 10
  {
    if s == "" {
      more := [];
    } else {
      var d := s[1] as int - '0' as int;
      var rest := DotDigitsArePrinted(s[2..]);
      more := [d] + rest;
      assert Decimal.Print(d) == [s[1]];
      assert s == ['.'] + [s[1]] + s[2..];
      assert more[1..] == rest;
    }
  }

  lemma LiteralIsPrinted(pinned: Version, text: string) returns (more: seq<nat>)
    requires LinkVersion(Print(pinned), text) && Print(pinned) <= text
    ensures text == Print(pinned + more) && OneDigitEach(more)
  {
    hide Print;
    more := DotDigitsArePrinted(text[|Print(pinned)|..]);
    PrintAppend(pinned, more);
    assert text == Print(pinned) + text[|Print(pinned)|..];
  }

  lemma {:induction false} SearchIs(name: string, pinned: string, href: string, from: nat, at: nat)
    requires from <= at <= |href|
    requires forall i :: 0 <= i <= |href| && i != at ==> TextAt(name, pinned, href[i..]).None?
    ensures Search(name, pinned, href, from) == TextAt(name, pinned, href[at..])
    decreases |href| - from
  {
    hide TextAt;
    if from < at {
      SearchIs(name, pinned, href, from + 1, at);
    } else if TextAt(name, pinned, href[at..]).None? {
      SearchFails(name, pinned, href, from);
    }
  }

  lemma {:induction false} SearchFails(name: string, pinned: string, href: string, from: nat)
    requires forall i :: from <= i <= |href| ==> TextAt(name, pinned, href[i..]).None?
    ensures Search(name, pinned, href, from).None?
    decreases |href| - from
  {
    hide TextAt;
    if from <= |href| {
      SearchFails(name, pinned, href, from + 1);
    }
  }

  /** The parts of a link: a directory, the file name without its name, and what follows. */
  ghost predicate LinkShape(name: string, dir: string, tail: string)
  {
    && '/' !in name && '-' !in tail
    && (dir == "" || dir[|dir| - 1] == '/') && forall i: nat :: !At(dir, name + "-", i)
  }

  lemma InsideDirectory(dir: string, pat: string, rest: string, i: nat)
    requires i + |pat| <= |dir| && pat <= (dir + rest)[i..]
    ensures At(dir, pat, i)
  {
    assert dir[i..i + |pat|] == (dir + rest)[i..][..|pat|];
  }

  lemma AcrossSlash(dir: string, name: string, rest: string, i: nat)
    requires i < |dir| <= i + |name| && name <= (dir + rest)[i..] && dir[|dir| - 1] == '/'
    ensures '/' in name
  {
    assert name[|dir| - 1 - i] == (dir + rest)[i..][|dir| - 1 - i] == dir[|dir| - 1];
  }

  /** The name occurs, followed by a dash, only where the file name starts. */
  lemma NameOccursOnce(name: string, dir: string, tail: string, i: nat)
    requires LinkShape(name, dir, tail)
    requires i <= |dir + (name + "-" + tail)| && name + "-" <= (dir + (name + "-" + tail))[i..]
    ensures i == |dir|
  {
    var href := dir + (name + "-" + tail);
    assert href[i + |name|] == href[i..][|name|] == '-';
    assert forall d :: |dir| + |name| < d < |href| ==> href[d] == tail[d - |dir| - |name| - 1];
    if i + |name| < |dir| {
      InsideDirectory(dir, name + "-", name + "-" + tail, i);
    } else if i < |dir| {
      AcrossSlash(dir, name, name + "-" + tail, i);
    }
  }

  /** A release below the pinned version is found in its link, in any directory and whatever
      follows the file name, exactly when all its further components have one digit: with 2.3
      pinned, 2.3.9 is found and 2.3.10 is not. */
  lemma VisibleIff(name: string, pinned: Version, more: seq<nat>, dir: string, tail: string)
    requires LinkShape(name, dir, tail)
    ensures Search(name, Print(pinned), dir + (name + "-" + (Print(pinned + more) + EXTENSION + tail)))
      == if OneDigitEach(more) then Some(Print(pinned + more)) else None
  {
    hide Print, TextAt, Search, OneDigitEach;
    var v := Print(pinned + more);
    var rest := v + EXTENSION + tail;
    var href := dir + (name + "-" + rest);
    NoDashBeforeTail(pinned + more, tail);
    assert LinkShape(name, dir, rest);
    forall i | 0 <= i <= |href| && i != |dir| ensures TextAt(name, Print(pinned), href[i..]).None? {
      NoTextElsewhere(name, Print(pinned), dir, rest, i);
    }
    SearchIs(name, Print(pinned), href, 0, |dir|);
    TakeDrop(dir, name + "-" + rest);
    TextAtFile(name, pinned, more, tail);
  }

  lemma NoTextElsewhere(name: string, pinned: string, dir: string, rest: string, i: nat)
    requires LinkShape(name, dir, rest) && i <= |dir + (name + "-" + rest)| && i != |dir|
    ensures TextAt(name, pinned, (dir + (name + "-" + rest))[i..]).None?
  {
    if name + "-" <= (dir + (name + "-" + rest))[i..] {
      NameOccursOnce(name, dir, rest, i);
    }
  }

  lemma NoDashBeforeTail(v: Version, tail: string)
    requires '-' !in tail
    ensures '-' !in Print(v) + EXTENSION + tail
  {
    PrintChars(v);
    assert '-' !in EXTENSION;
  }

  lemma TextAtFile(name: string, pinned: Version, more: seq<nat>, tail: string)
    ensures TextAt(name, Print(pinned), name + "-" + (Print(pinned + more) + EXTENSION + tail))
      == if OneDigitEach(more) then Some(Print(pinned + more)) else None
  {
    hide Print, TextAt, LinkVersion, OneDigitEach;
    var v := Print(pinned + more);
    var s := name + "-" + (v + EXTENSION + tail);
    TextAtIff(name, Print(pinned), s, v);
    LinkVersionIff(pinned, more);
    Assoc(name + "-", v + EXTENSION, tail);
    Assoc(name + "-", v, EXTENSION);
    assert name + "-" + v + EXTENSION <= s;
    if TextAt(name, Print(pinned), s).Some? {
      var text := TextAt(name, Print(pinned), s).value;
      TextAtIff(name, Print(pinned), s, text);
      OnlyText(name, pinned, more, tail, text);
    }
  }

  /** The version group cannot end before or after the printed version. */
  lemma OnlyText(name: string, pinned: Version, more: seq<nat>, tail: string, text: string)
    requires LinkVersion(Print(pinned), text)
    requires name + "-" + text + EXTENSION <= name + "-" + (Print(pinned + more) + EXTENSION + tail)
    ensures text == Print(pinned + more)
  {
    hide Print, LinkVersion;
    var v := Print(pinned + more);
    var rest := v + EXTENSION + tail;
    Assoc(name + "-", text, EXTENSION);
    PrefixInRest(name + "-", text + EXTENSION, rest);
    var more' := rest[|text + EXTENSION|..];
    assert rest == text + EXTENSION + more';
    assert EXTENSION == "." + ['t'] + "ar.gz";
    NoLetterT(pinned, more, tail, text);
    PrintChars(pinned + more);
    assert rest == (text + ".") + ['t'] + ("ar.gz" + more');
    assert rest == (v + ".") + ['t'] + ("ar.gz" + tail);
    CutAtFirst(text + ".", "ar.gz" + more', v + ".", "ar.gz" + tail, 't');
    DropSuffix(text, v, ".");
  }

  lemma {:induction false} DotDigitsChars(s: string)
    requires DotDigits(s)
    ensures 't' !in s
  {
    if s != "" {
      DotDigitsChars(s[2..]);
      assert s == [s[0]] + [s[1]] + s[2..];
    }
  }

  lemma NoLetterT(pinned: Version, more: seq<nat>, tail: string, text: string)
    requires LinkVersion(Print(pinned), text) && text + EXTENSION <= Print(pinned + more) + EXTENSION + tail
    ensures 't' !in text
  {
    hide Print;
    PrintAppend(pinned, more);
    PrintChars(pinned);
    var a := Print(pinned);
    var rest := a + DotParts(more) + EXTENSION + tail;
    DotDigitsChars(text[|a|..]);
    assert text[..|a|] == rest[..|a|] == a by {
      assert rest[..|text + EXTENSION|] == text + EXTENSION;
    }
    assert text == a + text[|a|..];
  }

  // ---------- when the pin holds ----------

  lemma WildWithoutDots(pattern: string, s: string)
    requires Wild(pattern, s) && '.' !in pattern
    ensures s == pattern
  {
    assert forall i :: 0 <= i < |s| ==> pattern[i] in pattern;
  }

  lemma OneComponentIsLiteral(name: string, pinned: Version, href: string)
    requires |pinned| == 1 && Search(name, Print(pinned), href).Some?
    ensures Print(pinned) <= Search(name, Print(pinned), href).value
  {
    hide Search, Wild;
    FoundIsLinkVersion(name, Print(pinned), href, 0);
    var a, text := Print(pinned), Search(name, Print(pinned), href).value;
    assert a == Decimal.Print(pinned[0]);
    assert '.' !in a;
    WildWithoutDots(a, text[..|a|]);
  }

  /** A group of the pattern that misses the pinned version: a zero in place of its first dot. */
  function Miss(pinned: Version): string
    requires |pinned| > 1
  {
    var first := |Decimal.Print(pinned[0])|;
    PrintSplits(pinned);
    Print(pinned)[first := '0'] + ".1"
  }

  lemma PrintSplits(v: Version)
    requires |v| > 1
    ensures var first := |Decimal.Print(v[0])|; first < |Print(v)| && Print(v)[first] == '.'
  {
    PrintIsDotParts(v);
  }

  lemma MissIsGroup(pinned: Version)
    requires |pinned| > 1
    ensures LinkVersion(Print(pinned), Miss(pinned)) && !(Print(pinned) <= Miss(pinned))
  {
    hide Print;
    PrintSplits(pinned);
    PrintChars(pinned);
    var a, first := Print(pinned), |Decimal.Print(pinned[0])|;
    var b := a[first := '0'];
    TakeDrop(b, ".1");
    assert ".1"[2..] == "" && DotDigits(".1");
    assert forall i :: 0 <= i < |a| ==> a[i] in a;
    assert Miss(pinned)[first] == b[first] != a[first];
  }

  lemma MissIsFound(name: string, pinned: Version)
    requires |pinned| > 1
    ensures Search(name, Print(pinned), name + "-" + Miss(pinned) + EXTENSION) == Some(Miss(pinned))
  {
    hide Print, TextAt, LinkVersion, Miss;
    var href := name + "-" + Miss(pinned) + EXTENSION;
    MissIsGroup(pinned);
    TextAtIff(name, Print(pinned), href, Miss(pinned));
    assert href[0..] == href;
  }

  /** The exact condition for the pin to hold on every page: no link whatever is taken for another
      release line if and only if the pinned version has one component, that is, no dot. Of the
      three dependencies on link pages socat is safe, keepalived and lua are not. */
  lemma PinHoldsIff(name: string, pinned: Version)
    ensures (forall href :: Search(name, Print(pinned), href).Some? ==>
              Print(pinned) <= Search(name, Print(pinned), href).value)
       <==> |pinned| == 1
  {
    hide Search, Print, Miss;
    if |pinned| == 1 {
      forall href | Search(name, Print(pinned), href).Some?
        ensures Print(pinned) <= Search(name, Print(pinned), href).value
      {
        OneComponentIsLiteral(name, pinned, href);
      }
    } else {
      MissIsGroup(pinned);
      MissIsFound(name, pinned);
    }
  }

  /** The unescaped dot: with 2.3 pinned, the link of 213.4 is taken, and outranks every 2.3.x. */
  lemma DotMatchesDigit(name: string, tail: string, minor: nat)
    requires LinkShape(name, "", tail)
    ensures Search(name, "2.3", "" + (name + "-" + ("213.4" + EXTENSION + tail))) == Some("213.4")
    ensures Less([2, 3, minor], [213, 4])
  {
    hide TextAt, Search;
    var rest := "213.4" + EXTENSION + tail;
    var href := "" + (name + "-" + rest);
    assert '-' !in EXTENSION && '-' !in "213.4";
    forall i | 0 <= i <= |href| && i != 0 ensures TextAt(name, "2.3", href[i..]).None? {
      NoTextElsewhere(name, "2.3", "", rest, i);
    }
    SearchIs(name, "2.3", href, 0, 0);
    assert href[0..] == href == name + "-" + rest;
    Assoc(name + "-", "213.4" + EXTENSION, tail);
    Assoc(name + "-", "213.4", EXTENSION);
    assert LinkVersion("2.3", "213.4") by {
      assert "213.4"[..3] == "213" && "213.4"[3..] == ".4";
      assert ".4"[2..] == "";
    }
    TextAtIff(name, "2.3", href, "213.4");
  }
}
