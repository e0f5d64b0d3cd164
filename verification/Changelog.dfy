/** The part of HAProxy's changelog that a bump quotes. */
module Changelog {
  import opened Text
  import opened Versions
  import Decimal

  /** The version the quote stops at: for a new minor or major line, the .0 of the current minor. */
  function ComparisonBase(current: Version, latest: Version): Version
  {
    if Component(latest, 0) > Component(current, 0) || Component(latest, 1) > Component(current, 1)
    then [Component(current, 0), Component(current, 1), 0]
    else current
  }

  /** The base never ranks above the current version, and ranks lower only when the line of
      development changes. */
  lemma BaseIsNotAboveCurrent(current: Version, latest: Version)
    ensures !Less(current, ComparisonBase(current, latest))
    ensures Component(latest, 0) == Component(current, 0) && Component(latest, 1) == Component(current, 1) ==>
      ComparisonBase(current, latest) == current
  {
    var base := ComparisonBase(current, latest);
    LessIff(current, base);
    forall i: nat | FirstDifference(current, base, i) ensures Component(current, i) >= Component(base, i) {
    }
  }

  /** For a bump upwards: within the line of development the base is the current version itself;
      otherwise it is major.minor.0 of the current line, which no version of that line ranks below. */
  lemma BaseOfLine(current: Version, latest: Version, other: Version)
    requires Less(current, latest)
    ensures var sameLine :=
        Component(latest, 0) == Component(current, 0) && Component(latest, 1) == Component(current, 1);
      && (sameLine ==> ComparisonBase(current, latest) == current)
      && (!sameLine ==>
            Print(ComparisonBase(current, latest))
              == Decimal.Print(Component(current, 0)) + "." + Decimal.Print(Component(current, 1)) + ".0")
      && (!sameLine && Component(other, 0) == Component(current, 0) && Component(other, 1) == Component(current, 1) ==>
            !Less(other, ComparisonBase(current, latest)))
  {
    var base := ComparisonBase(current, latest);
    LessIff(current, latest);
    var i: nat :| FirstDifference(current, latest, i) && Component(current, i) < Component(latest, i);
    assert Component(current, 0) == Component(latest, 0) || i == 0;
    assert i > 1 ==> Component(current, 1) == Component(latest, 1);
    if i <= 1 {
      PrintOfThree(Component(current, 0), Component(current, 1));
      LessIff(other, base);
      forall k: nat | FirstDifference(other, base, k)
        ensures Component(other, 0) == Component(current, 0) && Component(other, 1) == Component(current, 1) ==>
          Component(other, k) >= Component(base, k)
      {
      }
    }
  }

  lemma PrintOfThree(a: nat, b: nat)
    ensures Print([a, b, 0]) == Decimal.Print(a) + "." + Decimal.Print(b) + ".0"
  {
    var x, y, z := Decimal.Print(a), Decimal.Print(b), Decimal.Print(0);
    assert PrintParts([a, b, 0]) == [x, y, z];
    assert [x, y, z][1..] == [y, z] && [y, z][1..] == [z];
    assert Join([y, z], '.') == y + ['.'] + z;
    assert z == "0";
    assert Join([x, y, z], '.') == x + ['.'] + (y + ['.'] + z);
  }

  predicate Heads(line: string, version: string)
  {
    EndsWith(line, version + "\n")
  }

  /** A head line ends in the version, then its line break. */
  lemma HeadsIff(line: string, version: string)
    ensures Heads(line, version) <==> exists front: string :: line == front + (version + "\n")
  {
    EndsWithIff(line, version + "\n");
  }

  ghost predicate FirstHead(lines: seq<string>, version: string, n: nat)
  {
    n <= |lines| && (n < |lines| ==> Heads(lines[n], version)) && forall i :: 0 <= i < n ==> !Heads(lines[i], version)
  }

  /** The lines from the first head of the latest version up to the first head of the current one. */
  ghost predicate Quotes(lines: seq<string>, latest: string, current: string, quoted: string)
  {
    forall a: nat, b: nat :: FirstHead(lines, latest, a) && FirstHead(lines, current, b) ==>
      quoted == if a < b then Concat(lines[a..b]) else ""
  }

  /** Copies from the first line that ends with the latest version up to, and without, the first
      line that ends with the current one; nothing if the current one comes first. */
  method QuotedLines(lines: seq<string>, latest: string, current: string) returns (quoted: string)
    ensures Quotes(lines, latest, current, quoted)
  {
    hide Heads, Concat;
    var startCopy := false;
    ghost var start: nat := 0;
    quoted := "";
    for i := 0 to |lines|
      invariant forall k :: 0 <= k < i ==> !Heads(lines[k], current)
      invariant !startCopy ==> quoted == "" && forall k :: 0 <= k < i ==> !Heads(lines[k], latest)
      invariant startCopy ==> start < i && FirstHead(lines, latest, start) && quoted == Concat(lines[start..i])
    {
      var line := lines[i];
      if Heads(line, latest) {
        if !startCopy {
          start := i;
          ConcatNone();
          assert lines[start..i] == [];
        }
        startCopy := true;
      }
      if Heads(line, current) {
        return;
      }
      if !startCopy {
        continue;
      }
      ConcatNext(lines[start..], i - start);
      assert lines[start..][..i - start] == lines[start..i] && lines[start..][..i + 1 - start] == lines[start..i + 1];
      quoted := quoted + line;
    }
  }

  /** What the pull request for a bump from `current` to `latest` quotes. */
  method BumpQuote(lines: seq<string>, current: Version, latest: Version) returns (quoted: string)
    ensures Quotes(lines, Print(latest), Print(ComparisonBase(current, latest)), quoted)
  {
    quoted := QuotedLines(lines, Print(latest), Print(ComparisonBase(current, latest)));
  }

  // ---------- an ordered changelog ----------

  /** A release and the number of its head line. */
  datatype Section = Section(version: Version, head: nat)

  /** The newest release comes first. */
  ghost predicate Ordered(log: seq<Section>, size: nat)
  {
    && (forall k :: 0 <= k < |log| ==> log[k].head < size)
    && forall k, m :: 0 <= k < m < |log| ==> log[k].head < log[m].head && Less(log[m].version, log[k].version)
  }

  /** Where section k starts and section k - 1 ends. */
  function Head(log: seq<Section>, size: nat, k: nat): nat
  {
    if k < |log| then log[k].head else size
  }

  lemma SectionsBetween(log: seq<Section>, size: nat, current: Version, latest: Version, a: nat, b: nat, k: nat)
    requires Ordered(log, size) && k < |log| && a < |log| && log[a].version == latest && b <= |log|
    requires b < |log| ==> log[b].version == ComparisonBase(current, latest)
    ensures Less(current, log[k].version) && !Less(latest, log[k].version) ==> a <= k < b
    ensures b < |log| ==>
      (a <= k < b <==> Less(ComparisonBase(current, latest), log[k].version) && !Less(latest, log[k].version))
  {
    var base, v := ComparisonBase(current, latest), log[k].version;
    BaseIsNotAboveCurrent(current, latest);
    LessIsStrictWeakOrder(current, v, base);
    LessIsStrictWeakOrder(v, latest, v);
    LessIsStrictWeakOrder(v, base, v);
    hide Less, ComparisonBase;
  }

  lemma HeadsInOrder(log: seq<Section>, size: nat, k: nat, m: nat)
    requires Ordered(log, size) && k <= |log| && m <= |log|
    ensures k <= m <==> Head(log, size, k) <= Head(log, size, m)
  {
    hide Less;
  }

  /** Section k lies within the given lines. */
  predicate Inside(log: seq<Section>, size: nat, k: nat, start: nat, stop: nat)
  {
    start <= Head(log, size, k) < Head(log, size, k + 1) <= stop
  }

  lemma InsideIff(log: seq<Section>, size: nat, a: nat, b: nat, k: nat)
    requires Ordered(log, size) && k < |log| && a <= |log| && b <= |log|
    ensures Inside(log, size, k, Head(log, size, a), Head(log, size, b)) <==> a <= k < b
  {
    HeadsInOrder(log, size, a, k);
    HeadsInOrder(log, size, k + 1, b);
    HeadsInOrder(log, size, k + 1, k);
    hide Head, Ordered;
  }

  lemma QuoteParts(lines: seq<string>, start: nat, from: nat, to: nat, stop: nat)
    requires start <= from <= to <= stop <= |lines|
    ensures Concat(lines[start..stop]) == Concat(lines[start..from]) + Concat(lines[from..to]) + Concat(lines[to..stop])
  {
    assert lines[start..stop] == lines[start..from] + lines[from..to] + lines[to..stop];
    ConcatAppend(lines[start..from] + lines[from..to], lines[to..stop]);
    ConcatAppend(lines[start..from], lines[from..to]);
  }

  /** The quote consists of whole sections of an ordered changelog: section k is quoted if its
      release is above the current version and not above the latest. If the comparison base has a
      section, the quoted ones are exactly those above the base and not above the latest. A base
      without a head line (b == |log|) makes the quote run to the end of the file. */
  lemma QuoteHoldsChanges(
      lines: seq<string>, log: seq<Section>, current: Version, latest: Version, quoted: string, a: nat, b: nat, k: nat)
    requires Ordered(log, |lines|) && k < |log| && a < |log| && log[a].version == latest && b <= |log|
    requires b < |log| ==> log[b].version == ComparisonBase(current, latest)
    requires FirstHead(lines, Print(latest), Head(log, |lines|, a))
    requires FirstHead(lines, Print(ComparisonBase(current, latest)), Head(log, |lines|, b))
    requires Quotes(lines, Print(latest), Print(ComparisonBase(current, latest)), quoted)
    ensures var start, stop := Head(log, |lines|, a), Head(log, |lines|, b);
      && (Less(current, log[k].version) && !Less(latest, log[k].version) ==> Inside(log, |lines|, k, start, stop))
      && (b < |log| ==> (Inside(log, |lines|, k, start, stop) <==>
            Less(ComparisonBase(current, latest), log[k].version) && !Less(latest, log[k].version)))
      && (Inside(log, |lines|, k, start, stop) ==>
            var from, to := Head(log, |lines|, k), Head(log, |lines|, k + 1);
            quoted == Concat(lines[start..from]) + Concat(lines[from..to]) + Concat(lines[to..stop]))
  {
    SectionsBetween(log, |lines|, current, latest, a, b, k);
    InsideIff(log, |lines|, a, b, k);
    var start, stop := Head(log, |lines|, a), Head(log, |lines|, b);
    if Inside(log, |lines|, k, start, stop) {
      QuoteParts(lines, start, Head(log, |lines|, k), Head(log, |lines|, k + 1), stop);
    }
    hide Less, ComparisonBase, Ordered, FirstHead, Print, Concat, Head;
  }
}
