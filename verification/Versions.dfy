/** Final-release versions ("Final releases" in PEP 440): one or more numeric components,
    compared as if the shorter one were padded with zeros. */
module Versions {
  import opened Text
  import Decimal

  type Version = v: seq<nat> | |v| > 0 witness [0]

  /** The component at any index, zero beyond the written ones. */
  function Component(v: seq<nat>, i: nat): nat
  {
    if i < |v| then v[i] else 0
  }

  function Rest(v: seq<nat>): seq<nat>
  {
    if v == [] then [] else v[1..]
  }

  predicate Less(a: seq<nat>, b: seq<nat>)
    decreases |a| + |b|
  {
    (a != [] || b != [])
    && (Component(a, 0) < Component(b, 0)
        || (Component(a, 0) == Component(b, 0) && Less(Rest(a), Rest(b))))
  }

  predicate SameRank(a: seq<nat>, b: seq<nat>)
  {
    !Less(a, b) && !Less(b, a)
  }

  ghost predicate FirstDifference(a: seq<nat>, b: seq<nat>, i: nat)
  {
    Component(a, i) != Component(b, i) && forall j: nat :: j < i ==> Component(a, j) == Component(b, j)
  }

  /** The order is decided by the first differing zero-padded component, and ranks are equal
      exactly when no component differs: "1.2" and "1.2.0" rank the same. */
  lemma {:induction false} LessIff(a: seq<nat>, b: seq<nat>)
    ensures Less(a, b) <==> exists i: nat :: FirstDifference(a, b, i) && Component(a, i) < Component(b, i)
    ensures SameRank(a, b) <==> forall i: nat :: Component(a, i) == Component(b, i)
    decreases |a| + |b|
  {
    if a != [] || b != [] {
      LessIff(Rest(a), Rest(b));
      Shift(a);
      Shift(b);
      if Component(a, 0) != Component(b, 0) {
        assert FirstDifference(a, b, 0);
      } else {
        forall i: nat | FirstDifference(Rest(a), Rest(b), i) ensures FirstDifference(a, b, i + 1) {
          forall j: nat | j < i + 1 ensures Component(a, j) == Component(b, j) {
            if j > 0 {
              assert Component(Rest(a), j - 1) == Component(Rest(b), j - 1);
            }
          }
        }
        forall i: nat | FirstDifference(a, b, i) ensures i > 0 && FirstDifference(Rest(a), Rest(b), i - 1) {
        }
        if forall i: nat :: Component(Rest(a), i) == Component(Rest(b), i) {
          forall i: nat ensures Component(a, i) == Component(b, i) {
            if i > 0 {
              assert Component(Rest(a), i - 1) == Component(Rest(b), i - 1);
            }
          }
        }
      }
    }
  }

  lemma Shift(v: seq<nat>)
    ensures forall i: nat :: Component(Rest(v), i) == Component(v, i + 1)
  {
  }

  /** A strict weak order: what a running maximum and a sort both rely on. */
  lemma {:induction false} LessIsStrictWeakOrder(a: seq<nat>, b: seq<nat>, c: seq<nat>)
    ensures !(Less(a, b) && Less(b, a))
    ensures Less(a, b) ==> Less(a, c) || Less(c, b)
    decreases |a| + |b| + |c|
  {
    if a != [] || b != [] || c != [] {
      LessIsStrictWeakOrder(Rest(a), Rest(b), Rest(c));
    }
  }

  const ZERO: Version := [0, 0, 0]

  /** Python's str(version). */
  function PrintParts(v: Version): (parts: seq<string>)
    ensures |parts| == |v|
    ensures NumericParts(parts)
  {
    seq(|v|, i requires 0 <= i < |v| => Decimal.Print(v[i]))
  }

  function Print(v: Version): string
  {
    Join(PrintParts(v), '.')
  }

  predicate NumericParts(parts: seq<string>)
  {
    |parts| > 0 && forall i :: 0 <= i < |parts| ==> Numeric(parts[i])
  }

  predicate Numeric(part: string)
  {
    part != "" && Decimal.AllDigits(part)
  }

  function PartValues(parts: seq<string>): (v: Version)
    requires NumericParts(parts)
    ensures |v| == |parts|
  {
    seq(|parts|, i requires 0 <= i < |parts| => Decimal.Value(parts[i]))
  }

  lemma SplitNumeric(parts: seq<string>)
    requires NumericParts(parts)
    ensures Split(Join(parts, '.'), '.') == parts
    ensures forall c <- Join(parts, '.') :: VersionChar(c)
  {
    forall p | p in parts ensures '.' !in p && forall c <- p :: Decimal.IsDigit(c) {
      assert Numeric(p);
    }
    SplitOfJoin(parts, '.');
    JoinChars(parts, '.', Decimal.IsDigit);
  }

  lemma PartValuesOfPrint(v: Version)
    ensures PartValues(PrintParts(v)) == v
  {
    forall i | 0 <= i < |v| ensures PartValues(PrintParts(v))[i] == v[i] {
      Decimal.ValueOfPrint(v[i]);
    }
  }

  /** version.parse on final releases; anything else counts as unparseable. */
  function ParseFinal(s: string): Option<Version>
  {
    var parts := Split(s, '.');
    if NumericParts(parts) then Some(PartValues(parts)) else None
  }

  predicate VersionChar(c: char)
  {
    Decimal.IsDigit(c) || c == '.'
  }

  lemma PrintChars(v: Version)
    ensures Print(v) != "" && forall c <- Print(v) :: VersionChar(c)
    ensures Decimal.IsDigit(Print(v)[0])
  {
    SplitNumeric(PrintParts(v));
    assert Numeric(PrintParts(v)[0]);
    assert Print(v)[0] == PrintParts(v)[0][0];
  }

  lemma ParseOfPrint(v: Version)
    ensures ParseFinal(Print(v)) == Some(v)
  {
    SplitNumeric(PrintParts(v));
    PartValuesOfPrint(v);
  }

  /** Parsing and printing gives a version text back exactly when no component of it has a leading
      zero. */
  lemma PrintOfParseIff(s: string)
    requires ParseFinal(s).Some?
    ensures Print(ParseFinal(s).value) == s <==> forall p <- Split(s, '.') :: Decimal.NoLeadingZero(p)
  {
    var parts, v := Split(s, '.'), ParseFinal(s).value;
    JoinOfSplit(s, '.');
    SplitNumeric(PrintParts(v));
    hide Split, Join;
    forall i | 0 <= i < |parts| ensures PrintParts(v)[i] == parts[i] <==> Decimal.NoLeadingZero(parts[i]) {
      Decimal.PrintOfValueIff(parts[i]);
    }
    if forall p <- parts :: Decimal.NoLeadingZero(p) {
      assert forall i :: 0 <= i < |parts| ==> parts[i] in parts;
      assert PrintParts(v) == parts;
    }
  }

  lemma PrintInjective(a: Version, b: Version)
    requires Print(a) == Print(b)
    ensures a == b
  {
    ParseOfPrint(a);
    ParseOfPrint(b);
  }
}
