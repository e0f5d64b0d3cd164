/** Strings as the scripts use them: splitting and joining on a character, leftmost
    substring search, spans and stripping. */
module Text {

  datatype Option<+T> = None | Some(value: T)

  // ---------- split and join on one character ----------

  /** Never empty: splitting "" gives one empty piece. */
  function Split(s: string, c: char): (pieces: seq<string>)
    ensures |pieces| > 0
  {
    if s == "" then [""]
    else
      var rest := Split(s[1..], c);
      if s[0] == c then [""] + rest else [[s[0]] + rest[0]] + rest[1..]
  }

  lemma {:induction false} SplitPieces(s: string, c: char)
    ensures forall p <- Split(s, c) :: c !in p
  {
    if s != "" {
      SplitPieces(s[1..], c);
    }
  }

  function Join(pieces: seq<string>, c: char): string
    requires |pieces| > 0
  {
    if |pieces| == 1 then pieces[0] else pieces[0] + [c] + Join(pieces[1..], c)
  }

  lemma {:induction false} JoinOfSplit(s: string, c: char)
    ensures Join(Split(s, c), c) == s
  {
    if s != "" {
      JoinOfSplit(s[1..], c);
      var rest := Split(s[1..], c);
      if s[0] == c {
        assert ([""] + rest)[1..] == rest;
      } else {
        var pieces := [[s[0]] + rest[0]] + rest[1..];
        assert pieces[1..] == rest[1..];
      }
    }
  }

  lemma {:induction false} SplitOfPrefix(a: string, c: char, b: string)
    requires c !in a
    ensures Split(a, c) == [a]
    ensures Split(a + [c] + b, c) == [a] + Split(b, c)
  {
    if a == "" {
      assert a + [c] + b == [c] + b;
      assert ([c] + b)[1..] == b;
    } else {
      SplitOfPrefix(a[1..], c, b);
      var whole := a + [c] + b;
      assert whole[1..] == a[1..] + [c] + b;
      assert [a[0]] + a[1..] == a;
    }
  }

  lemma {:induction false} SplitOfJoin(pieces: seq<string>, c: char)
    requires |pieces| > 0
    requires forall p <- pieces :: c !in p
    ensures Split(Join(pieces, c), c) == pieces
  {
    if |pieces| == 1 {
      SplitOfPrefix(pieces[0], c, "");
    } else {
      SplitOfJoin(pieces[1..], c);
      SplitOfPrefix(pieces[0], c, Join(pieces[1..], c));
    }
  }

  lemma {:induction false} JoinChars(pieces: seq<string>, c: char, ok: char -> bool)
    requires |pieces| > 0
    requires forall p <- pieces :: forall x <- p :: ok(x)
    ensures forall x <- Join(pieces, c) :: x == c || ok(x)
  {
    assert pieces[0] in pieces;
    if |pieces| > 1 {
      forall p <- pieces[1..] ensures forall x <- p :: ok(x) { assert p in pieces; }
      JoinChars(pieces[1..], c, ok);
    }
  }

  // ---------- concatenation ----------

  function Concat(pieces: seq<string>): string
  {
    if pieces == [] then "" else pieces[0] + Concat(pieces[1..])
  }

  lemma {:induction false} ConcatAppend(a: seq<string>, b: seq<string>)
    ensures Concat(a + b) == Concat(a) + Concat(b)
  {
    if a == [] {
      assert a + b == b;
    } else {
      ConcatAppend(a[1..], b);
      TailOfSum(a, b);
      Assoc(a[0], Concat(a[1..]), Concat(b));
    }
  }

  lemma ConcatNone()
    ensures Concat([]) == ""
  {
  }

  lemma ConcatNext(pieces: seq<string>, i: nat)
    requires i < |pieces|
    ensures Concat(pieces[..i + 1]) == Concat(pieces[..i]) + pieces[i]
  {
    var last := pieces[i];
    ConcatAppend(pieces[..i], [last]);
    assert pieces[..i + 1] == pieces[..i] + [last];
    assert Concat([last]) == last + "" == last;
  }

  lemma Assoc<T>(a: seq<T>, b: seq<T>, c: seq<T>)
    ensures a + b + c == a + (b + c)
  {
  }

  lemma TailOfSum<T>(a: seq<T>, b: seq<T>)
    requires a != []
    ensures (a + b)[0] == a[0] && (a + b)[1..] == a[1..] + b
  {
  }

  lemma TakeDrop<T>(a: seq<T>, b: seq<T>)
    ensures (a + b)[..|a|] == a && (a + b)[|a|..] == b
  {
  }

  lemma DropTwo<T>(a: seq<T>, b: seq<T>, c: seq<T>)
    ensures (a + (b + c))[|a| + |b|..] == c
  {
  }

  // ---------- substring search ----------

  predicate At(s: string, pat: string, i: nat)
  {
    i + |pat| <= |s| && s[i..i + |pat|] == pat
  }

  ghost predicate Contains(s: string, pat: string)
  {
    exists i: nat :: At(s, pat, i)
  }

  /** The leftmost occurrence at or after `from`. */
  function First(s: string, pat: string, from: nat := 0): (r: Option<nat>)
    ensures r.Some? ==> from <= r.value && At(s, pat, r.value)
    ensures r.Some? ==> forall j: nat :: from <= j < r.value ==> !At(s, pat, j)
    ensures r.None? ==> forall j: nat :: from <= j ==> !At(s, pat, j)
    decreases |s| - from
  {
    if |s| < from + |pat| then None
    else if At(s, pat, from) then Some(from)
    else First(s, pat, from + 1)
  }

  lemma AtInLeft(a: string, b: string, pat: string, i: nat)
    requires i + |pat| <= |a|
    ensures At(a + b, pat, i) <==> At(a, pat, i)
  {
    assert (a + b)[i..i + |pat|] == a[i..i + |pat|];
  }

  lemma AtInRight(a: string, b: string, pat: string, i: nat)
    ensures At(a + b, pat, |a| + i) <==> At(b, pat, i)
  {
    if i + |pat| <= |b| {
      assert (a + b)[|a| + i..|a| + i + |pat|] == b[i..i + |pat|];
    }
  }

  lemma StraddleHoldsSeparator(a: string, c: char, b: string, pat: string, i: nat)
    requires At(a + [c] + b, pat, i)
    requires i <= |a| < i + |pat|
    ensures c in pat
  {
    assert pat[|a| - i] == (a + [c] + b)[|a|];
  }

  /** A pattern holding no `c` that occurs in a + [c] + b occurs in a or in b. */
  lemma NoStraddle(a: string, c: char, b: string, pat: string)
    requires c !in pat && pat != ""
    ensures Contains(a + [c] + b, pat) <==> Contains(a, pat) || Contains(b, pat)
  {
    var s := a + [c] + b;
    Assoc(a, [c], b);
    forall i: nat | At(a, pat, i) ensures At(s, pat, i) {
      AtInLeft(a, [c] + b, pat, i);
    }
    forall i: nat | At(b, pat, i) ensures At(s, pat, |a + [c]| + i) {
      AtInRight(a + [c], b, pat, i);
    }
    forall i: nat | At(s, pat, i) ensures Contains(a, pat) || Contains(b, pat) {
      OccursOnOneSide(a, c, b, pat, i);
    }
  }

  lemma OccursOnOneSide(a: string, c: char, b: string, pat: string, i: nat)
    requires c !in pat && At(a + [c] + b, pat, i)
    ensures Contains(a, pat) || Contains(b, pat)
  {
    if i + |pat| <= |a| {
      Assoc(a, [c], b);
      AtInLeft(a, [c] + b, pat, i);
    } else if i > |a| {
      AtInRight(a + [c], b, pat, i - |a| - 1);
    } else {
      StraddleHoldsSeparator(a, c, b, pat, i);
    }
  }

  lemma AtOneChar(s: string, c: char, i: nat)
    ensures At(s, [c], i) <==> i < |s| && s[i] == c
  {
    if i < |s| {
      assert s[i..i + 1] == [s[i]];
    }
  }

  /** A single character is found where it first stands. */
  lemma FirstChar(a: string, c: char, b: string)
    requires c !in a
    ensures First(a + [c] + b, [c]) == Some(|a|)
  {
    var s := a + [c] + b;
    hide At;
    AtOneChar(s, c, |a|);
    forall j: nat | j < |a| ensures !At(s, [c], j) {
      AtOneChar(s, c, j);
      assert s[j] == a[j];
    }
  }

  // ---------- spans ----------

  /** The length of the longest prefix whose characters all satisfy `ok`. */
  function Span(s: string, ok: char -> bool): (n: nat)
    ensures n <= |s|
  {
    if s == "" || !ok(s[0]) then 0 else 1 + Span(s[1..], ok)
  }

  lemma {:induction false} SpanFacts(s: string, ok: char -> bool)
    ensures forall c <- s[..Span(s, ok)] :: ok(c)
    ensures Span(s, ok) < |s| ==> !ok(s[Span(s, ok)])
  {
    if s != "" && ok(s[0]) {
      SpanFacts(s[1..], ok);
      assert s[..Span(s, ok)] == [s[0]] + s[1..][..Span(s[1..], ok)];
    }
  }

  lemma {:induction false} SpanAppend(a: string, b: string, ok: char -> bool)
    requires forall x <- a :: ok(x)
    ensures Span(a + b, ok) == |a| + Span(b, ok)
  {
    if a == "" {
      assert a + b == b;
    } else {
      assert a[0] in a;
      SpanAppend(a[1..], b, ok);
      TailOfSum(a, b);
    }
  }

  lemma PrefixTransitive(a: string, b: string, c: string)
    ensures a <= b && b <= c ==> a <= c
  {
  }

  // ---------- stripping a set of characters ----------

  /** Python's str.lstrip(chars): drops leading characters as long as they belong to the set. */
  function LStrip(s: string, chars: string): string
  {
    if s != "" && s[0] in chars then LStrip(s[1..], chars) else s
  }

  /** Exactly a prefix of characters from the set goes; what is left starts with another character. */
  lemma {:induction false} LStripIs(s: string, chars: string) returns (gone: string)
    ensures s == gone + LStrip(s, chars) && forall c <- gone :: c in chars
    ensures LStrip(s, chars) != "" ==> LStrip(s, chars)[0] !in chars
  {
    gone := "";
    if s != "" && s[0] in chars {
      var more := LStripIs(s[1..], chars);
      gone := [s[0]] + more;
      assert s == [s[0]] + s[1..];
      Assoc([s[0]], more, LStrip(s[1..], chars));
    } else {
      assert "" + s == s;
    }
  }

  predicate EndsWith(s: string, suffix: string)
  {
    |suffix| <= |s| && s[|s| - |suffix|..] == suffix
  }

  lemma EndsWithIff(s: string, suffix: string)
    ensures EndsWith(s, suffix) <==> exists front: string :: s == front + suffix
  {
    if EndsWith(s, suffix) {
      assert s == s[..|s| - |suffix|] + suffix;
    }
    if front: string :| s == front + suffix {
      TakeDrop(front, suffix);
    }
  }

  function DropTrailing(s: string, ok: char -> bool): (r: string)
    ensures r <= s
    ensures r != "" ==> !ok(r[|r| - 1])
    ensures forall i :: |r| <= i < |s| ==> ok(s[i])
  {
    if s == "" || !ok(s[|s| - 1]) then s else DropTrailing(s[..|s| - 1], ok)
  }

  /** Whitespace of Ruby's String#strip, leading and trailing. */
  predicate RubyBlank(c: char)
  {
    c == ' ' || '\t' <= c <= '\r' || c == '\0'
  }

  function Strip(s: string): string
  {
    DropTrailing(s[Span(s, RubyBlank)..], RubyBlank)
  }

  /** Trimming a class of characters on both sides leaves the core that neither starts nor ends in it. */
  lemma TrimIs(pre: string, core: string, post: string, ok: char -> bool)
    requires (forall x <- pre :: ok(x)) && forall x <- post :: ok(x)
    requires core != "" ==> !ok(core[0]) && !ok(core[|core| - 1])
    ensures var s := pre + core + post; DropTrailing(s[Span(s, ok)..], ok) == core
  {
    if core == "" {
      TrimBlank(pre + post, ok);
      assert pre + core == pre;
    } else {
      var rest := core + post;
      Assoc(pre, core, post);
      SpanAppend(pre, rest, ok);
      assert Span(rest, ok) == 0;
      TakeDrop(pre, rest);
      hide Span, DropTrailing;
      DropTrailingIs(core, post, ok);
    }
  }

  lemma TrimBlank(blanks: string, ok: char -> bool)
    requires forall x <- blanks :: ok(x)
    ensures DropTrailing(blanks[Span(blanks, ok)..], ok) == ""
  {
    SpanAppend(blanks, "", ok);
    assert blanks + "" == blanks;
  }

  /** Strip takes off exactly the surrounding blanks. */
  lemma StripIs(pre: string, core: string, post: string)
    requires forall x <- pre :: RubyBlank(x)
    requires forall x <- post :: RubyBlank(x)
    requires core != "" ==> !RubyBlank(core[0]) && !RubyBlank(core[|core| - 1])
    ensures Strip(pre + core + post) == core
  {
    hide RubyBlank;
    TrimIs(pre, core, post, RubyBlank);
  }

  /** In characters: NUL, TAB to CR and the space go, and nothing else does. */
  lemma StripByCode(pre: string, core: string, post: string)
    requires forall x <- pre + post :: x as int in {0, 9, 10, 11, 12, 13, 32}
    requires core != "" ==> core[0] as int !in {0, 9, 10, 11, 12, 13, 32}
    requires core != "" ==> core[|core| - 1] as int !in {0, 9, 10, 11, 12, 13, 32}
    ensures Strip(pre + core + post) == core
  {
    assert (forall x <- pre :: x in pre + post) && forall x <- post :: x in pre + post;
    StripIs(pre, core, post);
  }

  lemma {:induction false} DropTrailingIs(core: string, post: string, ok: char -> bool)
    requires forall x <- post :: ok(x)
    requires core != "" ==> !ok(core[|core| - 1])
    ensures DropTrailing(core + post, ok) == core
  {
    if post == "" {
      assert core + post == core;
    } else {
      var front, last := post[..|post| - 1], post[|post| - 1];
      assert post == front + [last] && last in post;
      DropTrailingIs(core, front, ok);
      Assoc(core, front, [last]);
      TakeDrop(core + front, [last]);
    }
  }

  // ---------- cutting at a separator ----------

  lemma SameCut<T>(a: seq<T>, b: seq<T>, a': seq<T>, b': seq<T>)
    requires a + b == a' + b' && |a| == |a'|
    ensures a == a' && b == b'
  {
    TakeDrop(a, b);
    TakeDrop(a', b');
  }

  lemma LaterCut(a: string, b: string, a': string, b': string, c: char)
    requires a + [c] + b == a' + [c] + b' && |a| < |a'|
    ensures c in b && c in a'
  {
    assert (a + [c] + b)[|a'|] == b[|a'| - |a| - 1];
    assert (a' + [c] + b')[|a|] == a'[|a|];
  }

  lemma CutAtLast(a: string, b: string, a': string, b': string, c: char)
    requires a + [c] + b == a' + [c] + b' && c !in b && c !in b'
    ensures a == a' && b == b'
  {
    if |a| < |a'| {
      LaterCut(a, b, a', b', c);
    } else if |a'| < |a| {
      LaterCut(a', b', a, b, c);
    } else {
      SameCut(a + [c], b, a' + [c], b');
      SameCut(a, [c], a', [c]);
    }
  }

  lemma CutAtFirst(a: string, b: string, a': string, b': string, c: char)
    requires a + [c] + b == a' + [c] + b' && c !in a && c !in a'
    ensures a == a' && b == b'
  {
    if |a| < |a'| {
      LaterCut(a, b, a', b', c);
    } else if |a'| < |a| {
      LaterCut(a', b', a, b, c);
    } else {
      SameCut(a + [c], b, a' + [c], b');
      SameCut(a, [c], a', [c]);
    }
  }

  lemma DropSuffix(a: string, b: string, suffix: string)
    requires a + suffix == b + suffix
    ensures a == b
  {
    assert (a + suffix)[..|a|] == a;
    assert (b + suffix)[..|b|] == b;
  }
}
