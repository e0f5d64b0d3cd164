/** Choosing the newest release of a dependency: the GitHub scan with a running maximum, and the
    stable descending sort used for link pages. */
module Selection {
  import opened Text
  import opened Versions
  import Decimal

  datatype Result<+T> = Ok(value: T) | Err(error: Error)

  datatype Error =
    | Unparseable(tag: string)
    | NoAsset(tag: string)
    | NoRelease
    | FileMissing(package: string)
    | NoCurrentVersion(name: string)

  datatype Asset = Asset(name: string, url: string)

  datatype GithubRelease = GithubRelease(name: string, tag: string, prerelease: bool, assets: seq<Asset>)

  datatype Release = Release(name: string, url: string, file: string, version: Version)

  /** The first asset whose name ends with the suffix. */
  function DownloadUrl(assets: seq<Asset>, suffix: string): Option<string>
  {
    if assets == [] then None
    else if EndsWith(assets[0].name, suffix) then Some(assets[0].url)
    else DownloadUrl(assets[1..], suffix)
  }

  lemma {:induction false} DownloadUrlIsFirst(assets: seq<Asset>, suffix: string, k: nat)
    requires k < |assets| && EndsWith(assets[k].name, suffix)
    requires forall j :: 0 <= j < k ==> !EndsWith(assets[j].name, suffix)
    ensures DownloadUrl(assets, suffix) == Some(assets[k].url)
  {
    if k > 0 {
      DownloadUrlIsFirst(assets[1..], suffix, k - 1);
    }
  }

  method GetDownloadUrl(assets: seq<Asset>, suffix: string) returns (url: Option<string>)
    ensures url == DownloadUrl(assets, suffix)
    ensures url.None? <==> forall k :: 0 <= k < |assets| ==> !EndsWith(assets[k].name, suffix)
  {
    for i := 0 to |assets|
      invariant forall k :: 0 <= k < i ==> !EndsWith(assets[k].name, suffix)
      invariant DownloadUrl(assets, suffix) == DownloadUrl(assets[i..], suffix)
    {
      if EndsWith(assets[i].name, suffix) {
        return Some(assets[i].url);
      }
      assert assets[i..][1..] == assets[i + 1..];
    }
    return None;
  }

  /** A dependency released on GitHub. `parse` stands for version.parse, None for its exception. */
  datatype GithubSource = GithubSource(
    name: string, prefix: string, pinned: string, suffix: string, parse: string -> Option<Version>)
  {
    function Raw(rel: GithubRelease): string
    {
      LStrip(rel.tag, prefix)
    }

    function VersionOf(rel: GithubRelease): Version
    {
      if parse(Raw(rel)).Some? then parse(Raw(rel)).value else ZERO
    }

    predicate Usable(rel: GithubRelease)
    {
      !rel.prerelease && pinned <= Raw(rel)
    }

    predicate Parses(rel: GithubRelease)
    {
      rel.prerelease || parse(Raw(rel)).Some?
    }

    function ReleaseOf(rel: GithubRelease): Release
    {
      var url := DownloadUrl(rel.assets, suffix);
      var v := VersionOf(rel);
      Release(rel.name, if url.Some? then url.value else "", name + "-" + Print(v) + suffix, v)
    }

    /** A left-to-right strict maximum above 0.0.0. */
    ghost predicate Record(rels: seq<GithubRelease>, i: nat)
    {
      i < |rels| && Usable(rels[i]) && Less(ZERO, VersionOf(rels[i]))
      && forall j :: 0 <= j < i && Usable(rels[j]) ==> Less(VersionOf(rels[j]), VersionOf(rels[i]))
    }

    ghost predicate Bad(rels: seq<GithubRelease>, i: nat)
    {
      i < |rels| && (!Parses(rels[i]) || (Record(rels, i) && DownloadUrl(rels[i].assets, suffix).None?))
    }

    ghost predicate FirstBad(rels: seq<GithubRelease>, i: nat)
    {
      Bad(rels, i) && forall j: nat :: j < i ==> !Bad(rels, j)
    }

    ghost predicate EarliestGreatest(rels: seq<GithubRelease>, i: nat)
    {
      && i < |rels| && Usable(rels[i])
      && (forall j :: 0 <= j < |rels| && Usable(rels[j]) ==> !Less(VersionOf(rels[i]), VersionOf(rels[j])))
      && (forall j :: 0 <= j < i && Usable(rels[j]) ==> Less(VersionOf(rels[j]), VersionOf(rels[i])))
    }

    /** What the scan must return: the first failing release decides the exception; without one,
        the earliest greatest usable release above 0.0.0, or the no-release exception. */
    ghost predicate Outcome(rels: seq<GithubRelease>, r: Result<Release>)
    {
      && (forall i: nat :: FirstBad(rels, i) ==>
            r == Err(if Parses(rels[i]) then NoAsset(rels[i].tag) else Unparseable(rels[i].tag)))
      && ((forall i: nat :: !Bad(rels, i)) ==>
            if exists i: nat :: Record(rels, i) then
              exists i: nat ::
                EarliestGreatest(rels, i) && Less(ZERO, VersionOf(rels[i])) && r == Ok(ReleaseOf(rels[i]))
            else r == Err(NoRelease))
    }

    lemma {:induction false} FirstBadExists(rels: seq<GithubRelease>, i: nat) returns (first: nat)
      requires Bad(rels, i)
      ensures FirstBad(rels, first)
    {
      if j: nat :| j < i && Bad(rels, j) {
        first := FirstBadExists(rels, j);
      } else {
        first := i;
      }
    }

    /** A scan that returns met nothing to raise about. */
    lemma OkIsNotBad(rels: seq<GithubRelease>, r: Result<Release>)
      requires Outcome(rels, r) && r.Ok?
      ensures forall i: nat :: !Bad(rels, i)
      ensures exists i: nat ::
        EarliestGreatest(rels, i) && Less(ZERO, VersionOf(rels[i])) && r == Ok(ReleaseOf(rels[i]))
    {
      hide Bad, Record;
      if i: nat :| Bad(rels, i) {
        var first := FirstBadExists(rels, i);
      }
    }

    /** The tag without its prefix, as the loop computes it. */
    predicate Candidate(rel: GithubRelease, v: Version)
    {
      !rel.prerelease && pinned <= LStrip(rel.tag, prefix) && parse(LStrip(rel.tag, prefix)) == Some(v)
    }

    predicate FirstAsset(assets: seq<Asset>, k: nat)
    {
      k < |assets| && EndsWith(assets[k].name, suffix) && forall j :: 0 <= j < k ==> !EndsWith(assets[j].name, suffix)
    }

    lemma UrlIsFirstAssets(assets: seq<Asset>) returns (k: nat)
      requires DownloadUrl(assets, suffix).Some?
      ensures FirstAsset(assets, k) && DownloadUrl(assets, suffix) == Some(assets[k].url)
    {
      k := 0;
      while k < |assets| && !EndsWith(assets[k].name, suffix)
        invariant k <= |assets| && forall j :: 0 <= j < k ==> !EndsWith(assets[j].name, suffix)
      {
        k := k + 1;
      }
      if k == |assets| {
        NoUrl(assets);
      } else {
        DownloadUrlIsFirst(assets, suffix, k);
      }
    }

    lemma {:induction false} NoUrl(assets: seq<Asset>)
      ensures DownloadUrl(assets, suffix).None? <==> forall j :: 0 <= j < |assets| ==> !EndsWith(assets[j].name, suffix)
    {
      if assets != [] {
        NoUrl(assets[1..]);
        assert forall j :: 0 < j < |assets| ==> assets[j] == assets[1..][j - 1];
        assert forall j :: 0 <= j < |assets[1..]| ==> assets[1..][j] == assets[j + 1];
      }
    }

    /** What a scan that returns has found, field by field: the earliest of the greatest candidates,
        above 0.0.0, with the title of its release, the URL of its first asset with the suffix, and
        the file {name}-{version}{suffix}. */
    lemma ScanFound(rels: seq<GithubRelease>, r: Result<Release>) returns (i: nat, k: nat)
      requires Outcome(rels, r) && r.Ok?
      ensures i < |rels| && Candidate(rels[i], r.value.version) && Less([0, 0, 0], r.value.version)
      ensures forall j: nat, v: Version :: j < |rels| && Candidate(rels[j], v) ==>
        !Less(r.value.version, v) && (j < i ==> Less(v, r.value.version))
      ensures forall j :: 0 <= j < |rels| && !rels[j].prerelease ==> parse(LStrip(rels[j].tag, prefix)).Some?
      ensures r.value.name == rels[i].name
      ensures FirstAsset(rels[i].assets, k) && r.value.url == rels[i].assets[k].url
      ensures r.value.file == name + "-" + Print(r.value.version) + suffix
    {
      hide LStrip, Print, DownloadUrl, EndsWith, Less, Record, Bad, VersionOf, FirstAsset;
      OkIsNotBad(rels, r);
      i :| EarliestGreatest(rels, i) && Less(ZERO, VersionOf(rels[i])) && r == Ok(ReleaseOf(rels[i]));
      GreatestIsCandidate(rels, i);
      k := UrlIsFirstAssets(rels[i].assets);
    }

    lemma GreatestIsCandidate(rels: seq<GithubRelease>, i: nat)
      requires EarliestGreatest(rels, i) && Less(ZERO, VersionOf(rels[i])) && forall j: nat :: !Bad(rels, j)
      ensures Candidate(rels[i], VersionOf(rels[i])) && DownloadUrl(rels[i].assets, suffix).Some?
      ensures forall j :: 0 <= j < |rels| && !rels[j].prerelease ==> parse(LStrip(rels[j].tag, prefix)).Some?
      ensures forall j: nat, v: Version :: j < |rels| && Candidate(rels[j], v) ==>
        !Less(VersionOf(rels[i]), v) && (j < i ==> Less(v, VersionOf(rels[i])))
    {
      hide LStrip, DownloadUrl, Less;
      assert Record(rels, i) && !Bad(rels, i);
      forall j: nat | j < |rels| && !rels[j].prerelease ensures parse(LStrip(rels[j].tag, prefix)).Some? {
        assert !Bad(rels, j);
      }
    }

    /** What a scan that raises has met: a tag that does not parse, a candidate above 0.0.0 without
        an asset, or no candidate above 0.0.0 at all. */
    lemma ScanRaised(rels: seq<GithubRelease>, r: Result<Release>)
      requires Outcome(rels, r) && r.Err?
      ensures match r.error
        case Unparseable(tag) =>
          exists i :: 0 <= i < |rels| && rels[i].tag == tag && !rels[i].prerelease && parse(LStrip(tag, prefix)).None?
        case NoAsset(tag) =>
          exists i, v: Version :: 0 <= i < |rels| && rels[i].tag == tag && Candidate(rels[i], v) && Less([0, 0, 0], v)
            && forall j :: 0 <= j < |rels[i].assets| ==> !EndsWith(rels[i].assets[j].name, suffix)
        case NoRelease => forall i, v: Version :: 0 <= i < |rels| && Candidate(rels[i], v) ==> !Less([0, 0, 0], v)
        case _ => false
    {
      hide LStrip, Print, DownloadUrl, EndsWith, Less;
      if b: nat :| Bad(rels, b) {
        var i := FirstBadExists(rels, b);
        if Parses(rels[i]) {
          NoUrl(rels[i].assets);
          assert Candidate(rels[i], VersionOf(rels[i]));
        }
      } else {
        NoRecordNoCandidate(rels);
      }
    }

    lemma {:induction false} NoRecordNoCandidate(rels: seq<GithubRelease>)
      requires forall i: nat :: !Bad(rels, i)
      ensures (exists i: nat :: Record(rels, i))
        || forall i, v: Version :: 0 <= i < |rels| && Candidate(rels[i], v) ==> !Less([0, 0, 0], v)
    {
      hide LStrip, Less;
      if i, v: Version :| 0 <= i < |rels| && Candidate(rels[i], v) && Less([0, 0, 0], v) {
        var first := FirstAboveZero(rels, i);
        assert Record(rels, first);
      }
    }

    /** The first usable release above 0.0.0 is a record. */
    lemma {:induction false} FirstAboveZero(rels: seq<GithubRelease>, i: nat) returns (first: nat)
      requires i < |rels| && Usable(rels[i]) && Less(ZERO, VersionOf(rels[i]))
      ensures Record(rels, first)
    {
      if j :| 0 <= j < i && Usable(rels[j]) && Less(ZERO, VersionOf(rels[j])) {
        first := FirstAboveZero(rels, j);
      } else {
        first := i;
        forall j | 0 <= j < i && Usable(rels[j]) ensures Less(VersionOf(rels[j]), VersionOf(rels[i])) {
          LessIsStrictWeakOrder(ZERO, VersionOf(rels[i]), VersionOf(rels[j]));
        }
      }
    }

    /** The scan after i releases: `best` is the last record so far and `v` its version. */
    ghost predicate Scanned(rels: seq<GithubRelease>, i: nat, best: Option<nat>, v: Version)
    {
      && i <= |rels| && !Less(v, ZERO)
      && (forall j :: 0 <= j < i && Usable(rels[j]) ==> !Less(v, VersionOf(rels[j])))
      && (best.None? ==> v == ZERO && forall j: nat :: j < i ==> !Record(rels, j))
      && (best.Some? ==> best.value < i && Record(rels, best.value) && v == VersionOf(rels[best.value]))
    }

    lemma ScanSkips(rels: seq<GithubRelease>, i: nat, best: Option<nat>, v: Version)
      requires i < |rels| && Scanned(rels, i, best, v)
      requires Usable(rels[i]) ==> !Less(v, VersionOf(rels[i]))
      ensures !Record(rels, i) && Scanned(rels, i + 1, best, v)
    {
    }

    lemma ScanTakes(rels: seq<GithubRelease>, i: nat, best: Option<nat>, v: Version)
      requires i < |rels| && Scanned(rels, i, best, v)
      requires Usable(rels[i]) && Less(v, VersionOf(rels[i]))
      ensures Record(rels, i) && Scanned(rels, i + 1, Some(i), VersionOf(rels[i]))
    {
      var w := VersionOf(rels[i]);
      LessIsStrictWeakOrder(v, w, ZERO);
      LessIsStrictWeakOrder(ZERO, w, ZERO);
      forall j | 0 <= j <= i && Usable(rels[j])
        ensures j < i ==> Less(VersionOf(rels[j]), w)
        ensures !Less(w, VersionOf(rels[j]))
      {
        LessIsStrictWeakOrder(v, w, VersionOf(rels[j]));
        LessIsStrictWeakOrder(w, VersionOf(rels[j]), w);
      }
    }

    lemma ScanEnds(rels: seq<GithubRelease>, best: Option<nat>, v: Version)
      requires Scanned(rels, |rels|, best, v)
      ensures best.Some? ==> EarliestGreatest(rels, best.value) && Less(ZERO, v)
      ensures best.None? ==> forall i: nat :: !Record(rels, i)
    {
    }

    lemma ScanStarts(rels: seq<GithubRelease>)
      ensures Scanned(rels, 0, None, ZERO)
    {
    }

    lemma StopsAtBad(rels: seq<GithubRelease>, i: nat)
      requires (forall j: nat :: j < i ==> !Bad(rels, j)) && Bad(rels, i)
      ensures Outcome(rels, Err(if Parses(rels[i]) then NoAsset(rels[i].tag) else Unparseable(rels[i].tag)))
    {
      hide Parses, Record, Less, LStrip;
    }

    lemma EndsWithoutBad(rels: seq<GithubRelease>, best: Option<nat>, v: Version)
      requires (forall j: nat :: j < |rels| ==> !Bad(rels, j)) && Scanned(rels, |rels|, best, v)
      ensures best.None? ==> Outcome(rels, Err(NoRelease)) && SameRank(v, ZERO)
      ensures best.Some? ==> best.value < |rels| && Outcome(rels, Ok(ReleaseOf(rels[best.value]))) && !SameRank(v, ZERO)
    {
      ScanEnds(rels, best, v);
      LessIsStrictWeakOrder(ZERO, ZERO, ZERO);
      assert forall j: nat :: !Bad(rels, j);
      hide Less, LStrip, DownloadUrl, ReleaseOf;
      if best.Some? {
        assert Record(rels, best.value);
      }
    }

    method FetchLatestRelease(rels: seq<GithubRelease>) returns (r: Result<Release>)
      ensures Outcome(rels, r)
    {
      hide LStrip, Print, DownloadUrl, EndsWith, Less, Outcome, SameRank;
      ScanStarts(rels);
      var latestRelease: Option<Release> := None;
      var latestVersion: Version := ZERO;
      ghost var best: Option<nat> := None;
      for i := 0 to |rels|
        invariant forall j: nat :: j < i ==> !Bad(rels, j)
        invariant Scanned(rels, i, best, latestVersion)
        invariant latestRelease == if best.Some? then Some(ReleaseOf(rels[best.value])) else None
      {
        var rel := rels[i];
        if rel.prerelease {
          ScanSkips(rels, i, best, latestVersion);
          continue;
        }
        var raw := LStrip(rel.tag, prefix);
        var parsed := parse(raw);
        if parsed.None? {
          StopsAtBad(rels, i);
          return Err(Unparseable(rel.tag));
        }
        var current := parsed.value;
        if Less(latestVersion, current) && pinned <= raw {
          ScanTakes(rels, i, best, latestVersion);
          latestVersion := current;
          var url := GetDownloadUrl(rel.assets, suffix);
          if url.None? {
            StopsAtBad(rels, i);
            return Err(NoAsset(rel.tag));
          }
          latestRelease := Some(Release(rel.name, url.value, name + "-" + Print(current) + suffix, current));
          best := Some(i);
        } else {
          ScanSkips(rels, i, best, latestVersion);
        }
      }
      EndsWithoutBad(rels, best, latestVersion);
      if SameRank(latestVersion, ZERO) || latestRelease.None? {
        return Err(NoRelease);
      }
      return Ok(latestRelease.value);
    }

    /** The releases the scan considers, as the records it would build. */
    function Candidates(rels: seq<GithubRelease>): seq<Release>
    {
      if rels == [] then []
      else (if Usable(rels[0]) then [ReleaseOf(rels[0])] else []) + Candidates(rels[1..])
    }
  }

  // ---------- the stable descending sort ----------

  /** The candidates of one rank, in list order. */
  function OfRank(cs: seq<Release>, v: Version): seq<Release>
  {
    if cs == [] then [] else (if SameRank(cs[0].version, v) then [cs[0]] else []) + OfRank(cs[1..], v)
  }

  ghost predicate Descending(cs: seq<Release>)
  {
    forall i, j :: 0 <= i < j < |cs| ==> !Less(cs[i].version, cs[j].version)
  }

  /** sorted(cs, key=version, reverse=True): descending, and equal ranks keep their order. */
  ghost predicate IsStableSort(cs: seq<Release>, sorted: seq<Release>)
  {
    Descending(sorted) && forall v: Version :: OfRank(sorted, v) == OfRank(cs, v)
  }

  function Insert(c: Release, sorted: seq<Release>): seq<Release>
  {
    if sorted == [] || !Less(c.version, sorted[0].version) then [c] + sorted
    else [sorted[0]] + Insert(c, sorted[1..])
  }

  function SortDescending(cs: seq<Release>): seq<Release>
  {
    if cs == [] then [] else Insert(cs[0], SortDescending(cs[1..]))
  }

  lemma {:induction false} InsertOfRank(c: Release, sorted: seq<Release>, v: Version)
    ensures OfRank(Insert(c, sorted), v) == OfRank([c] + sorted, v)
  {
    assert ([c] + sorted)[1..] == sorted;
    if sorted != [] && Less(c.version, sorted[0].version) {
      InsertOfRank(c, sorted[1..], v);
      assert ([c] + sorted[1..])[1..] == sorted[1..];
      assert ([sorted[0]] + Insert(c, sorted[1..]))[1..] == Insert(c, sorted[1..]);
      LessIsStrictWeakOrder(c.version, sorted[0].version, v);
    }
  }

  lemma {:induction false} InsertDescending(c: Release, sorted: seq<Release>)
    requires Descending(sorted)
    ensures Descending(Insert(c, sorted))
    ensures forall x <- Insert(c, sorted) :: x == c || x in sorted
  {
    if sorted == [] {
    } else if Less(c.version, sorted[0].version) {
      InsertDescending(c, sorted[1..]);
      LessIsStrictWeakOrder(c.version, sorted[0].version, c.version);
      var tail := Insert(c, sorted[1..]);
      forall j | 0 <= j < |tail| ensures !Less(sorted[0].version, tail[j].version) {
        assert tail[j] in tail;
      }
    } else {
      forall j | 0 <= j < |sorted| ensures !Less(c.version, sorted[j].version) {
        if j > 0 {
          LessIsStrictWeakOrder(c.version, sorted[j].version, sorted[0].version);
        }
      }
    }
  }

  lemma {:induction false} SortIsStable(cs: seq<Release>)
    ensures IsStableSort(cs, SortDescending(cs))
  {
    if cs != [] {
      SortIsStable(cs[1..]);
      var rest := SortDescending(cs[1..]);
      InsertDescending(cs[0], rest);
      forall v: Version ensures OfRank(SortDescending(cs), v) == OfRank(cs, v) {
        InsertOfRank(cs[0], rest, v);
        assert ([cs[0]] + rest)[1..] == rest;
      }
    }
  }

  lemma {:induction false} OfRankHolds(cs: seq<Release>, k: nat)
    requires k < |cs|
    ensures OfRank(cs, cs[k].version) != []
    ensures (forall j :: 0 <= j < k ==> !SameRank(cs[j].version, cs[k].version)) ==>
      OfRank(cs, cs[k].version)[0] == cs[k]
  {
    SameRankAsItself(cs[k].version);
    OfRankUnfolds(cs, cs[k].version);
    hide SameRank, OfRank;
    if k > 0 {
      OfRankHolds(cs[1..], k - 1);
      assert cs[1..][k - 1] == cs[k];
      assert forall j :: 0 < j < k ==> cs[j] == cs[1..][j - 1];
    }
  }

  lemma OfRankUnfolds(cs: seq<Release>, v: Version)
    requires cs != []
    ensures OfRank(cs, v) == (if SameRank(cs[0].version, v) then [cs[0]] else []) + OfRank(cs[1..], v)
  {
  }

  lemma SameRankAsItself(v: Version)
    ensures SameRank(v, v)
  {
    LessIsStrictWeakOrder(v, v, v);
  }

  lemma {:induction false} OfRankHead(cs: seq<Release>, v: Version) returns (k: nat)
    requires OfRank(cs, v) != []
    ensures k < |cs| && cs[k] == OfRank(cs, v)[0] && SameRank(cs[k].version, v)
    ensures forall j :: 0 <= j < k ==> !SameRank(cs[j].version, v)
  {
    if SameRank(cs[0].version, v) {
      k := 0;
    } else {
      k := OfRankHead(cs[1..], v);
      k := k + 1;
    }
  }

  ghost predicate FirstGreatest(cs: seq<Release>, k: nat)
  {
    && k < |cs|
    && (forall j :: 0 <= j < |cs| ==> !Less(cs[k].version, cs[j].version))
    && (forall j :: 0 <= j < k ==> Less(cs[j].version, cs[k].version))
  }

  /** The head of every stable descending sort is the earliest greatest candidate. */
  lemma HeadOfStableSort(cs: seq<Release>, sorted: seq<Release>) returns (k: nat)
    requires cs != [] && IsStableSort(cs, sorted)
    ensures sorted != [] && FirstGreatest(cs, k) && sorted[0] == cs[k]
  {
    OfRankHolds(cs, 0);
    var m := OfRankHead(sorted, cs[0].version);
    var top := sorted[0].version;
    OfRankHolds(sorted, 0);
    k := OfRankHead(cs, top);
    forall j | 0 <= j < |cs| ensures !Less(cs[k].version, cs[j].version) {
      OfRankHolds(cs, j);
      var at := OfRankHead(sorted, cs[j].version);
      LessIsStrictWeakOrder(top, sorted[at].version, cs[j].version);
      LessIsStrictWeakOrder(top, cs[j].version, sorted[at].version);
      LessIsStrictWeakOrder(cs[k].version, cs[j].version, top);
    }
    forall j | 0 <= j < k ensures Less(cs[j].version, cs[k].version) {
      LessIsStrictWeakOrder(cs[k].version, cs[j].version, top);
      LessIsStrictWeakOrder(top, cs[j].version, cs[k].version);
      LessIsStrictWeakOrder(cs[j].version, top, cs[k].version);
    }
  }

  method FetchFromLinks(candidates: seq<Release>) returns (r: Result<Release>)
    ensures candidates == [] ==> r == Err(NoRelease)
    ensures candidates != [] ==> exists k: nat :: FirstGreatest(candidates, k) && r == Ok(candidates[k])
  {
    if candidates != [] {
      SortIsStable(candidates);
      var sorted := SortDescending(candidates);
      ghost var k := HeadOfStableSort(candidates, sorted);
      return Ok(sorted[0]);
    }
    return Err(NoRelease);
  }

  // ---------- scan equals sort ----------

  lemma {:induction false} FirstCandidateOfRank(src: GithubSource, rels: seq<GithubRelease>, i: nat)
    requires i < |rels| && src.Usable(rels[i])
    requires forall j :: 0 <= j < i && src.Usable(rels[j]) ==> !SameRank(src.VersionOf(rels[j]), src.VersionOf(rels[i]))
    ensures OfRank(src.Candidates(rels), src.VersionOf(rels[i])) != []
    ensures OfRank(src.Candidates(rels), src.VersionOf(rels[i]))[0] == src.ReleaseOf(rels[i])
  {
    var v := src.VersionOf(rels[i]);
    LessIsStrictWeakOrder(v, v, v);
    if src.Usable(rels[0]) {
      assert src.Candidates(rels)[1..] == src.Candidates(rels[1..]);
    } else {
      assert src.Candidates(rels) == src.Candidates(rels[1..]);
    }
    if i > 0 {
      assert rels[1..][i - 1] == rels[i];
      forall j | 0 <= j < i - 1 && src.Usable(rels[1..][j]) ensures !SameRank(src.VersionOf(rels[1..][j]), v) {
        assert rels[1..][j] == rels[j + 1];
      }
      FirstCandidateOfRank(src, rels[1..], i - 1);
    }
  }

  lemma {:induction false} CandidateFrom(src: GithubSource, rels: seq<GithubRelease>, k: nat) returns (i: nat)
    requires k < |src.Candidates(rels)|
    ensures i < |rels| && src.Usable(rels[i]) && src.Candidates(rels)[k] == src.ReleaseOf(rels[i])
  {
    hide GithubSource.Usable, GithubSource.ReleaseOf;
    if src.Usable(rels[0]) && k == 0 {
      i := 0;
    } else {
      i := CandidateFrom(src, rels[1..], if src.Usable(rels[0]) then k - 1 else k);
      i := i + 1;
    }
  }

  lemma {:induction false} RankClassesEqual(cs: seq<Release>, v: Version, w: Version)
    requires SameRank(v, w)
    ensures OfRank(cs, v) == OfRank(cs, w)
  {
    if cs != [] {
      RankClassesEqual(cs[1..], v, w);
      LessIsStrictWeakOrder(cs[0].version, v, w);
      LessIsStrictWeakOrder(cs[0].version, w, v);
      LessIsStrictWeakOrder(v, cs[0].version, w);
      LessIsStrictWeakOrder(w, cs[0].version, v);
    }
  }

  /** The scan and every stable descending sort choose the same release, ties included, exactly
      when the greatest candidate is above 0.0.0; otherwise only the scan gives up. */
  lemma ScanEqualsSort(src: GithubSource, rels: seq<GithubRelease>, r: Result<Release>, sorted: seq<Release>)
    requires src.Outcome(rels, r) && forall i: nat :: !src.Bad(rels, i)
    requires IsStableSort(src.Candidates(rels), sorted)
    ensures sorted != [] && Less(ZERO, sorted[0].version) ==> r == Ok(sorted[0])
    ensures sorted == [] || !Less(ZERO, sorted[0].version) ==> r == Err(NoRelease)
  {
    var cs := src.Candidates(rels);
    if cs == [] {
      if sorted != [] {
        OfRankHolds(sorted, 0);
      }
      forall i: nat | src.Record(rels, i) ensures false {
        LessIsStrictWeakOrder(src.VersionOf(rels[i]), src.VersionOf(rels[i]), ZERO);
        var first := FirstUsableOfRank(src, rels, i);
        FirstCandidateOfRank(src, rels, first);
      }
    } else {
      var k := HeadOfStableSort(cs, sorted);
      var at := CandidateFrom(src, rels, k);
      if exists i: nat :: src.Record(rels, i) {
        var i: nat :|
          src.EarliestGreatest(rels, i) && Less(ZERO, src.VersionOf(rels[i])) && r == Ok(src.ReleaseOf(rels[i]));
        GreatestMatchesHead(src, rels, i, sorted, k);
      } else {
        NoRecordNoneAbove(src, rels, at);
      }
    }
  }

  lemma FirstUsableOfRank(src: GithubSource, rels: seq<GithubRelease>, i: nat) returns (k: nat)
    requires i < |rels| && src.Usable(rels[i])
    ensures k <= i && src.Usable(rels[k]) && SameRank(src.VersionOf(rels[k]), src.VersionOf(rels[i]))
    ensures forall j :: 0 <= j < k && src.Usable(rels[j]) ==> !SameRank(src.VersionOf(rels[j]), src.VersionOf(rels[k]))
    decreases i
  {
    k := i;
    LessIsStrictWeakOrder(src.VersionOf(rels[i]), src.VersionOf(rels[i]), ZERO);
    if j :| 0 <= j < i && src.Usable(rels[j]) && SameRank(src.VersionOf(rels[j]), src.VersionOf(rels[i])) {
      k := FirstUsableOfRank(src, rels, j);
      var a, b, c := src.VersionOf(rels[k]), src.VersionOf(rels[j]), src.VersionOf(rels[i]);
      LessIsStrictWeakOrder(a, c, b);
      LessIsStrictWeakOrder(c, a, b);
    }
  }

  lemma NoRecordNoneAbove(src: GithubSource, rels: seq<GithubRelease>, i: nat)
    requires i < |rels| && src.Usable(rels[i]) && forall j: nat :: !src.Record(rels, j)
    ensures !Less(ZERO, src.VersionOf(rels[i]))
    decreases i
  {
    forall j | 0 <= j < i && src.Usable(rels[j]) ensures !Less(ZERO, src.VersionOf(rels[j])) {
      NoRecordNoneAbove(src, rels, j);
    }
    if Less(ZERO, src.VersionOf(rels[i])) {
      LessIsStrictWeakOrder(ZERO, ZERO, ZERO);
      src.ScanTakes(rels, i, None, ZERO);
    }
  }

  lemma GreatestMatchesHead(src: GithubSource, rels: seq<GithubRelease>, i: nat, sorted: seq<Release>, k: nat)
    requires src.EarliestGreatest(rels, i) && Less(ZERO, src.VersionOf(rels[i]))
    requires IsStableSort(src.Candidates(rels), sorted) && FirstGreatest(src.Candidates(rels), k)
    requires sorted != [] && sorted[0] == src.Candidates(rels)[k]
    ensures sorted[0] == src.ReleaseOf(rels[i]) && Less(ZERO, sorted[0].version)
  {
    var cs, v := src.Candidates(rels), src.VersionOf(rels[i]);
    forall j | 0 <= j < i && src.Usable(rels[j]) ensures !SameRank(src.VersionOf(rels[j]), v) {
    }
    FirstCandidateOfRank(src, rels, i);
    var m := OfRankHead(cs, v);
    var at := CandidateFrom(src, rels, k);
    var top := cs[k].version;
    LessIsStrictWeakOrder(top, v, cs[m].version);
    LessIsStrictWeakOrder(v, top, cs[m].version);
    assert SameRank(top, v);
    RankClassesEqual(cs, top, v);
    OfRankHolds(cs, k);
    forall j | 0 <= j < k ensures !SameRank(cs[j].version, top) {
    }
    LessIsStrictWeakOrder(ZERO, v, top);
  }

  // ---------- reading the tag ----------

  /** lstrip takes a set of characters: a tag loses its prefix and nothing else exactly when the
      version text does not itself start with a character of the prefix. */
  lemma {:induction false} TagStripsExactly(prefix: string, raw: string)
    ensures LStrip(prefix + raw, prefix) == raw <==> raw == "" || raw[0] !in prefix
  {
    LStripPrefix(prefix, raw, prefix);
    LStripShorter(raw, prefix);
  }

  lemma {:induction false} LStripPrefix(p: string, raw: string, chars: string)
    requires forall c <- p :: c in chars
    ensures LStrip(p + raw, chars) == LStrip(raw, chars)
  {
    if p == "" {
      assert p + raw == raw;
    } else {
      assert p[0] in p;
      LStripPrefix(p[1..], raw, chars);
      assert (p + raw)[1..] == p[1..] + raw;
    }
  }

  lemma {:induction false} LStripShorter(s: string, chars: string)
    ensures |LStrip(s, chars)| <= |s|
    ensures s != "" && s[0] in chars ==> |LStrip(s, chars)| < |s|
  {
    if s != "" && s[0] in chars {
      LStripShorter(s[1..], chars);
    }
  }

  /** PCRE2's prefix ends its versions that start with 2: tag "pcre2-20.1" reads as 0.1. */
  lemma PcreTwentyIsMisread()
    ensures LStrip("pcre2-20.1", "pcre2-") == "0.1"
    ensures ParseFinal(LStrip("pcre2-20.1", "pcre2-")) == Some([0, 1])
  {
    LStripPrefix("pcre2-2", "0.1", "pcre2-");
    assert "pcre2-2" + "0.1" == "pcre2-20.1";
    assert Decimal.Print(0) == "0" && Decimal.Print(1) == "1";
    assert PrintParts([0, 1]) == ["0", "1"];
    assert Join(["0", "1"], '.') == "0.1" by {
      assert ["0", "1"][1..] == ["1"];
    }
    ParseOfPrint([0, 1]);
  }
}
