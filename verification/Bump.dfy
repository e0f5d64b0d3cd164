/** The bump run: one working tree, one remote, one pass over the dependencies, one branch and one
    pull request per bump. */
module Bump {
  import opened Text
  import opened Versions
  import opened Packaging
  import opened Selection

  /** The tracked files a bump touches: packaging text by package, and blobs.yml as a map from
      blob path to the object stored there (named by the URL it was downloaded from). */
  datatype Files = Files(packaging: map<string, string>, blobs: map<string, string>)

  datatype Spec = Spec(name: string, varName: string, package: string)

  /** The outside steps of one bump that can raise, in their order. */
  datatype Step =
    | CheckPr | Download | RemoveBlob | AddBlob | UploadBlobs | ReleaseNotes
    | LookUpBranch | DeleteBranch | CreateBranch | PushPackaging | PushBlobs | OpenPull | AddLabel

  /** What ends a run: no current version or release was found, or a step raised. */
  datatype Failure = NotFound(error: Error) | StepFailed(step: Step)

  /** What the outside world answers for one dependency: the release lookup, whether a bump PR is
      open, the release notes, and which steps raise. */
  datatype World = World(release: Result<Release>, prOpen: bool, notes: string, raising: set<Step>)

  /** A pull request with the contents of its branch and what its text is made of. */
  datatype Pull = Pull(
    branch: string, files: Files, current: Version, latest: Version, about: About, labelled: bool)
  {
    function Title(): string
    {
      "Bump " + about.name + " version to" + [' '] + Print(latest)
    }

    function Body(): string
    {
      OPENING + (Print(current) + (" to version " + (Print(latest) + (", downloaded from " + (about.url + ("."
        + ("\n\nAfter merge, consider releasing a new version of haproxy-boshrelease.\n" + about.notes)))))))
    }
  }

  const OPENING := "\nAutomatic bump from version "

  datatype About = About(name: string, url: string, notes: string)

  /** What a run leaves behind on the remote: the pull requests it opened and all bump branches. */
  datatype Run = Run(pulls: seq<Pull>, branches: map<string, Files>, error: Option<Failure>)

  // ---------- what one bump means, on values ----------

  function ReadCurrent(spec: Spec, files: Files): Result<Version>
  {
    if spec.package !in files.packaging then Err(FileMissing(spec.package))
    else
      var v := ReadVersion(FileLines(files.packaging[spec.package]), spec.varName);
      if v.Some? then Ok(v.value) else Err(NoCurrentVersion(spec.name))
  }

  /** Where the blobstore keeps a release of that version; `suffix` is that of the source. */
  function StoredKey(spec: Spec, v: Version, suffix: string): string
  {
    spec.package + "/" + (spec.name + "-" + Print(v) + suffix)
  }

  /** The blob path that the removal looks for. */
  function TarballKey(spec: Spec, v: Version): string
  {
    StoredKey(spec, v, ".tar.gz")
  }

  function BumpedFiles(files: Files, spec: Spec, current: Version, rel: Release): Files
    requires spec.package in files.packaging
  {
    Files(
      files.packaging[spec.package := Written(files.packaging[spec.package], spec.varName, rel.version, rel.url)],
      (files.blobs - {TarballKey(spec, current)})[spec.package + "/" + rel.file := rel.url])
  }

  /** The first step to raise before anything is pushed. */
  function FirstRaising(w: World, removes: bool, dryRun: bool): Option<Step>
  {
    if Download in w.raising then Some(Download)
    else if removes && RemoveBlob in w.raising then Some(RemoveBlob)
    else if AddBlob in w.raising then Some(AddBlob)
    else if !dryRun && UploadBlobs in w.raising then Some(UploadBlobs)
    else if ReleaseNotes in w.raising then Some(ReleaseNotes)
    else None
  }

  /** The branch between its two pushes. */
  function HalfBumped(base: Files, spec: Spec, files: Files): Files
    requires spec.package in files.packaging
  {
    base.(packaging := base.packaging[spec.package := files.packaging[spec.package]])
  }

  /** One push: an old branch of that name is deleted, a new one is created from the base and takes
      the packaging file and the blobs, then the pull request is opened and labelled. The creation
      is attempted even if the deletion raised, and fails while the old branch is there. */
  function Pushed(base: Files, branches: map<string, Files>, spec: Spec, pull: Pull, w: World): Run
    requires spec.package in pull.files.packaging
  {
    var name := pull.branch;
    if LookUpBranch in w.raising || (name in branches && DeleteBranch in w.raising) then
      if name in branches || CreateBranch in w.raising then Run([], branches, Some(StepFailed(CreateBranch)))
      else Run([], branches[name := base], Some(StepFailed(LookUpBranch)))
    else if CreateBranch in w.raising then Run([], branches - {name}, Some(StepFailed(CreateBranch)))
    else if PushPackaging in w.raising then Run([], branches[name := base], Some(StepFailed(PushPackaging)))
    else if PushBlobs in w.raising then
      Run([], branches[name := HalfBumped(base, spec, pull.files)], Some(StepFailed(PushBlobs)))
    else if OpenPull in w.raising then Run([], branches[name := pull.files], Some(StepFailed(OpenPull)))
    else Run([pull], branches[name := pull.files], if pull.labelled then None else Some(StepFailed(AddLabel)))
  }

  function BranchOf(spec: Spec, prBase: string): string
  {
    spec.name + "-auto-bump-" + prBase
  }

  /** The pull request of a bump that gets through. */
  function PullOf(base: Files, prBase: string, spec: Spec, w: World): Pull
    requires spec.package in base.packaging && ReadCurrent(spec, base).Ok? && w.release.Ok?
  {
    var current, rel := ReadCurrent(spec, base).value, w.release.value;
    Pull(
      BranchOf(spec, prBase), BumpedFiles(base, spec, current, rel), current, rel.version,
      About(spec.name, rel.url, w.notes), AddLabel !in w.raising)
  }

  /** One dependency on its own, starting from `base`. */
  function AttemptOn(
      base: Files, branches: map<string, Files>, prBase: string, dryRun: bool, spec: Spec, w: World): Run
  {
    var current := ReadCurrent(spec, base);
    if current.Err? then Run([], branches, Some(NotFound(current.error)))
    else if w.release.Err? then Run([], branches, Some(NotFound(w.release.error)))
    else if !Less(current.value, w.release.value.version) then Run([], branches, None)
    else if CheckPr in w.raising then Run([], branches, Some(StepFailed(CheckPr)))
    else if w.prOpen then Run([], branches, None)
    else
      var step := FirstRaising(w, TarballKey(spec, current.value) in base.blobs, dryRun);
      if step.Some? then Run([], branches, Some(StepFailed(step.value)))
      else if dryRun then Run([], branches, None)
      else Pushed(base, branches, spec, PullOf(base, prBase, spec, w), w)
  }

  /** The run, with every dependency taken from the same base: nothing but the branches on the
      remote passes from one to the next. */
  function RunOn(
      base: Files, branches: map<string, Files>, prBase: string, dryRun: bool, specs: seq<Spec>,
      worlds: seq<World>): Run
    requires |specs| == |worlds|
    decreases |specs|
  {
    if specs == [] then Run([], branches, None)
    else
      var here := AttemptOn(base, branches, prBase, dryRun, specs[0], worlds[0]);
      if here.error.Some? then here
      else After(here.pulls, RunOn(base, here.branches, prBase, dryRun, specs[1..], worlds[1..]))
  }

  function After(done: seq<Pull>, rest: Run): Run
  {
    rest.(pulls := done + rest.pulls)
  }

  lemma AfterAfter(a: seq<Pull>, b: seq<Pull>, rest: Run)
    ensures After(a, After(b, rest)) == After(a + b, rest)
  {
    Assoc(a, b, rest.pulls);
  }

  // ---------- the program ----------

  class Dependency {
    const spec: Spec
    var currentVersion: Option<Version>
    var latestRelease: Option<Release>

    constructor (spec: Spec)
      ensures this.spec == spec && currentVersion.None? && latestRelease.None?
    {
      this.spec := spec;
      currentVersion, latestRelease := None, None;
    }

    /** Reads the packaging file once and caches the version. */
    method CurrentVersion(files: Files) returns (r: Result<Version>)
      modifies this`currentVersion
      ensures old(currentVersion).Some? ==> r == Ok(old(currentVersion).value)
      ensures old(currentVersion).None? ==> r == ReadCurrent(spec, files)
      ensures currentVersion == if r.Ok? then Some(r.value) else old(currentVersion)
    {
      if currentVersion.Some? {
        return Ok(currentVersion.value);
      }
      if spec.package !in files.packaging {
        return Err(FileMissing(spec.package));
      }
      var lines := FileLines(files.packaging[spec.package]);
      assert lines[0..] == lines;
      for i := 0 to |lines|
        invariant ReadVersion(lines, spec.varName) == ReadVersion(lines[i..], spec.varName)
        invariant currentVersion.None?
      {
        var line := lines[i];
        assert lines[i..][1..] == lines[i + 1..];
        if spec.varName <= line {
          var found := MatchLine(spec.varName, line);
          if found.Some? {
            currentVersion := found;
            return Ok(found.value);
          }
        } else {
          PrefixTransitive(spec.varName, spec.varName + "=", line);
        }
      }
      return Err(NoCurrentVersion(spec.name));
    }

    method LatestRelease(w: World) returns (r: Result<Release>)
      modifies this`latestRelease
      ensures old(latestRelease).Some? ==> r == Ok(old(latestRelease).value)
      ensures old(latestRelease).None? ==> r == w.release
      ensures latestRelease == if r.Ok? then Some(r.value) else old(latestRelease)
    {
      if latestRelease.Some? {
        return Ok(latestRelease.value);
      }
      r := w.release;
      if r.Ok? {
        latestRelease := Some(r.value);
      }
    }
  }

  lemma UpdateTwice(m: map<string, Files>, name: string, a: Files, b: Files)
    ensures m[name := a][name := b] == m[name := b]
  {
  }

  /** The checked-out repository, the bump branches on the remote and the pull requests opened. */
  class Pipeline {
    const base: Files
    const prBase: string
    const dryRun: bool
    var files: Files
    var branches: map<string, Files>
    var pulls: seq<Pull>

    constructor (base: Files, branches: map<string, Files>, prBase: string, dryRun: bool)
      ensures this.base == base && this.prBase == prBase && this.dryRun == dryRun
      ensures files == base && this.branches == branches && pulls == []
    {
      this.base, this.prBase, this.dryRun := base, prBase, dryRun;
      files, this.branches, pulls := base, branches, [];
    }

    method RemoveCurrentBlob(spec: Spec, current: Version, w: World) returns (ok: bool)
      modifies this`files
      ensures ok <==> !(TarballKey(spec, current) in old(files).blobs && RemoveBlob in w.raising)
      ensures files == if ok then old(files).(blobs := old(files).blobs - {TarballKey(spec, current)}) else old(files)
    {
      var path := TarballKey(spec, current);
      if path in files.blobs {
        if RemoveBlob in w.raising {
          return false;
        }
        files := files.(blobs := files.blobs - {path});
      } else {
        assert files.blobs - {path} == files.blobs;
      }
      return true;
    }

    method UpdatePackagingFile(spec: Spec, rel: Release)
      requires spec.package in files.packaging
      modifies this`files
      ensures files == old(files).(packaging := old(files).packaging[
        spec.package := Written(old(files).packaging[spec.package], spec.varName, rel.version, rel.url)])
    {
      hide FileLines, Concat, VersionLine;
      var lines := FileLines(files.packaging[spec.package]);
      var replacement := "";
      ghost var rewritten := Rewrite(lines, spec.varName, VersionLine(spec.varName, rel.version, rel.url));
      ConcatNone();
      assert rewritten[..0] == [];
      for i := 0 to |lines|
        invariant files == old(files)
        invariant replacement == Concat(rewritten[..i])
      {
        var line := lines[i];
        if spec.varName <= line {
          line := VersionLine(spec.varName, rel.version, rel.url);
        }
        ConcatNext(rewritten, i);
        replacement := replacement + line;
      }
      assert rewritten[..|lines|] == rewritten;
      files := files.(packaging := files.packaging[spec.package := replacement]);
    }

    /** Deletes the branch if it exists and creates it from the base. The creation belongs to a
        finally block: it is attempted after an exception too, and its own exception wins. */
    method BranchFromBase(name: string, w: World) returns (failed: Option<Step>)
      modifies this`branches
      ensures
        var was := old(branches);
        var blocked := LookUpBranch in w.raising || (name in was && DeleteBranch in w.raising);
        if CreateBranch in w.raising || (blocked && name in was) then
          failed == Some(CreateBranch) && branches == if blocked then was else was - {name}
        else
          failed == (if blocked then Some(LookUpBranch) else None) && branches == was[name := base]
    {
      var raised := None;
      if LookUpBranch in w.raising {
        raised := Some(LookUpBranch);
      } else if name in branches {
        if DeleteBranch in w.raising {
          raised := Some(DeleteBranch);
        } else {
          branches := branches - {name};
        }
      } else {
        assert branches - {name} == branches;
      }
      if CreateBranch in w.raising || name in branches {
        return Some(CreateBranch);
      }
      assert branches[name := base] == old(branches)[name := base];
      branches := branches[name := base];
      return raised;
    }

    /** Creates the branch, pushes the two local files onto it, opens the pull request and labels
        it; an exception leaves behind what was pushed before it. */
    method Push(spec: Spec, current: Version, rel: Release, w: World) returns (failed: Option<Step>)
      requires spec.package in base.packaging && spec.package in files.packaging
      modifies this`pulls, this`branches
      ensures
        var full := Files(base.packaging[spec.package := files.packaging[spec.package]], files.blobs);
        var pull := Pull(
          BranchOf(spec, prBase), full, current, rel.version, About(spec.name, rel.url, w.notes),
          AddLabel !in w.raising);
        var run := Pushed(base, old(branches), spec, pull, w);
        && pulls == old(pulls) + run.pulls && branches == run.branches
        && run.error == if failed.Some? then Some(StepFailed(failed.value)) else None
    {
      hide BranchOf;
      var name := BranchOf(spec, prBase);
      failed := BranchFromBase(name, w);
      if failed.Some? {
        return;
      }
      if PushPackaging in w.raising {
        return Some(PushPackaging);
      }
      ghost var was := old(branches);
      var half := branches[name].(packaging := branches[name].packaging[spec.package := files.packaging[spec.package]]);
      UpdateTwice(was, name, base, half);
      branches := branches[name := half];
      if PushBlobs in w.raising {
        return Some(PushBlobs);
      }
      UpdateTwice(was, name, half, half.(blobs := files.blobs));
      branches := branches[name := branches[name].(blobs := files.blobs)];
      if OpenPull in w.raising {
        return Some(OpenPull);
      }
      var pull := Pull(name, branches[name], current, rel.version, About(spec.name, rel.url, w.notes), false);
      if AddLabel in w.raising {
        pulls := pulls + [pull];
        return Some(AddLabel);
      }
      pulls := pulls + [pull.(labelled := true)];
      return None;
    }

    /** The release notes come first, on a dry run too; only then is anything pushed. */
    method CreatePr(spec: Spec, current: Version, rel: Release, w: World) returns (failed: Option<Step>)
      requires spec.package in base.packaging && spec.package in files.packaging
      modifies this`pulls, this`branches
      ensures ReleaseNotes in w.raising ==> failed == Some(ReleaseNotes)
      ensures ReleaseNotes !in w.raising && dryRun ==> failed.None?
      ensures ReleaseNotes in w.raising || dryRun ==> pulls == old(pulls) && branches == old(branches)
      ensures ReleaseNotes !in w.raising && !dryRun ==>
        var full := Files(base.packaging[spec.package := files.packaging[spec.package]], files.blobs);
        var pull := Pull(
          BranchOf(spec, prBase), full, current, rel.version, About(spec.name, rel.url, w.notes),
          AddLabel !in w.raising);
        var run := Pushed(base, old(branches), spec, pull, w);
        && pulls == old(pulls) + run.pulls && branches == run.branches
        && run.error == if failed.Some? then Some(StepFailed(failed.value)) else None
    {
      hide Pushed, BranchOf;
      if ReleaseNotes in w.raising {
        return Some(ReleaseNotes);
      }
      if dryRun {
        return None;
      }
      failed := Push(spec, current, rel, w);
    }

    method CleanupLocalChanges()
      modifies this`files
      ensures files == base
    {
      files := base;
    }

    /** The body of the main loop for one dependency. */
    method BumpDependency(dep: Dependency, w: World) returns (error: Option<Failure>)
      requires files == base && dep.currentVersion.None? && dep.latestRelease.None?
      modifies this, dep
      ensures var run := AttemptOn(base, old(branches), prBase, dryRun, dep.spec, w);
        error == run.error && pulls == old(pulls) + run.pulls && branches == run.branches
      ensures error.None? ==> files == base
    {
      var spec := dep.spec;
      var current := dep.CurrentVersion(files);
      if current.Err? {
        return Some(NotFound(current.error));
      }
      var latest := dep.LatestRelease(w);
      if latest.Err? {
        return Some(NotFound(latest.error));
      }
      var rel := latest.value;
      if !Less(current.value, rel.version) {
        return None;
      }
      if CheckPr in w.raising {
        return Some(StepFailed(CheckPr));
      }
      if w.prOpen {
        return None;
      }
      if Download in w.raising {
        return Some(StepFailed(Download));
      }
      var removed := RemoveCurrentBlob(spec, current.value, w);
      if !removed {
        return Some(StepFailed(RemoveBlob));
      }
      if AddBlob in w.raising {
        return Some(StepFailed(AddBlob));
      }
      files := files.(blobs := files.blobs[spec.package + "/" + rel.file := rel.url]);
      UpdatePackagingFile(spec, rel);
      if !dryRun && UploadBlobs in w.raising {
        return Some(StepFailed(UploadBlobs));
      }
      assert files == BumpedFiles(base, spec, current.value, rel);
      var failed := CreatePr(spec, current.value, rel, w);
      if failed.Some? {
        return Some(StepFailed(failed.value));
      }
      CleanupLocalChanges();
      return None;
    }

    /** The whole run refines the stateless one: whatever the answers, every dependency meets the
        base files, and a run that ends without an exception leaves the tree clean. */
    method BumpAll(deps: seq<Dependency>, worlds: seq<World>) returns (error: Option<Failure>)
      requires |deps| == |worlds| && files == base
      requires forall i, j :: 0 <= i < j < |deps| ==> deps[i] != deps[j]
      requires forall d <- deps :: d.currentVersion.None? && d.latestRelease.None?
      modifies this, deps
      ensures var run := RunOn(base, old(branches), prBase, dryRun, Specs(deps), worlds);
        error == run.error && pulls == old(pulls) + run.pulls && branches == run.branches
      ensures error.None? ==> files == base
    {
      hide AttemptOn;
      ghost var specs := Specs(deps);
      ghost var whole := RunOn(base, branches, prBase, dryRun, specs, worlds);
      ghost var done: seq<Pull> := [];
      assert specs[0..] == specs && worlds[0..] == worlds;
      assert whole == After([], whole);
      for i := 0 to |deps|
        invariant files == base
        invariant forall j :: i <= j < |deps| ==> deps[j].currentVersion.None? && deps[j].latestRelease.None?
        invariant pulls == old(pulls) + done
        invariant whole == After(done, RunFrom(branches, specs, worlds, i))
      {
        RunFromUnfolds(branches, specs, worlds, i);
        ghost var before := pulls;
        ghost var here := AttemptOn(base, branches, prBase, dryRun, specs[i], worlds[i]);
        error := BumpDependency(deps[i], worlds[i]);
        Assoc(old(pulls), done, here.pulls);
        if error.Some? {
          return error;
        }
        AfterAfter(done, here.pulls, RunFrom(branches, specs, worlds, i + 1));
        done := done + here.pulls;
      }
      return None;
    }

    function RunFrom(remote: map<string, Files>, specs: seq<Spec>, worlds: seq<World>, i: nat): Run
      requires i <= |specs| == |worlds|
    {
      RunOn(base, remote, prBase, dryRun, specs[i..], worlds[i..])
    }

    lemma RunFromUnfolds(remote: map<string, Files>, specs: seq<Spec>, worlds: seq<World>, i: nat)
      requires i < |specs| == |worlds|
      ensures RunFrom(remote, specs, worlds, i) ==
        var here := AttemptOn(base, remote, prBase, dryRun, specs[i], worlds[i]);
        if here.error.Some? then here else After(here.pulls, RunFrom(here.branches, specs, worlds, i + 1))
    {
      hide AttemptOn;
      assert specs[i..][1..] == specs[i + 1..] && worlds[i..][1..] == worlds[i + 1..];
    }
  }

  function Specs(deps: seq<Dependency>): seq<Spec>
  {
    seq(|deps|, i requires 0 <= i < |deps| => deps[i].spec)
  }
}
