/** What holds of every bump run: isolation, branches, no downgrade, and agreement of packaging and
    blobs. */
module BumpRuns {
  import opened Text
  import opened Versions
  import opened Packaging
  import opened Selection
  import opened Bump
  import Decimal
  import Links

  // ---------- which pull requests a run opens ----------

  ghost predicate Due(base: Files, spec: Spec, w: World)
  {
    && ReadCurrent(spec, base).Ok? && w.release.Ok?
    && Less(ReadCurrent(spec, base).value, w.release.value.version) && !w.prOpen
  }

  /** An attempt pushes nothing, or it is the push of its due dependency's bump. */
  lemma AttemptCases(base: Files, branches: map<string, Files>, prBase: string, dryRun: bool, spec: Spec, w: World)
    ensures var run := AttemptOn(base, branches, prBase, dryRun, spec, w);
      || (run.pulls == [] && run.branches == branches && (Due(base, spec, w) ==> run.error.Some? || dryRun))
      || (Due(base, spec, w) && !dryRun && run == Pushed(base, branches, spec, PullOf(base, prBase, spec, w), w))
  {
    hide BumpedFiles, ReadCurrent, FirstRaising, Pushed;
  }

  lemma PushedPulls(base: Files, branches: map<string, Files>, spec: Spec, pull: Pull, w: World)
    requires spec.package in pull.files.packaging
    ensures var run := Pushed(base, branches, spec, pull, w);
      && (run.pulls == [] || run.pulls == [pull]) && (run.error.None? ==> run.pulls == [pull] && pull.labelled)
      && (run.pulls != [] && !pull.labelled ==> run.error == Some(StepFailed(AddLabel)))
  {
  }

  lemma AttemptPulls(base: Files, branches: map<string, Files>, prBase: string, dryRun: bool, spec: Spec, w: World)
    ensures var run := AttemptOn(base, branches, prBase, dryRun, spec, w);
      && |run.pulls| <= 1
      && (run.pulls != [] ==>
            && Due(base, spec, w) && !dryRun && run.pulls[0] == PullOf(base, prBase, spec, w)
            && (!run.pulls[0].labelled ==> run.error == Some(StepFailed(AddLabel))))
      && (run.error.None? && Due(base, spec, w) && !dryRun ==> run.pulls == [PullOf(base, prBase, spec, w)])
  {
    AttemptCases(base, branches, prBase, dryRun, spec, w);
    if Due(base, spec, w) {
      PushedPulls(base, branches, spec, PullOf(base, prBase, spec, w), w);
    }
    hide AttemptOn, Pushed, BumpedFiles, ReadCurrent;
  }

  /** Every pull request belongs to a due dependency and carries the base with that one
      dependency bumped, whatever happened to the others. Only the last one can lack its label,
      and then the labelling raised. */
  lemma {:induction false} PullIsBumpOfBase(
      base: Files, branches: map<string, Files>, prBase: string, dryRun: bool, specs: seq<Spec>, worlds: seq<World>,
      k: nat) returns (i: nat)
    requires |specs| == |worlds| && k < |RunOn(base, branches, prBase, dryRun, specs, worlds).pulls|
    ensures i < |specs| && Due(base, specs[i], worlds[i]) && !dryRun
    ensures var run := RunOn(base, branches, prBase, dryRun, specs, worlds);
      && run.pulls[k] == PullOf(base, prBase, specs[i], worlds[i])
      && (!run.pulls[k].labelled ==> k == |run.pulls| - 1 && run.error == Some(StepFailed(AddLabel)))
    decreases |specs|
  {
    hide AttemptOn, PullOf, Due;
    var here := AttemptOn(base, branches, prBase, dryRun, specs[0], worlds[0]);
    AttemptPulls(base, branches, prBase, dryRun, specs[0], worlds[0]);
    if k < |here.pulls| {
      i := 0;
    } else {
      i := PullIsBumpOfBase(base, here.branches, prBase, dryRun, specs[1..], worlds[1..], k - |here.pulls|);
      i := i + 1;
    }
  }

  /** A run without exceptions opens one for every due dependency. */
  lemma {:induction false} DueIsPulled(
      base: Files, branches: map<string, Files>, prBase: string, specs: seq<Spec>, worlds: seq<World>, i: nat)
    requires i < |specs| == |worlds| && Due(base, specs[i], worlds[i])
    requires RunOn(base, branches, prBase, false, specs, worlds).error.None?
    ensures PullOf(base, prBase, specs[i], worlds[i]) in RunOn(base, branches, prBase, false, specs, worlds).pulls
    decreases |specs|
  {
    hide AttemptOn, PullOf, Due;
    var here := AttemptOn(base, branches, prBase, false, specs[0], worlds[0]);
    AttemptPulls(base, branches, prBase, false, specs[0], worlds[0]);
    if i > 0 {
      DueIsPulled(base, here.branches, prBase, specs[1..], worlds[1..], i - 1);
    }
  }

  /** An exception ends the run at its dependency: up to there the run is the one over the
      dependencies before it, none of which raised. */
  lemma {:induction false} StopsAtFirstException(
      base: Files, branches: map<string, Files>, prBase: string, dryRun: bool, specs: seq<Spec>, worlds: seq<World>)
    returns (i: nat)
    requires |specs| == |worlds| && RunOn(base, branches, prBase, dryRun, specs, worlds).error.Some?
    ensures i < |specs|
    ensures var before := RunOn(base, branches, prBase, dryRun, specs[..i], worlds[..i]);
      && before.error.None?
      && RunOn(base, branches, prBase, dryRun, specs, worlds)
          == After(before.pulls, AttemptOn(base, before.branches, prBase, dryRun, specs[i], worlds[i]))
    decreases |specs|
  {
    hide AttemptOn;
    var here := AttemptOn(base, branches, prBase, dryRun, specs[0], worlds[0]);
    if here.error.Some? {
      i := 0;
    } else {
      i := StopsAtFirstException(base, here.branches, prBase, dryRun, specs[1..], worlds[1..]);
      assert specs[..i + 1][1..] == specs[1..][..i] && worlds[..i + 1][1..] == worlds[1..][..i];
      var before := RunOn(base, here.branches, prBase, dryRun, specs[1..][..i], worlds[1..][..i]);
      var last := AttemptOn(base, before.branches, prBase, dryRun, specs[1..][i], worlds[1..][i]);
      AfterAfter(here.pulls, before.pulls, last);
      i := i + 1;
    }
  }

  // ---------- branches ----------

  /** What one attempt can leave on its own branch: nothing (deleted and not created again), the
      base, the base with the packaging file, or the whole bump. */
  ghost predicate LeftBehind(base: Files, prBase: string, spec: Spec, w: World, now: map<string, Files>)
  {
    && Due(base, spec, w)
    && var name, full := BranchOf(spec, prBase), PullOf(base, prBase, spec, w).files;
       name in now ==> now[name] == base || now[name] == HalfBumped(base, spec, full) || now[name] == full
  }

  lemma PushedBranches(base: Files, branches: map<string, Files>, spec: Spec, pull: Pull, w: World)
    requires spec.package in pull.files.packaging
    ensures var run, name := Pushed(base, branches, spec, pull, w), pull.branch;
      && run.branches - {name} == branches - {name}
      && (|| run.branches == branches || name !in run.branches || run.branches[name] == base
          || run.branches[name] == HalfBumped(base, spec, pull.files) || run.branches[name] == pull.files)
      && (run.error.None? || run.pulls != [] ==> name in run.branches && run.branches[name] == pull.files)
  {
    hide HalfBumped;
  }

  lemma AttemptBranches(base: Files, branches: map<string, Files>, prBase: string, dryRun: bool, spec: Spec, w: World)
    ensures var run, name := AttemptOn(base, branches, prBase, dryRun, spec, w), BranchOf(spec, prBase);
      && run.branches - {name} == branches - {name}
      && (run.branches == branches || LeftBehind(base, prBase, spec, w, run.branches))
      && (run.error.None? && run.branches != branches ==>
            name in run.branches && run.branches[name] == PullOf(base, prBase, spec, w).files)
      && (run.pulls != [] ==> name in run.branches && run.branches[name] == run.pulls[0].files)
      && |run.pulls| <= 1 && (run.pulls != [] ==> run.pulls[0].branch == name)
  {
    AttemptCases(base, branches, prBase, dryRun, spec, w);
    AttemptPulls(base, branches, prBase, dryRun, spec, w);
    if Due(base, spec, w) {
      PushedBranches(base, branches, spec, PullOf(base, prBase, spec, w), w);
    }
    hide AttemptOn, Pushed, BumpedFiles, ReadCurrent, HalfBumped, BranchOf;
  }

  lemma BranchOfInjective(a: Spec, b: Spec, prBase: string)
    requires BranchOf(a, prBase) == BranchOf(b, prBase)
    ensures a.name == b.name
  {
    var tail := "-auto-bump-" + prBase;
    assert BranchOf(a, prBase) == a.name + tail && BranchOf(b, prBase) == b.name + tail;
    DropSuffix(a.name, b.name, tail);
  }

  /** For one dependency the branch name also tells the branch it is for. */
  lemma BranchTellsBase(spec: Spec, a: string, b: string)
    requires BranchOf(spec, a) == BranchOf(spec, b)
    ensures a == b
  {
    TakeDrop(spec.name + "-auto-bump-", a);
    TakeDrop(spec.name + "-auto-bump-", b);
  }

  predicate SameAt(was: map<string, Files>, now: map<string, Files>, name: string)
  {
    (name in was <==> name in now) && (name in was ==> was[name] == now[name])
  }

  lemma OtherBranchKept(
      base: Files, branches: map<string, Files>, prBase: string, dryRun: bool, spec: Spec, w: World, name: string)
    requires name != BranchOf(spec, prBase)
    ensures SameAt(branches, AttemptOn(base, branches, prBase, dryRun, spec, w).branches, name)
  {
    hide AttemptOn;
    AttemptBranches(base, branches, prBase, dryRun, spec, w);
    var now, own := AttemptOn(base, branches, prBase, dryRun, spec, w).branches, BranchOf(spec, prBase);
    assert name in branches <==> name in branches - {own};
    assert name in now <==> name in now - {own};
    assert name in branches ==> branches[name] == (branches - {own})[name];
    assert name in now ==> now[name] == (now - {own})[name];
  }

  predicate DistinctNames(specs: seq<Spec>)
  {
    forall i, j :: 0 <= i < j < |specs| ==> specs[i].name != specs[j].name
  }

  /** A branch that no dependency of the run owns is not touched. */
  lemma {:induction false} ForeignBranchKept(
      base: Files, branches: map<string, Files>, prBase: string, dryRun: bool, specs: seq<Spec>, worlds: seq<World>,
      name: string)
    requires |specs| == |worlds| && forall i :: 0 <= i < |specs| ==> name != BranchOf(specs[i], prBase)
    ensures SameAt(branches, RunOn(base, branches, prBase, dryRun, specs, worlds).branches, name)
    decreases |specs|
  {
    hide AttemptOn, BranchOf;
    if specs != [] {
      var here := AttemptOn(base, branches, prBase, dryRun, specs[0], worlds[0]);
      OtherBranchKept(base, branches, prBase, dryRun, specs[0], worlds[0], name);
      if here.error.None? {
        forall i | 0 <= i < |specs[1..]| ensures name != BranchOf(specs[1..][i], prBase) {
          assert specs[1..][i] == specs[i + 1];
        }
        ForeignBranchKept(base, here.branches, prBase, dryRun, specs[1..], worlds[1..], name);
      }
    }
  }

  /** Every bump branch after a run is as it was, or was left behind by its due dependency; after
      a run without exceptions it is as it was or holds the whole bump. */
  lemma {:induction false} BranchContents(
      base: Files, branches: map<string, Files>, prBase: string, dryRun: bool, specs: seq<Spec>, worlds: seq<World>,
      i: nat)
    requires i < |specs| == |worlds| && DistinctNames(specs)
    ensures var run, name := RunOn(base, branches, prBase, dryRun, specs, worlds), BranchOf(specs[i], prBase);
      || SameAt(branches, run.branches, name)
      || (LeftBehind(base, prBase, specs[i], worlds[i], run.branches)
          && (run.error.None? ==>
                name in run.branches && run.branches[name] == PullOf(base, prBase, specs[i], worlds[i]).files))
    decreases |specs|
  {
    hide AttemptOn, BranchOf, PullOf;
    var here := AttemptOn(base, branches, prBase, dryRun, specs[0], worlds[0]);
    var name := BranchOf(specs[i], prBase);
    AttemptBranches(base, branches, prBase, dryRun, specs[0], worlds[0]);
    if i > 0 {
      if name == BranchOf(specs[0], prBase) {
        BranchOfInjective(specs[0], specs[i], prBase);
      }
      OtherBranchKept(base, branches, prBase, dryRun, specs[0], worlds[0], name);
      if here.error.None? {
        assert specs[1..][i - 1] == specs[i];
        BranchContents(base, here.branches, prBase, dryRun, specs[1..], worlds[1..], i - 1);
      }
    } else if here.error.None? {
      LaterBranchesDiffer(specs, prBase);
      ForeignBranchKept(base, here.branches, prBase, dryRun, specs[1..], worlds[1..], name);
    }
  }

  lemma LaterBranchesDiffer(specs: seq<Spec>, prBase: string)
    requires specs != [] && DistinctNames(specs)
    ensures forall i :: 0 <= i < |specs[1..]| ==> BranchOf(specs[0], prBase) != BranchOf(specs[1..][i], prBase)
  {
    hide BranchOf;
    forall i | 0 <= i < |specs[1..]| ensures BranchOf(specs[0], prBase) != BranchOf(specs[1..][i], prBase) {
      if BranchOf(specs[0], prBase) == BranchOf(specs[i + 1], prBase) {
        BranchOfInjective(specs[0], specs[i + 1], prBase);
      }
    }
  }

  /** At the end of the run each pull request's branch still holds its files. */
  lemma {:induction false} PullsMatchBranches(
      base: Files, branches: map<string, Files>, prBase: string, dryRun: bool, specs: seq<Spec>, worlds: seq<World>,
      k: nat)
    requires |specs| == |worlds| && DistinctNames(specs)
    requires k < |RunOn(base, branches, prBase, dryRun, specs, worlds).pulls|
    ensures var run := RunOn(base, branches, prBase, dryRun, specs, worlds);
      run.pulls[k].branch in run.branches && run.branches[run.pulls[k].branch] == run.pulls[k].files
    decreases |specs|
  {
    hide AttemptOn, BranchOf, LeftBehind, PullOf, SameAt, DistinctNames;
    var here := AttemptOn(base, branches, prBase, dryRun, specs[0], worlds[0]);
    AttemptBranches(base, branches, prBase, dryRun, specs[0], worlds[0]);
    if k >= |here.pulls| {
      TailIsDistinct(specs);
      PullsMatchBranches(base, here.branches, prBase, dryRun, specs[1..], worlds[1..], k - |here.pulls|);
    } else if here.error.None? {
      LaterBranchesDiffer(specs, prBase);
      ForeignBranchKept(base, here.branches, prBase, dryRun, specs[1..], worlds[1..], BranchOf(specs[0], prBase));
      KeptBranch(
        here.branches, RunOn(base, here.branches, prBase, dryRun, specs[1..], worlds[1..]).branches,
        BranchOf(specs[0], prBase));
    }
  }

  lemma TailIsDistinct(specs: seq<Spec>)
    requires DistinctNames(specs) && specs != []
    ensures DistinctNames(specs[1..])
  {
  }

  lemma KeptBranch(was: map<string, Files>, now: map<string, Files>, name: string)
    requires SameAt(was, now, name) && name in was
    ensures name in now && now[name] == was[name]
  {
  }

  // ---------- exactly what an attempt and a run do ----------

  ghost predicate Newer(base: Files, spec: Spec, w: World)
  {
    && ReadCurrent(spec, base).Ok? && w.release.Ok?
    && Less(ReadCurrent(spec, base).value, w.release.value.version)
  }

  /** The order in which the steps are reached. */
  function Rank(step: Step): nat
  {
    match step
    case CheckPr => 0
    case Download => 1
    case RemoveBlob => 2
    case AddBlob => 3
    case UploadBlobs => 4
    case ReleaseNotes => 5
    case LookUpBranch => 6
    case DeleteBranch => 7
    case CreateBranch => 8
    case PushPackaging => 9
    case PushBlobs => 10
    case OpenPull => 11
    case AddLabel => 12
  }

  /** A step raises if it is reached at all: a blob is removed only if it is there, a branch is
      deleted only if it exists, and a dry run neither uploads nor pushes. */
  predicate Raises(
      base: Files, branches: map<string, Files>, prBase: string, dryRun: bool, spec: Spec, w: World, step: Step)
    requires ReadCurrent(spec, base).Ok?
  {
    && step in w.raising
    && match step
       case RemoveBlob => TarballKey(spec, ReadCurrent(spec, base).value) in base.blobs
       case DeleteBranch => !dryRun && BranchOf(spec, prBase) in branches
       case CheckPr => true
       case Download => true
       case AddBlob => true
       case ReleaseNotes => true
       case _ => !dryRun
  }

  ghost predicate FirstToRaise(
      base: Files, branches: map<string, Files>, prBase: string, dryRun: bool, spec: Spec, w: World, step: Step)
    requires ReadCurrent(spec, base).Ok?
  {
    && Raises(base, branches, prBase, dryRun, spec, w, step)
    && forall s :: Rank(s) < Rank(step) ==> !Raises(base, branches, prBase, dryRun, spec, w, s)
  }

  lemma RankIsInjective(a: Step, b: Step)
    ensures Rank(a) == Rank(b) ==> a == b
  {
  }

  lemma {:induction false} FirstRaiserExists(
      base: Files, branches: map<string, Files>, prBase: string, dryRun: bool, spec: Spec, w: World, some: Step)
    returns (first: Step)
    requires ReadCurrent(spec, base).Ok? && Raises(base, branches, prBase, dryRun, spec, w, some)
    ensures FirstToRaise(base, branches, prBase, dryRun, spec, w, first)
    decreases Rank(some)
  {
    hide ReadCurrent, Raises;
    if s :| Rank(s) < Rank(some) && Raises(base, branches, prBase, dryRun, spec, w, s) {
      first := FirstRaiserExists(base, branches, prBase, dryRun, spec, w, s);
    } else {
      first := some;
    }
  }

  /** A dependency that is not behind ends quietly, and one that cannot be looked up ends the run;
      the current version is read first. */
  lemma NotNewerEnds(
      base: Files, branches: map<string, Files>, prBase: string, dryRun: bool, spec: Spec, w: World)
    requires !Newer(base, spec, w)
    ensures AttemptOn(base, branches, prBase, dryRun, spec, w) == Run([], branches,
      if ReadCurrent(spec, base).Err? then Some(NotFound(ReadCurrent(spec, base).error))
      else if w.release.Err? then Some(NotFound(w.release.error)) else None)
  {
    hide ReadCurrent;
  }

  /** Everything a newer release leads to, by the first step that raises. */
  lemma NewerEnds(
      base: Files, branches: map<string, Files>, prBase: string, dryRun: bool, spec: Spec, w: World, first: Step)
    requires Newer(base, spec, w)
    ensures var run, pull := AttemptOn(base, branches, prBase, dryRun, spec, w), PullOf(base, prBase, spec, w);
      if CheckPr in w.raising then run == Run([], branches, Some(StepFailed(CheckPr)))
      else if w.prOpen then run == Run([], branches, None)
      else
        && ((forall s :: !Raises(base, branches, prBase, dryRun, spec, w, s)) ==>
              run.error.None? && run.pulls == if dryRun then [] else [pull])
        && (FirstToRaise(base, branches, prBase, dryRun, spec, w, first) ==>
              && run.pulls == (if first == AddLabel then [pull] else [])
              && (Rank(first) < Rank(LookUpBranch) ==> run.branches == branches)
              && run.error == Some(StepFailed(
                   if first != LookUpBranch && first != DeleteBranch then first
                   else if BranchOf(spec, prBase) in branches || CreateBranch in w.raising then CreateBranch
                   else LookUpBranch)))
  {
    hide ReadCurrent, BumpedFiles, TarballKey, BranchOf, HalfBumped, Less;
    if CheckPr !in w.raising && !w.prOpen {
      assert Raises(base, branches, prBase, dryRun, spec, w, CheckPr) <==> false;
      if forall s :: !Raises(base, branches, prBase, dryRun, spec, w, s) {
        NothingRaises(base, branches, prBase, dryRun, spec, w);
      }
      if FirstToRaise(base, branches, prBase, dryRun, spec, w, first) {
        FirstDecides(base, branches, prBase, dryRun, spec, w, first);
      }
    }
  }

  lemma NothingRaises(base: Files, branches: map<string, Files>, prBase: string, dryRun: bool, spec: Spec, w: World)
    requires Newer(base, spec, w) && !w.prOpen
    requires forall s :: !Raises(base, branches, prBase, dryRun, spec, w, s)
    ensures var run := AttemptOn(base, branches, prBase, dryRun, spec, w);
      run.error.None? && run.pulls == if dryRun then [] else [PullOf(base, prBase, spec, w)]
  {
    hide ReadCurrent, BumpedFiles, TarballKey, BranchOf, HalfBumped, Less, Rank;
    ListRaises(base, branches, prBase, dryRun, spec, w);
  }

  /** The steps one by one. */
  lemma ListRaises(base: Files, branches: map<string, Files>, prBase: string, dryRun: bool, spec: Spec, w: World)
    requires ReadCurrent(spec, base).Ok?
    ensures Raises(base, branches, prBase, dryRun, spec, w, CheckPr) <==> CheckPr in w.raising
    ensures Raises(base, branches, prBase, dryRun, spec, w, Download) <==> Download in w.raising
    ensures Raises(base, branches, prBase, dryRun, spec, w, RemoveBlob) <==>
      RemoveBlob in w.raising && TarballKey(spec, ReadCurrent(spec, base).value) in base.blobs
    ensures Raises(base, branches, prBase, dryRun, spec, w, AddBlob) <==> AddBlob in w.raising
    ensures Raises(base, branches, prBase, dryRun, spec, w, UploadBlobs) <==> UploadBlobs in w.raising && !dryRun
    ensures Raises(base, branches, prBase, dryRun, spec, w, ReleaseNotes) <==> ReleaseNotes in w.raising
    ensures Raises(base, branches, prBase, dryRun, spec, w, LookUpBranch) <==> LookUpBranch in w.raising && !dryRun
    ensures Raises(base, branches, prBase, dryRun, spec, w, DeleteBranch) <==>
      DeleteBranch in w.raising && !dryRun && BranchOf(spec, prBase) in branches
    ensures Raises(base, branches, prBase, dryRun, spec, w, CreateBranch) <==> CreateBranch in w.raising && !dryRun
    ensures Raises(base, branches, prBase, dryRun, spec, w, PushPackaging) <==> PushPackaging in w.raising && !dryRun
    ensures Raises(base, branches, prBase, dryRun, spec, w, PushBlobs) <==> PushBlobs in w.raising && !dryRun
    ensures Raises(base, branches, prBase, dryRun, spec, w, OpenPull) <==> OpenPull in w.raising && !dryRun
    ensures Raises(base, branches, prBase, dryRun, spec, w, AddLabel) <==> AddLabel in w.raising && !dryRun
  {
    hide ReadCurrent, TarballKey, BranchOf;
  }

  lemma FirstDecides(
      base: Files, branches: map<string, Files>, prBase: string, dryRun: bool, spec: Spec, w: World, first: Step)
    requires Newer(base, spec, w) && !w.prOpen && CheckPr !in w.raising
    requires FirstToRaise(base, branches, prBase, dryRun, spec, w, first)
    ensures var run := AttemptOn(base, branches, prBase, dryRun, spec, w);
      && run.pulls == (if first == AddLabel then [PullOf(base, prBase, spec, w)] else [])
      && (Rank(first) < Rank(LookUpBranch) ==> run.branches == branches)
      && run.error == Some(StepFailed(
           if first != LookUpBranch && first != DeleteBranch then first
           else if BranchOf(spec, prBase) in branches || CreateBranch in w.raising then CreateBranch
           else LookUpBranch))
  {
    hide ReadCurrent, BumpedFiles, TarballKey, BranchOf, HalfBumped, Less;
    ListRaises(base, branches, prBase, dryRun, spec, w);
  }

  /** What ends the run at a dependency, and what opens its pull request, told from the answers. */
  ghost predicate Fails(
      base: Files, branches: map<string, Files>, prBase: string, dryRun: bool, spec: Spec, w: World)
  {
    || ReadCurrent(spec, base).Err? || w.release.Err?
    || (Newer(base, spec, w)
        && (CheckPr in w.raising || (!w.prOpen && exists s :: Raises(base, branches, prBase, dryRun, spec, w, s))))
  }

  ghost predicate GetsThrough(
      base: Files, branches: map<string, Files>, prBase: string, dryRun: bool, spec: Spec, w: World)
  {
    && Newer(base, spec, w) && !w.prOpen && !dryRun
    && forall s :: s != AddLabel ==> !Raises(base, branches, prBase, dryRun, spec, w, s)
  }

  /** An attempt opens a pull request if and only if the release is newer, none is open, the run is
      not a dry one and no step before the labelling raises. */
  lemma AttemptExact(base: Files, branches: map<string, Files>, prBase: string, dryRun: bool, spec: Spec, w: World)
    ensures var run := AttemptOn(base, branches, prBase, dryRun, spec, w);
      && (run.error.Some? <==> Fails(base, branches, prBase, dryRun, spec, w))
      && (run.pulls != [] <==> GetsThrough(base, branches, prBase, dryRun, spec, w))
      && (run.pulls != [] ==> run.pulls == [PullOf(base, prBase, spec, w)])
  {
    hide AttemptOn, ReadCurrent, PullOf, Less, Rank, Raises;
    if !Newer(base, spec, w) {
      NotNewerEnds(base, branches, prBase, dryRun, spec, w);
    } else {
      ListRaises(base, branches, prBase, dryRun, spec, w);
      if some :| Raises(base, branches, prBase, dryRun, spec, w, some) {
        var first := FirstRaiserExists(base, branches, prBase, dryRun, spec, w, some);
        NewerEnds(base, branches, prBase, dryRun, spec, w, first);
        if first == AddLabel {
          LabelIsLast(base, branches, prBase, dryRun, spec, w);
        }
      } else {
        NewerEnds(base, branches, prBase, dryRun, spec, w, Download);
      }
    }
  }

  lemma LabelIsLast(base: Files, branches: map<string, Files>, prBase: string, dryRun: bool, spec: Spec, w: World)
    requires ReadCurrent(spec, base).Ok? && FirstToRaise(base, branches, prBase, dryRun, spec, w, AddLabel)
    ensures !dryRun && forall s :: s != AddLabel ==> !Raises(base, branches, prBase, dryRun, spec, w, s)
  {
    hide ReadCurrent, TarballKey, BranchOf;
    forall s: Step | s != AddLabel ensures !Raises(base, branches, prBase, dryRun, spec, w, s) {
      assert Rank(s) < Rank(AddLabel);
    }
  }

  predicate Increasing(idx: seq<nat>)
  {
    forall a, b :: 0 <= a < b < |idx| ==> idx[a] < idx[b]
  }

  function Shifted(idx: seq<nat>): (r: seq<nat>)
    ensures |r| == |idx| && forall k :: 0 <= k < |idx| ==> r[k] == idx[k] + 1
  {
    seq(|idx|, k requires 0 <= k < |idx| => idx[k] + 1)
  }

  /** The first dependency that fails, or the end of the list. */
  ghost predicate StopsAt(
      base: Files, branches: map<string, Files>, prBase: string, dryRun: bool, specs: seq<Spec>, worlds: seq<World>,
      stop: nat)
    requires |specs| == |worlds|
  {
    && stop <= |specs| && (forall i :: 0 <= i < stop ==> !Fails(base, branches, prBase, dryRun, specs[i], worlds[i]))
    && (stop < |specs| ==> Fails(base, branches, prBase, dryRun, specs[stop], worlds[stop]))
  }

  /** The pull requests are, in order, those of the dependencies up to `stop` that get through. */
  ghost predicate OpensExactly(
      base: Files, branches: map<string, Files>, prBase: string, dryRun: bool, specs: seq<Spec>, worlds: seq<World>,
      stop: nat, idx: seq<nat>, pulls: seq<Pull>)
    requires |specs| == |worlds|
  {
    && Increasing(idx) && PullsAreOf(base, prBase, specs, worlds, idx, pulls)
    && forall i :: 0 <= i < |specs| ==>
         (i in idx <==> i <= stop && GetsThrough(base, branches, prBase, dryRun, specs[i], worlds[i]))
  }

  ghost predicate PullsAreOf(
      base: Files, prBase: string, specs: seq<Spec>, worlds: seq<World>, idx: seq<nat>, pulls: seq<Pull>)
    requires |specs| == |worlds|
  {
    && |pulls| == |idx|
    && forall k :: 0 <= k < |idx| ==>
         idx[k] < |specs| && IsPullOf(base, prBase, specs[idx[k]], worlds[idx[k]], pulls[k])
  }

  ghost predicate IsPullOf(base: Files, prBase: string, spec: Spec, w: World, pull: Pull)
  {
    Newer(base, spec, w) && pull == PullOf(base, prBase, spec, w)
  }

  /** The run told from the answers alone: it stops at the first dependency that fails, and its pull
      requests are, in order, those of the dependencies up to there that get through. */
  lemma {:induction false} RunExact(
      base: Files, branches: map<string, Files>, prBase: string, dryRun: bool, specs: seq<Spec>, worlds: seq<World>)
    returns (stop: nat, idx: seq<nat>)
    requires |specs| == |worlds| && DistinctNames(specs)
    ensures StopsAt(base, branches, prBase, dryRun, specs, worlds, stop)
    ensures var run := RunOn(base, branches, prBase, dryRun, specs, worlds);
      && (run.error.Some? <==> stop < |specs|)
      && OpensExactly(base, branches, prBase, dryRun, specs, worlds, stop, idx, run.pulls)
    decreases |specs|
  {
    hide AttemptOn, DistinctNames, Fails, GetsThrough, IsPullOf;
    if specs == [] {
      stop, idx := 0, [];
    } else {
      var here := AttemptOn(base, branches, prBase, dryRun, specs[0], worlds[0]);
      var own := OwnIndex(base, branches, prBase, dryRun, specs[0], worlds[0]);
      if here.error.Some? {
        stop, idx := 0, own;
      } else {
        TailIsDistinct(specs);
        var stop', idx' := RunExact(base, here.branches, prBase, dryRun, specs[1..], worlds[1..]);
        stop, idx := stop' + 1, own + Shifted(idx');
        var rest := RunOn(base, here.branches, prBase, dryRun, specs[1..], worlds[1..]).pulls;
        SameAnswersLater(base, branches, prBase, dryRun, specs, worlds);
        hide RunOn;
        StopsLater(base, branches, here.branches, prBase, dryRun, specs, worlds, stop');
        OpensLater(base, branches, here.branches, prBase, dryRun, specs, worlds, stop', own, here.pulls, idx', rest);
      }
    }
  }

  lemma OwnIndex(base: Files, branches: map<string, Files>, prBase: string, dryRun: bool, spec: Spec, w: World)
    returns (own: seq<nat>)
    ensures var run := AttemptOn(base, branches, prBase, dryRun, spec, w);
      && (run.error.Some? <==> Fails(base, branches, prBase, dryRun, spec, w)) && |own| == |run.pulls|
      && own == (if GetsThrough(base, branches, prBase, dryRun, spec, w) then [0] else [])
      && (own != [] ==> IsPullOf(base, prBase, spec, w, run.pulls[0]))
  {
    AttemptExact(base, branches, prBase, dryRun, spec, w);
    hide AttemptOn, PullOf, Newer, Raises;
    own := if GetsThrough(base, branches, prBase, dryRun, spec, w) then [0] else [];
  }

  ghost predicate SameAnswers(
      base: Files, was: map<string, Files>, now: map<string, Files>, prBase: string, dryRun: bool, specs: seq<Spec>,
      worlds: seq<World>)
    requires |specs| == |worlds|
  {
    forall i :: 0 < i < |specs| ==>
      && (Fails(base, now, prBase, dryRun, specs[i], worlds[i])
          == Fails(base, was, prBase, dryRun, specs[i], worlds[i]))
      && (GetsThrough(base, now, prBase, dryRun, specs[i], worlds[i])
          == GetsThrough(base, was, prBase, dryRun, specs[i], worlds[i]))
  }

  lemma StopsLater(
      base: Files, was: map<string, Files>, now: map<string, Files>, prBase: string, dryRun: bool, specs: seq<Spec>,
      worlds: seq<World>, stop: nat)
    requires |specs| == |worlds| && specs != [] && SameAnswers(base, was, now, prBase, dryRun, specs, worlds)
    requires !Fails(base, was, prBase, dryRun, specs[0], worlds[0])
    requires StopsAt(base, now, prBase, dryRun, specs[1..], worlds[1..], stop)
    ensures StopsAt(base, was, prBase, dryRun, specs, worlds, stop + 1)
  {
    hide Fails, GetsThrough;
    assert forall i :: 0 < i < |specs| ==> specs[i] == specs[1..][i - 1] && worlds[i] == worlds[1..][i - 1];
  }

  lemma OpensLater(
      base: Files, was: map<string, Files>, now: map<string, Files>, prBase: string, dryRun: bool, specs: seq<Spec>,
      worlds: seq<World>, stop: nat, own: seq<nat>, ownPulls: seq<Pull>, rest: seq<nat>, pulls: seq<Pull>)
    requires |specs| == |worlds| && specs != [] && SameAnswers(base, was, now, prBase, dryRun, specs, worlds)
    requires own == if GetsThrough(base, was, prBase, dryRun, specs[0], worlds[0]) then [0] else []
    requires |own| == |ownPulls| && (own != [] ==> IsPullOf(base, prBase, specs[0], worlds[0], ownPulls[0]))
    requires OpensExactly(base, now, prBase, dryRun, specs[1..], worlds[1..], stop, rest, pulls)
    ensures OpensExactly(base, was, prBase, dryRun, specs, worlds, stop + 1, own + Shifted(rest), ownPulls + pulls)
  {
    hide Fails, GetsThrough, IsPullOf, PullsAreOf, Increasing, Shifted;
    var idx := own + Shifted(rest);
    JoinedIndices(own, rest);
    PullsLater(base, prBase, specs, worlds, own, ownPulls, rest, pulls);
    forall i | 0 <= i < |specs|
      ensures i in idx <==> i <= stop + 1 && GetsThrough(base, was, prBase, dryRun, specs[i], worlds[i])
    {
      if i > 0 {
        assert specs[i] == specs[1..][i - 1] && worlds[i] == worlds[1..][i - 1];
        assert i in idx <==> i - 1 in rest;
      }
    }
  }

  lemma PullsLater(
      base: Files, prBase: string, specs: seq<Spec>, worlds: seq<World>, own: seq<nat>, ownPulls: seq<Pull>,
      rest: seq<nat>, pulls: seq<Pull>)
    requires |specs| == |worlds| && specs != [] && (own == [] || own == [0])
    requires |own| == |ownPulls| && (own != [] ==> IsPullOf(base, prBase, specs[0], worlds[0], ownPulls[0]))
    requires PullsAreOf(base, prBase, specs[1..], worlds[1..], rest, pulls)
    ensures PullsAreOf(base, prBase, specs, worlds, own + Shifted(rest), ownPulls + pulls)
  {
    hide IsPullOf;
    var idx, all := own + Shifted(rest), ownPulls + pulls;
    forall k | 0 <= k < |idx|
      ensures idx[k] < |specs| && IsPullOf(base, prBase, specs[idx[k]], worlds[idx[k]], all[k])
    {
      if k >= |own| {
        var i := rest[k - |own|];
        assert idx[k] == i + 1 && all[k] == pulls[k - |own|];
        assert specs[i + 1] == specs[1..][i] && worlds[i + 1] == worlds[1..][i];
      }
    }
  }

  lemma JoinedIndices(own: seq<nat>, rest: seq<nat>)
    requires own == [] || own == [0]
    ensures var idx := own + Shifted(rest);
      && (0 in idx <==> own == [0]) && (forall i: nat :: i > 0 ==> (i in idx <==> i - 1 in rest))
      && (Increasing(rest) ==> Increasing(idx))
  {
    var idx := own + Shifted(rest);
    forall i: nat | i > 0 ensures i in idx <==> i - 1 in rest {
      if i - 1 in rest {
        var k :| 0 <= k < |rest| && rest[k] == i - 1;
        assert idx[|own| + k] == i;
      }
      if i in idx {
        var k :| 0 <= k < |idx| && idx[k] == i;
        assert rest[k - |own|] == i - 1;
      }
    }
  }

  /** The first attempt changes nothing that later dependencies see: only its own branch. */
  lemma SameAnswersLater(
      base: Files, branches: map<string, Files>, prBase: string, dryRun: bool, specs: seq<Spec>, worlds: seq<World>)
    requires |specs| == |worlds| && specs != [] && DistinctNames(specs)
    ensures var now := AttemptOn(base, branches, prBase, dryRun, specs[0], worlds[0]).branches;
      SameAnswers(base, branches, now, prBase, dryRun, specs, worlds)
  {
    hide AttemptOn, BranchOf, ReadCurrent, Less;
    var now := AttemptOn(base, branches, prBase, dryRun, specs[0], worlds[0]).branches;
    LaterBranchesDiffer(specs, prBase);
    forall i | 0 < i < |specs|
      ensures Fails(base, now, prBase, dryRun, specs[i], worlds[i])
        == Fails(base, branches, prBase, dryRun, specs[i], worlds[i])
      ensures GetsThrough(base, now, prBase, dryRun, specs[i], worlds[i])
        == GetsThrough(base, branches, prBase, dryRun, specs[i], worlds[i])
    {
      assert specs[1..][i - 1] == specs[i];
      OtherBranchKept(base, branches, prBase, dryRun, specs[0], worlds[0], BranchOf(specs[i], prBase));
      SameBranchSameAnswers(base, branches, now, prBase, dryRun, specs[i], worlds[i]);
    }
  }

  lemma SameBranchSameAnswers(
      base: Files, was: map<string, Files>, now: map<string, Files>, prBase: string, dryRun: bool, spec: Spec, w: World)
    requires SameAt(was, now, BranchOf(spec, prBase))
    ensures Fails(base, now, prBase, dryRun, spec, w) <==> Fails(base, was, prBase, dryRun, spec, w)
    ensures GetsThrough(base, now, prBase, dryRun, spec, w) <==> GetsThrough(base, was, prBase, dryRun, spec, w)
  {
    hide BranchOf, ReadCurrent, Less, TarballKey;
    if ReadCurrent(spec, base).Ok? {
      assert forall s ::
        Raises(base, now, prBase, dryRun, spec, w, s) <==> Raises(base, was, prBase, dryRun, spec, w, s);
    }
  }

  // ---------- which exception leaves which branch ----------

  ghost predicate Holds(now: map<string, Files>, name: string, files: Files)
  {
    name in now && now[name] == files
  }

  /** What has become of the dependency's own branch, by the way its attempt ended. */
  ghost predicate BranchAfter(
      base: Files, prBase: string, spec: Spec, w: World, was: map<string, Files>, now: map<string, Files>,
      error: Option<Failure>)
  {
    var name := BranchOf(spec, prBase);
    match error
    case None => SameAt(was, now, name) || (Due(base, spec, w) && Holds(now, name, PullOf(base, prBase, spec, w).files))
    case Some(NotFound(_)) => SameAt(was, now, name)
    case Some(StepFailed(step)) =>
      match step
      case CreateBranch =>
        if LookUpBranch in w.raising || (name in was && DeleteBranch in w.raising) then SameAt(was, now, name)
        else name !in now
      case LookUpBranch => name !in was && Holds(now, name, base)
      case PushPackaging => Holds(now, name, base)
      case PushBlobs =>
        Due(base, spec, w) && Holds(now, name, HalfBumped(base, spec, PullOf(base, prBase, spec, w).files))
      case OpenPull => Due(base, spec, w) && Holds(now, name, PullOf(base, prBase, spec, w).files)
      case AddLabel => Due(base, spec, w) && Holds(now, name, PullOf(base, prBase, spec, w).files)
      case _ => SameAt(was, now, name)
  }

  predicate OnRemote(step: Step)
  {
    step in {LookUpBranch, CreateBranch, PushPackaging, PushBlobs, OpenPull, AddLabel}
  }

  /** The map from what a push raised to what it left. */
  lemma PushedEnds(base: Files, branches: map<string, Files>, prBase: string, spec: Spec, w: World)
    requires Due(base, spec, w)
    ensures var run := Pushed(base, branches, spec, PullOf(base, prBase, spec, w), w);
      BranchAfter(base, prBase, spec, w, branches, run.branches, run.error)
  {
    hide BumpedFiles, ReadCurrent, HalfBumped, BranchOf, Due;
  }

  /** Before the push nothing on the remote changes. */
  lemma UnpushedEnds(base: Files, branches: map<string, Files>, prBase: string, dryRun: bool, spec: Spec, w: World)
    ensures var run := AttemptOn(base, branches, prBase, dryRun, spec, w);
      || (run.branches == branches
          && (run.error.Some? && run.error.value.StepFailed? ==> !OnRemote(run.error.value.step)))
      || (Due(base, spec, w) && run == Pushed(base, branches, spec, PullOf(base, prBase, spec, w), w))
  {
    hide BumpedFiles, ReadCurrent, Pushed;
  }

  lemma SameMeansUnpushed(
      base: Files, prBase: string, spec: Spec, w: World, branches: map<string, Files>, error: Option<Failure>)
    requires error.Some? && error.value.StepFailed? ==> !OnRemote(error.value.step)
    ensures BranchAfter(base, prBase, spec, w, branches, branches, error)
  {
    hide PullOf, Due, HalfBumped, BranchOf;
  }

  lemma AttemptEnds(base: Files, branches: map<string, Files>, prBase: string, dryRun: bool, spec: Spec, w: World)
    ensures var run := AttemptOn(base, branches, prBase, dryRun, spec, w);
      BranchAfter(base, prBase, spec, w, branches, run.branches, run.error)
  {
    UnpushedEnds(base, branches, prBase, dryRun, spec, w);
    hide AttemptOn, Pushed, PullOf, Due, HalfBumped, BranchOf, BranchAfter, OnRemote;
    var run := AttemptOn(base, branches, prBase, dryRun, spec, w);
    var unpushed := run.error.Some? && run.error.value.StepFailed? ==> !OnRemote(run.error.value.step);
    if run.branches == branches && unpushed {
      SameMeansUnpushed(base, prBase, spec, w, branches, run.error);
    } else {
      PushedEnds(base, branches, prBase, spec, w);
    }
  }

  lemma PrefixHasDistinctNames(specs: seq<Spec>, i: nat, prBase: string)
    requires DistinctNames(specs) && i < |specs|
    ensures DistinctNames(specs[..i])
    ensures forall j :: 0 <= j < |specs| && j != i ==> BranchOf(specs[j], prBase) != BranchOf(specs[i], prBase)
  {
    hide BranchOf;
    forall j | 0 <= j < |specs| && j != i ensures BranchOf(specs[j], prBase) != BranchOf(specs[i], prBase) {
      if BranchOf(specs[j], prBase) == BranchOf(specs[i], prBase) {
        BranchOfInjective(specs[j], specs[i], prBase);
      }
    }
  }

  lemma SameAtTransitive(a: map<string, Files>, b: map<string, Files>, c: map<string, Files>, name: string)
    requires SameAt(b, c, name)
    ensures SameAt(a, b, name) ==> SameAt(a, c, name)
    ensures forall f :: Holds(b, name, f) ==> Holds(c, name, f)
  {
  }

  lemma BranchAfterFromSame(
      base: Files, prBase: string, spec: Spec, w: World, a: map<string, Files>, b: map<string, Files>,
      now: map<string, Files>, error: Option<Failure>)
    requires SameAt(a, b, BranchOf(spec, prBase)) && BranchAfter(base, prBase, spec, w, b, now, error)
    ensures BranchAfter(base, prBase, spec, w, a, now, error)
  {
    hide BranchOf, PullOf, Due, HalfBumped;
  }

  /** For a whole run that raised: it ended at some dependency, whose branch is told by the
      exception alone, and every other dependency's branch is as it was or holds its whole bump. */
  lemma ExceptionTellsBranches(
      base: Files, branches: map<string, Files>, prBase: string, dryRun: bool, specs: seq<Spec>, worlds: seq<World>)
    returns (i: nat)
    requires |specs| == |worlds| && DistinctNames(specs)
    requires RunOn(base, branches, prBase, dryRun, specs, worlds).error.Some?
    ensures i < |specs|
    ensures var run := RunOn(base, branches, prBase, dryRun, specs, worlds);
      && BranchAfter(base, prBase, specs[i], worlds[i], branches, run.branches, run.error)
      && forall j :: 0 <= j < |specs| && j != i ==>
           BranchAfter(base, prBase, specs[j], worlds[j], branches, run.branches, None)
  {
    hide AttemptOn, BranchOf, PullOf, Due, HalfBumped, LeftBehind, DistinctNames;
    i := StopsAtFirstException(base, branches, prBase, dryRun, specs, worlds);
    var before := RunOn(base, branches, prBase, dryRun, specs[..i], worlds[..i]);
    var after := AttemptOn(base, before.branches, prBase, dryRun, specs[i], worlds[i]).branches;
    hide RunOn;
    PrefixHasDistinctNames(specs, i, prBase);
    AttemptEnds(base, before.branches, prBase, dryRun, specs[i], worlds[i]);
    ForeignBranchKept(base, branches, prBase, dryRun, specs[..i], worlds[..i], BranchOf(specs[i], prBase));
    var error := AttemptOn(base, before.branches, prBase, dryRun, specs[i], worlds[i]).error;
    BranchAfterFromSame(base, prBase, specs[i], worlds[i], branches, before.branches, after, error);
    forall j | 0 <= j < |specs| && j != i
      ensures BranchAfter(base, prBase, specs[j], worlds[j], branches, after, None)
    {
      EarlierIsWholeOrSame(base, branches, prBase, dryRun, specs, worlds, i, j);
      OtherBranchKept(base, before.branches, prBase, dryRun, specs[i], worlds[i], BranchOf(specs[j], prBase));
      SameAtTransitive(branches, before.branches, after, BranchOf(specs[j], prBase));
    }
  }

  lemma EarlierIsWholeOrSame(
      base: Files, branches: map<string, Files>, prBase: string, dryRun: bool, specs: seq<Spec>, worlds: seq<World>,
      i: nat, j: nat)
    requires i < |specs| == |worlds| && j < |specs| && j != i && DistinctNames(specs)
    requires RunOn(base, branches, prBase, dryRun, specs[..i], worlds[..i]).error.None?
    ensures var before := RunOn(base, branches, prBase, dryRun, specs[..i], worlds[..i]);
      BranchAfter(base, prBase, specs[j], worlds[j], branches, before.branches, None)
  {
    hide RunOn, BranchOf, PullOf, Due, HalfBumped, DistinctNames;
    PrefixHasDistinctNames(specs, i, prBase);
    if j < i {
      assert specs[..i][j] == specs[j] && worlds[..i][j] == worlds[j];
      BranchContents(base, branches, prBase, dryRun, specs[..i], worlds[..i], j);
    } else {
      PrefixHasDistinctNames(specs, j, prBase);
      assert forall k :: 0 <= k < i ==> specs[..i][k] == specs[k];
      ForeignBranchKept(base, branches, prBase, dryRun, specs[..i], worlds[..i], BranchOf(specs[j], prBase));
    }
  }

  /** A half-finished branch is real: a due dependency whose second push alone raises ends its run
      with the packaging file pushed and the blobs not. The branch then reads as the new version, and
      names a blob that is not there unless the base had it already. */
  lemma HalfFinishedBranch(
      base: Files, branches: map<string, Files>, prBase: string, spec: Spec, w: World, suffix: string)
    requires Word(spec.varName) && Due(base, spec, w) && w.raising == {PushBlobs}
    requires 2 <= |w.release.value.version| <= 4
    ensures var run, name := RunOn(base, branches, prBase, false, [spec], [w]), BranchOf(spec, prBase);
      && run.error == Some(StepFailed(PushBlobs)) && run.pulls == []
      && name in run.branches && ReadCurrent(spec, run.branches[name]) == Ok(w.release.value.version)
      && run.branches[name].blobs == base.blobs
      && (Agrees(run.branches[name], spec, suffix) <==>
            StoredKey(spec, w.release.value.version, suffix) in base.blobs)
  {
    var full := PullOf(base, prBase, spec, w).files;
    AttemptIsPush(base, branches, prBase, spec, w);
    PushStopsHalfway(base, branches, spec, PullOf(base, prBase, spec, w), w);
    ReadBackAfterBump(base, spec, w.release.value);
    HalfReadsAsFull(base, spec, full);
    assert [spec][1..] == [] && [w][1..] == [];
    hide AttemptOn, Pushed, BumpedFiles, ReadCurrent, BranchOf, StoredKey, HalfBumped, Word, Less;
  }

  lemma AttemptIsPush(base: Files, branches: map<string, Files>, prBase: string, spec: Spec, w: World)
    requires Due(base, spec, w) && w.raising == {PushBlobs}
    ensures AttemptOn(base, branches, prBase, false, spec, w)
      == Pushed(base, branches, spec, PullOf(base, prBase, spec, w), w)
  {
    hide Pushed, BumpedFiles, ReadCurrent, BranchOf, TarballKey;
  }

  lemma PushStopsHalfway(base: Files, branches: map<string, Files>, spec: Spec, pull: Pull, w: World)
    requires spec.package in pull.files.packaging && w.raising == {PushBlobs}
    ensures Pushed(base, branches, spec, pull, w)
      == Run([], branches[pull.branch := HalfBumped(base, spec, pull.files)], Some(StepFailed(PushBlobs)))
  {
    hide HalfBumped;
  }

  lemma HalfReadsAsFull(base: Files, spec: Spec, full: Files)
    requires spec.package in full.packaging
    ensures ReadCurrent(spec, HalfBumped(base, spec, full)) == ReadCurrent(spec, full)
    ensures HalfBumped(base, spec, full).blobs == base.blobs
  {
  }

  /** The title tells which bump it is. */
  lemma TitleTellsBump(a: Pull, b: Pull)
    requires a.Title() == b.Title()
    ensures a.about.name == b.about.name && a.latest == b.latest
  {
    var x, y := a.about.name, b.about.name;
    PrintChars(a.latest);
    PrintChars(b.latest);
    hide Print;
    CutAtLast("Bump " + x + " version to", Print(a.latest), "Bump " + y + " version to", Print(b.latest), ' ');
    DropSuffix("Bump " + x, "Bump " + y, " version to");
    TakeDrop("Bump ", x);
    TakeDrop("Bump ", y);
    PrintInjective(a.latest, b.latest);
  }

  /** An independent reader of the text: the version after the opening, the one after " to version ",
      and what follows. */
  function ReadBody(text: string): Option<(string, string, string)>
  {
    if !(OPENING <= text) then None
    else
      var rest := text[|OPENING|..];
      var n := Span(rest, VersionChar);
      var mid := rest[n..];
      if !(TO_VERSION <= mid) then None
      else
        var more := mid[|TO_VERSION|..];
        var m := Span(more, VersionChar);
        Some((rest[..n], more[..m], more[m..]))
  }

  const TO_VERSION := " to version "

  /** The text tells both versions, each in its role, and then the URL of the download. */
  lemma BodyTellsVersions(pull: Pull)
    ensures ReadBody(pull.Body()).Some?
    ensures var (from, to, rest) := ReadBody(pull.Body()).value;
      && from == Print(pull.current) && to == Print(pull.latest)
      && ", downloaded from " + pull.about.url + "." <= rest
  {
    var close := "\n\nAfter merge, consider releasing a new version of haproxy-boshrelease.\n" + pull.about.notes;
    var tail := ", downloaded from " + (pull.about.url + ("." + close));
    assert pull.Body() == OPENING + (Print(pull.current) + (TO_VERSION + (Print(pull.latest) + tail)));
    PrintChars(pull.current);
    PrintChars(pull.latest);
    assert tail[0] == ',';
    hide Print, Pull.Body;
    UrlFollows(", downloaded from ", pull.about.url, close);
    ReadParts(Print(pull.current), Print(pull.latest), tail);
  }

  /** Over whole runs: the text of a pull request tells the version it starts from, the one it goes to
      and the URL it was downloaded from, as the packaging file and the lookup gave them. */
  lemma PullTextOverRuns(
      base: Files, branches: map<string, Files>, prBase: string, dryRun: bool, specs: seq<Spec>, worlds: seq<World>,
      k: nat) returns (i: nat)
    requires |specs| == |worlds| && k < |RunOn(base, branches, prBase, dryRun, specs, worlds).pulls|
    ensures i < |specs| && ReadCurrent(specs[i], base).Ok? && worlds[i].release.Ok?
    ensures var pull := RunOn(base, branches, prBase, dryRun, specs, worlds).pulls[k];
      var current, rel := ReadCurrent(specs[i], base).value, worlds[i].release.value;
      && pull.Title() == "Bump " + specs[i].name + " version to" + [' '] + Print(rel.version)
      && ReadBody(pull.Body()).Some?
      && var (from, to, rest) := ReadBody(pull.Body()).value;
         from == Print(current) && to == Print(rel.version) && ", downloaded from " + rel.url + "." <= rest
  {
    hide RunOn, ReadCurrent, BumpedFiles, ReadBody, Pull.Body, Print;
    i := PullIsBumpOfBase(base, branches, prBase, dryRun, specs, worlds, k);
    BodyTellsVersions(RunOn(base, branches, prBase, dryRun, specs, worlds).pulls[k]);
  }

  lemma UrlFollows(head: string, url: string, close: string)
    ensures head + url + "." <= head + (url + ("." + close))
  {
    Assoc(url, ".", close);
    Assoc(head, url + ".", close);
    Assoc(head, url, ".");
  }

  lemma ReadParts(from: string, to: string, tail: string)
    requires (forall c <- from :: VersionChar(c)) && (forall c <- to :: VersionChar(c))
    requires tail != "" && !VersionChar(tail[0])
    ensures ReadBody(OPENING + (from + (TO_VERSION + (to + tail)))) == Some((from, to, tail))
  {
    var more := to + tail;
    var mid := TO_VERSION + more;
    assert mid[0] == ' ' && !VersionChar(' ');
    SpanAppend(from, mid, VersionChar);
    SpanAppend(to, tail, VersionChar);
    assert Span(mid, VersionChar) == 0 && Span(tail, VersionChar) == 0;
    hide Span;
    TakeDrop(OPENING, from + mid);
    TakeDrop(from, mid);
    TakeDrop(TO_VERSION, more);
    TakeDrop(to, tail);
  }

  // ---------- no downgrade ----------

  /** Gate, writer and reader together: the pull request's own packaging file reads as a version
      strictly above the one the base file reads as. */
  lemma NeverDowngrades(
      base: Files, branches: map<string, Files>, prBase: string, dryRun: bool, specs: seq<Spec>, worlds: seq<World>,
      k: nat) returns (i: nat)
    requires |specs| == |worlds| && k < |RunOn(base, branches, prBase, dryRun, specs, worlds).pulls|
    requires forall s <- specs :: Word(s.varName)
    ensures i < |specs| && worlds[i].release.Ok?
    ensures var pull := RunOn(base, branches, prBase, dryRun, specs, worlds).pulls[k];
      && pull.branch == BranchOf(specs[i], prBase)
      && ReadCurrent(specs[i], base) == Ok(pull.current) && Less(pull.current, pull.latest)
      && (2 <= |pull.latest| <= 4 ==> ReadCurrent(specs[i], pull.files) == Ok(pull.latest))
      && (LineSafe(worlds[i].release.value.url) && !(2 <= |pull.latest| <= 4) ==>
            ReadCurrent(specs[i], pull.files) == Err(NoCurrentVersion(specs[i].name)))
  {
    i := PullIsBumpOfBase(base, branches, prBase, dryRun, specs, worlds, k);
    ReadBackAfterBump(base, specs[i], worlds[i].release.value);
  }

  lemma ReadBackAfterBump(base: Files, spec: Spec, rel: Release)
    requires Word(spec.varName) && ReadCurrent(spec, base).Ok?
    ensures var after := ReadCurrent(spec, BumpedFiles(base, spec, ReadCurrent(spec, base).value, rel));
      && (2 <= |rel.version| <= 4 ==> after == Ok(rel.version))
      && (LineSafe(rel.url) && !(2 <= |rel.version| <= 4) ==> after == Err(NoCurrentVersion(spec.name)))
  {
    var text := base.packaging[spec.package];
    ReadVersionExact(FileLines(text), spec.varName);
    var k :| FirstMatch(FileLines(text), spec.varName, k, ReadVersion(FileLines(text), spec.varName));
    if 2 <= |rel.version| <= 4 {
      WriteThenRead(text, spec.varName, rel.version, rel.url);
    } else if LineSafe(rel.url) {
      WriteThenReadIff(text, spec.varName, rel.version, rel.url);
    }
  }

  /** Only the bumped dependency's lines of its own packaging file differ from the base. */
  lemma PullFrame(base: Files, spec: Spec, current: Version, rel: Release)
    requires Word(spec.varName) && LineSafe(rel.url) && spec.package in base.packaging
    ensures var after := BumpedFiles(base, spec, current, rel);
      && after.packaging.Keys == base.packaging.Keys
      && (forall p <- base.packaging :: p != spec.package ==> after.packaging[p] == base.packaging[p])
      && var was, now := FileLines(base.packaging[spec.package]), FileLines(after.packaging[spec.package]);
         |now| == |was| && forall i :: 0 <= i < |was| ==>
           now[i] == if spec.varName <= was[i] then VersionLine(spec.varName, rel.version, rel.url) else was[i]
  {
    LinesOfWritten(base.packaging[spec.package], spec.varName, rel.version, rel.url);
  }

  // ---------- blobs ----------

  /** The packaging file names a blob that is there. */
  ghost predicate Agrees(files: Files, spec: Spec, suffix: string := ".tar.gz")
  {
    ReadCurrent(spec, files).Ok? && StoredKey(spec, ReadCurrent(spec, files).value, suffix) in files.blobs
  }

  /** The release file is {name}-{version}{suffix}. */
  predicate StandardFile(spec: Spec, rel: Release, suffix: string := ".tar.gz")
  {
    rel.file == spec.name + "-" + Print(rel.version) + suffix
  }

  predicate Plain(spec: Spec)
  {
    Word(spec.varName) && '/' !in spec.package
  }

  lemma NoDashInVersion(v: Version)
    ensures '-' !in Print(v)
  {
    PrintChars(v);
  }

  /** A tarball path is another dependency's stored path only for the same package and name; and
      two tarball paths are equal only for the same version too. */
  lemma TarballKeyInjective(a: Spec, v: Version, b: Spec, w: Version, suffix: string)
    requires '/' !in a.package && '/' !in b.package && '-' !in suffix
    requires TarballKey(a, v) == StoredKey(b, w, suffix)
    ensures a.package == b.package && a.name == b.name
    ensures suffix == ".tar.gz" ==> v == w
  {
    var x, y := Print(v) + ".tar.gz", Print(w) + suffix;
    Assoc(a.name + "-", Print(v), ".tar.gz");
    Assoc(b.name + "-", Print(w), suffix);
    CutAtFirst(a.package, a.name + "-" + x, b.package, b.name + "-" + y, '/');
    NoDashInVersion(v);
    NoDashInVersion(w);
    CutAtLast(a.name, x, b.name, y, '-');
    if suffix == ".tar.gz" {
      DropSuffix(Print(v), Print(w), suffix);
      PrintInjective(v, w);
    }
  }

  /** A standard bump moves the dependency's blob: the old path goes, the new one holds the
      download, every other path is untouched, and packaging and blobs agree again. */
  lemma BumpMovesBlob(base: Files, spec: Spec, rel: Release)
    requires Plain(spec) && Agrees(base, spec) && StandardFile(spec, rel)
    requires Less(ReadCurrent(spec, base).value, rel.version)
    ensures var current := ReadCurrent(spec, base).value;
      var was, now := base.blobs, BumpedFiles(base, spec, current, rel).blobs;
      var oldKey, newKey := TarballKey(spec, current), TarballKey(spec, rel.version);
      && oldKey != newKey && oldKey !in now && newKey in now && now[newKey] == rel.url
      && forall p :: p != oldKey && p != newKey ==> (p in now <==> p in was) && (p in was ==> now[p] == was[p])
    ensures 2 <= |rel.version| <= 4 ==> Agrees(BumpedFiles(base, spec, ReadCurrent(spec, base).value, rel), spec)
  {
    var current := ReadCurrent(spec, base).value;
    LessIsStrictWeakOrder(current, rel.version, current);
    if TarballKey(spec, current) == TarballKey(spec, rel.version) {
      TarballKeyInjective(spec, current, spec, rel.version, ".tar.gz");
    }
    ReadBackAfterBump(base, spec, rel);
    assert spec.package + "/" + rel.file == TarballKey(spec, rel.version);
  }

  /** Two dependencies that cannot disturb each other: own blob paths, and neither line prefix
      of the first covers the second's line. */
  predicate Undisturbed(bumped: Spec, other: Spec)
  {
    && (bumped.package, bumped.name) != (other.package, other.name)
    && (bumped.package == other.package ==> !(bumped.varName <= other.varName))
  }

  /** A bump keeps another dependency's packaging version naming an existing blob, under any suffix. */
  lemma OtherAgreementKept(base: Files, spec: Spec, rel: Release, other: Spec, suffix: string)
    requires Plain(spec) && Plain(other) && Undisturbed(spec, other) && LineSafe(rel.url) && '-' !in suffix
    requires ReadCurrent(spec, base).Ok? && Agrees(base, other, suffix)
    ensures Agrees(BumpedFiles(base, spec, ReadCurrent(spec, base).value, rel), other, suffix)
  {
    var current, v := ReadCurrent(spec, base).value, ReadCurrent(other, base).value;
    if spec.package == other.package {
      OtherReadingKept(base.packaging[spec.package], spec.varName, rel.version, rel.url, other.varName);
    }
    if TarballKey(spec, current) == StoredKey(other, v, suffix) {
      TarballKeyInjective(spec, current, other, v, suffix);
    }
  }

  /** The exact condition for the bumped dependency itself: afterwards its packaging version names
      a blob if and only if the version reads back, and its file has the standard name or the blob
      was there before and is not the one removed. */
  lemma OwnAgreementIff(base: Files, spec: Spec, rel: Release, suffix: string)
    requires Plain(spec) && LineSafe(rel.url) && ReadCurrent(spec, base).Ok?
    ensures var current, key := ReadCurrent(spec, base).value, StoredKey(spec, rel.version, suffix);
      Agrees(BumpedFiles(base, spec, current, rel), spec, suffix) <==>
        && 2 <= |rel.version| <= 4
        && (StandardFile(spec, rel, suffix) || (key in base.blobs && key != TarballKey(spec, current)))
  {
    ReadBackAfterBump(base, spec, rel);
    var stored := spec.name + "-" + Print(rel.version) + suffix;
    assert (spec.package + "/" + rel.file)[|spec.package| + 1..] == rel.file;
    assert StoredKey(spec, rel.version, suffix)[|spec.package| + 1..] == stored;
  }

  /** Over whole runs: if packaging and blobs of dependency j agree on the base, they agree in every
      pull request of the run, its own included if its release has the standard name. */
  lemma AgreementOverRuns(
      base: Files, branches: map<string, Files>, prBase: string, dryRun: bool, specs: seq<Spec>, worlds: seq<World>,
      k: nat, j: nat, suffix: string)
    requires j < |specs| == |worlds| && k < |RunOn(base, branches, prBase, dryRun, specs, worlds).pulls|
    requires (forall s <- specs :: Plain(s)) && Agrees(base, specs[j], suffix) && '-' !in suffix
    requires forall i :: 0 <= i < |specs| && i != j ==> Undisturbed(specs[i], specs[j])
    requires forall w <- worlds :: w.release.Ok? ==> LineSafe(w.release.value.url)
    requires worlds[j].release.Ok? ==>
      StandardFile(specs[j], worlds[j].release.value, suffix) && 2 <= |worlds[j].release.value.version| <= 4
    ensures Agrees(RunOn(base, branches, prBase, dryRun, specs, worlds).pulls[k].files, specs[j], suffix)
  {
    hide RunOn, Agrees, Undisturbed, Plain, LineSafe, StandardFile, BumpedFiles, ReadCurrent;
    var i := PullIsBumpOfBase(base, branches, prBase, dryRun, specs, worlds, k);
    var rel := worlds[i].release.value;
    assert specs[i] in specs && specs[j] in specs && worlds[i] in worlds;
    if j == i {
      OwnAgreementIff(base, specs[i], rel, suffix);
    } else {
      OtherAgreementKept(base, specs[i], rel, specs[j], suffix);
    }
  }

  /** A dependency stored under another suffix (hatop has none) keeps its superseded blob: the
      old blob goes exactly when the suffix is the ".tar.gz" the removal looks for. */
  lemma StaleBlobIff(base: Files, spec: Spec, rel: Release, suffix: string)
    requires ReadCurrent(spec, base).Ok? && Less(ReadCurrent(spec, base).value, rel.version)
    requires StandardFile(spec, rel, suffix)
    requires StoredKey(spec, ReadCurrent(spec, base).value, suffix) in base.blobs
    ensures var current := ReadCurrent(spec, base).value;
      StoredKey(spec, current, suffix) !in BumpedFiles(base, spec, current, rel).blobs <==> suffix == ".tar.gz"
  {
    hide Print;
    var current := ReadCurrent(spec, base).value;
    var stem := spec.package + "/" + (spec.name + "-");
    KeyParts(spec, current, suffix);
    KeyParts(spec, current, ".tar.gz");
    KeyParts(spec, rel.version, suffix);
    if suffix == ".tar.gz" {
      LessIsStrictWeakOrder(current, rel.version, current);
      if StoredKey(spec, current, suffix) == StoredKey(spec, rel.version, suffix) {
        KeysDiffer(stem, current, rel.version, suffix);
      }
    } else if StoredKey(spec, current, suffix) == TarballKey(spec, current) {
      TakeDrop(stem + Print(current), suffix);
      TakeDrop(stem + Print(current), ".tar.gz");
    }
  }

  lemma KeyParts(spec: Spec, v: Version, suffix: string)
    ensures StoredKey(spec, v, suffix) == spec.package + "/" + (spec.name + "-") + Print(v) + suffix
  {
    Assoc(spec.name + "-", Print(v), suffix);
    Assoc(spec.package + "/", spec.name + "-", Print(v) + suffix);
    Assoc(spec.package + "/" + (spec.name + "-"), Print(v), suffix);
  }

  lemma KeysDiffer(stem: string, v: Version, w: Version, suffix: string)
    requires stem + Print(v) + suffix == stem + Print(w) + suffix
    ensures v == w
  {
    hide Print;
    DropSuffix(stem + Print(v), stem + Print(w), suffix);
    TakeDrop(stem, Print(v));
    TakeDrop(stem, Print(w));
    PrintInjective(v, w);
  }

  /** From the GitHub scan to the blobs: the release it returns is stored as
      {name}-{version}{suffix}, so only a ".tar.gz" source ever loses its superseded blob. */
  lemma GithubBlobFate(src: GithubSource, rels: seq<GithubRelease>, r: Result<Release>, base: Files, spec: Spec)
    requires src.Outcome(rels, r) && r.Ok? && spec.name == src.name
    requires ReadCurrent(spec, base).Ok? && Less(ReadCurrent(spec, base).value, r.value.version)
    requires StoredKey(spec, ReadCurrent(spec, base).value, src.suffix) in base.blobs
    ensures StandardFile(spec, r.value, src.suffix)
    ensures var current := ReadCurrent(spec, base).value;
      var after := BumpedFiles(base, spec, current, r.value).blobs;
      StoredKey(spec, current, src.suffix) !in after <==> src.suffix == ".tar.gz"
  {
    src.OkIsNotBad(rels, r);
    StaleBlobIff(base, spec, r.value, src.suffix);
  }

  /** From a link page to the blobs: the release returned carries the version parsed from the group
      of some link, and its file has the standard name exactly when no component of that group has
      a leading zero, pinned release line or not. */
  lemma LinkFileIsStandardIff(src: Links.LinkSource, hrefs: seq<string>, r: Result<Release>, spec: Spec)
    returns (i: nat)
    requires src.Outcome(hrefs, r) && r.Ok? && src.name == spec.name
    requires forall h <- hrefs :: src.Found(h).Some? ==> src.parse(src.Found(h).value) == ParseFinal(src.Found(h).value)
    ensures i < |hrefs| && src.Found(hrefs[i]).Some? && ParseFinal(src.Found(hrefs[i]).value) == Some(r.value.version)
    ensures StandardFile(spec, r.value) <==>
      forall p <- Split(src.Found(hrefs[i]).value, '.') :: Decimal.NoLeadingZero(p)
  {
    hide Links.Search, Print, ParseFinal, Split, Decimal.NoLeadingZero;
    i := src.LinkChosen(hrefs, r);
    assert hrefs[i] in hrefs;
    var text := src.Found(hrefs[i]).value;
    PrintOfParseIff(text);
    SameFileIff(spec, r.value.version, text);
  }

  lemma SameFileIff(spec: Spec, v: Version, text: string)
    ensures spec.name + "-" + text + ".tar.gz" == spec.name + "-" + Print(v) + ".tar.gz" <==> Print(v) == text
  {
    hide Print;
    if spec.name + "-" + text + ".tar.gz" == spec.name + "-" + Print(v) + ".tar.gz" {
      DropSuffix(spec.name + "-" + text, spec.name + "-" + Print(v), ".tar.gz");
      TakeDrop(spec.name + "-", text);
      TakeDrop(spec.name + "-", Print(v));
    }
  }

  /** If the groups found carry the pinned version literally, as they always do for a pin of one
      component, the release extends it by one-digit components and has the standard file name. */
  lemma LinkBlobFate(src: Links.LinkSource, hrefs: seq<string>, r: Result<Release>, pinned: Version, spec: Spec)
    returns (more: seq<nat>)
    requires src.Outcome(hrefs, r) && r.Ok? && src.name == spec.name && src.pinned == Print(pinned)
    requires forall h <- hrefs :: src.Found(h).Some? ==> src.parse(src.Found(h).value) == ParseFinal(src.Found(h).value)
    requires |pinned| == 1 || forall h <- hrefs :: src.Found(h).Some? ==> src.pinned <= src.Found(h).value
    ensures StandardFile(spec, r.value) && r.value.version == pinned + more && Links.OneDigitEach(more)
  {
    hide Links.Search, Print, ParseFinal, Links.OneDigitEach, Links.LinkVersion;
    var i := src.LinkChosen(hrefs, r);
    assert hrefs[i] in hrefs;
    var text := src.Found(hrefs[i]).value;
    if |pinned| == 1 {
      Links.OneComponentIsLiteral(src.name, pinned, hrefs[i]);
    }
    Links.FoundIsLinkVersion(src.name, src.pinned, hrefs[i], 0);
    more := Links.LiteralIsPrinted(pinned, text);
    ParseOfPrint(pinned + more);
  }

  // ---------- the dependencies of this repository ----------

  const DEPENDENCIES: seq<Spec> := [
    Spec("keepalived", "KEEPALIVED_VERSION", "keepalived"),
    Spec("socat", "SOCAT_VERSION", "haproxy"),
    Spec("haproxy", "HAPROXY_VERSION", "haproxy"),
    Spec("lua", "LUA_VERSION", "haproxy"),
    Spec("pcre2", "PCRE_VERSION", "haproxy"),
    Spec("hatop", "HATOP_VERSION", "haproxy")]

  /** What each of them is stored with in the blobstore. */
  const SUFFIXES: seq<string> := [".tar.gz", ".tar.gz", ".tar.gz", ".tar.gz", ".tar.gz", ""]

  lemma WordsAreJoined(a: string, b: string)
    requires Word(a) && Word(b)
    ensures Word(a + b)
  {
  }

  lemma PlainVariable(spec: Spec, stem: string, tail: string)
    requires spec.varName == stem + tail && Word(stem) && Word(tail) && '/' !in spec.package
    ensures Plain(spec)
  {
    hide Word;
    WordsAreJoined(stem, tail);
  }

  lemma DependenciesArePlain()
    ensures forall i :: 0 <= i < |DEPENDENCIES| ==> Plain(DEPENDENCIES[i])
    ensures forall s <- DEPENDENCIES :: Plain(s)
  {
    VersionIsWord();
    StemsAreWords();
    SlashFree();
    hide Word, Plain;
    PlainVariable(DEPENDENCIES[0], "KEEPALIVED", "_VERSION");
    PlainVariable(DEPENDENCIES[1], "SOCAT", "_VERSION");
    PlainVariable(DEPENDENCIES[2], "HAPROXY", "_VERSION");
    PlainVariable(DEPENDENCIES[3], "LUA", "_VERSION");
    PlainVariable(DEPENDENCIES[4], "PCRE", "_VERSION");
    PlainVariable(DEPENDENCIES[5], "HATOP", "_VERSION");
  }

  lemma VersionIsWord()
    ensures Word("_VERSION")
  {
  }

  lemma StemsAreWords()
    ensures Word("KEEPALIVED") && Word("SOCAT") && Word("HAPROXY") && Word("LUA") && Word("PCRE") && Word("HATOP")
  {
  }

  lemma SlashFree()
    ensures '/' !in "keepalived" && '/' !in "haproxy"
  {
  }

  /** The six have plain specifications and cannot disturb each other: the third letters of their
      names, and of their variables, are all different. */
  lemma DependenciesAreUndisturbed()
    ensures forall s <- DEPENDENCIES :: Plain(s)
    ensures forall i, j :: 0 <= i < |DEPENDENCIES| && 0 <= j < |DEPENDENCIES| && i != j ==>
      Undisturbed(DEPENDENCIES[i], DEPENDENCIES[j])
    ensures DistinctNames(DEPENDENCIES)
  {
    DependenciesArePlain();
    ThirdLetters();
    hide Plain;
    forall i, j | 0 <= i < |DEPENDENCIES| && 0 <= j < |DEPENDENCIES| && i != j
      ensures Undisturbed(DEPENDENCIES[i], DEPENDENCIES[j]) && DEPENDENCIES[i].name != DEPENDENCIES[j].name
    {
      var a, b := DEPENDENCIES[i], DEPENDENCIES[j];
      var x, y := a.varName[2], b.varName[2];
      AllDifferent(i, j);
    }
  }

  lemma ThirdLetters()
    ensures forall i :: 0 <= i < |DEPENDENCIES| ==>
      |DEPENDENCIES[i].varName| > 2 && DEPENDENCIES[i].varName[2] == "ECPART"[i]
    ensures forall i :: 0 <= i < |DEPENDENCIES| ==> |DEPENDENCIES[i].name| > 2 && DEPENDENCIES[i].name[2] == "ecpart"[i]
  {
  }

  /** For the list in use: in every pull request of every run, dependency j still agrees under its
      own suffix if it did on the base, whatever the other releases are called. */
  lemma DependenciesAgree(
      base: Files, branches: map<string, Files>, prBase: string, dryRun: bool, worlds: seq<World>, k: nat, j: nat)
    requires j < |DEPENDENCIES| == |worlds| && k < |RunOn(base, branches, prBase, dryRun, DEPENDENCIES, worlds).pulls|
    requires Agrees(base, DEPENDENCIES[j], SUFFIXES[j])
    requires forall w <- worlds :: w.release.Ok? ==> LineSafe(w.release.value.url)
    requires worlds[j].release.Ok? ==>
      && StandardFile(DEPENDENCIES[j], worlds[j].release.value, SUFFIXES[j])
      && 2 <= |worlds[j].release.value.version| <= 4
    ensures var run := RunOn(base, branches, prBase, dryRun, DEPENDENCIES, worlds);
      Agrees(run.pulls[k].files, DEPENDENCIES[j], SUFFIXES[j])
  {
    hide RunOn, Agrees, Undisturbed, Plain, LineSafe, StandardFile;
    DependenciesAreUndisturbed();
    assert SUFFIXES[j] == ".tar.gz" || SUFFIXES[j] == "";
    AgreementOverRuns(base, branches, prBase, dryRun, DEPENDENCIES, worlds, k, j, SUFFIXES[j]);
  }

  lemma AllDifferent(i: nat, j: nat)
    requires i < 6 && j < 6 && i != j
    ensures "ECPART"[i] != "ECPART"[j] && "ecpart"[i] != "ecpart"[j]
  {
  }
}
