/** Many control scripts (guards and stops) and daemons sharing one pidfile, as interleaved steps.
    Pids are never reused. */
module Pidfile {
  import opened Text

  datatype Kind = Guard | Stop

  /** Where a script stands: it has seen that the file exists, it holds what it read (no pid if the
      file went in between), or its last poll condemned that pid. `seen` is the number of daemon
      starts when the file was read. */
  datatype Place =
    | Idle
    | Tested
    | Holding(pid: Option<nat>, seen: nat)
    | Condemned(pid: Option<nat>, seen: nat)

  datatype Script = Script(kind: Kind, at: Place)

  /** `started` lists the pids of all daemons that ever started, in order. */
  datatype State = State(pidfile: Option<nat>, running: set<nat>, started: seq<nat>, scripts: seq<Script>)

  datatype Step =
    | Start(pid: nat)       // a daemon comes up and writes its pid
    | Crash(pid: nat)       // a process ends, by a signal or by itself
    | Test(script: nat)     // the pidfile exists
    | Read(script: nat)     // head -1 of the pidfile, which gives nothing if it is gone
    | Condemn(script: nat)  // a poll finds the pid not running
    | Leave(script: nat)    // the script ends without removing anything
    | Remove(script: nat)   // rm of the pidfile

  /** A poll of an empty pid finds nothing running; only the guard goes on to poll one. */
  predicate CanCondemn(st: State, s: Script)
  {
    s.at.Holding? && if s.at.pid.Some? then s.at.pid.value !in st.running else s.kind.Guard?
  }

  predicate Enabled(st: State, step: Step)
  {
    match step
    case Start(pid) => pid !in st.started
    case Crash(pid) => pid in st.running
    case Test(s) => s < |st.scripts| && st.scripts[s].at.Idle? && st.pidfile.Some?
    case Read(s) => s < |st.scripts| && st.scripts[s].at.Tested?
    case Condemn(s) => s < |st.scripts| && CanCondemn(st, st.scripts[s])
    case Leave(s) => s < |st.scripts| && st.scripts[s].at.Holding?
    case Remove(s) => s < |st.scripts| && st.scripts[s].at.Condemned?
  }

  function Move(st: State, s: nat, place: Place): State
    requires s < |st.scripts|
  {
    st.(scripts := st.scripts[s := st.scripts[s].(at := place)])
  }

  function Apply(st: State, step: Step): State
    requires Enabled(st, step)
  {
    match step
    case Start(pid) => st.(pidfile := Some(pid), running := st.running + {pid}, started := st.started + [pid])
    case Crash(pid) => st.(running := st.running - {pid})
    case Test(s) => Move(st, s, Tested)
    case Read(s) => Move(st, s, Holding(st.pidfile, |st.started|))
    case Condemn(s) => Move(st, s, Condemned(st.scripts[s].at.pid, st.scripts[s].at.seen))
    case Leave(s) => Move(st, s, Idle)
    case Remove(s) => Move(st, s, Idle).(pidfile := None)
  }

  ghost predicate Initial(st: State)
  {
    && st.pidfile.None? && st.running == {} && st.started == []
    && forall i :: 0 <= i < |st.scripts| ==> st.scripts[i].at.Idle?
  }

  /** The state after a run, None if some step was not possible. */
  function Execute(st: State, steps: seq<Step>): Option<State>
    decreases |steps|
  {
    if steps == [] then Some(st)
    else if Enabled(st, steps[0]) then Execute(Apply(st, steps[0]), steps[1..])
    else None
  }

  lemma {:induction false} ExecuteAppend(st: State, a: seq<Step>, b: seq<Step>)
    ensures Execute(st, a + b) == if Execute(st, a).Some? then Execute(Execute(st, a).value, b) else None
    decreases |a|
  {
    if a == [] {
      assert a + b == b;
    } else {
      TailOfSum(a, b);
      if Enabled(st, a[0]) {
        ExecuteAppend(Apply(st, a[0]), a[1..], b);
      }
    }
  }

  lemma ExecuteOne(st: State, step: Step)
    ensures Execute(st, [step]) == if Enabled(st, step) then Some(Apply(st, step)) else None
  {
    assert [step][1..] == [];
  }

  /** What a script read: the pid of the daemon that was the last one started by then, or nothing,
      and then the file is still missing unless a daemon has started since. */
  ghost predicate ReadOk(st: State, pid: Option<nat>, seen: nat)
  {
    && seen <= |st.started|
    && (pid.Some? ==> seen > 0 && st.started[seen - 1] == pid.value)
    && (pid.None? && seen == |st.started| ==> st.pidfile.None?)
  }

  ghost predicate ScriptOk(st: State, s: Script)
  {
    match s.at
    case Idle => true
    case Tested => true
    case Holding(pid, seen) => ReadOk(st, pid, seen)
    case Condemned(pid, seen) =>
      ReadOk(st, pid, seen) && if pid.Some? then pid.value !in st.running else s.kind.Guard?
  }

  ghost predicate Inv(st: State)
  {
    && (forall p <- st.running :: p in st.started)
    && (st.pidfile.Some? ==> |st.started| > 0 && st.pidfile.value == st.started[|st.started| - 1])
    && forall i :: 0 <= i < |st.scripts| ==> ScriptOk(st, st.scripts[i])
  }

  lemma StepKeepsInv(st: State, step: Step)
    requires Inv(st) && Enabled(st, step)
    ensures Inv(Apply(st, step))
  {
    var next := Apply(st, step);
    forall i | 0 <= i < |next.scripts| ensures ScriptOk(next, next.scripts[i]) {
      assert ScriptOk(st, st.scripts[i]);
      if step.Start? {
        assert st.started <= next.started;
      }
    }
    if step.Start? {
      assert next.started[|st.started|] == step.pid;
    }
  }

  lemma {:induction false} RunKeepsInv(st: State, steps: seq<Step>)
    requires Inv(st) && Execute(st, steps).Some?
    ensures Inv(Execute(st, steps).value)
    decreases |steps|
  {
    if steps != [] {
      StepKeepsInv(st, steps[0]);
      RunKeepsInv(Apply(st, steps[0]), steps[1..]);
    }
  }

  // ---------- what a removal takes ----------

  predicate FileIsLive(st: State)
  {
    st.pidfile.Some? && st.pidfile.value in st.running
  }

  /** Step t starts the last daemon of the run; since then it has not ended and no script has
      removed the pidfile. */
  ghost predicate LiveStart(steps: seq<Step>, t: nat)
  {
    && t < |steps| && steps[t].Start?
    && forall u :: t < u < |steps| ==> !steps[u].Start? && !steps[u].Remove? && steps[u] != Crash(steps[t].pid)
  }

  /** The run alone tells whether the pidfile is a live daemon's. */
  lemma {:induction false} FileIsLiveIff(st0: State, steps: seq<Step>)
    requires Initial(st0) && Execute(st0, steps).Some?
    ensures FileIsLive(Execute(st0, steps).value) <==> exists t: nat :: LiveStart(steps, t)
    ensures forall t: nat :: LiveStart(steps, t) ==> Execute(st0, steps).value.pidfile == Some(steps[t].pid)
    decreases |steps|
  {
    if steps != [] {
      var before, last := steps[..|steps| - 1], steps[|steps| - 1];
      assert steps == before + [last];
      ExecuteAppend(st0, before, [last]);
      var st := Execute(st0, before).value;
      ExecuteOne(st, last);
      FileIsLiveIff(st0, before);
      LiveStartSnoc(before, last);
      if FileIsLive(st) {
        var t: nat :| LiveStart(before, t);
        assert LiveStart(steps, t) <==> !last.Start? && !last.Remove? && last != Crash(st.pidfile.value);
      }
      if last.Start? {
        assert LiveStart(steps, |before|);
      }
    }
  }

  lemma LiveStartSnoc(steps: seq<Step>, last: Step)
    ensures forall t: nat :: t < |steps| ==>
      (LiveStart(steps + [last], t) <==>
        LiveStart(steps, t) && !last.Start? && !last.Remove? && last != Crash(steps[t].pid))
    ensures LiveStart(steps + [last], |steps|) <==> last.Start?
  {
    var all := steps + [last];
    assert all[|steps|] == last && forall t :: 0 <= t < |steps| ==> all[t] == steps[t];
  }

  lemma InitialKeepsInv(st0: State, steps: seq<Step>)
    requires Initial(st0) && Execute(st0, steps).Some?
    ensures Inv(Execute(st0, steps).value)
  {
    RunKeepsInv(st0, steps);
  }

  // ---------- a read that finds nothing ----------

  /** The script tested at step t, and another one removed the file at step u. */
  ghost predicate LostAt(steps: seq<Step>, s: nat, t: nat, u: nat)
  {
    t < u < |steps| && steps[t] == Test(s) && steps[u].Remove? && steps[u].script != s
  }

  ghost predicate Lost(steps: seq<Step>, s: nat)
  {
    exists t: nat, u: nat :: LostAt(steps, s, t, u)
  }

  ghost predicate HasTested(steps: seq<Step>, s: nat)
  {
    exists t: nat :: t < |steps| && steps[t] == Test(s)
  }

  predicate HoldsNothing(s: Script)
  {
    (s.at.Holding? || s.at.Condemned?) && s.at.pid.None?
  }

  lemma LostStays(steps: seq<Step>, last: Step, s: nat)
    ensures Lost(steps, s) ==> Lost(steps + [last], s)
    ensures HasTested(steps, s) ==> HasTested(steps + [last], s)
    ensures last == Test(s) ==> HasTested(steps + [last], s)
    ensures HasTested(steps, s) && last.Remove? && last.script != s ==> Lost(steps + [last], s)
  {
    var all := steps + [last];
    assert all[|steps|] == last && forall i :: 0 <= i < |steps| ==> all[i] == steps[i];
    if t: nat, u: nat :| LostAt(steps, s, t, u) {
      assert LostAt(all, s, t, u);
    }
    if t: nat :| t < |steps| && steps[t] == Test(s) {
      assert all[t] == Test(s);
      assert last.Remove? && last.script != s ==> LostAt(all, s, t, |steps|);
    }
  }

  /** A script reads nothing only if another one removed the file after its test. */
  lemma {:induction false} EmptyReadLostFile(st0: State, steps: seq<Step>, s: nat)
    requires Initial(st0) && Execute(st0, steps).Some? && s < |Execute(st0, steps).value.scripts|
    ensures var st := Execute(st0, steps).value;
      && (st.scripts[s].at.Tested? ==> HasTested(steps, s) && (st.pidfile.None? ==> Lost(steps, s)))
      && (HoldsNothing(st.scripts[s]) ==> Lost(steps, s))
    decreases |steps|
  {
    if steps != [] {
      var before, last := steps[..|steps| - 1], steps[|steps| - 1];
      assert steps == before + [last];
      ExecuteAppend(st0, before, [last]);
      ExecuteOne(Execute(st0, before).value, last);
      EmptyReadLostFile(st0, before, s);
      LostStays(before, last, s);
      hide Execute, Lost, HasTested;
    }
  }

  /** In every interleaving a removal follows either a dead poll of the daemon that was the last one
      started when the script read, which is dead still, or, by a guard alone, an empty read after
      another script removed the file behind its test. The removal takes a live daemon's pidfile if
      and only if the last start of the run has neither ended nor lost its file; and then it came
      after the script read. */
  lemma RemovalIsSafe(st0: State, steps: seq<Step>, script: nat)
    requires Initial(st0) && Execute(st0, steps).Some?
    requires Enabled(Execute(st0, steps).value, Remove(script))
    ensures var st := Execute(st0, steps).value; var me := st.scripts[script].at;
      && me.seen <= |st.started|
      && (me.pid.Some? ==> me.pid.value !in st.running && me.seen > 0 && me.pid.value == st.started[me.seen - 1])
      && (me.pid.None? ==> st.scripts[script].kind.Guard? && Lost(steps, script))
      && (FileIsLive(st) <==> exists t: nat :: LiveStart(steps, t))
      && (FileIsLive(st) ==> me.seen < |st.started|)
  {
    InitialKeepsInv(st0, steps);
    FileIsLiveIff(st0, steps);
    EmptyReadLostFile(st0, steps, script);
    var st := Execute(st0, steps).value;
    assert ScriptOk(st, st.scripts[script]);
    hide Execute, Lost, LiveStart;
  }

  // ---------- the races ----------

  const IDLE := Script(Guard, Idle)
  const ONE := Holding(Some(1), 1)
  const DOOMED := Script(Guard, Condemned(Some(1), 1))

  const FRESH := State(None, {}, [], [IDLE, IDLE])
  const STALE := State(Some(1), {}, [1], [IDLE, IDLE])
  const FILE_LOST := State(None, {2}, [1, 2], [IDLE, IDLE])

  /** A daemon comes up and dies: its pidfile is stale. */
  const LEFT_STALE: seq<Step> := [Start(1), Crash(1)]

  lemma StaleIsReachable(rest: seq<Step>)
    ensures Initial(FRESH) && Execute(FRESH, LEFT_STALE + rest) == Execute(STALE, rest)
  {
    ExecuteAppend(FRESH, LEFT_STALE, rest);
    var s1 := Apply(FRESH, Start(1));
    assert s1 == State(Some(1), {1}, [1], [IDLE, IDLE]);
    assert Apply(s1, Crash(1)) == STALE;
    assert LEFT_STALE == [Start(1)] + [Crash(1)];
    ExecuteAppend(FRESH, [Start(1)], [Crash(1)]);
    ExecuteOne(FRESH, Start(1));
    ExecuteOne(s1, Crash(1));
    hide Execute;
  }

  const FIRST_CONDEMNS: seq<Step> := [Test(0), Read(0), Condemn(0)]
  const SECOND_CONDEMNS: seq<Step> := [Test(1), Read(1), Condemn(1)]
  const LATE_REMOVAL: seq<Step> := [Remove(1), Start(2), Remove(0)]

  /** The start in between is a real danger: two guards read the same stale file, one of them
      finishes and its daemon starts, then the other removes the live daemon's pidfile. */
  lemma TwoGuardsRace()
    ensures Initial(FRESH) && FILE_LOST.pidfile.None? && 2 in FILE_LOST.running
    ensures Execute(FRESH, LEFT_STALE + (FIRST_CONDEMNS + (SECOND_CONDEMNS + LATE_REMOVAL))) == Some(FILE_LOST)
  {
    StaleIsReachable(FIRST_CONDEMNS + (SECOND_CONDEMNS + LATE_REMOVAL));
    FirstCondemns();
    SecondCondemns();
    LiveFileIsRemoved();
    ExecuteAppend(STALE, FIRST_CONDEMNS, SECOND_CONDEMNS + LATE_REMOVAL);
    ExecuteAppend(STALE.(scripts := [DOOMED, IDLE]), SECOND_CONDEMNS, LATE_REMOVAL);
    hide Execute;
  }

  lemma FirstCondemns()
    ensures Execute(STALE, FIRST_CONDEMNS) == Some(STALE.(scripts := [DOOMED, IDLE]))
  {
    ExecuteThree(STALE, Test(0), Read(0), Condemn(0));
    var s1 := Apply(STALE, Test(0));
    assert s1.scripts == [Script(Guard, Tested), IDLE];
    var s2 := Apply(s1, Read(0));
    assert s2.scripts == [Script(Guard, ONE), IDLE];
    assert Apply(s2, Condemn(0)).scripts == [DOOMED, IDLE];
  }

  lemma SecondCondemns()
    ensures Execute(STALE.(scripts := [DOOMED, IDLE]), SECOND_CONDEMNS) == Some(STALE.(scripts := [DOOMED, DOOMED]))
  {
    var s0 := STALE.(scripts := [DOOMED, IDLE]);
    ExecuteThree(s0, Test(1), Read(1), Condemn(1));
    var s1 := Apply(s0, Test(1));
    assert s1.scripts == [DOOMED, Script(Guard, Tested)];
    var s2 := Apply(s1, Read(1));
    assert s2.scripts == [DOOMED, Script(Guard, ONE)];
    assert Apply(s2, Condemn(1)).scripts == [DOOMED, DOOMED];
  }

  lemma LiveFileIsRemoved()
    ensures Execute(STALE.(scripts := [DOOMED, DOOMED]), LATE_REMOVAL) == Some(FILE_LOST)
  {
    var s0 := STALE.(scripts := [DOOMED, DOOMED]);
    ExecuteThree(s0, Remove(1), Start(2), Remove(0));
    var s1 := Apply(s0, Remove(1));
    assert s1.scripts == [DOOMED, IDLE];
    var s2 := Apply(s1, Start(2));
    assert s2 == State(Some(2), {2}, [1, 2], [DOOMED, IDLE]);
    assert Apply(s2, Remove(0)).scripts == [IDLE, IDLE];
  }

  const BOTH_TEST: seq<Step> := [Test(0), Test(1), Read(1)]
  const FILE_GOES: seq<Step> := [Condemn(1), Remove(1), Read(0)]
  const EMPTY_PID_REMOVES: seq<Step> := [Start(2), Condemn(0), Remove(0)]

  const ONE_HOLDS := STALE.(scripts := [Script(Guard, Tested), Script(Guard, ONE)])
  const EMPTY_READ := State(None, {}, [1], [Script(Guard, Holding(None, 1)), IDLE])

  /** Nor does it take a stale pid: a guard that tested the file before another one removed it reads
      nothing, takes the empty pid for a dead one, and removes the next daemon's pidfile without
      having polled any daemon. */
  lemma EmptyReadRace()
    ensures Initial(FRESH) && FILE_LOST.pidfile.None? && 2 in FILE_LOST.running
    ensures Execute(FRESH, LEFT_STALE + (BOTH_TEST + (FILE_GOES + EMPTY_PID_REMOVES))) == Some(FILE_LOST)
  {
    StaleIsReachable(BOTH_TEST + (FILE_GOES + EMPTY_PID_REMOVES));
    BothTest();
    FileGoes();
    EmptyPidRemoves();
    ExecuteAppend(STALE, BOTH_TEST, FILE_GOES + EMPTY_PID_REMOVES);
    ExecuteAppend(ONE_HOLDS, FILE_GOES, EMPTY_PID_REMOVES);
    hide Execute;
  }

  lemma BothTest()
    ensures Execute(STALE, BOTH_TEST) == Some(ONE_HOLDS)
  {
    ExecuteThree(STALE, Test(0), Test(1), Read(1));
    var s1 := Apply(STALE, Test(0));
    assert s1.scripts == [Script(Guard, Tested), IDLE];
    var s2 := Apply(s1, Test(1));
    assert s2.scripts == [Script(Guard, Tested), Script(Guard, Tested)];
    assert Apply(s2, Read(1)).scripts == [Script(Guard, Tested), Script(Guard, ONE)];
  }

  lemma FileGoes()
    ensures Execute(ONE_HOLDS, FILE_GOES) == Some(EMPTY_READ)
  {
    ExecuteThree(ONE_HOLDS, Condemn(1), Remove(1), Read(0));
    var s1 := Apply(ONE_HOLDS, Condemn(1));
    assert s1.scripts == [Script(Guard, Tested), DOOMED];
    var s2 := Apply(s1, Remove(1));
    assert s2.scripts == [Script(Guard, Tested), IDLE];
    assert Apply(s2, Read(0)).scripts == EMPTY_READ.scripts;
  }

  lemma EmptyPidRemoves()
    ensures Execute(EMPTY_READ, EMPTY_PID_REMOVES) == Some(FILE_LOST)
  {
    ExecuteThree(EMPTY_READ, Start(2), Condemn(0), Remove(0));
    var s1 := Apply(EMPTY_READ, Start(2));
    assert s1 == State(Some(2), {2}, [1, 2], EMPTY_READ.scripts);
    var s2 := Apply(s1, Condemn(0));
    assert s2.scripts == [Script(Guard, Condemned(None, 1)), IDLE];
    assert Apply(s2, Remove(0)).scripts == [IDLE, IDLE];
  }

  lemma ExecuteThree(st: State, a: Step, b: Step, c: Step)
    ensures Execute(st, [a, b, c]) ==
      if !Enabled(st, a) then None
      else if !Enabled(Apply(st, a), b) then None
      else Execute(Apply(Apply(st, a), b), [c])
    ensures forall s :: Execute(s, [c]) == if Enabled(s, c) then Some(Apply(s, c)) else None
  {
    forall s ensures Execute(s, [c]) == if Enabled(s, c) then Some(Apply(s, c)) else None {
      ExecuteOne(s, c);
    }
    assert [a, b, c][1..] == [b, c] && [b, c][1..] == [c];
    if Enabled(st, a) {
      assert Execute(st, [a, b, c]) == Execute(Apply(st, a), [b, c]);
    }
  }

  // ---------- when a start is safe ----------

  /** Every running process owns the pidfile. */
  ghost predicate Kept(st: State)
  {
    forall p <- st.running :: st.pidfile == Some(p)
  }

  /** Whatever the scripts and processes do next, short of another start, every running process
      keeps its pidfile. */
  ghost predicate SafeAsIs(st: State)
  {
    forall steps | StartFree(steps) && Execute(st, steps).Some? :: Kept(Execute(st, steps).value)
  }

  predicate StartFree(steps: seq<Step>)
  {
    forall i :: 0 <= i < |steps| ==> !steps[i].Start?
  }

  /** A script that cannot go on to remove the file without reading it first: it has not read, or
      it is a stop that read nothing and can only give up. */
  predicate Harmless(s: Script)
  {
    s.at.Idle? || s.at.Tested? || (s.kind.Stop? && s.at.Holding? && s.at.pid.None?)
  }

  /** What can be checked before a start: nothing runs and every script is harmless. */
  predicate SafeStart(st: State)
  {
    st.running == {} && forall i :: 0 <= i < |st.scripts| ==> Harmless(st.scripts[i])
  }

  ghost predicate SerialRun(st: State, steps: seq<Step>)
    decreases |steps|
  {
    steps == [] || (
      && Enabled(st, steps[0]) && (steps[0].Start? ==> SafeStart(st))
      && SerialRun(Apply(st, steps[0]), steps[1..]))
  }

  /** Each running process owns the pidfile, and no daemon started since a script read that may
      remove it. */
  ghost predicate Owned(st: State)
  {
    && Inv(st) && Kept(st)
    && forall i :: 0 <= i < |st.scripts| && !Harmless(st.scripts[i]) ==> st.scripts[i].at.seen == |st.started|
  }

  lemma SerialStepKeepsOwned(st: State, step: Step)
    requires Owned(st) && Enabled(st, step) && (step.Start? ==> SafeStart(st))
    ensures Owned(Apply(st, step))
  {
    StepKeepsInv(st, step);
    if step.Remove? {
      assert ScriptOk(st, st.scripts[step.script]);
      assert st.running == {};
    }
  }

  lemma {:induction false} SerialRunKeepsOwned(st: State, steps: seq<Step>)
    requires Owned(st) && SerialRun(st, steps)
    ensures Execute(st, steps).Some? && Owned(Execute(st, steps).value)
    decreases |steps|
  {
    if steps != [] {
      SerialStepKeepsOwned(st, steps[0]);
      SerialRunKeepsOwned(Apply(st, steps[0]), steps[1..]);
    }
  }

  lemma {:induction false} StartFreeIsSerial(st: State, steps: seq<Step>)
    requires StartFree(steps) && Execute(st, steps).Some?
    ensures SerialRun(st, steps)
    decreases |steps|
  {
    if steps != [] {
      StartFreeIsSerial(Apply(st, steps[0]), steps[1..]);
    }
  }

  lemma OwnedIsSafe(st: State)
    requires Owned(st)
    ensures SafeAsIs(st)
  {
    forall steps | StartFree(steps) && Execute(st, steps).Some? ensures Kept(Execute(st, steps).value) {
      StartFreeIsSerial(st, steps);
      SerialRunKeepsOwned(st, steps);
    }
  }

  /** The exact condition for a start: no continuation without a further start can cost a live
      process its pidfile if and only if nothing ran and every script was harmless at the start. */
  lemma StartIsSafeIff(st: State, pid: nat)
    requires Owned(st) && Enabled(st, Start(pid))
    ensures SafeAsIs(Apply(st, Start(pid))) <==> SafeStart(st)
  {
    var next := Apply(st, Start(pid));
    if SafeStart(st) {
      SerialStepKeepsOwned(st, Start(pid));
      OwnedIsSafe(next);
    } else if p :| p in st.running {
      LosesAfter(next, [], p);
    } else {
      var i :| 0 <= i < |st.scripts| && !Harmless(st.scripts[i]);
      assert ScriptOk(st, st.scripts[i]);
      RemovalLoses(next, i, pid);
    }
  }

  lemma LosesAfter(st: State, steps: seq<Step>, p: nat)
    requires StartFree(steps) && Execute(st, steps).Some?
    requires var end := Execute(st, steps).value; p in end.running && end.pidfile != Some(p)
    ensures !SafeAsIs(st)
  {
    assert !Kept(Execute(st, steps).value);
  }

  /** A script that has condemned what it read, or can, can go on to remove a live process's file. */
  lemma RemovalLoses(st: State, i: nat, p: nat)
    requires i < |st.scripts| && (st.scripts[i].at.Condemned? || CanCondemn(st, st.scripts[i])) && p in st.running
    ensures !SafeAsIs(st)
  {
    if st.scripts[i].at.Condemned? {
      ExecuteOne(st, Remove(i));
      LosesAfter(st, [Remove(i)], p);
    } else {
      ExecuteOne(st, Condemn(i));
      var condemned := Apply(st, Condemn(i));
      ExecuteOne(condemned, Remove(i));
      ExecuteAppend(st, [Condemn(i)], [Remove(i)]);
      LosesAfter(st, [Condemn(i)] + [Remove(i)], p);
    }
  }

  /** Over whole runs: every state on the way is safe as it is if and only if every start of the
      run met the condition. */
  lemma {:induction false} SafeRunIff(st: State, steps: seq<Step>)
    requires Owned(st) && Execute(st, steps).Some?
    ensures SerialRun(st, steps) <==>
      forall n: nat :: n <= |steps| && Execute(st, steps[..n]).Some? ==> SafeAsIs(Execute(st, steps[..n]).value)
    decreases |steps|
  {
    hide SafeAsIs, Owned, SafeStart, Apply, Enabled;
    OwnedIsSafe(st);
    if steps == [] {
      assert forall n: nat :: n <= |steps| ==> steps[..n] == [];
    } else {
      var next := Apply(st, steps[0]);
      forall n: nat | 0 < n <= |steps| ensures Execute(st, steps[..n]) == Execute(next, steps[1..][..n - 1]) {
        assert steps[..n][1..] == steps[1..][..n - 1];
      }
      assert Execute(next, steps[1..][..0]) == Some(next);
      if steps[0].Start? {
        StartIsSafeIff(st, steps[0].pid);
      }
      if steps[0].Start? ==> SafeStart(st) {
        SerialStepKeepsOwned(st, steps[0]);
        SafeRunIff(next, steps[1..]);
        ShiftedPrefixes(st, next, steps);
      } else {
        assert Execute(st, steps[..1]) == Some(next);
      }
    }
  }

  lemma EmptyRun(st: State, steps: seq<Step>)
    ensures Execute(st, steps[..0]) == Some(st)
  {
  }

  lemma ShiftedPrefixes(st: State, next: State, steps: seq<Step>)
    requires steps != [] && SafeAsIs(st)
    requires forall n: nat :: 0 < n <= |steps| ==> Execute(st, steps[..n]) == Execute(next, steps[1..][..n - 1])
    ensures (forall n: nat :: n <= |steps| && Execute(st, steps[..n]).Some? ==> SafeAsIs(Execute(st, steps[..n]).value))
       <==> (forall m: nat :: m <= |steps[1..]| && Execute(next, steps[1..][..m]).Some? ==>
              SafeAsIs(Execute(next, steps[1..][..m]).value))
  {
    hide SafeAsIs, Execute;
    EmptyRun(st, steps);
    forall m: nat | m <= |steps[1..]| ensures Execute(next, steps[1..][..m]) == Execute(st, steps[..m + 1]) {
    }
  }

  lemma AtMostOne(st: State)
    requires Owned(st)
    ensures |st.running| <= 1
  {
    if p :| p in st.running {
      assert st.running == {p};
    }
  }

  /** Over every serialised run no live process loses its pidfile, so at most one is running. */
  lemma LiveKeepsItsPidfile(st: State, steps: seq<Step>)
    requires Initial(st) && SerialRun(st, steps)
    ensures Execute(st, steps).Some?
    ensures var end := Execute(st, steps).value; |end.running| <= 1 && forall p <- end.running :: end.pidfile == Some(p)
  {
    SerialRunKeepsOwned(st, steps);
    AtMostOne(Execute(st, steps).value);
  }
}
