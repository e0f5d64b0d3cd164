/** Stopping a process from its pidfile: guard, bounded polling, TERM and then KILL. Time is the
    sequence of polls; `alive(k)` is what the k-th poll of the pid sees, on any timeline. */
module StopProtocol {
  import opened Text

  datatype Event = Poll(alive: bool) | Term | Kill9 | Sleep | RemovePidfile

  datatype Wait = Wait(died: bool, log: seq<Event>, polls: nat)

  /** wait_pid_death from poll p with `countdown` sleeps left. */
  function WaitFrom(alive: nat -> bool, p: nat, countdown: int): Wait
    decreases if countdown > 0 then countdown else 0
  {
    if !alive(p) then Wait(true, [Poll(false)], 1)
    else if countdown <= 0 then Wait(false, [Poll(true)], 1)
    else
      var rest := WaitFrom(alive, p + 1, countdown - 1);
      Wait(rest.died, [Poll(true), Sleep] + rest.log, rest.polls + 1)
  }

  function Sleeps(log: seq<Event>): nat
  {
    if log == [] then 0 else (if log[0] == Sleep then 1 else 0) + Sleeps(log[1..])
  }

  function Bound(timeout: int): nat
  {
    if timeout > 0 then 10 * timeout else 0
  }

  /** Every poll from `from` up to but not including `to` sees the process alive. */
  ghost predicate AliveThrough(alive: nat -> bool, from: nat, to: nat)
  {
    forall k: nat :: from <= k < to ==> alive(k)
  }

  lemma {:induction false} WaitLog(alive: nat -> bool, p: nat, countdown: int)
    ensures var w := WaitFrom(alive, p, countdown);
      && w.polls > 0 && Sleeps(w.log) == w.polls - 1
      && forall i :: 0 <= i < |w.log| ==> w.log[i].Poll? || w.log[i] == Sleep
    decreases if countdown > 0 then countdown else 0
  {
    if !alive(p) {
      assert Sleeps([Poll(false)][1..]) == 0;
    } else if countdown <= 0 {
      assert Sleeps([Poll(true)][1..]) == 0;
    } else {
      WaitLog(alive, p + 1, countdown - 1);
      var w, rest := WaitFrom(alive, p, countdown), WaitFrom(alive, p + 1, countdown - 1);
      assert w.log == [Poll(true), Sleep] + rest.log;
      hide WaitFrom;
      assert w.log[1..] == [Sleep] + rest.log && w.log[1..][1..] == rest.log;
    }
  }

  /** Success exactly when one of the first bound + 1 polls sees the process dead; the polling
      stops at the first such poll, after one sleep fewer than polls. */
  lemma {:induction false} WaitExact(alive: nat -> bool, p: nat, countdown: int)
    ensures var w := WaitFrom(alive, p, countdown); var bound := if countdown > 0 then countdown else 0;
      && (w.died <==> !AliveThrough(alive, p, p + bound + 1))
      && 1 <= w.polls <= bound + 1 && Sleeps(w.log) == w.polls - 1
      && AliveThrough(alive, p, p + w.polls - 1) && alive(p + w.polls - 1) == !w.died
      && (!w.died ==> w.polls == bound + 1)
    decreases if countdown > 0 then countdown else 0
  {
    hide Sleeps;
    WaitLog(alive, p, countdown);
    if alive(p) && countdown > 0 {
      WaitExact(alive, p + 1, countdown - 1);
    }
  }

  datatype Outcome = Outcome(code: int, log: seq<Event>, pidfile: Option<string>)

  /** kill_and_wait: `pidfile` is the first line of the file, None if there is no file. */
  function KillAndWait(alive: nat -> bool, pidfile: Option<string>, timeout: int, flag: string): Outcome
  {
    if pidfile.None? then Outcome(0, [], pidfile)
    else if pidfile.value == "" then Outcome(1, [], pidfile)
    else if !alive(0) then Outcome(0, [Poll(false), RemovePidfile], None)
    else
      var w := WaitFrom(alive, 1, 10 * timeout);
      var log := Signalled(w.log, !w.died && flag == "1");
      if alive(1 + w.polls) then Outcome(1, log + [Poll(true)], pidfile)
      else Outcome(0, log + [Poll(false)] + [RemovePidfile], None)
  }

  /** The log up to the last poll. */
  function Signalled(wait: seq<Event>, kills: bool): seq<Event>
  {
    [Poll(true), Term] + wait + if kills then [Kill9, Sleep] else []
  }

  /** pid_guard: an empty pid is never running. */
  function PidGuard(alive: nat -> bool, pidfile: Option<string>): Outcome
  {
    if pidfile.None? then Outcome(0, [], pidfile)
    else if pidfile.value != "" && alive(0) then Outcome(1, [Poll(true)], pidfile)
    else Outcome(0, [Poll(false), RemovePidfile], None)
  }

  /** The guard refuses exactly when the file names a pid and the poll finds it alive, and then leaves
      the file; in every other case the file is gone. It polls at most once and never signals. */
  lemma GuardIff(alive: nat -> bool, pidfile: Option<string>)
    ensures var g := PidGuard(alive, pidfile);
      && (g.code == 1 <==> pidfile.Some? && pidfile.value != "" && alive(0)) && (g.code == 0 || g.code == 1)
      && (g.code == 1 ==> g.pidfile == pidfile) && (g.code == 0 ==> g.pidfile.None?)
      && Term !in g.log && Kill9 !in g.log && |g.log| <= 2
  {
  }

  /** SIGKILL is sent exactly when the pidfile names a pid, the flag is 1 and every poll before it,
      the first one and all the bounded ones, saw the process alive. */
  lemma KillIff(alive: nat -> bool, pidfile: Option<string>, timeout: int, flag: string)
    ensures Kill9 in KillAndWait(alive, pidfile, timeout, flag).log
       <==> pidfile.Some? && pidfile.value != "" && flag == "1" && AliveThrough(alive, 0, Bound(timeout) + 2)
    ensures timeout >= 0 ==> Bound(timeout) + 2 == 10 * timeout + 2
  {
    hide WaitFrom, Sleeps, Signalled, RemovesOnlyAfterDeadPoll;
    WaitExact(alive, 1, 10 * timeout);
    if pidfile.Some? && pidfile.value != "" && alive(0) {
      StopLog(alive, pidfile.value, timeout, flag);
      hide KillAndWait;
    }
  }

  /** Nothing but polls and sleeps between TERM and KILL, and a removal only at the end, straight
      after a dead poll. */
  ghost predicate StopOrder(log: seq<Event>, kills: bool, removes: bool)
  {
    && |log| > 1 && log[1] == Term && (Kill9 in log <==> kills)
    && (forall i :: 0 <= i < |log| && log[i] == Kill9 ==> i > 1)
    && (RemovePidfile in log <==> removes) && RemovesOnlyAfterDeadPoll(log)
  }

  /** The log of a stop that had to signal. */
  lemma StopLog(alive: nat -> bool, pid: string, timeout: int, flag: string)
    requires pid != "" && alive(0)
    ensures var o, w := KillAndWait(alive, Some(pid), timeout, flag), WaitFrom(alive, 1, 10 * timeout);
      StopOrder(o.log, !w.died && flag == "1", o.code == 0)
  {
    hide WaitFrom, Sleeps, Signalled, StopOrder;
    WaitLog(alive, 1, 10 * timeout);
    var w := WaitFrom(alive, 1, 10 * timeout);
    SignalledOrder(w.log, !w.died && flag == "1");
    WithEnding(Signalled(w.log, !w.died && flag == "1"), !w.died && flag == "1", !alive(1 + w.polls));
  }

  lemma WithEnding(head: seq<Event>, kills: bool, dead: bool)
    requires StopOrder(head, kills, false)
    ensures StopOrder(if dead then head + [Poll(false)] + [RemovePidfile] else head + [Poll(true)], kills, dead)
  {
    Extends(head, [Poll(true)]);
    Extends(head, [Poll(false)]);
    Extends(head + [Poll(false)], [RemovePidfile]);
  }

  lemma SignalledOrder(wait: seq<Event>, kills: bool)
    requires forall i :: 0 <= i < |wait| ==> wait[i].Poll? || wait[i] == Sleep
    ensures StopOrder(Signalled(wait, kills), kills, false)
  {
    var signals := if kills then [Kill9, Sleep] else [];
    var log := Signalled(wait, kills);
    assert forall i :: 2 <= i < 2 + |wait| ==> log[i] == wait[i - 2];
    assert forall i :: 2 + |wait| <= i < |log| ==> log[i] == signals[i - 2 - |wait|];
    if kills {
      assert log[2 + |wait|] == Kill9;
    }
  }

  lemma Extends(log: seq<Event>, more: seq<Event>)
    ensures forall i :: 0 <= i < |log| ==> (log + more)[i] == log[i] && log[i] in log
    ensures forall i :: 0 <= i < |more| ==> (log + more)[|log| + i] == more[i]
  {
  }

  function Polls(log: seq<Event>): nat
  {
    if log == [] then 0 else (if log[0].Poll? then 1 else 0) + Polls(log[1..])
  }

  lemma {:induction false} PollsAppend(a: seq<Event>, b: seq<Event>)
    ensures Polls(a + b) == Polls(a) + Polls(b)
  {
    if a == [] {
      assert a + b == b;
    } else {
      PollsAppend(a[1..], b);
      TailOfSum(a, b);
    }
  }

  lemma {:induction false} WaitPolls(alive: nat -> bool, p: nat, countdown: int)
    ensures var w := WaitFrom(alive, p, countdown);
      Polls(w.log) == w.polls && (!w.died ==> forall i :: 0 <= i < |w.log| ==> w.log[i] != Poll(false))
    decreases if countdown > 0 then countdown else 0
  {
    if !alive(p) {
      assert Polls([Poll(false)][1..]) == 0;
    } else if countdown <= 0 {
      assert Polls([Poll(true)][1..]) == 0;
    } else {
      WaitPolls(alive, p + 1, countdown - 1);
      var rest := WaitFrom(alive, p + 1, countdown - 1);
      PollsOfTwo(rest.log);
    }
  }

  lemma PollsOfTwo(rest: seq<Event>)
    ensures Polls([Poll(true), Sleep] + rest) == 1 + Polls(rest)
  {
    var log := [Poll(true), Sleep] + rest;
    assert log[1..] == [Sleep] + rest && log[1..][1..] == rest;
  }

  /** KILL is the last resort: before it come the first poll, TERM and all the bounded polls, every
      one of which found the process alive; after it come a sleep and the one poll that decides. */
  lemma KillIsLastResort(alive: nat -> bool, pid: string, timeout: int, flag: string, i: nat)
    requires pid != "" && var log := KillAndWait(alive, Some(pid), timeout, flag).log; i < |log| && log[i] == Kill9
    ensures var log := KillAndWait(alive, Some(pid), timeout, flag).log;
      && Polls(log[..i]) == Bound(timeout) + 2 && (forall j :: 0 <= j < i ==> log[j] != Poll(false))
      && i + 2 < |log| <= i + 4 && log[i + 1] == Sleep && log[i + 2].Poll?
  {
    hide WaitFrom, Sleeps, StopOrder, AliveThrough, Signalled;
    var log, w := KillAndWait(alive, Some(pid), timeout, flag).log, WaitFrom(alive, 1, 10 * timeout);
    KillMeansTimeout(alive, pid, timeout, flag, i);
    WaitExact(alive, 1, 10 * timeout);
    WaitPolls(alive, 1, 10 * timeout);
    WaitLog(alive, 1, 10 * timeout);
    var tail := if alive(1 + w.polls) then [Poll(true)] else [Poll(false), RemovePidfile];
    hide KillAndWait;
    KillPosition(w.log, tail, i);
    PollsAppend([Poll(true), Term], w.log);
    FirstPolls();
    hide Polls;
  }

  lemma KillMeansTimeout(alive: nat -> bool, pid: string, timeout: int, flag: string, i: nat)
    requires pid != "" && var log := KillAndWait(alive, Some(pid), timeout, flag).log; i < |log| && log[i] == Kill9
    ensures var log, w := KillAndWait(alive, Some(pid), timeout, flag).log, WaitFrom(alive, 1, 10 * timeout);
      && !w.died
      && log == [Poll(true), Term] + w.log
           + ([Kill9, Sleep] + if alive(1 + w.polls) then [Poll(true)] else [Poll(false), RemovePidfile])
  {
    hide WaitFrom, Sleeps, AliveThrough, RemovesOnlyAfterDeadPoll;
    var log, w := KillAndWait(alive, Some(pid), timeout, flag).log, WaitFrom(alive, 1, 10 * timeout);
    assert alive(0);
    StopLog(alive, pid, timeout, flag);
    assert log[i] in log;
    assert !w.died && flag == "1";
    SignalledThen(w.log);
    hide Signalled, StopOrder;
  }

  lemma SignalledThen(wait: seq<Event>)
    ensures var front := [Poll(true), Term] + wait;
      && Signalled(wait, true) + [Poll(true)] == front + ([Kill9, Sleep] + [Poll(true)])
      && Signalled(wait, true) + [Poll(false)] + [RemovePidfile]
         == front + ([Kill9, Sleep] + [Poll(false), RemovePidfile])
  {
    var front := [Poll(true), Term] + wait;
    Assoc(front, [Kill9, Sleep], [Poll(true)]);
    Assoc(front, [Kill9, Sleep], [Poll(false)]);
    Assoc(front, [Kill9, Sleep] + [Poll(false)], [RemovePidfile]);
    assert [Kill9, Sleep] + [Poll(false)] + [RemovePidfile] == [Kill9, Sleep] + [Poll(false), RemovePidfile];
  }

  lemma FirstPolls()
    ensures Polls([Poll(true), Term]) == 1
  {
    assert [Poll(true), Term][1..] == [Term] && [Term][1..] == [];
  }

  lemma KillPosition(wait: seq<Event>, tail: seq<Event>, i: nat)
    requires forall j :: 0 <= j < |wait| ==> (wait[j].Poll? || wait[j] == Sleep) && wait[j] != Poll(false)
    requires 1 <= |tail| <= 2 && tail[0].Poll? && (|tail| == 2 ==> tail[1] == RemovePidfile)
    requires var log := [Poll(true), Term] + wait + ([Kill9, Sleep] + tail); i < |log| && log[i] == Kill9
    ensures var log := [Poll(true), Term] + wait + ([Kill9, Sleep] + tail);
      && i == 2 + |wait| && log[..i] == [Poll(true), Term] + wait
      && (forall j :: 0 <= j < i ==> log[j] != Poll(false))
      && i + 2 < |log| <= i + 4 && log[i + 1] == Sleep && log[i + 2].Poll?
  {
    var front, back := [Poll(true), Term] + wait, [Kill9, Sleep] + tail;
    TakeDrop(front, back);
    assert forall j :: 2 <= j < |front| ==> front[j] == wait[j - 2];
    assert forall j :: |front| <= j < |front + back| ==> (front + back)[j] == back[j - |front|];
    assert back[0] == Kill9 && back[1] == Sleep && back[2] == tail[0];
  }

  ghost predicate RemovesOnlyAfterDeadPoll(log: seq<Event>)
  {
    forall i :: 0 <= i < |log| && log[i] == RemovePidfile ==> i > 0 && log[i - 1] == Poll(false)
  }

  /** Exit code 0 leaves no pidfile, any other code leaves it as it was, and the file is removed
      only straight after a poll that found the process dead. TERM goes to every process that the
      first poll finds alive, and always comes before KILL. */
  lemma ExitMeansGone(alive: nat -> bool, pidfile: Option<string>, timeout: int, flag: string)
    ensures var o := KillAndWait(alive, pidfile, timeout, flag);
      && (o.code == 0 <==> o.pidfile.None?) && (o.code != 0 ==> o.code == 1 && o.pidfile == pidfile)
      && (RemovePidfile in o.log <==> pidfile.Some? && o.code == 0) && RemovesOnlyAfterDeadPoll(o.log)
      && (Term in o.log <==> pidfile.Some? && pidfile.value != "" && alive(0))
      && (forall i :: 0 <= i < |o.log| && o.log[i] == Kill9 ==> Term in o.log[..i])
    ensures var g := PidGuard(alive, pidfile);
      && (g.code == 0 <==> g.pidfile.None?) && (g.code != 0 ==> g.pidfile == pidfile)
      && RemovesOnlyAfterDeadPoll(g.log)
  {
    if pidfile.Some? && pidfile.value != "" && alive(0) {
      StopLog(alive, pidfile.value, timeout, flag);
      var o := KillAndWait(alive, pidfile, timeout, flag);
      assert o.log[1] in o.log;
      forall i | 0 <= i < |o.log| && o.log[i] == Kill9 ensures Term in o.log[..i] {
        assert o.log[..i][1] == Term;
      }
    }
  }

  /** The first poll after the signal that sees the process dead. */
  ghost predicate FirstDead(alive: nat -> bool, k: nat)
  {
    k >= 1 && AliveThrough(alive, 1, k) && !alive(k)
  }

  lemma WaitEndsAt(alive: nat -> bool, timeout: int, k: nat)
    requires FirstDead(alive, k)
    ensures var w := WaitFrom(alive, 1, 10 * timeout);
      && (w.died <==> k <= Bound(timeout) + 1)
      && w.polls == if k <= Bound(timeout) + 1 then k else Bound(timeout) + 1
  {
    WaitExact(alive, 1, 10 * timeout);
  }

  /** The exact condition on every timeline, pid reuse included: a stop succeeds if there is no
      pidfile, or if the file names a pid and the first poll finds it dead, or if the poll straight
      after the first dead one of the bounded polls is dead too, or if after bound + 1 live polls the
      one after KILL is dead. An empty file makes it fail. */
  lemma StopExact(alive: nat -> bool, pidfile: Option<string>, timeout: int, flag: string)
    ensures KillAndWait(alive, pidfile, timeout, flag).code == 0
       <==> || pidfile.None?
            || (pidfile.value != ""
                && (|| !alive(0)
                    || (exists k: nat :: k <= Bound(timeout) + 1 && FirstDead(alive, k) && !alive(k + 1))
                    || (AliveThrough(alive, 1, Bound(timeout) + 2) && !alive(Bound(timeout) + 2))))
  {
    hide WaitFrom, Signalled, Sleeps, AliveThrough, FirstDead;
    WaitDecides(alive, timeout);
  }

  /** The poll after the wait, told from the timeline. */
  lemma WaitDecides(alive: nat -> bool, timeout: int)
    ensures !alive(1 + WaitFrom(alive, 1, 10 * timeout).polls)
       <==> || (exists k: nat :: k <= Bound(timeout) + 1 && FirstDead(alive, k) && !alive(k + 1))
            || (AliveThrough(alive, 1, Bound(timeout) + 2) && !alive(Bound(timeout) + 2))
  {
    WaitExact(alive, 1, 10 * timeout);
    var w := WaitFrom(alive, 1, 10 * timeout);
    hide WaitFrom, Sleeps;
    if w.died {
      assert FirstDead(alive, w.polls);
    }
    forall k: nat | FirstDead(alive, k) ensures k <= Bound(timeout) + 1 ==> w.died && w.polls == k {
      WaitEndsAt(alive, timeout, k);
    }
  }

  /** When the wait sees the process die, no KILL is sent, and the stop reports a timeout exactly
      if the next poll finds the pid in use again. */
  lemma ReusedPidReportsTimeout(alive: nat -> bool, pid: string, timeout: int, flag: string, k: nat)
    requires pid != "" && alive(0) && FirstDead(alive, k) && k <= Bound(timeout) + 1
    ensures var o := KillAndWait(alive, Some(pid), timeout, flag);
      Kill9 !in o.log && (o.code == 1 <==> alive(k + 1))
  {
    WaitEndsAt(alive, timeout, k);
    StopLog(alive, pid, timeout, flag);
  }

  ghost predicate NoPidReuse(alive: nat -> bool)
  {
    forall j: nat, k: nat :: j <= k && alive(k) ==> alive(j)
  }

  /** Without pid reuse this says: a stop succeeds exactly when the process is dead by the last
      poll, one of the bounded ones or the one after KILL. */
  lemma StopIff(alive: nat -> bool, pid: string, timeout: int, flag: string)
    requires NoPidReuse(alive) && pid != ""
    ensures KillAndWait(alive, Some(pid), timeout, flag).code == 0 <==> !alive(Bound(timeout) + 2)
  {
    var last := Bound(timeout) + 2;
    WaitExact(alive, 1, 10 * timeout);
    var w := WaitFrom(alive, 1, 10 * timeout);
    assert !w.died ==> 1 + w.polls == last;
    assert alive(last) ==> alive(0);
    assert w.died ==> !alive(w.polls) && (alive(1 + w.polls) ==> alive(w.polls)) && (alive(last) ==> alive(w.polls));
  }

  // ---------- the script ----------

  function After(seen: seq<Event>, n: int, rest: Wait): Wait
    requires n + rest.polls >= 0
  {
    Wait(rest.died, seen + rest.log, n + rest.polls)
  }

  lemma AfterAfter(seen: seq<Event>, n: nat, rest: Wait)
    ensures After(seen, n, Wait(rest.died, [Poll(true), Sleep] + rest.log, rest.polls + 1))
      == After(seen + [Poll(true), Sleep], n + 1, rest)
  {
    Assoc(seen, [Poll(true), Sleep], rest.log);
  }

  lemma WaitUnfolds(alive: nat -> bool, p: nat, countdown: int)
    ensures WaitFrom(alive, p, countdown) ==
      if !alive(p) then Wait(true, [Poll(false)], 1)
      else if countdown <= 0 then Wait(false, [Poll(true)], 1)
      else
        var rest := WaitFrom(alive, p + 1, countdown - 1);
        Wait(rest.died, [Poll(true), Sleep] + rest.log, rest.polls + 1)
  {
  }

  /** A pidfile and a process table seen through successive polls. */
  class Host {
    const alive: nat -> bool
    var polls: nat
    var log: seq<Event>
    var pidfile: Option<string>

    constructor (alive: nat -> bool, pidfile: Option<string>)
      ensures this.alive == alive && this.pidfile == pidfile && polls == 0 && log == []
    {
      this.alive, this.pidfile := alive, pidfile;
      polls, log := 0, [];
    }

    method PidIsRunning() returns (running: bool)
      modifies this`polls, this`log
      ensures running == alive(old(polls)) && polls == old(polls) + 1
      ensures log == old(log) + [Poll(running)]
    {
      running := alive(polls);
      polls := polls + 1;
      log := log + [Poll(running)];
    }

    method WaitPidDeath(timeout: int) returns (code: int)
      modifies this`polls, this`log
      ensures var w := WaitFrom(alive, old(polls), 10 * timeout);
        code == (if w.died then 0 else 1) && log == old(log) + w.log && polls == old(polls) + w.polls
    {
      hide WaitFrom;
      var countdown := timeout * 10;
      ghost var before, start := log, polls;
      ghost var seen: seq<Event> := [];
      ghost var whole := WaitFrom(alive, polls, countdown);
      assert whole == After([], 0, whole) && log == before + [];
      while true
        invariant log == before + seen && polls >= start
        invariant whole == After(seen, polls - start, WaitFrom(alive, polls, countdown))
        decreases if countdown > 0 then countdown + 1 else 0
      {
        WaitUnfolds(alive, polls, countdown);
        ghost var p, rest := polls, WaitFrom(alive, polls + 1, countdown - 1);
        var running := PidIsRunning();
        Assoc(before, seen, [Poll(running)]);
        if !running {
          return 0;
        }
        if countdown <= 0 {
          return 1;
        }
        countdown := countdown - 1;
        Emit(Sleep);
        AfterAfter(seen, p - start, rest);
        TwoMore(before, seen);
        seen := seen + [Poll(true), Sleep];
      }
    }

    lemma TwoMore(before: seq<Event>, seen: seq<Event>)
      ensures before + (seen + [Poll(true)]) + [Sleep] == before + (seen + [Poll(true), Sleep])
    {
    }

    method Emit(e: Event)
      modifies this`log
      ensures log == old(log) + [e]
    {
      log := log + [e];
    }

    method Stop(timeout: int, sigkillOnTimeout: string) returns (code: int)
      requires polls == 0 && log == []
      modifies this
      ensures var o := KillAndWait(alive, old(pidfile), timeout, sigkillOnTimeout);
        code == o.code && log == o.log && pidfile == o.pidfile
    {
      if pidfile.None? {
        return 0;
      }
      var pid := pidfile.value;
      if pid == "" {
        return 1;
      }
      var running := PidIsRunning();
      if !running {
        RemoveFile();
        return 0;
      }
      Emit(Term);
      var waited := WaitPidDeath(timeout);
      hide WaitFrom;
      ghost var w := WaitFrom(alive, 1, 10 * timeout);
      assert log == [Poll(true), Term] + w.log;
      if waited != 0 {
        if sigkillOnTimeout == "1" {
          Emit(Kill9);
          Emit(Sleep);
        }
      }
      assert log == Signalled(w.log, !w.died && sigkillOnTimeout == "1");
      running := PidIsRunning();
      if running {
        return 1;
      }
      RemoveFile();
      return 0;
    }

    method Guard() returns (code: int)
      requires polls == 0 && log == []
      modifies this
      ensures var o := PidGuard(alive, old(pidfile));
        code == o.code && log == o.log && pidfile == o.pidfile
    {
      if pidfile.None? {
        return 0;
      }
      if pidfile.value != "" {
        var running := PidIsRunning();
        if running {
          return 1;
        }
      } else {
        Emit(Poll(false));
      }
      RemoveFile();
      return 0;
    }

    method RemoveFile()
      modifies this`pidfile, this`log
      ensures pidfile.None? && log == old(log) + [RemovePidfile]
    {
      pidfile := None;
      log := log + [RemovePidfile];
    }
  }
}
