/** The bidirectional copy behind the port forwarders: per accepted connection two copying
    goroutines, one unbuffered channel, one receive; all goroutines interleave freely. */
module CopyProtocol {
  import opened Text

  type Bytes = seq<bv8>

  /** A goroutine copies, then offers its completion on the channel, then ends. */
  datatype Pc = Copying | Sending | Ended

  /** One direction: bytes taken from the source, bytes passed on, and whether a write failed. */
  datatype Flow = Flow(pc: Pc, read: Bytes, written: Bytes, failed: bool)

  datatype Side = ToClient | ToRemote

  /** One call of copyConnections. */
  datatype Call = Call(toClient: Flow, toRemote: Flow, received: nat, returned: bool)
  {
    function Get(side: Side): Flow
    {
      if side == ToClient then toClient else toRemote
    }

    function Put(side: Side, f: Flow): Call
    {
      if side == ToClient then this.(toClient := f) else this.(toRemote := f)
    }
  }

  const FRESH := Call(Flow(Copying, [], [], false), Flow(Copying, [], [], false), 0, false)

  /** The calls made by one accept loop, in order. */
  type State = seq<Call>

  datatype Step =
    | Accept
    | Read(call: nat, side: Side, chunk: Bytes)
    | Write(call: nat, side: Side, n: nat)
    | Finish(call: nat, side: Side)
    | Rendezvous(call: nat, side: Side)

  predicate Enabled(st: State, step: Step)
  {
    match step
    case Accept => st == [] || st[|st| - 1].returned
    case Read(c, side, chunk) =>
      c < |st| && var f := st[c].Get(side); f.pc == Copying && f.written == f.read && chunk != []
    case Write(c, side, n) =>
      c < |st| && var f := st[c].Get(side); f.pc == Copying && |f.written| < |f.read| && |f.written| + n <= |f.read|
    case Finish(c, side) => c < |st| && var f := st[c].Get(side); f.pc == Copying && f.written == f.read
    case Rendezvous(c, side) => c < |st| && st[c].Get(side).pc == Sending && !st[c].returned
  }

  /** A write that passes on less than was read ends the copy with an error; end of input or a
      read error ends it once everything read is written. */
  function ApplyToFlow(f: Flow, step: Step): Flow
    requires step.Write? ==> |f.written| + step.n <= |f.read|
  {
    match step
    case Read(_, _, chunk) => f.(read := f.read + chunk)
    case Write(_, _, n) =>
      var all := |f.written| + n == |f.read|;
      f.(written := f.read[..|f.written| + n], failed := !all, pc := if all then Copying else Sending)
    case Finish(_, _) => f.(pc := Sending)
    case Rendezvous(_, _) => f.(pc := Ended)
    case Accept => f
  }

  function Apply(st: State, step: Step): State
    requires Enabled(st, step)
  {
    if step.Accept? then st + [FRESH]
    else
      var c := st[step.call];
      var moved := c.Put(step.side, ApplyToFlow(c.Get(step.side), step));
      st[step.call := if step.Rendezvous? then moved.(received := c.received + 1, returned := true) else moved]
  }

  function Execute(st: State, steps: seq<Step>): Option<State>
    decreases |steps|
  {
    if steps == [] then Some(st)
    else if Enabled(st, steps[0]) then Execute(Apply(st, steps[0]), steps[1..])
    else None
  }

  // ---------- invariant ----------

  ghost predicate FlowOk(f: Flow)
  {
    f.written <= f.read && (f.pc != Copying && !f.failed ==> f.written == f.read) && (f.failed ==> f.pc != Copying)
  }

  function EndedCount(c: Call): nat
  {
    (if c.toClient.pc == Ended then 1 else 0) + if c.toRemote.pc == Ended then 1 else 0
  }

  /** A call has returned exactly when one completion was received, and then exactly one of its
      goroutines got past its send. */
  ghost predicate CallOk(c: Call)
  {
    && FlowOk(c.toClient) && FlowOk(c.toRemote)
    && c.received == EndedCount(c) == if c.returned then 1 else 0
  }

  /** Accepts are serial: every call but the newest has returned. */
  ghost predicate Inv(st: State)
  {
    (forall i :: 0 <= i < |st| ==> CallOk(st[i])) && forall i :: 0 <= i < |st| - 1 ==> st[i].returned
  }

  lemma FreshIsOk()
    ensures CallOk(FRESH)
  {
  }

  lemma FlowStepKeepsOk(f: Flow, step: Step)
    requires FlowOk(f) && (step.Write? ==> f.pc == Copying && |f.written| + step.n <= |f.read|)
    requires step.Read? || step.Finish? ==> f.pc == Copying && f.written == f.read
    requires step.Rendezvous? ==> f.pc == Sending
    ensures FlowOk(ApplyToFlow(f, step))
  {
  }

  lemma CallStepKeepsOk(st: State, step: Step)
    requires Inv(st) && Enabled(st, step) && !step.Accept?
    ensures CallOk(Apply(st, step)[step.call])
  {
    var c := st[step.call];
    assert CallOk(c);
    FlowStepKeepsOk(c.Get(step.side), step);
    hide FlowOk;
  }

  lemma StepKeepsInv(st: State, step: Step)
    requires Inv(st) && Enabled(st, step)
    ensures Inv(Apply(st, step))
  {
    var next := Apply(st, step);
    if !step.Accept? {
      CallStepKeepsOk(st, step);
    }
    hide CallOk;
    forall i | 0 <= i < |next| ensures CallOk(next[i]) {
      if i >= |st| {
        FreshIsOk();
      } else {
        assert CallOk(st[i]);
      }
    }
  }

  lemma {:induction false} RunKeepsInv(st: State, steps: seq<Step>)
    requires Inv(st) && Execute(st, steps).Some?
    ensures Inv(Execute(st, steps).value)
    decreases |steps|
  {
    if steps != [] {
      StepKeepsInv(st, steps[0]);
      RunKeepsInv(Apply(st, steps[0]), steps[1..]);
    }
  }

  // ---------- every run of the accept loop ----------

  function Returned(st: State): nat
  {
    if st == [] then 0 else Returned(st[..|st| - 1]) + if st[|st| - 1].returned then 1 else 0
  }

  function Received(st: State): nat
  {
    if st == [] then 0 else Received(st[..|st| - 1]) + st[|st| - 1].received
  }

  function Unfinished(st: State): nat
  {
    if st == [] then 0 else Unfinished(st[..|st| - 1]) + (2 - EndedCount(st[|st| - 1]))
  }

  ghost predicate Over(f: Flow)
  {
    f.pc == Ended && (f.failed || f.written == f.read)
  }

  /** Whatever the interleaving: a call that returned received one completion and any other none;
      it came from a direction that failed or passed on all it read; the bytes written are a prefix
      of those read; calls are serial. Over the whole loop returned calls equal received completions,
      and each leaves one goroutine that has not ended. */
  lemma EveryRun(steps: seq<Step>)
    requires Execute([], steps).Some?
    ensures var st := Execute([], steps).value;
      && (forall c <- st :: c.received == if c.returned then 1 else 0)
      && (forall c <- st :: c.returned <==> Over(c.toClient) || Over(c.toRemote))
      && (forall c <- st :: !(c.toClient.pc == Ended && c.toRemote.pc == Ended))
      && (forall c <- st, side: Side :: c.Get(side).written <= c.Get(side).read)
      && (forall i :: 0 <= i < |st| - 1 ==> st[i].returned)
      && Returned(st) == Received(st) && Unfinished(st) == 2 * |st| - Returned(st)
      && |st| - 1 <= Returned(st) <= |st|
  {
    RunKeepsInv([], steps);
    var st := Execute([], steps).value;
    forall c | c in st ensures CallOk(c) {
    }
    CountsAgree(st);
  }

  lemma {:induction false} CountsAgree(st: State)
    requires Inv(st)
    ensures Returned(st) == Received(st) && Unfinished(st) == 2 * |st| - Returned(st)
    ensures |st| - 1 <= Returned(st) <= |st|
    ensures st != [] && st[|st| - 1].returned ==> Returned(st) == |st|
  {
    if st != [] {
      var front := st[..|st| - 1];
      assert CallOk(st[|st| - 1]);
      CountsAgree(front);
    }
  }

  /** Once a call has returned, the goroutine that did not deliver never ends: no continuation of
      the run lets it pass its send. */
  lemma {:induction false} OtherGoroutineIsStuck(st: State, steps: seq<Step>, c: nat, side: Side)
    requires Inv(st) && c < |st| && st[c].returned && st[c].Get(side).pc != Ended
    requires Execute(st, steps).Some?
    ensures var after := Execute(st, steps).value;
      c < |after| && after[c].returned && after[c].Get(side).pc != Ended
    decreases |steps|
  {
    if steps != [] {
      var next := Apply(st, steps[0]);
      StepKeepsInv(st, steps[0]);
      assert next[c].returned && next[c].Get(side).pc != Ended;
      OtherGoroutineIsStuck(next, steps[1..], c, side);
    }
  }

  // ---------- the newest call can always return ----------

  lemma {:induction false} ExecuteAppend(st: State, a: seq<Step>, b: seq<Step>)
    ensures Execute(st, a + b) == if Execute(st, a).Some? then Execute(Execute(st, a).value, b) else None
    decreases |a|
  {
    if a == [] {
      assert a + b == b;
    } else {
      TailOfSum(a, b);
      if Enabled(st, a[0]) {
        ExecuteAppend(Apply(st, a[0]), a[1..], b);
      }
    }
  }

  lemma ExecuteOne(st: State, step: Step)
    ensures Execute(st, [step]) == if Enabled(st, step) then Some(Apply(st, step)) else None
  {
    assert [step][1..] == [];
  }

  lemma ExecuteFirst(st: State, step: Step, rest: seq<Step>)
    requires Enabled(st, step)
    ensures Execute(st, [step] + rest) == Execute(Apply(st, step), rest)
  {
    ExecuteAppend(st, [step], rest);
    ExecuteOne(st, step);
  }

  /** What one goroutine still has to do before its call returns: pass on what it holds, offer its
      completion, be received. */
  function Remaining(f: Flow): nat
  {
    match f.pc
    case Copying => if f.written == f.read then 2 else 3
    case Sending => 1
    case Ended => 0
  }

  /** Nothing ever blocks the accept loop for good: from every reachable state the newest call can
      return, whatever its two directions are doing. */
  lemma NewestCanReturn(steps: seq<Step>) returns (more: seq<Step>)
    requires Execute([], steps).Some? && Execute([], steps).value != []
    ensures Execute([], steps + more).Some?
    ensures var st, after := Execute([], steps).value, Execute([], steps + more).value;
      |after| == |st| && after[|after| - 1].returned
  {
    RunKeepsInv([], steps);
    var st := Execute([], steps).value;
    more := [];
    if !st[|st| - 1].returned {
      assert CallOk(st[|st| - 1]);
      more := Completion(st);
    }
    ExecuteAppend([], steps, more);
  }

  lemma {:induction false} Completion(st: State) returns (more: seq<Step>)
    requires Inv(st) && st != [] && !st[|st| - 1].returned && st[|st| - 1].toClient.pc != Ended
    ensures Execute(st, more).Some?
    ensures var after := Execute(st, more).value; |after| == |st| && after[|after| - 1].returned
    decreases Remaining(st[|st| - 1].toClient)
  {
    var c := |st| - 1;
    var f := st[c].toClient;
    assert CallOk(st[c]);
    var step :=
      if f.pc == Sending then Rendezvous(c, ToClient)
      else if f.written == f.read then Finish(c, ToClient)
      else Write(c, ToClient, |f.read| - |f.written|);
    if f.written != f.read {
      assert f.written <= f.read;
    }
    StepKeepsInv(st, step);
    var next := Apply(st, step);
    if step.Rendezvous? {
      ExecuteOne(st, step);
      more := [step];
    } else {
      var rest := Completion(next);
      ExecuteFirst(st, step, rest);
      more := [step] + rest;
    }
  }

  // ---------- bytes left behind ----------

  /** At step t a chunk was read in this direction; nothing was read there since, and no write has
      passed on as much as the chunk. */
  ghost predicate PendingSince(steps: seq<Step>, c: nat, side: Side, t: nat)
  {
    && t < |steps| && steps[t].Read? && steps[t].call == c && steps[t].side == side
    && forall u :: t < u < |steps| ==> !Supersedes(steps[u], c, side, |steps[t].chunk|)
  }

  /** A further read of the direction, or a write of at least n bytes. */
  predicate Supersedes(step: Step, c: nat, side: Side, n: nat)
  {
    && (step.Read? || (step.Write? && step.n >= n))
    && step.call == c && step.side == side
  }

  predicate Concerns(step: Step, c: nat, side: Side)
  {
    !step.Accept? && step.call == c && step.side == side
  }

  /** Whether a chunk is pending, and which. */
  ghost predicate PendingChunk(steps: seq<Step>, c: nat, side: Side, pending: bool, chunk: Bytes)
  {
    && (pending <==> exists t: nat :: PendingSince(steps, c, side, t))
    && forall t: nat :: PendingSince(steps, c, side, t) ==> steps[t].chunk == chunk
  }

  lemma PendingSnoc(steps: seq<Step>, last: Step, c: nat, side: Side)
    ensures forall t: nat :: t < |steps| ==>
      (PendingSince(steps + [last], c, side, t) <==>
        PendingSince(steps, c, side, t) && !Supersedes(last, c, side, |steps[t].chunk|))
    ensures PendingSince(steps + [last], c, side, |steps|) <==> last.Read? && last.call == c && last.side == side
  {
    var all := steps + [last];
    assert all[|steps|] == last && forall t :: 0 <= t < |steps| ==> all[t] == steps[t];
  }

  lemma PendingStep(steps: seq<Step>, last: Step, c: nat, side: Side, pending: bool, chunk: Bytes)
    requires PendingChunk(steps, c, side, pending, chunk)
    ensures last.Read? && Concerns(last, c, side) ==> PendingChunk(steps + [last], c, side, true, last.chunk)
    ensures !(last.Read? && Concerns(last, c, side)) ==>
      PendingChunk(
        steps + [last], c, side, pending && !(last.Write? && Concerns(last, c, side) && last.n >= |chunk|), chunk)
  {
    var all := steps + [last];
    PendingSnoc(steps, last, c, side);
    assert forall t: nat :: t < |steps| ==> all[t] == steps[t];
    assert forall t: nat :: PendingSince(all, c, side, t) ==> t <= |steps|;
    hide PendingSince;
  }

  /** What a direction has pending is the chunk last read, as long as it has not stopped. */
  ghost predicate Accounts(f: Flow, pending: bool, chunk: Bytes)
  {
    && (f.written != f.read <==> pending)
    && (pending && f.pc == Copying ==> |f.read| == |f.written| + |chunk|)
  }

  lemma FlowStepAccounts(f: Flow, step: Step, pending: bool, chunk: Bytes)
    requires FlowOk(f) && Accounts(f, pending, chunk)
    requires step.Write? ==> f.pc == Copying && |f.written| < |f.read| && |f.written| + step.n <= |f.read|
    requires step.Read? || step.Finish? ==> f.pc == Copying && f.written == f.read
    requires step.Read? ==> step.chunk != []
    ensures step.Read? ==> Accounts(ApplyToFlow(f, step), true, step.chunk)
    ensures !step.Read? ==> Accounts(ApplyToFlow(f, step), pending && !(step.Write? && step.n >= |chunk|), chunk)
  {
    if step.Write? {
      var next := ApplyToFlow(f, step);
      assert |next.written| == |f.written| + step.n;
      if step.n >= |chunk| {
        assert next.written == f.read[..|f.read|] == next.read;
      }
    }
  }

  lemma FlowAfter(st: State, step: Step, c: nat, side: Side)
    requires Enabled(st, step)
    ensures |Apply(st, step)| == |st| + if step.Accept? then 1 else 0
    ensures c < |st| && Concerns(step, c, side) ==> Apply(st, step)[c].Get(side) == ApplyToFlow(st[c].Get(side), step)
    ensures c < |st| && !Concerns(step, c, side) ==> Apply(st, step)[c].Get(side) == st[c].Get(side)
    ensures Concerns(step, c, side) ==> c < |st|
    ensures step.Accept? ==> Apply(st, step)[|st|] == FRESH
  {
    hide ApplyToFlow;
  }

  lemma {:induction false} PendingIff(steps: seq<Step>, c: nat, side: Side) returns (pending: bool, chunk: Bytes)
    requires Execute([], steps).Some?
    ensures PendingChunk(steps, c, side, pending, chunk)
    ensures var st := Execute([], steps).value;
      if c < |st| then Accounts(st[c].Get(side), pending, chunk) else !pending
    decreases |steps|
  {
    if steps == [] {
      pending, chunk := false, [];
    } else {
      var before, last := steps[..|steps| - 1], steps[|steps| - 1];
      assert steps == before + [last];
      ExecuteAppend([], before, [last]);
      var st := Execute([], before).value;
      ExecuteOne(st, last);
      RunKeepsInv([], before);
      pending, chunk := PendingIff(before, c, side);
      PendingStep(before, last, c, side, pending, chunk);
      FlowAfter(st, last, c, side);
      hide Execute, Accounts, FlowOk, PendingChunk, Apply, ApplyToFlow;
      if last.Accept? {
        NothingPending(chunk);
      } else if Concerns(last, c, side) {
        assert CallOk(st[c]);
        FlowStepAccounts(st[c].Get(side), last, pending, chunk);
        if last.Read? {
          pending, chunk := true, last.chunk;
        } else {
          pending := pending && !(last.Write? && last.n >= |chunk|);
        }
      }
    }
  }

  lemma NothingPending(chunk: Bytes)
    ensures Accounts(FRESH.toClient, false, chunk) && Accounts(FRESH.toRemote, false, chunk)
  {
  }

  /** The exact condition, for every run, call and direction: bytes read are left unwritten if and
      only if the last chunk read there is not followed by a write of its size. */
  lemma BytesLeftIff(steps: seq<Step>, c: nat, side: Side)
    requires Execute([], steps).Some? && c < |Execute([], steps).value|
    ensures var f := Execute([], steps).value[c].Get(side);
      f.written != f.read <==> exists t: nat :: PendingSince(steps, c, side, t)
  {
    var pending, chunk := PendingIff(steps, c, side);
  }

  /** A call can return while the other direction still holds bytes it has read and not written. */
  lemma ReturnsWithBytesPending(b: bv8)
    ensures var steps := [Accept, Read(0, ToRemote, [b]), Finish(0, ToClient), Rendezvous(0, ToClient)];
      Execute([], steps).Some? && Execute([], steps).value != []
      && var c := Execute([], steps).value[0]; c.returned && c.toRemote.written != c.toRemote.read
  {
    var steps := [Accept, Read(0, ToRemote, [b]), Finish(0, ToClient), Rendezvous(0, ToClient)];
    var s1 := Apply([], steps[0]);
    var s2 := Apply(s1, steps[1]);
    var s3 := Apply(s2, steps[2]);
    var s4 := Apply(s3, steps[3]);
    assert steps[1..][1..] == steps[2..] && steps[2..][1..] == steps[3..] && steps[3..][1..] == [];
    assert Execute(s4, []) == Some(s4);
    assert Execute(s3, steps[3..]) == Some(s4);
    assert Execute(s2, steps[2..]) == Some(s4);
    assert Execute(s1, steps[1..]) == Some(s4);
    assert s4[0].toRemote.read == [] + [b];
  }
}
