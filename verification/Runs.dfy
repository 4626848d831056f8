/** What holds over whole runs of the client. */
module Runs {
  import opened Wrappers
  import opened Tools
  import opened Directories
  import opened Schedulers
  import opened SyncPlan
  import opened FileWatchers
  import opened Protocol

  /** States linked by possible steps. */
  ghost predicate IsRun(states: seq<State>, steps: seq<Step>) {
    && |states| == |steps| + 1
    && forall i :: 0 <= i < |steps| ==> Possible(states[i], steps[i]) && states[i + 1] == Next(states[i], steps[i])
  }

  /** The looks at the path before state k are guarded. */
  predicate GuardedAt(states: seq<State>, steps: seq<Step>, k: nat, p: Path)
    requires k <= |steps| < |states|
  {
    forall i :: 0 <= i < k && steps[i] == Watch(p) ==> Guarded(states[i], steps[i])
  }

  // ---------------------------------------------------------------- building runs

  lemma RunExtends(states: seq<State>, steps: seq<Step>, step: Step)
    requires IsRun(states, steps) && Possible(states[|steps|], step)
    ensures IsRun(states + [Next(states[|steps|], step)], steps + [step])
  {
    hide Possible, Next;
  }

  lemma RunPrepended(s: State, step: Step, states: seq<State>, steps: seq<Step>)
    requires IsRun(states, steps) && Possible(s, step) && states[0] == Next(s, step)
    ensures IsRun([s] + states, [step] + steps)
  {
    hide Possible, Next;
    forall i | 0 <= i < |steps| + 1
      ensures Possible(([s] + states)[i], ([step] + steps)[i])
              && ([s] + states)[i + 1] == Next(([s] + states)[i], ([step] + steps)[i])
    {
      if i > 0 {
        assert ([s] + states)[i] == states[i - 1] && ([step] + steps)[i] == steps[i - 1];
      }
    }
  }

  lemma TailRun(states: seq<State>, steps: seq<Step>)
    requires IsRun(states, steps) && steps != []
    ensures IsRun(states[1..], steps[1..])
  {
    hide Possible, Next;
    forall i | 0 <= i < |steps| - 1
      ensures Possible(states[1..][i], steps[1..][i]) && states[1..][i + 1] == Next(states[1..][i], steps[1..][i])
    {
      assert states[1..][i] == states[i + 1] && steps[1..][i] == steps[i + 1] && states[1..][i + 1] == states[i + 2];
    }
  }

  // ---------------------------------------------------------------- safety

  /** The invariant of a path holds up to some state of a run if and only if the looks at it are guarded so far. */
  lemma {:induction false} RunInvAt(states: seq<State>, steps: seq<Step>, k: nat, p: Path)
    requires IsRun(states, steps) && InvAt(states[0], p) && k < |states|
    ensures (forall i :: 0 <= i <= k ==> InvAt(states[i], p)) <==> GuardedAt(states, steps, k, p)
  {
    hide InvAt, Possible, Guarded, Next;
    if k > 0 {
      RunInvAt(states, steps, k - 1, p);
      if InvAt(states[k - 1], p) {
        StepInvAt(states[k - 1], steps[k - 1], p);
      }
      assert (forall i :: 0 <= i <= k ==> InvAt(states[i], p)) <==>
             (forall i :: 0 <= i <= k - 1 ==> InvAt(states[i], p)) && InvAt(states[k], p);
      assert GuardedAt(states, steps, k, p) <==>
             GuardedAt(states, steps, k - 1, p) && (steps[k - 1] == Watch(p) ==> Guarded(states[k - 1], steps[k - 1]));
    }
  }

  /** The same for all paths at once. */
  lemma {:induction false} RunInv(states: seq<State>, steps: seq<Step>, k: nat)
    requires IsRun(states, steps) && Inv(states[0]) && k < |states|
    ensures (forall i :: 0 <= i <= k ==> Inv(states[i])) <==> forall i :: 0 <= i < k ==> Guarded(states[i], steps[i])
  {
    hide Inv, Possible, Guarded, Next;
    if k > 0 {
      RunInv(states, steps, k - 1);
      if Inv(states[k - 1]) {
        StepInv(states[k - 1], steps[k - 1]);
      }
      assert (forall i :: 0 <= i <= k ==> Inv(states[i])) <==>
             (forall i :: 0 <= i <= k - 1 ==> Inv(states[i])) && Inv(states[k]);
      assert (forall i :: 0 <= i < k ==> Guarded(states[i], steps[i])) <==>
             (forall i :: 0 <= i < k - 1 ==> Guarded(states[i], steps[i])) && Guarded(states[k - 1], steps[k - 1]);
    }
  }

  /** A request whose path is looked at under the guard only finds its entry pending, as its job left it. */
  lemma NoMissingEntry(states: seq<State>, steps: seq<Step>, k: nat)
    requires IsRun(states, steps) && Init(states[0])
    requires k < |steps| && steps[k].Exchange? && GuardedAt(states, steps, k, states[k].strand[0].path)
    ensures At(states[k].dir, states[k].strand[0].path) == Some(states[k].strand[0].Entry())
  {
    InitInv(states[0]);
    RunInvAt(states, steps, k, states[k].strand[0].path);
    assert InvAt(states[k], states[k].strand[0].path);
    HeadFacts(states[k]);
  }

  // ---------------------------------------------------------------- handlers that find no entry

  predicate Queued(s: State, p: Path) {
    exists i :: 0 <= i < |s.strand| && s.strand[i].path == p
  }

  /** The watcher forgot the path in step i, and no job of the path ran between it and state k. */
  predicate ForgottenAt(states: seq<State>, steps: seq<Step>, i: nat, k: nat, p: Path)
    requires i < k <= |steps| < |states|
  {
    && steps[i] == Watch(p) && Decide(p, At(states[i].dir, p), At(states[i].files, p)).Forget?
    && forall j :: i < j < k ==> !(steps[j].RunTask? && steps[j].op.path == p)
  }

  /** A queued request has no entry exactly when the watcher forgot the path and no job put the entry back. */
  lemma {:induction false} MissingIff(states: seq<State>, steps: seq<Step>, k: nat, p: Path)
    requires IsRun(states, steps) && !Queued(states[0], p) && k < |states| && Queued(states[k], p)
    ensures p !in states[k].dir <==> exists i :: 0 <= i < k && ForgottenAt(states, steps, i, k, p)
  {
    hide Next, ForgottenAt, Decide;
    var s, step := states[k - 1], steps[k - 1];
    ForgottenLater(states, steps, k - 1, k, p);
    forall i | 0 <= i < k - 1
      ensures ForgottenAt(states, steps, i, k, p) <==>
              ForgottenAt(states, steps, i, k - 1, p) && !(step.RunTask? && step.op.path == p)
    {
      ForgottenLater(states, steps, i, k, p);
    }
    PresenceStep(s, step, p);
    if Queued(s, p) {
      MissingIff(states, steps, k - 1, p);
      if p !in s.dir && !(step.RunTask? && step.op.path == p) {
        var i :| 0 <= i < k - 1 && ForgottenAt(states, steps, i, k - 1, p);
        assert ForgottenAt(states, steps, i, k, p);
      }
    }
  }

  lemma ForgottenLater(states: seq<State>, steps: seq<Step>, i: nat, k: nat, p: Path)
    requires i < k <= |steps| < |states|
    ensures ForgottenAt(states, steps, i, k, p) <==>
            if i == k - 1 then
              steps[i] == Watch(p) && Decide(p, At(states[i].dir, p), At(states[i].files, p)).Forget?
            else ForgottenAt(states, steps, i, k - 1, p) && !(steps[k - 1].RunTask? && steps[k - 1].op.path == p)
  {
  }

  /** What a step does to the presence of an entry, and what brings a request. */
  lemma PresenceStep(s: State, step: Step, p: Path)
    requires Possible(s, step)
    ensures var s', forgets := Next(s, step), step == Watch(p) && Decide(p, At(s.dir, p), At(s.files, p)).Forget?;
            && (p in s'.dir <==> (step.RunTask? && step.op.path == p) || (p in s.dir && !forgets))
            && (Queued(s', p) ==> Queued(s, p) || (step.RunTask? && step.op.path == p))
  {
    hide Decide;
    match step
    case Exchange(answer) =>
      assert forall i :: 0 <= i < |s.strand| - 1 ==> Next(s, step).strand[i] == s.strand[i + 1];
    case _ =>
  }

  /** The handler runs and finds no entry, so the process exits. */
  predicate Exits(s: State, step: Step) {
    && step.Exchange? && s.strand != []
    && Told(s.strand[0].kind, step.answer).Some? && s.strand[0].path !in s.dir
  }

  /** An exchange ends the process exactly when its callback runs and the watcher forgot the path after its last job. */
  lemma ExitIff(states: seq<State>, steps: seq<Step>, k: nat)
    requires IsRun(states, steps) && Init(states[0]) && k < |steps| && steps[k].Exchange?
    ensures var op := states[k].strand[0];
            Exits(states[k], steps[k]) <==>
            && Told(op.kind, steps[k].answer).Some?
            && exists i :: 0 <= i < k && ForgottenAt(states, steps, i, k, op.path)
  {
    hide ForgottenAt;
    assert Queued(states[k], states[k].strand[0].path);
    MissingIff(states, steps, k, states[k].strand[0].path);
  }

  // ---------------------------------------------------------------- the client's records

  /** The client is told something else about the path than what the server did. */
  predicate Misled(s: State, step: Step, p: Path) {
    step.Exchange? && (step.answer.Stale? || step.answer == Lost(true)) && s.strand != [] && s.strand[0].path == p
  }

  predicate Cleared(s: State, step: Step, p: Path) {
    step == Exchange(Accepted) && s.strand != [] && s.strand[0].path == p
  }

  /** The client was misled in step i, and no exchange between it and state k was accepted. */
  predicate MisledAt(states: seq<State>, steps: seq<Step>, i: nat, k: nat, p: Path)
    requires i < k <= |steps| < |states|
  {
    Misled(states[i], steps[i], p) && forall j :: i < j < k ==> !Cleared(states[j], steps[j], p)
  }

  /** What `doubtful` records: the paths whose last misleading exchange was not followed by an accepted one. */
  lemma {:induction false} DoubtfulIff(states: seq<State>, steps: seq<Step>, k: nat, p: Path)
    requires IsRun(states, steps) && p !in states[0].doubtful && k < |states|
    ensures p in states[k].doubtful <==> exists i :: 0 <= i < k && MisledAt(states, steps, i, k, p)
  {
    hide Possible, Next, Misled, Cleared, MisledAt;
    if k > 0 {
      DoubtfulIff(states, steps, k - 1, p);
      DoubtfulStep(states[k - 1], steps[k - 1], p);
      MisledLater(states, steps, k - 1, k, p);
      forall i | 0 <= i < k - 1
        ensures MisledAt(states, steps, i, k, p) <==>
                MisledAt(states, steps, i, k - 1, p) && !Cleared(states[k - 1], steps[k - 1], p)
      {
        MisledLater(states, steps, i, k, p);
      }
      if p in states[k].doubtful && p in states[k - 1].doubtful && !Misled(states[k - 1], steps[k - 1], p) {
        var i :| 0 <= i < k - 1 && MisledAt(states, steps, i, k - 1, p);
        assert MisledAt(states, steps, i, k, p);
      }
    }
  }

  lemma MisledLater(states: seq<State>, steps: seq<Step>, i: nat, k: nat, p: Path)
    requires i < k <= |steps| < |states|
    ensures MisledAt(states, steps, i, k, p) <==>
            if i == k - 1 then Misled(states[i], steps[i], p)
            else MisledAt(states, steps, i, k - 1, p) && !Cleared(states[k - 1], steps[k - 1], p)
  {
  }

  lemma DoubtfulStep(s: State, step: Step, p: Path)
    requires Possible(s, step)
    ensures p in Next(s, step).doubtful <==> Misled(s, step, p) || (p in s.doubtful && !Cleared(s, step, p))
  {
  }

  /** Safety: the records of a path that is not doubtful are true as long as the looks at it are guarded. */
  lemma RecordsAreTrue(states: seq<State>, steps: seq<Step>, k: nat, p: Path)
    requires IsRun(states, steps) && Init(states[0])
    requires k < |states| && p !in states[k].doubtful && GuardedAt(states, steps, k, p)
    ensures var s := states[k];
            var ops, untouched := OpsAt(Outstanding(s), p), Untouched(s.phase, p);
            && (p in s.dir && s.dir[p].synced.True? ==>
                  s.dir[p].existOnServer && At(s.server, p) == Some(s.dir[p].digest))
            && (p in s.dir && s.dir[p].synced.False? ==> (s.dir[p].existOnServer <==> p in s.server))
            && (p in s.dir && s.dir[p].synced.Indeterminate? && !untouched ==> p in s.stuck || ops != {})
            && (p !in s.dir && ops == {} && !untouched ==> p !in s.server)
            && |ops| <= 1
            && forall op :: op in ops ==> (op.kind == Create <==> p !in s.server)
  {
    InitInv(states[0]);
    RunInvAt(states, steps, k, p);
    assert InvAt(states[k], p);
    AtMostOne(OpsAt(Outstanding(states[k]), p));
  }

  /** An ERASE of the path gets a reply. */
  predicate ErasureReplied(s: State, step: Step, p: Path) {
    && step.Exchange? && (step.answer.Accepted? || step.answer.Rejected?)
    && s.strand != [] && s.strand[0].path == p && s.strand[0].kind == Erase
  }

  /** What `stuck` records: the paths one of whose ERASEs was replied to. */
  lemma {:induction false} StuckIff(states: seq<State>, steps: seq<Step>, k: nat, p: Path)
    requires IsRun(states, steps) && p !in states[0].stuck && k < |states|
    ensures p in states[k].stuck <==> exists i :: 0 <= i < k && ErasureReplied(states[i], steps[i], p)
  {
    hide Possible, Next, ErasureReplied;
    if k > 0 {
      StuckIff(states, steps, k - 1, p);
      StuckStep(states[k - 1], steps[k - 1], p);
    }
  }

  lemma StuckStep(s: State, step: Step, p: Path)
    requires Possible(s, step)
    ensures p in Next(s, step).stuck <==> p in s.stuck || ErasureReplied(s, step, p)
  {
  }

  // ---------------------------------------------------------------- what a path's copy and its entry remember

  /** The server carries out a request of the path. */
  predicate CarriedOut(s: State, step: Step, p: Path) {
    && step.Exchange? && (step.answer.Accepted? || step.answer == Lost(true))
    && s.strand != [] && s.strand[0].path == p
  }

  /** The server's copy of a path is what the last request carried out for it says. */
  lemma {:induction false} LastCarriedOut(states: seq<State>, steps: seq<Step>, i: nat, k: nat, p: Path)
    requires IsRun(states, steps) && i < k < |states| && CarriedOut(states[i], steps[i], p)
    requires forall j :: i < j < k ==> !CarriedOut(states[j], steps[j], p)
    ensures var op := states[i].strand[0];
            At(states[k].server, p) == if op.kind == Erase then None else Some(op.digest)
  {
    CopyStep(states[k - 1], steps[k - 1], p);
    if k - 1 > i {
      LastCarriedOut(states, steps, i, k - 1, p);
    }
  }

  lemma CopyStep(s: State, step: Step, p: Path)
    requires Possible(s, step)
    ensures var copy := At(Next(s, step).server, p);
            copy == if !CarriedOut(s, step, p) then At(s.server, p)
                    else if s.strand[0].kind == Erase then None else Some(s.strand[0].digest)
  {
  }

  /** As long as an entry is there and no job of its path runs, it keeps its digest, whatever was answered. */
  lemma {:induction false} DigestKept(states: seq<State>, steps: seq<Step>, k: nat, p: Path)
    requires IsRun(states, steps) && k < |states|
    requires forall i :: 0 <= i <= k ==> p in states[i].dir
    requires forall i :: 0 <= i < k ==> !(steps[i].RunTask? && steps[i].op.path == p)
    ensures states[k].dir[p].digest == states[0].dir[p].digest
  {
    hide Possible, Next;
    if k > 0 {
      DigestKept(states, steps, k - 1, p);
      assert states[k] == Next(states[k - 1], steps[k - 1]);
      DigestStep(states[k - 1], steps[k - 1], p);
    }
  }

  /** A job gives its entry the digest it carries; no other step changes one. */
  lemma DigestStep(s: State, step: Step, p: Path)
    requires Possible(s, step) && p in Next(s, step).dir
    ensures var digest := Next(s, step).dir[p].digest;
            if step.RunTask? && step.op.path == p then digest == step.op.digest
            else p in s.dir && digest == s.dir[p].digest
  {
    if step.SyncVisit? {
      VisitEntries(s, step.path, p);
    }
  }

  lemma AtMostOne<T>(s: set<T>)
    requires forall a, b :: a in s && b in s ==> a == b
    ensures |s| <= 1
  {
    if s != {} {
      var a :| a in s;
      assert s == {a};
    }
  }

  // ---------------------------------------------------------------- paths the client leaves alone

  /** An entry with nothing under way, which the watcher finds as it should be. */
  ghost predicate AtRest(p: Path, v: View, file: Option<Digest>) {
    v.entry.Some? && v.ops == {} && !v.untouched && Decide(p, v.entry, file) == Nothing
  }

  /** Any step at all, guarded or not, leaves everything about such a path as it is. */
  lemma RestStep(s: State, step: Step, p: Path)
    requires Possible(s, step) && AtRest(p, ViewOf(s, p), At(s.files, p))
    ensures ViewOf(Next(s, step), p) == ViewOf(s, p)
  {
    hide Decide;
    match step
    case RunTask(op) => RunTaskViews(s, op, p);
    case Exchange(answer) =>
      QueuedIsOutstanding(s, 0);
      ExchangeViews(s, answer, p);
    case SyncVisit(q) => VisitViews(s, q, p);
    case SyncFinish => FinishViews(s, p);
    case Watch(q) =>
      if q != p {
        WatchViews(s, q, p);
      }
    case FilesChange(_) =>
  }

  lemma {:induction false} RestsForever(states: seq<State>, steps: seq<Step>, k: nat, p: Path)
    requires IsRun(states, steps) && k < |states|
    requires forall i :: 0 <= i <= k ==> AtRest(p, ViewOf(states[0], p), At(states[i].files, p))
    ensures ViewOf(states[k], p) == ViewOf(states[0], p)
  {
    hide Possible, Guarded, Next, ViewOf, AtRest;
    if k > 0 {
      RestsForever(states, steps, k - 1, p);
      RestStep(states[k - 1], steps[k - 1], p);
    }
  }

  /**
   * A stuck path is out of the client's reach: whatever happens to its file and however the steps are
   * scheduled, guarded or not, nothing is posted for it, and the server's copy stays as it is.
   */
  lemma StuckForever(states: seq<State>, steps: seq<Step>, k: nat, p: Path)
    requires IsRun(states, steps) && k < |states|
    requires p in states[0].stuck && Orderly(ViewOf(states[0], p))
    ensures ViewOf(states[k], p) == ViewOf(states[0], p)
    ensures OpsAt(Outstanding(states[k]), p) == {} && At(states[k].server, p) == At(states[0].server, p)
    ensures forall file: Option<Digest> :: Decide(p, At(states[k].dir, p), file) == Nothing
  {
    hide IsRun;
    assert forall file: Option<Digest> :: Decide(p, At(states[0].dir, p), file) == Nothing;
    RestsForever(states, steps, k, p);
    assert At(states[k].dir, p) == ViewOf(states[0], p).entry;
    assert OpsAt(Outstanding(states[k]), p) == ViewOf(states[k], p).ops;
  }

  predicate Pending(s: State, p: Path) {
    p in s.dir && s.dir[p].synced.Indeterminate?
  }

  /** A queued request can still be lost, which settles its entry. */
  lemma {:induction false} Lose(s: State, i: nat) returns (states: seq<State>, steps: seq<Step>)
    requires i < |s.strand| && s.strand[i].path in s.dir
    ensures IsRun(states, steps) && states[0] == s && !Pending(states[|steps|], s.strand[i].path)
    decreases i
  {
    var step, next := Exchange(Lost(false)), AfterExchange(s, Lost(false));
    assert Possible(s, step) && Next(s, step) == next;
    states, steps := [next], [];
    if i > 0 {
      assert next.strand[i - 1] == s.strand[i];
      states, steps := Lose(next, i - 1);
    }
    hide Possible, Next, AfterExchange;
    RunPrepended(s, step, states, steps);
    states, steps := [s] + states, [step] + steps;
  }

  /** As long as anything is outstanding for a path there is a way on that settles its entry. */
  lemma Settle(s: State, p: Path, op: Op) returns (states: seq<State>, steps: seq<Step>)
    requires op in OpsAt(Outstanding(s), p) && p in s.dir
    ensures IsRun(states, steps) && states[0] == s && !Pending(states[|steps|], p)
  {
    if op in s.pool {
      var next := Next(s, RunTask(op));
      assert next.strand[|s.strand|] == op;
      states, steps := Lose(next, |s.strand|);
      hide Possible, Next;
      RunPrepended(s, RunTask(op), states, steps);
      states, steps := [s] + states, [RunTask(op)] + steps;
    } else {
      assert op in multiset(s.strand);
      var i :| 0 <= i < |s.strand| && s.strand[i] == op;
      states, steps := Lose(s, i);
    }
  }

  /** A pending entry stays pending, whatever happens, if and only if nothing is outstanding for its path. */
  lemma PendingForeverIff(s: State, p: Path)
    requires Pending(s, p) && !Untouched(s.phase, p)
    ensures (forall states, steps :: IsRun(states, steps) && states[0] == s ==> Pending(states[|steps|], p)) <==>
            OpsAt(Outstanding(s), p) == {}
  {
    if op :| op in OpsAt(Outstanding(s), p) {
      var states, steps := Settle(s, p, op);
      assert IsRun(states, steps) && states[0] == s && !Pending(states[|steps|], p);
    } else {
      forall states, steps | IsRun(states, steps) && states[0] == s
        ensures Pending(states[|steps|], p)
      {
        RestsForever(states, steps, |steps|, p);
        assert ViewOf(states[|steps|], p).entry == ViewOf(s, p).entry;
      }
    }
  }

  /**
   * An ERASE that gets a reply of any kind, with its entry as its job left it: the entry stays pending for
   * good if and only if no other operation of the path is outstanding.
   */
  lemma ErasedForever(s: State, answer: Answer)
    requires Possible(s, Exchange(answer)) && s.strand[0].kind == Erase && (answer.Accepted? || answer.Rejected?)
    requires var op := s.strand[0]; At(s.dir, op.path) == Some(op.Entry()) && !Untouched(s.phase, op.path)
    ensures (forall states, steps :: IsRun(states, steps) && states[0] == AfterExchange(s, answer) ==>
               Pending(states[|steps|], s.strand[0].path)) <==> Alone(s)
  {
    var s' := AfterExchange(s, answer);
    assert s'.dir == s.dir && s'.phase == s.phase;
    assert Outstanding(s') == Outstanding(s.(strand := s.strand[1..]));
    PendingForeverIff(s', s.strand[0].path);
  }

  /** It is then stuck, with the server's copy as the reply left it; a failed exchange settles the entry instead. */
  lemma ErasedIsStuck(states: seq<State>, steps: seq<Step>, k: nat)
    requires IsRun(states, steps) && 0 < k < |states|
    requires steps[0].Exchange? && states[0].strand[0].kind == Erase
    requires Alone(states[0]) && !Untouched(states[0].phase, states[0].strand[0].path)
    ensures var op, answer := states[0].strand[0], steps[0].answer;
            answer.Accepted? || answer.Rejected? ==>
              && op.path in states[k].stuck && OpsAt(Outstanding(states[k]), op.path) == {}
              && At(states[k].dir, op.path) == Some(Resource(Indeterminate, true, op.digest))
              && At(states[k].server, op.path) == if answer.Accepted? then None else At(states[0].server, op.path)
    ensures var op := states[0].strand[0];
            steps[0].answer.Lost? ==>
              && At(states[1].dir, op.path) == Some(Resource(False, true, op.digest))
              && states[1].stuck == states[0].stuck
  {
    var op, answer := states[0].strand[0], steps[0].answer;
    ExchangeViews(states[0], answer, op.path);
    assert states[1] == AfterExchange(states[0], answer);
    if answer.Accepted? || answer.Rejected? {
      TailRun(states, steps);
      hide IsRun, AfterExchange, Alone;
      RestsForeverPending(states[1..], steps[1..], k - 1, op.path);
      assert ViewOf(states[k], op.path) == ViewOf(states[1], op.path);
    }
  }

  lemma RestsForeverPending(states: seq<State>, steps: seq<Step>, k: nat, p: Path)
    requires IsRun(states, steps) && k < |states|
    requires Pending(states[0], p) && OpsAt(Outstanding(states[0]), p) == {} && !Untouched(states[0].phase, p)
    ensures ViewOf(states[k], p) == ViewOf(states[0], p)
  {
    RestsForever(states, steps, k, p);
  }

  /**
   * What a stale reply does: the entry says that the file was stored, the server keeps what it had, and
   * the watcher finds nothing to do for as long as the file stays as it is.
   */
  lemma MisledForever(states: seq<State>, steps: seq<Step>, k: nat)
    requires IsRun(states, steps) && 0 < k < |states| && steps[0] == Exchange(Stale)
    requires Alone(states[0]) && !Untouched(states[0].phase, states[0].strand[0].path)
    requires var op := states[0].strand[0];
             forall i :: 0 < i <= k ==> At(states[i].files, op.path) == Some(op.digest)
    ensures var op, s := states[0].strand[0], states[k];
            && At(s.dir, op.path) == Some(Resource(True, true, op.digest))
            && At(s.server, op.path) == At(states[0].server, op.path)
            && (InvAt(states[0], op.path) && op.kind == Create && op.path !in states[0].doubtful ==>
                  op.path !in s.server)
            && OpsAt(Outstanding(s), op.path) == {}
            && forall file :: Decide(op.path, At(s.dir, op.path), file) == Nothing <==> file == Some(op.digest)
  {
    var op := states[0].strand[0];
    StaleView(states[0]);
    TailRun(states, steps);
    hide InvAt, AfterExchange;
    forall i | 0 <= i <= k - 1
      ensures At(states[1..][i].files, op.path) == Some(op.digest)
    {
      assert states[1..][i] == states[i + 1];
    }
    assert states[1..][0] == AfterExchange(states[0], Stale);
    hide IsRun;
    RestsForever(states[1..], steps[1..], k - 1, op.path);
    assert ViewOf(states[k], op.path) == ViewOf(states[1], op.path);
  }

  lemma StaleView(s: State)
    requires Possible(s, Exchange(Stale)) && Alone(s) && !Untouched(s.phase, s.strand[0].path)
    ensures var op, v := s.strand[0], ViewOf(AfterExchange(s, Stale), s.strand[0].path);
            && v.entry == Some(Resource(True, true, op.digest)) && v.ops == {} && !v.untouched
            && v.stored == At(s.server, op.path)
            && (InvAt(s, op.path) && op.kind == Create && op.path !in s.doubtful ==> op.path !in s.server)
  {
    hide AfterExchange;
    QueuedIsOutstanding(s, 0);
    ExchangeViews(s, Stale, s.strand[0].path);
  }

  // ---------------------------------------------------------------- the sync plan under interleaving

  /** While `sync` goes on there is no look of the watcher, so there is nothing to guard. */
  lemma {:induction false} SyncConstants(states: seq<State>, steps: seq<Step>, k: nat)
    requires IsRun(states, steps) && Init(states[0]) && k < |states| && states[k].phase.Syncing?
    ensures states[k].phase.start == states[0].dir && states[k].phase.listing == states[0].server
    ensures forall i :: 0 <= i < k ==> Guarded(states[i], steps[i])
  {
    if k > 0 {
      assert Possible(states[k - 1], steps[k - 1]) && states[k] == Next(states[k - 1], steps[k - 1]);
      SyncConstants(states, steps, k - 1);
    }
  }

  /**
   * However the jobs and handlers of `sync` interleave with its first loop, the jobs it posts in all
   * are the ones planned from the entries and the listing it began with, each once.
   */
  lemma SyncPlanFixed(states: seq<State>, steps: seq<Step>, k: nat)
    requires IsRun(states, steps) && Init(states[0]) && k < |steps| && steps[k] == SyncFinish
    ensures var s, listing, start := states[k], states[0].server, states[0].dir;
            && s.phase.Syncing?
            && s.phase.emitted + (states[k + 1].pool - s.pool) ==
               multiset(SyncOps(start, listing, start.Keys + listing.Keys))
  {
    InitInv(states[0]);
    SyncConstants(states, steps, k);
    RunInv(states, steps, k);
    var s, listing, start := states[k], states[0].server, states[0].dir;
    assert listing.Keys - s.phase.todo.Keys == listing.Keys;
    forall p | p !in listing
      ensures At(s.dir, p) == At(start, p)
    {
      assert InvAt(s, p) && Untouched(s.phase, p);
    }
    assert forall p :: p in s.dir.Keys - listing.Keys <==> At(s.dir, p).Some? && p !in listing;
    assert forall p :: p in start.Keys - listing.Keys <==> At(start, p).Some? && p !in listing;
    assert s.dir.Keys - listing.Keys == start.Keys - listing.Keys;
    PlanSplits(start, s.dir, listing);
  }

  /** An outstanding ERASE of the path names the version the server has. */
  ghost predicate ErasesStored(v: View) {
    forall op :: op in v.ops && op.kind == Erase ==> v.stored == Some(op.digest)
  }

  lemma ErasesStoredStep(s: State, step: Step, p: Path)
    requires InvAt(s, p) && Possible(s, step) && step != Watch(p) && ErasesStored(ViewOf(s, p))
    ensures ErasesStored(ViewOf(Next(s, step), p))
  {
    hide SyncOps, PostCreates, Decide, Told;
    match step
    case RunTask(op) => RunTaskViews(s, op, p);
    case Exchange(answer) =>
      if p == s.strand[0].path {
        HeadFacts(s);
      }
      ExchangeViews(s, answer, p);
    case SyncVisit(q) => VisitViews(s, q, p);
    case SyncFinish => FinishViews(s, p);
    case Watch(q) => WatchViews(s, q, p);
    case FilesChange(files) => assert ViewOf(Next(s, step), p) == ViewOf(s, p);
  }

  /** What `sync` erases: until the watcher looks at the path, an outstanding ERASE names the version stored. */
  lemma {:induction false} SyncErasesStored(states: seq<State>, steps: seq<Step>, k: nat, p: Path)
    requires IsRun(states, steps) && Init(states[0]) && k < |states|
    requires forall i :: 0 <= i < k ==> steps[i] != Watch(p)
    ensures forall op :: op in OpsAt(Outstanding(states[k]), p) && op.kind == Erase ==>
              At(states[k].server, p) == Some(op.digest)
  {
    if k == 0 {
      assert Outstanding(states[0]) == multiset{};
    } else {
      SyncErasesStored(states, steps, k - 1, p);
      InitInv(states[0]);
      RunInvAt(states, steps, k - 1, p);
      assert InvAt(states[k - 1], p);
      assert ErasesStored(ViewOf(states[k - 1], p));
      ErasesStoredStep(states[k - 1], steps[k - 1], p);
      assert ErasesStored(ViewOf(states[k], p));
    }
  }

  // ---------------------------------------------------------------- why the guard is there

  /** Every exchange goes through. */
  predicate NoneLost(steps: seq<Step>) {
    forall i :: 0 <= i < |steps| && steps[i].Exchange? ==> steps[i].answer.Accepted? || steps[i].answer.Rejected?
  }

  /** The watcher looks twice at a new file before its first job runs; then one of the two jobs runs. */
  function Scene(op: Op, i: nat): State
    requires i <= 4
  {
    var file, syncing := map[op.path := op.digest], Syncing(map[], map[], map[], multiset{});
    if i == 0 then State(file, map[], multiset{}, [], map[], syncing, {}, {})
    else if i == 1 then State(file, map[], multiset{}, [], map[], Watching, {}, {})
    else if i == 2 then State(file, map[], multiset{op}, [], map[], Watching, {}, {})
    else if i == 3 then State(file, map[], multiset{op, op}, [], map[], Watching, {}, {})
    else State(file, map[op.path := op.Entry()], multiset{op}, [op], map[], Watching, {}, {})
  }

  /** One way on: the first request is accepted, and the second, sent after it, is rejected. */
  function FalseRecord(op: Op, i: nat): State
    requires 4 <= i <= 7
  {
    var file := map[op.path := op.digest];
    if i == 4 then Scene(op, 4)
    else if i == 5 then
      State(file, map[op.path := Resource(True, true, op.digest)], multiset{op}, [], file, Watching, {}, {})
    else if i == 6 then State(file, map[op.path := op.Entry()], multiset{}, [op], file, Watching, {}, {})
    else State(file, map[op.path := Resource(False, false, op.digest)], multiset{}, [], file, Watching, {}, {})
  }

  /** Another: both are queued, the first is rejected, and the file vanishes before the second is answered. */
  function MissingEntry(op: Op, i: nat): State
    requires 4 <= i <= 8
  {
    var file, failed := map[op.path := op.digest], map[op.path := Resource(False, false, op.digest)];
    if i == 4 then Scene(op, 4)
    else if i == 5 then State(file, map[op.path := op.Entry()], multiset{}, [op, op], map[], Watching, {}, {})
    else if i == 6 then State(file, failed, multiset{}, [op], map[], Watching, {}, {})
    else if i == 7 then State(map[], failed, multiset{}, [op], map[], Watching, {}, {})
    else State(map[], map[], multiset{}, [op], map[], Watching, {}, {})
  }

  function SceneSteps(op: Op): seq<Step> {
    [SyncFinish, Watch(op.path), Watch(op.path), RunTask(op)]
  }

  function FalseRecordSteps(op: Op): seq<Step> {
    [Exchange(Accepted), RunTask(op), Exchange(Rejected)]
  }

  function MissingEntrySteps(op: Op): seq<Step> {
    [RunTask(op), Exchange(Rejected), FilesChange(map[]), Watch(op.path)]
  }

  lemma SceneBegins(op: Op)
    ensures Possible(Scene(op, 0), SyncFinish) && Next(Scene(op, 0), SyncFinish) == Scene(op, 1)
  {
    hide AfterVisit, AfterExchange, AfterWatch;
    assert SyncOps(map[], map[], {}) == {};
    assert Next(Scene(op, 0), SyncFinish).pool == multiset{};
  }

  lemma SceneWatches(op: Op, i: nat)
    requires 0 < i < 3 && op.kind == Create
    ensures Possible(Scene(op, i), Watch(op.path)) && Next(Scene(op, i), Watch(op.path)) == Scene(op, i + 1)
  {
    hide AfterVisit, AfterExchange, PostCreates, SyncOps;
  }

  lemma SceneStep(op: Op, i: nat)
    requires i < 4 && op.kind == Create
    ensures Possible(Scene(op, i), SceneSteps(op)[i]) && Next(Scene(op, i), SceneSteps(op)[i]) == Scene(op, i + 1)
  {
    hide AfterVisit, AfterExchange, AfterWatch, PostCreates, SyncOps;
    if i == 0 {
      SceneBegins(op);
    } else if i < 3 {
      SceneWatches(op, i);
    } else {
      assert SceneSteps(op)[i] == RunTask(op);
    }
  }

  lemma FalseRecordStep(op: Op, i: nat)
    requires i < 3 && op.kind == Create
    ensures var s, step := FalseRecord(op, i + 4), FalseRecordSteps(op)[i];
            Possible(s, step) && Next(s, step) == FalseRecord(op, i + 5)
  {
    hide SyncOps, AfterVisit, AfterWatch, PostCreates;
    assert FalseRecordSteps(op)[i] ==
           if i == 1 then RunTask(op) else Exchange(if i == 0 then Accepted else Rejected);
  }

  lemma MissingEntryStep(op: Op, i: nat)
    requires i < 4 && op.kind == Create
    ensures var s, step := MissingEntry(op, i + 4), MissingEntrySteps(op)[i];
            Possible(s, step) && Next(s, step) == MissingEntry(op, i + 5)
  {
    hide SyncOps, AfterVisit, PostCreates;
    if i == 0 {
      assert MissingEntrySteps(op)[i] == RunTask(op);
    } else if i == 1 {
      assert MissingEntrySteps(op)[i] == Exchange(Rejected);
    } else if i == 2 {
      assert MissingEntrySteps(op)[i] == FilesChange(map[]);
    } else {
      assert MissingEntrySteps(op)[i] == Watch(op.path);
    }
  }

  /** The beginning of the run, then one of its two ways on. */
  lemma SceneRun(op: Op, more: seq<State>, steps: seq<Step>) returns (states: seq<State>)
    requires op.kind == Create && |more| == |steps| + 1 && more[0] == Scene(op, 4)
    requires forall i :: 0 <= i < |steps| ==> Possible(more[i], steps[i]) && more[i + 1] == Next(more[i], steps[i])
    ensures IsRun(states, SceneSteps(op) + steps) && states[0] == Scene(op, 0)
    ensures |states| == |steps| + 5 && states[|steps| + 4] == more[|steps|]
  {
    hide *;
    states := seq(4, i requires 0 <= i < 4 => Scene(op, i)) + more;
    var all := SceneSteps(op) + steps;
    SceneFrame(op);
    forall i | 0 <= i < |all|
      ensures Possible(states[i], all[i]) && states[i + 1] == Next(states[i], all[i])
    {
      if i < 4 {
        SceneStep(op, i);
      } else {
        assert states[i] == more[i - 4] && states[i + 1] == more[i - 3] && all[i] == steps[i - 4];
      }
    }
    RunOf(states, all);
  }

  lemma SceneFrame(op: Op)
    requires op.kind == Create
    ensures Init(Scene(op, 0)) && |SceneSteps(op)| == 4
    ensures forall steps :: NoneLost(steps) ==> NoneLost(SceneSteps(op) + steps)
  {
  }

  lemma RunOf(states: seq<State>, steps: seq<Step>)
    requires |states| == |steps| + 1
    requires forall i :: 0 <= i < |steps| ==>
               Possible(states[i], steps[i]) && states[i + 1] == Next(states[i], steps[i])
    ensures IsRun(states, steps)
  {
  }

  /**
   * Without the guard the second CREATE of such a run may be rejected, and the client ends up with a false
   * record of a file the server holds, though every exchange went through.
   */
  lemma GuardNeeded(p: Path, d: Digest)
    ensures exists states: seq<State>, steps: seq<Step> ::
              && IsRun(states, steps) && Init(states[0]) && NoneLost(steps)
              && At(states[|steps|].dir, p) == Some(Resource(False, false, d))
              && At(states[|steps|].server, p) == Some(d)
  {
    hide Init, IsRun, Possible, Next;
    var op := Op(Create, p, d);
    var more := seq(4, i requires 0 <= i < 4 => FalseRecord(op, i + 4));
    forall i | 0 <= i < 3
      ensures Possible(more[i], FalseRecordSteps(op)[i]) && more[i + 1] == Next(more[i], FalseRecordSteps(op)[i])
    {
      FalseRecordStep(op, i);
    }
    var states := SceneRun(op, more, FalseRecordSteps(op));
    SceneFrame(op);
    assert NoneLost(SceneSteps(op) + FalseRecordSteps(op));
  }

  /** And a handler may find no entry for its request: the process exits, though every exchange went through. */
  lemma EntryMissing(p: Path, d: Digest)
    ensures exists states: seq<State>, steps: seq<Step> ::
              && IsRun(states, steps) && Init(states[0]) && NoneLost(steps)
              && states[|steps|].strand == [Op(Create, p, d)] && p !in states[|steps|].dir
  {
    hide Init, IsRun, Possible, Next;
    var op := Op(Create, p, d);
    var more := seq(5, i requires 0 <= i < 5 => MissingEntry(op, i + 4));
    forall i | 0 <= i < 4
      ensures Possible(more[i], MissingEntrySteps(op)[i]) && more[i + 1] == Next(more[i], MissingEntrySteps(op)[i])
    {
      MissingEntryStep(op, i);
    }
    var states := SceneRun(op, more, MissingEntrySteps(op));
    SceneFrame(op);
    assert NoneLost(SceneSteps(op) + MissingEntrySteps(op));
  }

  // ---------------------------------------------------------------- two ERASEs for one path

  /** A stored file vanishes, and the watcher looks twice before its first job runs. */
  function Erasing(op: Op, i: nat): State
    requires i <= 9
  {
    var p, d := op.path, op.digest;
    var file, start := map[p := d], map[p := Resource(Indeterminate, false, d)];
    var syncing := Syncing(file, file, start, multiset{});
    var synced, pending := map[p := Resource(True, true, d)], map[p := op.Entry()];
    if i == 0 then State(file, start, multiset{}, [], file, syncing, {}, {})
    else if i == 1 then State(file, synced, multiset{}, [], file, syncing.(todo := map[]), {}, {})
    else if i == 2 then State(file, synced, multiset{}, [], file, Watching, {}, {})
    else if i == 3 then State(map[], synced, multiset{}, [], file, Watching, {}, {})
    else if i == 4 then State(map[], synced, multiset{op}, [], file, Watching, {}, {})
    else if i == 5 then State(map[], synced, multiset{op, op}, [], file, Watching, {}, {})
    else if i == 6 then State(map[], pending, multiset{op}, [op], file, Watching, {}, {})
    else if i == 7 then State(map[], pending, multiset{}, [op, op], file, Watching, {}, {})
    else if i == 8 then State(map[], pending, multiset{}, [op], map[], Watching, {p}, {})
    else State(map[], map[p := Resource(False, true, d)], multiset{}, [], map[], Watching, {p}, {})
  }

  function ErasingSteps(op: Op): seq<Step> {
    [SyncVisit(op.path), SyncFinish, FilesChange(map[]), Watch(op.path), Watch(op.path), RunTask(op), RunTask(op),
     Exchange(Accepted), Exchange(Lost(false))]
  }

  lemma ErasingVisit(op: Op)
    requires op.kind == Erase
    ensures Possible(Erasing(op, 0), SyncVisit(op.path))
    ensures AfterVisit(Erasing(op, 0), op.path) == Erasing(op, 1)
  {
    var s := Erasing(op, 0);
    assert SyncOp(op.path, At(s.dir, op.path), Some(s.phase.todo[op.path])) == None;
    assert s.phase.todo - {op.path} == map[];
    assert AfterVisit(s, op.path).dir == Erasing(op, 1).dir;
    assert AfterVisit(s, op.path).phase.emitted == multiset{};
  }

  lemma ErasingFinish(op: Op)
    ensures Possible(Erasing(op, 1), SyncFinish) && Next(Erasing(op, 1), SyncFinish) == Erasing(op, 2)
  {
    hide AfterVisit, AfterExchange, AfterWatch;
    var s := Erasing(op, 1);
    assert s.dir.Keys - s.phase.listing.Keys == {};
    assert SyncOps(s.dir, s.phase.listing, {}) == {};
  }

  lemma ErasingWatch(op: Op, i: nat)
    requires 2 <= i < 5 && op.kind == Erase
    ensures var s, step := Erasing(op, i), ErasingSteps(op)[i];
            Possible(s, step) && Next(s, step) == Erasing(op, i + 1)
  {
    hide SyncOps, AfterVisit, PostCreates, AfterExchange;
    if i > 2 {
      assert ErasingSteps(op)[i] == Watch(op.path);
    }
  }

  lemma ErasingJobs(op: Op, i: nat)
    requires 5 <= i < 7 && op.kind == Erase
    ensures Possible(Erasing(op, i), RunTask(op)) && Next(Erasing(op, i), RunTask(op)) == Erasing(op, i + 1)
  {
    hide SyncOps, AfterVisit, PostCreates, AfterWatch, AfterExchange;
    var s := Erasing(op, i);
    assert s.pool - multiset{op} == Erasing(op, i + 1).pool;
    assert s.strand + [op] == Erasing(op, i + 1).strand;
    assert s.dir[op.path := op.Entry()] == Erasing(op, i + 1).dir;
  }

  lemma ErasingReplies(op: Op)
    requires op.kind == Erase
    ensures Erasing(op, 7).strand != [] && Erasing(op, 8).strand != []
    ensures AfterExchange(Erasing(op, 7), Accepted) == Erasing(op, 8)
    ensures AfterExchange(Erasing(op, 8), Lost(false)) == Erasing(op, 9)
  {
  }

  lemma ErasingStep(op: Op, i: nat)
    requires i < 9 && op.kind == Erase
    ensures var s, step := Erasing(op, i), ErasingSteps(op)[i];
            Possible(s, step) && Next(s, step) == Erasing(op, i + 1)
  {
    hide SyncOps, AfterVisit, PostCreates, AfterWatch, AfterExchange, Erasing;
    if i == 0 {
      ErasingVisit(op);
    } else if i == 1 {
      ErasingFinish(op);
    } else if i < 5 {
      ErasingWatch(op, i);
    } else if i < 7 {
      ErasingJobs(op, i);
      assert ErasingSteps(op)[i] == RunTask(op);
    } else {
      ErasingReplies(op);
      assert ErasingSteps(op)[i] == Exchange(if i == 7 then Accepted else Lost(false));
    }
  }

  /** Without the guard an ERASE may be replied to and its entry settled all the same, by the loss of a second one. */
  lemma SecondErase(p: Path, d: Digest)
    ensures exists states: seq<State>, steps: seq<Step> ::
              && IsRun(states, steps) && Init(states[0]) && |steps| > 2
              && steps[|steps| - 2..] == [Exchange(Accepted), Exchange(Lost(false))]
              && states[|steps| - 2].strand == [Op(Erase, p, d), Op(Erase, p, d)]
              && p in states[|steps| - 1].stuck
              && At(states[|steps|].dir, p) == Some(Resource(False, true, d))
  {
    hide Possible, Next;
    var op := Op(Erase, p, d);
    var states, steps := seq(10, i requires 0 <= i < 10 => Erasing(op, i)), ErasingSteps(op);
    forall i | 0 <= i < 9
      ensures Possible(states[i], steps[i]) && states[i + 1] == Next(states[i], steps[i])
    {
      ErasingStep(op, i);
    }
    assert IsRun(states, steps) && Init(states[0]);
  }
}
