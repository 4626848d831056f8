/** From a quiet state, one tick and the replies to it bring the server to the file system. */
module Convergence {
  import opened Wrappers
  import opened Tools
  import opened Directories
  import opened Schedulers
  import opened FileWatchers
  import opened Protocol
  import opened Runs
  import SyncPlan

  /** Nothing posted, nothing under way. */
  predicate Quiet(s: State) {
    s.pool == multiset{} && s.strand == []
  }

  // ---------------------------------------------------------------- the tick as steps

  /** The watcher looks at paths one after the other. */
  function WatchAll(s: State, order: seq<Path>): State {
    if order == [] then s else AfterWatch(WatchAll(s, order[..|order| - 1]), order[|order| - 1])
  }

  /** The tick in closed form, as the imperative `Tick` computes it. */
  function TickOver(s: State, over: set<Path>): State {
    s.(dir := s.dir - Forgotten(s.dir, s.files, over),
       pool := s.pool + multiset(TickOps(s.dir, s.files, over)))
  }

  function TickOf(s: State): State {
    TickOver(s, s.dir.Keys + s.files.Keys)
  }

  /** Looking at paths one by one is the tick over them, whatever their order. */
  lemma {:induction false} WatchAllIsTick(s: State, order: seq<Path>)
    requires NoDup(order)
    ensures WatchAll(s, order) == TickOver(s, Elements(order))
  {
    hide AfterWatch, TickOver, Guarded;
    if order == [] {
      assert Elements(order) == {};
      EmptyTick(s);
    } else {
      var front, p := order[..|order| - 1], order[|order| - 1];
      WatchAllIsTick(s, front);
      assert Elements(order) == Elements(front) + {p} && p !in Elements(front);
      TickStep(s, Elements(front), p);
    }
  }

  /** It keeps the invariant of a path exactly when its own look is guarded where the tick begins. */
  lemma {:induction false} TickInvAt(s: State, order: seq<Path>, p: Path)
    requires InvAt(s, p) && s.phase.Watching? && NoDup(order)
    ensures InvAt(WatchAll(s, order), p) <==> (p in order ==> Guarded(s, Watch(p)))
  {
    hide InvAt, AfterWatch, TickOver, Guarded;
    WatchAllIsTick(s, order);
    if p in order && !Guarded(s, Watch(p)) {
      TickBreaks(s, Elements(order), p);
    } else if order != [] {
      var front, q := order[..|order| - 1], order[|order| - 1];
      assert p in order <==> p in front || p == q;
      TickInvAt(s, front, p);
      WatchAllIsTick(s, front);
      TickStep(s, Elements(front), q);
      if p == q {
        WatchInv(TickOver(s, Elements(front)), p);
      } else {
        OtherWatchInv(TickOver(s, Elements(front)), q, p);
      }
    }
  }

  lemma EmptyTick(s: State)
    ensures TickOver(s, {}) == s
  {
    NothingOver(s.dir, s.files);
  }

  lemma TickStep(s: State, over: set<Path>, p: Path)
    requires p !in over
    ensures AfterWatch(TickOver(s, over), p) == TickOver(s, over + {p})
    ensures Guarded(TickOver(s, over), Watch(p)) <==> Guarded(s, Watch(p))
    ensures TickOver(s, over).phase == s.phase
  {
    hide TickOps, Decide, Forgotten, Guarded;
    EntryStep(s.dir, s.files, over, p);
    TickGuarded(s, over, p);
  }

  lemma TickGuarded(s: State, over: set<Path>, p: Path)
    requires p !in over
    ensures Guarded(TickOver(s, over), Watch(p)) <==> Guarded(s, Watch(p))
  {
    hide TickOps, Decide;
    var s' := TickOver(s, over);
    EntryStep(s.dir, s.files, over, p);
    assert At(s'.dir, p) == At(s.dir, p);
    forall op | op in s'.pool && op !in s.pool
      ensures op.path != p
    {
      TickOpsOf(s.dir, s.files, over, op);
    }
    assert forall op :: op in s.pool ==> op in s'.pool;
  }

  lemma TickBreaks(s: State, over: set<Path>, p: Path)
    requires p in over && !Guarded(s, Watch(p))
    ensures !InvAt(TickOver(s, over), p)
  {
    hide TickOps, Decide, Tidy, ViewOf;
    var s' := TickOver(s, over);
    var first :| first in s.pool && first.path == p;
    var posted := Decide(p, At(s.dir, p), At(s.files, p)).op;
    DecidedPath(p, At(s.dir, p), At(s.files, p));
    TickOpsOf(s.dir, s.files, over, posted);
    assert s'.pool[first] >= s.pool[first] && s'.pool[posted] == s.pool[posted] + 1;
    SecondJob(s', posted, first);
  }

  // ---------------------------------------------------------------- draining

  /** The thread pool and the strand at work, every request answered OK. */
  predicate Draining(step: Step) {
    step.RunTask? || step == Exchange(Accepted)
  }

  function Measure(s: State): nat {
    2 * |s.pool| + |s.strand|
  }

  lemma DrainDecreases(s: State, step: Step)
    requires Possible(s, step) && Draining(step)
    ensures Measure(Next(s, step)) == Measure(s) - 1
  {
  }

  lemma DrainProgress(s: State)
    requires !Quiet(s)
    ensures exists step :: Draining(step) && Possible(s, step)
  {
    if s.pool != multiset{} {
      var op :| op in s.pool;
      assert Draining(RunTask(op)) && Possible(s, RunTask(op));
    } else {
      assert Draining(Exchange(Accepted)) && Possible(s, Exchange(Accepted));
    }
  }

  /** The tick from s has something to do on the server for the path. */
  predicate Posts(s: State, p: Path) {
    Decide(p, At(s.dir, p), At(s.files, p)).Post?
  }

  /** The operation brings the server to this content of the path. */
  predicate Brings(op: Op, file: Option<Digest>) {
    (op.kind == Erase <==> file.None?) && (file.Some? ==> file == Some(op.digest))
  }

  /**
   * A path on its way: its one operation brings its file's state to the server, or nothing is left to do
   * and the server has that state if something was posted, and what it had before otherwise.
   */
  ghost predicate OnWay(p: Path, v: View, file: Option<Digest>, posted: bool, before: Option<Digest>) {
    && (forall op :: op in v.ops ==> posted && Brings(op, file))
    && (v.ops == {} ==> Decide(p, v.entry, file) == Nothing && v.stored == if posted then file else before)
  }

  lemma TickViews(s: State, p: Path)
    requires Quiet(s)
    ensures var action := Decide(p, At(s.dir, p), At(s.files, p));
            ViewOf(TickOf(s), p) ==
            ViewOf(s, p).(entry := if action.Forget? then None else At(s.dir, p),
                          ops := if action.Post? then {action.op} else {})
  {
  }

  lemma TickOnWay(s: State, p: Path)
    requires Quiet(s)
    ensures OnWay(p, ViewOf(TickOf(s), p), At(s.files, p), Posts(s, p), At(s.server, p)) && Tidy(TickOf(s), p)
  {
    hide TickOf;
    TickViews(s, p);
    TickTidy(s, p);
  }

  /** From a quiet state the tick posts each path one job at most, whatever the records say. */
  lemma TickTidy(s: State, p: Path)
    requires Quiet(s)
    ensures Tidy(TickOf(s), p)
  {
    hide TickOps, Forgotten;
    var s', ops := TickOf(s), TickOps(s.dir, s.files, s.dir.Keys + s.files.Keys);
    assert Outstanding(s') == multiset(ops);
    forall op | op in OpsAt(Outstanding(s'), p)
      ensures Decide(p, At(s.dir, p), At(s.files, p)) == Post(op)
      ensures Outstanding(s')[op] == 1
    {
      TickOpsOf(s.dir, s.files, s.dir.Keys + s.files.Keys, op);
    }
  }

  lemma DrainViews(s: State, step: Step, p: Path)
    requires Tidy(s, p) && Possible(s, step) && Draining(step)
    ensures Next(s, step).files == s.files && Tidy(Next(s, step), p)
    ensures var v := ViewOf(s, p);
            && (step.RunTask? ==>
                  ViewOf(Next(s, step), p) == if step.op.path == p then v.(entry := Some(step.op.Entry())) else v)
            && (step.Exchange? ==>
                  ViewOf(Next(s, step), p) == if s.strand[0].path == p then Answered(v, s.strand[0], Accepted) else v)
  {
    hide Tidy, ViewOf;
    match step
    case RunTask(op) =>
      RunTaskViews(s, op, p);
      RunTaskTidy(s, op, p);
    case Exchange(answer) =>
      if s.strand[0].path == p {
        HeadFacts(s);
      }
      ExchangeViews(s, answer, p);
      ExchangeTidy(s, answer, p);
  }

  lemma DrainOnWay(s: State, step: Step, p: Path, posted: bool, before: Option<Digest>)
    requires Tidy(s, p) && Possible(s, step) && Draining(step)
    requires OnWay(p, ViewOf(s, p), At(s.files, p), posted, before)
    ensures OnWay(p, ViewOf(Next(s, step), p), At(Next(s, step).files, p), posted, before) && Tidy(Next(s, step), p)
  {
    hide Next, Tidy;
    DrainViews(s, step, p);
    match step
    case RunTask(op) =>
      assert op.path == p ==> op in ViewOf(s, p).ops;
    case Exchange(answer) =>
      QueuedIsOutstanding(s, 0);
  }

  lemma {:induction false} RunOnWay(s: State, states: seq<State>, steps: seq<Step>, k: nat, p: Path)
    requires Quiet(s) && IsRun(states, steps) && states[0] == TickOf(s)
    requires forall i :: 0 <= i < |steps| ==> Draining(steps[i])
    requires k < |states|
    ensures states[k].files == s.files && Measure(states[k]) == Measure(states[0]) - k
    ensures OnWay(p, ViewOf(states[k], p), At(s.files, p), Posts(s, p), At(s.server, p)) && Tidy(states[k], p)
  {
    hide Tidy, Measure, OnWay, ViewOf, Posts, TickOf;
    if k == 0 {
      TickOnWay(s, p);
      TickKeepsFiles(s);
    } else {
      RunOnWay(s, states, steps, k - 1, p);
      DrainOnWay(states[k - 1], steps[k - 1], p, Posts(s, p), At(s.server, p));
      DrainDecreases(states[k - 1], steps[k - 1]);
    }
  }

  lemma TickKeepsFiles(s: State)
    ensures TickOf(s).files == s.files
  {
  }

  lemma QuietMeasure(s: State)
    ensures Measure(s) == 0 <==> Quiet(s)
  {
  }

  /**
   * Convergence. From any quiet state, true records or not, with a fixed file system, after one tick
   * every schedule of pool and strand steps answered OK ends after exactly 2 * posted + queued steps. The
   * server then agrees with the file system on the paths the tick posts for, and is as it was on all others;
   * another tick changes nothing.
   */
  lemma Converges(s: State, states: seq<State>, steps: seq<Step>)
    requires Quiet(s) && s.phase.Watching?
    requires IsRun(states, steps) && states[0] == TickOf(s)
    requires forall i :: 0 <= i < |steps| ==> Draining(steps[i])
    ensures var final := states[|steps|];
            && |steps| <= Measure(TickOf(s))
            && (Quiet(final) <==> |steps| == Measure(TickOf(s)))
            && (!Quiet(final) ==> exists step :: Draining(step) && Possible(final, step))
            && (Quiet(final) ==>
                  && (forall p :: At(final.server, p) == if Posts(s, p) then At(s.files, p) else At(s.server, p))
                  && TickOf(final) == final)
  {
    hide Posts;
    var final, n := states[|steps|], |steps|;
    forall p
      ensures OnWay(p, ViewOf(final, p), At(s.files, p), Posts(s, p), At(s.server, p))
      ensures final.files == s.files && Measure(final) == Measure(TickOf(s)) - n
    {
      RunOnWay(s, states, steps, n, p);
    }
    RunOnWay(s, states, steps, n, []);
    QuietMeasure(final);
    if Quiet(final) {
      QuietViews(final);
      forall p
        ensures Decide(p, At(final.dir, p), At(final.files, p)) == Nothing
        ensures At(final.server, p) == if Posts(s, p) then At(s.files, p) else At(s.server, p)
      {
        assert ViewOf(final, p).ops == {};
      }
      QuietTick(final);
    } else {
      DrainProgress(final);
    }
  }

  /** A path with nothing outstanding is posted for or agrees already, unless it is stuck or doubtful. */
  lemma AgreesAlready(s: State, p: Path)
    requires InvAt(s, p) && OpsAt(Outstanding(s), p) == {} && s.phase.Watching?
    requires p !in s.stuck && p !in s.doubtful
    ensures Posts(s, p) || At(s.server, p) == At(s.files, p)
  {
    hide Tidy, Outstanding;
  }

  lemma QuietViews(s: State)
    requires Quiet(s)
    ensures forall p :: ViewOf(s, p).ops == {}
  {
    assert Outstanding(s) == multiset{};
  }

  lemma QuietTick(s: State)
    requires Quiet(s)
    requires forall p :: Decide(p, At(s.dir, p), At(s.files, p)) == Nothing
    ensures TickOf(s) == s
  {
  }

  /**
   * The server ends up with exactly the file system if and only if each path it disagreed on is one the
   * tick posts for; with nothing stuck or doubtful that is always so.
   */
  lemma ConvergesToFiles(s: State, states: seq<State>, steps: seq<Step>)
    requires Quiet(s) && s.phase.Watching?
    requires IsRun(states, steps) && states[0] == TickOf(s)
    requires forall i :: 0 <= i < |steps| ==> Draining(steps[i])
    requires |steps| == Measure(TickOf(s))
    ensures states[|steps|].server == s.files <==>
            forall p :: At(s.server, p) != At(s.files, p) ==> Posts(s, p)
    ensures s.stuck == {} && s.doubtful == {} && (forall p :: InvAt(s, p)) ==> states[|steps|].server == s.files
  {
    hide Posts, InvAt;
    Converges(s, states, steps);
    var final := states[|steps|];
    QuietViews(s);
    forall p | s.stuck == {} && s.doubtful == {} && InvAt(s, p) && !Posts(s, p)
      ensures At(s.server, p) == At(s.files, p)
    {
      assert ViewOf(s, p).ops == {};
      AgreesAlready(s, p);
    }
    if forall p :: At(s.server, p) != At(s.files, p) ==> Posts(s, p) {
      forall p
        ensures At(final.server, p) == At(s.files, p)
      {
      }
      SyncPlan.SameMap(final.server, s.files);
    }
  }

  // ---------------------------------------------------------------- the initial synchronisation

  /** What the client had for a path when `sync` began. */
  function Wanted(start: map<Path, Resource>, p: Path): Option<Digest> {
    if p in start then Some(start[p].digest) else None
  }

  /** Steps of the initial synchronisation and its replies, all OK; files may change meanwhile. */
  predicate Syncs(step: Step) {
    step.FilesChange? || step.SyncVisit? || step.SyncFinish? || Draining(step)
  }

  /** A path under `sync`: not dealt with yet, being brought to the wanted state, or brought there. */
  ghost predicate Brought(v: View, wanted: Option<Digest>) {
    !v.untouched ==>
      && (forall op :: op in v.ops ==> Brings(op, wanted))
      && (v.ops == {} ==> v.stored == wanted)
  }

  lemma VisitBrings(s: State, q: Path, p: Path)
    requires InvAt(s, p) && Possible(s, SyncVisit(q))
    requires Brought(ViewOf(s, p), Wanted(s.phase.start, p))
    ensures Brought(ViewOf(AfterVisit(s, q), p), Wanted(s.phase.start, p))
  {
    VisitViews(s, q, p);
    hide Tidy, AfterVisit;
  }

  lemma FinishBrings(s: State, p: Path)
    requires InvAt(s, p) && Possible(s, SyncFinish)
    requires Brought(ViewOf(s, p), Wanted(s.phase.start, p))
    ensures Brought(ViewOf(Next(s, SyncFinish), p), Wanted(s.phase.start, p))
  {
    FinishViews(s, p);
    hide Tidy, Next;
  }

  lemma DrainBrings(s: State, step: Step, p: Path, wanted: Option<Digest>)
    requires Tidy(s, p) && Possible(s, step) && Draining(step)
    requires Brought(ViewOf(s, p), wanted) && (Untouched(s.phase, p) ==> OpsAt(Outstanding(s), p) == {})
    ensures Brought(ViewOf(Next(s, step), p), wanted)
  {
    hide Next, Tidy;
    DrainViews(s, step, p);
    if step.Exchange? {
      QueuedIsOutstanding(s, 0);
    }
  }

  lemma SyncStepBrings(s: State, step: Step, start: map<Path, Resource>, p: Path)
    requires InvAt(s, p) && Possible(s, step) && Syncs(step)
    requires s.phase.Syncing? ==> s.phase.start == start
    requires Brought(ViewOf(s, p), Wanted(start, p))
    ensures Brought(ViewOf(Next(s, step), p), Wanted(start, p))
  {
    hide Tidy, Brought, Wanted;
    if Draining(step) {
      DrainBrings(s, step, p, Wanted(start, p));
    } else if step.SyncVisit? {
      VisitBrings(s, step.path, p);
    } else if step.SyncFinish? {
      FinishBrings(s, p);
    } else {
      assert ViewOf(Next(s, step), p) == ViewOf(s, p);
    }
  }

  lemma {:induction false} RunBrings(states: seq<State>, steps: seq<Step>, k: nat, p: Path)
    requires IsRun(states, steps) && Init(states[0]) && k < |states|
    requires forall i :: 0 <= i < |steps| ==> Syncs(steps[i])
    ensures Brought(ViewOf(states[k], p), Wanted(states[0].dir, p))
  {
    hide InvAt, Brought, Wanted, ViewOf, Possible, Guarded, Next;
    if k == 0 {
      StartUntouched(states[0], p);
    } else {
      RunBrings(states, steps, k - 1, p);
      InitInv(states[0]);
      RunInvAt(states, steps, k - 1, p);
      if states[k - 1].phase.Syncing? {
        SyncConstants(states, steps, k - 1);
      }
      SyncStepBrings(states[k - 1], steps[k - 1], states[0].dir, p);
    }
  }

  lemma StartUntouched(s: State, p: Path)
    requires Init(s)
    ensures Brought(ViewOf(s, p), Wanted(s.dir, p))
  {
    assert Outstanding(s) == multiset{};
  }

  /**
   * However the initial synchronisation interleaves with the pool and the strand, once it is through and
   * everything was answered OK the server holds exactly the files the client had when it began.
   */
  lemma SyncConverges(states: seq<State>, steps: seq<Step>)
    requires IsRun(states, steps) && Init(states[0])
    requires forall i :: 0 <= i < |steps| ==> Syncs(steps[i])
    requires states[|steps|].phase.Watching? && Quiet(states[|steps|])
    ensures states[|steps|].server == DigestsOf(states[0].dir)
  {
    var final := states[|steps|];
    QuietViews(final);
    forall p
      ensures At(final.server, p) == At(DigestsOf(states[0].dir), p)
    {
      RunBrings(states, steps, |steps|, p);
      assert ViewOf(final, p).ops == {};
    }
    SyncPlan.SameMap(final.server, DigestsOf(states[0].dir));
  }
}
