/**
 * The whole client as a transition system: the file system, the client's entries, the jobs in the
 * thread pool, the requests on the connection's strand, and the server.
 */
module Protocol {
  import opened Wrappers
  import opened Tools
  import opened Directories
  import opened Schedulers
  import opened SyncPlan
  import opened FileWatchers

  /**
   * During the first loop of `sync`, `todo` is the part of the listing not visited yet; `start` and
   * `listing` are the entries and the server's files as the loop found them, and `emitted` the jobs
   * it has posted so far.
   */
  datatype Phase =
    | Syncing(todo: map<Path, Digest>, listing: map<Path, Digest>, start: map<Path, Resource>, emitted: multiset<Op>)
    | Watching

  /**
   * `stuck` holds the paths whose ERASE was replied to, so that no callback ever came. `doubtful` holds
   * the paths on which the client was last told something else than what the server did.
   */
  datatype State = State(
    files: map<Path, Digest>,
    dir: map<Path, Resource>,
    pool: multiset<Op>,
    strand: seq<Op>,
    server: map<Path, Digest>,
    phase: Phase,
    stuck: set<Path>,
    doubtful: set<Path>)

  /**
   * What becomes of the request at the head of the strand. `Lost` is a failed exchange, which the server
   * may have carried out all the same; `Stale` is an upload whose later write failed after a positive
   * reply to an earlier chunk.
   */
  datatype Answer = Accepted | Rejected | Lost(applied: bool) | Stale

  datatype Step =
    | FilesChange(files: map<Path, Digest>)
    | SyncVisit(path: Path)
    | SyncFinish
    | Watch(path: Path)
    | RunTask(op: Op)
    | Exchange(answer: Answer)

  /** What the handler is told, if its callback runs at all. */
  function Told(kind: Kind, answer: Answer): Option<bool> {
    match answer
    case Lost(_) => Some(false)
    case Stale => Some(true)
    case _ => if kind == Erase then None else Some(answer.Accepted?)
  }

  function AfterExchange(s: State, answer: Answer): State
    requires s.strand != []
  {
    var op, p := s.strand[0], s.strand[0].path;
    var told := Told(op.kind, answer);
    s.(strand := s.strand[1..],
       dir := if told.Some? && p in s.dir then s.dir[p := Settled(op.kind, s.dir[p], told.value)] else s.dir,
       server := if answer.Accepted? || answer == Lost(true) then Apply(s.server, op) else s.server,
       stuck := if told.None? then s.stuck + {p} else s.stuck,
       doubtful := if answer.Accepted? then s.doubtful - {p}
                   else if answer == Lost(true) || answer.Stale? then s.doubtful + {p}
                   else s.doubtful)
  }

  function AfterWatch(s: State, p: Path): State {
    match Decide(p, At(s.dir, p), At(s.files, p))
    case Nothing => s
    case Forget => s.(dir := s.dir - {p})
    case Post(op) => s.(pool := s.pool + multiset{op})
  }

  function AfterVisit(s: State, p: Path): State
    requires s.phase.Syncing? && p in s.phase.todo
  {
    var book := VisitListed(Book(s.dir, s.pool), p, s.phase.todo[p]);
    s.(dir := book.dir, pool := book.pool,
       phase := s.phase.(todo := s.phase.todo - {p}, emitted := s.phase.emitted + (book.pool - s.pool)))
  }

  /** The steps the code can take. */
  predicate Possible(s: State, step: Step) {
    match step
    case FilesChange(_) => true
    case SyncVisit(p) => s.phase.Syncing? && p in s.phase.todo
    case SyncFinish => s.phase.Syncing? && s.phase.todo == map[]
    case Watch(_) => s.phase.Watching?
    case RunTask(op) => op in s.pool
    case Exchange(answer) => s.strand != [] && (answer.Stale? ==> s.strand[0].kind != Erase)
  }

  function Next(s: State, step: Step): State
    requires Possible(s, step)
  {
    match step
    case FilesChange(files) => s.(files := files)
    case SyncVisit(p) => AfterVisit(s, p)
    case SyncFinish =>
      s.(pool := PostCreates(Book(s.dir, s.pool), s.phase.listing).pool, phase := Watching)
    case Watch(p) => AfterWatch(s, p)
    case RunTask(op) =>
      s.(pool := s.pool - multiset{op}, strand := s.strand + [op], dir := s.dir[op.path := op.Entry()])
    case Exchange(answer) => AfterExchange(s, answer)
  }

  /** The watcher posts for a path only when no job for it waits in the pool. */
  predicate Guarded(s: State, step: Step) {
    step.Watch? && Decide(step.path, At(s.dir, step.path), At(s.files, step.path)).Post? ==>
      forall op :: op in s.pool ==> op.path != step.path
  }

  /** The start: every entry fresh from the constructor, nothing posted, `sync` about to visit the listing. */
  ghost predicate Init(s: State) {
    && (forall p :: p in s.dir ==> s.dir[p].synced.Indeterminate?)
    && s.pool == multiset{} && s.strand == []
    && s.phase == Syncing(s.server, s.server, s.dir, multiset{})
    && s.stuck == {} && s.doubtful == {}
  }

  // ---------------------------------------------------------------- the invariant

  function Outstanding(s: State): multiset<Op> {
    s.pool + multiset(s.strand)
  }

  function OpsAt(ops: multiset<Op>, p: Path): set<Op> {
    set op | op in ops && op.path == p
  }

  /** A path `sync` has still to deal with. */
  predicate Untouched(phase: Phase, p: Path) {
    phase.Syncing? && (p in phase.todo || p !in phase.listing)
  }

  /** All the state there is about one path. */
  datatype View = View(
    entry: Option<Resource>,
    stored: Option<Digest>,
    ops: set<Op>,
    stuck: bool,
    doubtful: bool,
    untouched: bool)

  function ViewOf(s: State, p: Path): View {
    View(At(s.dir, p), At(s.server, p), OpsAt(Outstanding(s), p), p in s.stuck, p in s.doubtful, Untouched(s.phase, p))
  }

  /** What holds of every path, whatever the server answered. */
  ghost predicate Orderly(v: View) {
    && (v.entry.Some? && v.entry.value.synced.True? ==> v.entry.value.existOnServer)
    && (v.entry.Some? && v.entry.value.synced.Indeterminate? ==> v.ops != {} || v.stuck || v.untouched)
    && (v.stuck ==> v.ops == {} && v.entry.Some? && v.entry.value.synced.Indeterminate? && v.entry.value.existOnServer)
    && (v.untouched ==> v.ops == {} && !v.stuck && !v.doubtful &&
                        (v.entry.Some? ==> v.entry.value.synced.Indeterminate?))
  }

  /** What the client's records say of the server, and that it is true. */
  ghost predicate Faithful(v: View) {
    && (v.entry.Some? && v.entry.value.synced.True? ==> v.stored == Some(v.entry.value.digest))
    && (v.entry.Some? && v.entry.value.synced.False? ==> (v.entry.value.existOnServer <==> v.stored.Some?))
    && (forall op :: op in v.ops ==> (op.kind == Create <==> v.stored.None?))
    && (v.entry.None? && v.ops == {} && !v.untouched ==> v.stored.None?)
  }

  ghost predicate Sound(v: View) {
    Orderly(v) && (!v.doubtful ==> Faithful(v))
  }

  /** At most one operation is outstanding for the path, and a queued one has its entry as its job left it. */
  ghost predicate Tidy(s: State, p: Path) {
    && (forall a, b :: a in OpsAt(Outstanding(s), p) && b in OpsAt(Outstanding(s), p) ==> a == b)
    && (forall op :: op in OpsAt(Outstanding(s), p) ==> Outstanding(s)[op] == 1)
    && (forall i :: 0 <= i < |s.strand| && s.strand[i].path == p ==> At(s.dir, p) == Some(s.strand[i].Entry()))
  }

  /** While `sync` has still to deal with the path, all is as at the start. */
  ghost predicate OnTrack(s: State, p: Path) {
    s.phase.Syncing? ==>
      && (p in s.phase.todo ==> At(s.phase.listing, p) == Some(s.phase.todo[p]))
      && (Untouched(s.phase, p) ==>
            At(s.dir, p) == At(s.phase.start, p) && At(s.server, p) == At(s.phase.listing, p))
  }

  /** The invariant of one path, in which no other path has a part. */
  ghost predicate InvAt(s: State, p: Path) {
    Sound(ViewOf(s, p)) && Tidy(s, p) && OnTrack(s, p)
  }

  /** `sync` half-way has posted exactly the planned jobs of the items visited. */
  ghost predicate PlanOnTrack(s: State) {
    s.phase.Syncing? ==>
      s.phase.emitted == multiset(SyncOps(s.phase.start, s.phase.listing, s.phase.listing.Keys - s.phase.todo.Keys))
  }

  ghost predicate Inv(s: State) {
    (forall p :: InvAt(s, p)) && PlanOnTrack(s)
  }

  // ---------------------------------------------------------------- operations of a path

  lemma OpsAtAdd(ops: multiset<Op>, op: Op, p: Path)
    ensures OpsAt(ops + multiset{op}, p) == OpsAt(ops, p) + (if op.path == p then {op} else {})
  {
  }

  lemma NoneAt(ops: multiset<Op>, p: Path)
    requires OpsAt(ops, p) == {}
    ensures forall op: Op :: op.path == p ==> ops[op] == 0
  {
    assert forall op: Op :: op in ops && op.path == p ==> op in OpsAt(ops, p);
  }

  lemma QueuedIsOutstanding(s: State, i: nat)
    requires i < |s.strand|
    ensures s.strand[i] in Outstanding(s) && s.strand[i] in OpsAt(Outstanding(s), s.strand[i].path)
  {
    assert s.strand[i] in multiset(s.strand);
  }

  /** A step that is about other paths. */
  lemma TidySame(s: State, s': State, p: Path)
    requires forall op: Op :: op.path == p ==> Outstanding(s')[op] == Outstanding(s)[op]
    requires forall i :: 0 <= i < |s'.strand| && s'.strand[i].path == p ==> s'.strand[i] in s.strand
    requires At(s'.dir, p) == At(s.dir, p)
    ensures OpsAt(Outstanding(s'), p) == OpsAt(Outstanding(s), p)
    ensures Tidy(s, p) ==> Tidy(s', p)
  {
    hide Outstanding;
  }

  /** A new job for a path with nothing outstanding. */
  lemma TidyPost(s: State, s': State, op: Op)
    requires s' == s.(pool := s'.pool, dir := s'.dir, phase := s'.phase)
    requires s'.pool == s.pool + multiset{op} && OpsAt(Outstanding(s), op.path) == {}
    ensures Tidy(s', op.path) && OpsAt(Outstanding(s'), op.path) == {op}
  {
    assert Outstanding(s') == Outstanding(s) + multiset{op};
    OpsAtAdd(Outstanding(s), op, op.path);
    assert op !in OpsAt(Outstanding(s), op.path);
    forall i | 0 <= i < |s.strand|
      ensures s.strand[i].path != op.path
    {
      QueuedIsOutstanding(s, i);
    }
  }

  // ---------------------------------------------------------------- the start, and changes of the files

  lemma InitInv(s: State)
    requires Init(s)
    ensures Inv(s)
  {
  }

  lemma FilesChangeInv(s: State, files: map<Path, Digest>, p: Path)
    requires InvAt(s, p)
    ensures InvAt(s.(files := files), p)
  {
    assert Outstanding(s.(files := files)) == Outstanding(s);
    assert ViewOf(s.(files := files), p) == ViewOf(s, p);
  }

  // ---------------------------------------------------------------- jobs

  /** Running a job leaves the outstanding operations as they are. */
  lemma RunTaskViews(s: State, op: Op, p: Path)
    requires op in s.pool
    ensures Outstanding(Next(s, RunTask(op))) == Outstanding(s)
    ensures ViewOf(Next(s, RunTask(op)), p) ==
            if p == op.path then ViewOf(s, p).(entry := Some(op.Entry())) else ViewOf(s, p)
    ensures op in ViewOf(s, op.path).ops
  {
    assert Outstanding(Next(s, RunTask(op))) == Outstanding(s);
  }

  /** The requests on the strand are about other paths. */
  lemma RunTaskStrand(s: State, op: Op, i: nat)
    requires Tidy(s, op.path) && op in s.pool && i < |s.strand|
    ensures s.strand[i].path != op.path
  {
    QueuedIsOutstanding(s, i);
    assert s.strand[i] in multiset(s.strand);
    assert op in OpsAt(Outstanding(s), op.path);
    assert Outstanding(s)[op] == s.pool[op] + multiset(s.strand)[op];
    assert s.strand[i] != op;
  }

  lemma RunTaskTidy(s: State, op: Op, p: Path)
    requires op in s.pool && Tidy(s, p)
    ensures Tidy(Next(s, RunTask(op)), p)
  {
    var s' := Next(s, RunTask(op));
    RunTaskViews(s, op, p);
    if op.path == p {
      forall i | 0 <= i < |s.strand|
        ensures s.strand[i].path != p
      {
        RunTaskStrand(s, op, i);
      }
    } else {
      TidySame(s, s', p);
    }
  }

  lemma RunTaskInv(s: State, op: Op, p: Path)
    requires InvAt(s, p) && op in s.pool
    ensures InvAt(Next(s, RunTask(op)), p)
  {
    hide Outstanding, OpsAt, Tidy;
    RunTaskTidy(s, op, p);
    RunTaskViews(s, op, p);
  }

  // ---------------------------------------------------------------- answers

  /** The path's view after its request left the strand. */
  function Answered(v: View, op: Op, answer: Answer): View {
    var told := Told(op.kind, answer);
    v.(ops := {},
       entry := if told.Some? then Some(Settled(op.kind, op.Entry(), told.value)) else Some(op.Entry()),
       stored := if answer.Accepted? || answer == Lost(true) then (if op.kind == Erase then None else Some(op.digest))
                 else v.stored,
       stuck := v.stuck || told.None?,
       doubtful := if answer.Accepted? then false
                   else if answer == Lost(true) || answer.Stale? then true else v.doubtful)
  }

  /** The request at the head has its entry as its job left it, and is all that is outstanding for its path. */
  ghost predicate Alone(s: State) {
    && s.strand != []
    && At(s.dir, s.strand[0].path) == Some(s.strand[0].Entry())
    && OpsAt(Outstanding(s.(strand := s.strand[1..])), s.strand[0].path) == {}
  }

  lemma OutstandingHead(s: State)
    requires s.strand != []
    ensures Outstanding(s) == Outstanding(s.(strand := s.strand[1..])) + multiset{s.strand[0]}
  {
    assert s.strand == [s.strand[0]] + s.strand[1..];
  }

  lemma HeadFacts(s: State)
    requires s.strand != [] && Tidy(s, s.strand[0].path)
    ensures Alone(s) && OpsAt(Outstanding(s), s.strand[0].path) == {s.strand[0]}
  {
    var op, rest := s.strand[0], Outstanding(s.(strand := s.strand[1..]));
    OutstandingHead(s);
    OpsAtAdd(rest, op, op.path);
    assert op in OpsAt(Outstanding(s), op.path);
    assert rest[op] == 0;
    assert forall other :: other in OpsAt(rest, op.path) ==> other in OpsAt(Outstanding(s), op.path);
  }

  lemma ExchangeViews(s: State, answer: Answer, p: Path)
    requires Possible(s, Exchange(answer)) && (p == s.strand[0].path ==> Alone(s))
    ensures var op := s.strand[0];
            ViewOf(AfterExchange(s, answer), p) ==
            if p == op.path then Answered(ViewOf(s, p), op, answer) else ViewOf(s, p)
  {
    hide OpsAt, Settled;
    var rest := s.(strand := s.strand[1..]);
    assert Outstanding(AfterExchange(s, answer)) == Outstanding(rest);
    OutstandingHead(s);
    OpsAtAdd(Outstanding(rest), s.strand[0], p);
  }

  lemma ExchangeTidy(s: State, answer: Answer, p: Path)
    requires Possible(s, Exchange(answer)) && Tidy(s, p)
    ensures Tidy(AfterExchange(s, answer), p)
  {
    var s', rest := AfterExchange(s, answer), s.(strand := s.strand[1..]);
    assert Outstanding(s') == Outstanding(rest);
    if p == s.strand[0].path {
      HeadFacts(s);
      forall i | 0 <= i < |rest.strand|
        ensures rest.strand[i].path != p
      {
        QueuedIsOutstanding(rest, i);
      }
    } else {
      OutstandingHead(s);
      TidySame(s, s', p);
    }
  }

  lemma AnsweredSound(v: View, op: Op, answer: Answer)
    requires Sound(v) && v.ops == {op} && v.entry == Some(op.Entry())
    requires answer.Stale? ==> op.kind != Erase
    ensures Sound(Answered(v, op, answer)) && !v.untouched
  {
    assert op in v.ops;
    assert !v.stuck && !v.untouched;
  }

  lemma ExchangeInv(s: State, answer: Answer, p: Path)
    requires InvAt(s, p) && Possible(s, Exchange(answer))
    ensures InvAt(AfterExchange(s, answer), p)
  {
    var s', op := AfterExchange(s, answer), s.strand[0];
    ExchangeTidy(s, answer, p);
    if p == op.path {
      HeadFacts(s);
    }
    ExchangeViews(s, answer, p);
    hide Outstanding, OpsAt, Tidy, AfterExchange, Alone, Answered;
    if p == op.path {
      AnsweredSound(ViewOf(s, p), op, answer);
    }
    AnsweredElsewhere(s, answer, p);
  }

  lemma AnsweredElsewhere(s: State, answer: Answer, p: Path)
    requires Possible(s, Exchange(answer))
    ensures var s' := AfterExchange(s, answer);
            && s'.phase == s.phase
            && (p != s.strand[0].path ==> At(s'.dir, p) == At(s.dir, p) && At(s'.server, p) == At(s.server, p))
  {
  }

  // ---------------------------------------------------------------- looks of the watcher

  /** With no job for it in the pool, what is outstanding for a path is on the strand. */
  lemma GuardedIsQueued(s: State, p: Path)
    requires Tidy(s, p) && forall op :: op in s.pool ==> op.path != p
    ensures forall op :: op in OpsAt(Outstanding(s), p) ==> At(s.dir, p) == Some(op.Entry())
  {
    forall op | op in OpsAt(Outstanding(s), p)
      ensures At(s.dir, p) == Some(op.Entry())
    {
      assert op !in s.pool;
      assert op in multiset(s.strand);
      var i :| 0 <= i < |s.strand| && s.strand[i] == op;
    }
  }

  /** Under the guard, a path the watcher posts for has nothing outstanding. */
  lemma WatchedIsFree(s: State, p: Path)
    requires InvAt(s, p) && Guarded(s, Watch(p))
    requires Decide(p, At(s.dir, p), At(s.files, p)).Post?
    ensures OpsAt(Outstanding(s), p) == {} && p !in s.stuck
  {
    GuardedIsQueued(s, p);
    assert forall op :: op in OpsAt(Outstanding(s), p) ==> op.Entry().synced.Indeterminate?;
  }

  lemma PostInv(s: State, s': State, op: Op)
    requires InvAt(s, op.path) && s.phase.Watching?
    requires OpsAt(Outstanding(s), op.path) == {} && op.path !in s.stuck
    requires s' == s.(pool := s.pool + multiset{op})
    requires op.path !in s.doubtful ==> (op.kind == Create <==> op.path !in s.server)
    ensures InvAt(s', op.path)
  {
    TidyPost(s, s', op);
    hide Outstanding, OpsAt, Tidy;
    assert ViewOf(s', op.path) == ViewOf(s, op.path).(ops := {op});
  }

  /** A job for a forgotten path may still wait in the pool; a request for it cannot be on the strand. */
  lemma ForgetInv(s: State, p: Path)
    requires InvAt(s, p) && s.phase.Watching?
    requires p in s.dir && s.dir[p].synced.False? && !s.dir[p].existOnServer
    ensures InvAt(s.(dir := s.dir - {p}), p)
  {
    var s' := s.(dir := s.dir - {p});
    assert Outstanding(s') == Outstanding(s);
    assert ViewOf(s', p) == ViewOf(s, p).(entry := None);
    forall i | 0 <= i < |s.strand|
      ensures s.strand[i].path != p
    {
      assert s.strand[i].Entry().synced.Indeterminate?;
    }
  }

  /** What the watcher decides fits what the client knows of the server. */
  lemma DecisionFits(s: State, p: Path)
    requires InvAt(s, p) && s.phase.Watching?
    ensures match Decide(p, At(s.dir, p), At(s.files, p))
            case Nothing => true
            case Forget => p in s.dir && s.dir[p].synced.False? && !s.dir[p].existOnServer
            case Post(op) =>
              && op.path == p
              && (OpsAt(Outstanding(s), p) == {} && p !in s.doubtful ==> (op.kind == Create <==> p !in s.server))
  {
    hide Tidy, OnTrack;
  }

  /** A second job for a path whose first one has not begun: the same job twice, or two different ones. */
  lemma SecondJob(s: State, posted: Op, op: Op)
    requires op in s.pool && posted.path == op.path
    requires posted in s.pool && (posted == op ==> s.pool[op] > 1)
    ensures !Tidy(s, op.path)
  {
    assert op in OpsAt(Outstanding(s), op.path) && posted in OpsAt(Outstanding(s), op.path);
    assert Outstanding(s)[op] >= s.pool[op];
  }

  /** A look at the path keeps its invariant exactly when it is guarded. */
  lemma WatchInv(s: State, p: Path)
    requires InvAt(s, p) && s.phase.Watching?
    ensures InvAt(AfterWatch(s, p), p) <==> Guarded(s, Watch(p))
  {
    hide InvAt, Decide;
    DecisionFits(s, p);
    match Decide(p, At(s.dir, p), At(s.files, p))
    case Nothing =>
    case Forget => ForgetInv(s, p);
    case Post(op) =>
      if Guarded(s, Watch(p)) {
        WatchedIsFree(s, p);
        PostInv(s, AfterWatch(s, p), op);
      } else {
        var first :| first in s.pool && first.path == p;
        SecondJob(AfterWatch(s, p), op, first);
        TidyOf(AfterWatch(s, p), p);
      }
  }

  lemma TidyOf(s: State, p: Path)
    ensures InvAt(s, p) ==> Tidy(s, p)
  {
  }

  /** A look at another path leaves this one alone. */
  lemma WatchViews(s: State, q: Path, p: Path)
    requires q != p
    ensures ViewOf(AfterWatch(s, q), p) == ViewOf(s, p)
    ensures Tidy(s, p) ==> Tidy(AfterWatch(s, q), p)
  {
    hide Decide, OpsAt;
    var s', action := AfterWatch(s, q), Decide(q, At(s.dir, q), At(s.files, q));
    DecidedPath(q, At(s.dir, q), At(s.files, q));
    assert Outstanding(s') == Outstanding(s) + if action.Post? then multiset{action.op} else multiset{};
    TidySame(s, s', p);
  }

  lemma OtherWatchInv(s: State, q: Path, p: Path)
    requires InvAt(s, p) && q != p && s.phase.Watching?
    ensures InvAt(AfterWatch(s, q), p)
  {
    hide Tidy, ViewOf;
    WatchViews(s, q, p);
  }

  // ---------------------------------------------------------------- the first loop of `sync`

  lemma VisitEntries(s: State, q: Path, p: Path)
    requires Possible(s, SyncVisit(q))
    ensures var s' := AfterVisit(s, q);
            && At(s'.dir, p) == (if p == q && SyncOp(q, At(s.dir, q), Some(s.phase.todo[q])).None?
                                 then Some(Resource(True, true, s.phase.todo[q])) else At(s.dir, p))
            && s' == s.(dir := s'.dir, pool := s'.pool, phase := s'.phase)
            && s'.phase == s.phase.(todo := s.phase.todo - {q}, emitted := s'.phase.emitted)
            && (Untouched(s'.phase, p) <==> Untouched(s.phase, p) && (p == q ==> p !in s.phase.listing))
  {
  }

  lemma VisitOutstanding(s: State, q: Path)
    requires Possible(s, SyncVisit(q))
    ensures var op, s' := SyncOp(q, At(s.dir, q), Some(s.phase.todo[q])), AfterVisit(s, q);
            && s'.pool == s.pool + (if op.Some? then multiset{op.value} else multiset{})
            && Outstanding(s') == Outstanding(s) + (if op.Some? then multiset{op.value} else multiset{})
            && (op.Some? ==> op.value.path == q)
  {
  }

  /** One item of the listing changes its own path only. */
  lemma VisitViews(s: State, q: Path, p: Path)
    requires Possible(s, SyncVisit(q))
    requires q == p ==> OpsAt(Outstanding(s), p) == {} && p in s.phase.listing
    ensures var op := SyncOp(q, At(s.dir, q), Some(s.phase.todo[q]));
            ViewOf(AfterVisit(s, q), p) ==
            if q != p then ViewOf(s, p)
            else ViewOf(s, p).(
                   entry := if op.Some? then At(s.dir, p) else Some(Resource(True, true, s.phase.todo[p])),
                   ops := if op.Some? then {op.value} else {},
                   untouched := false)
    ensures Tidy(s, p) ==> Tidy(AfterVisit(s, q), p)
  {
    hide Outstanding, OpsAt, Tidy, SyncOp;
    var op, s' := SyncOp(q, At(s.dir, q), Some(s.phase.todo[q])), AfterVisit(s, q);
    VisitOutstanding(s, q);
    VisitEntries(s, q, p);
    if q == p && op.Some? {
      TidyPost(s, s', op.value);
    } else if q == p {
      assert Outstanding(s') == Outstanding(s);
      NothingToTidy(s', p);
    } else {
      TidySame(s, s', p);
    }
  }

  lemma NothingToTidy(s: State, p: Path)
    requires OpsAt(Outstanding(s), p) == {}
    ensures Tidy(s, p)
  {
    forall i | 0 <= i < |s.strand|
      ensures s.strand[i].path != p
    {
      QueuedIsOutstanding(s, i);
    }
  }

  lemma VisitInv(s: State, q: Path, p: Path)
    requires InvAt(s, p) && Possible(s, SyncVisit(q))
    ensures InvAt(AfterVisit(s, q), p)
  {
    hide Tidy, AfterVisit;
    VisitViews(s, q, p);
    VisitEntries(s, q, p);
  }

  /** The item visited brings the one job planned for it. */
  lemma VisitEmits(s: State, p: Path)
    requires InvAt(s, p) && PlanOnTrack(s) && Possible(s, SyncVisit(p))
    ensures PlanOnTrack(AfterVisit(s, p))
  {
    hide SyncOps;
    var phase, phase' := s.phase, AfterVisit(s, p).phase;
    var over := phase.listing.Keys - phase.todo.Keys;
    assert phase'.listing.Keys - phase'.todo.Keys == over + {p};
    SyncOpsStep(phase.start, phase.listing, over, p);
    VisitOutstanding(s, p);
    var op := SyncOp(p, At(phase.start, p), At(phase.listing, p));
    assert AfterVisit(s, p).pool - s.pool == if op.Some? then multiset{op.value} else multiset{};
  }

  // ---------------------------------------------------------------- its second loop

  lemma FinishOutstanding(s: State, p: Path)
    requires Possible(s, SyncFinish)
    ensures var s', posts := Next(s, SyncFinish), Untouched(s.phase, p) && p in s.dir;
            && (forall op: Op :: op.path == p ==>
                  Outstanding(s')[op] ==
                  Outstanding(s)[op] + if posts && op == Op(Create, p, s.dir[p].digest) then 1 else 0)
            && s' == s.(pool := s'.pool, phase := Watching)
  {
    hide SyncOps;
    var listing := s.phase.listing;
    var over := s.dir.Keys - listing.Keys;
    var ops := SyncOps(s.dir, listing, over);
    assert Outstanding(Next(s, SyncFinish)) == Outstanding(s) + multiset(ops);
    forall op: Op | op.path == p
      ensures op in ops <==> Untouched(s.phase, p) && p in s.dir && op == Op(Create, p, s.dir[p].digest)
    {
      SyncOpsOf(s.dir, listing, over, op);
    }
  }

  lemma FinishViews(s: State, p: Path)
    requires Possible(s, SyncFinish) && (Untouched(s.phase, p) ==> OpsAt(Outstanding(s), p) == {})
    ensures ViewOf(Next(s, SyncFinish), p) ==
            ViewOf(s, p).(
              ops := if Untouched(s.phase, p) && p in s.dir then {Op(Create, p, s.dir[p].digest)}
                     else ViewOf(s, p).ops,
              untouched := false)
    ensures Tidy(s, p) ==> Tidy(Next(s, SyncFinish), p)
  {
    hide Outstanding, Next;
    var s' := Next(s, SyncFinish);
    FinishOutstanding(s, p);
    if Untouched(s.phase, p) && p in s.dir {
      var op := Op(Create, p, s.dir[p].digest);
      NoneAt(Outstanding(s), p);
      forall o: Op
        ensures o in OpsAt(Outstanding(s'), p) <==> o == op
      {
        assert o.path == p ==> Outstanding(s')[o] == if o == op then 1 else 0;
      }
      forall i | 0 <= i < |s.strand|
        ensures s.strand[i].path != p
      {
        QueuedIsOutstanding(s, i);
      }
    } else {
      TidySame(s, s', p);
    }
  }

  lemma FinishInv(s: State, p: Path)
    requires InvAt(s, p) && Possible(s, SyncFinish)
    ensures InvAt(Next(s, SyncFinish), p)
  {
    hide Tidy, PostCreates;
    FinishViews(s, p);
  }

  // ---------------------------------------------------------------- every step

  /** No step harms a path, except a look at that very path that is not guarded; and such a look always does. */
  lemma StepInvAt(s: State, step: Step, p: Path)
    requires InvAt(s, p) && Possible(s, step)
    ensures InvAt(Next(s, step), p) <==> (step == Watch(p) ==> Guarded(s, step))
  {
    hide InvAt;
    match step
    case FilesChange(files) => FilesChangeInv(s, files, p);
    case SyncVisit(q) => VisitInv(s, q, p);
    case SyncFinish => FinishInv(s, p);
    case Watch(q) =>
      if q == p {
        WatchInv(s, p);
      } else {
        OtherWatchInv(s, q, p);
      }
    case RunTask(op) => RunTaskInv(s, op, p);
    case Exchange(answer) => ExchangeInv(s, answer, p);
  }

  lemma PlanStep(s: State, step: Step)
    requires Inv(s) && Possible(s, step)
    ensures PlanOnTrack(Next(s, step))
  {
    if step.SyncVisit? {
      VisitEmits(s, step.path);
    }
  }

  /** The guard is exact: a step keeps the invariant of all paths if and only if it is guarded. */
  lemma StepInv(s: State, step: Step)
    requires Inv(s) && Possible(s, step)
    ensures Inv(Next(s, step)) <==> Guarded(s, step)
  {
    PlanStep(s, step);
    hide InvAt, PlanOnTrack, Possible, Next;
    forall p
      ensures InvAt(Next(s, step), p) <==> (step == Watch(p) ==> Guarded(s, step))
    {
      StepInvAt(s, step, p);
    }
  }
}
