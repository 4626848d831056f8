/** The classes carry out the steps of the transition system, and its answers are all that a handler can be told. */
module Wiring {
  import opened Wrappers
  import opened Bytes
  import opened Messages
  import opened TlvViews
  import opened FMessages
  import opened Directories
  import opened Schedulers
  import opened FileWatchers
  import opened Tools
  import opened Protocol
  import opened Runs
  import opened Convergence
  import opened SyncPlan
  import C = Connections

  /** The callbacks of a post tell the handler what the answer stands for. */
  ghost predicate Yields(op: Op, callbacks: seq<Option<seq<byte>>>, answer: Answer) {
    match Told(op.kind, answer)
    case None => callbacks == []
    case Some(b) => |callbacks| == 1 && (Confirmed(op.kind, op.Sign(), callbacks[0]) <==> b)
  }

  // ---------------------------------------------------------------- the classes take the steps

  /** The objects of the client are as in the state. */
  ghost predicate Matches(scheduler: Scheduler, s: State)
    reads scheduler, scheduler.dir
  {
    && scheduler.dir.Valid() && scheduler.dir.content == s.dir
    && scheduler.pool == s.pool && scheduler.strand == s.strand
  }

  /** The client before `sync`: an entry for every file found, and nothing posted. */
  method Begin(found: seq<(Path, Digest)>, ghost server: map<Path, Digest>)
    returns (watcher: FileWatcher, ghost s: State)
    ensures fresh(watcher) && fresh(watcher.scheduler) && fresh(watcher.dir)
    ensures watcher.Valid() && Matches(watcher.scheduler, s)
    ensures Init(s) && s.server == server && s.files == FilesOf(found)
    ensures DigestsOf(s.dir) == s.files && forall p :: p in s.dir ==> !s.dir[p].existOnServer
  {
    hide ListingOf;
    var dir := new Dir();
    var scheduler := new Scheduler(dir);
    watcher := new FileWatcher(dir, scheduler, found);
    FilesOfAt(found, |found|);
    assert found[..|found|] == found;
    s := State(FilesOf(found), dir.content, multiset{}, [], server,
               Syncing(server, server, dir.content, multiset{}), {}, {});
    assert forall p :: p in s.dir ==> At(s.dir, p) == Some(Resource(Indeterminate, false, FilesOf(found)[p]));
  }

  /** A job of the pool. */
  method Start(scheduler: Scheduler, op: Op, ghost s: State)
    requires Matches(scheduler, s) && op in s.pool
    modifies scheduler, scheduler.dir
    ensures Matches(scheduler, Next(s, RunTask(op)))
  {
    scheduler.RunTask(op);
  }

  /** One callback of the request runs the handler of its kind. */
  method Handle(scheduler: Scheduler, op: Op, response: Option<seq<byte>>) returns (exited: bool)
    requires scheduler.dir.Valid() && (response.Some? ==> WellFormed(response.value))
    modifies scheduler.dir
    ensures var before := old(scheduler.dir.content);
            && scheduler.dir.Valid() && exited == (op.path !in before)
            && scheduler.dir.content ==
               if exited then before
               else before[op.path := Settled(op.kind, before[op.path], Confirmed(op.kind, op.Sign(), response))]
  {
    hide Confirms, WellFormed, CreateSign;
    var message := None;
    if response.Some? {
      var received := new Message.FromBuffer(response.value);
      message := Some(received);
    }
    match op.kind {
      case Create => exited := scheduler.HandleCreate(op.path, op.Sign(), message);
      case Update => exited := scheduler.HandleUpdate(op.path, op.Sign(), message);
      case Erase => exited := scheduler.HandleErase(op.path, op.Sign(), message);
    }
  }

  /** The strand serves its head request, and each callback of the post runs the handler. */
  method Serve(scheduler: Scheduler, callbacks: seq<Option<seq<byte>>>, ghost s: State, ghost answer: Answer)
    returns (exited: bool)
    requires Matches(scheduler, s) && s.strand != [] && (answer.Stale? ==> s.strand[0].kind != Erase)
    requires Yields(s.strand[0], callbacks, answer)
    requires forall i :: 0 <= i < |callbacks| && callbacks[i].Some? ==> WellFormed(callbacks[i].value)
    modifies scheduler, scheduler.dir
    ensures exited == (callbacks != [] && s.strand[0].path !in s.dir)
    ensures Matches(scheduler, Next(s, Exchange(answer)))
  {
    hide Confirmed, WellFormed;
    var op := scheduler.strand[0];
    scheduler.strand := scheduler.strand[1..];
    exited := false;
    for i := 0 to |callbacks|
      invariant i == 0 ==> Matches(scheduler, s.(strand := s.strand[1..])) && !exited
      invariant i == 1 ==> Matches(scheduler, Next(s, Exchange(answer))) && exited == (op.path !in s.dir)
    {
      exited := Handle(scheduler, op, callbacks[i]);
    }
  }

  /** One listed item. */
  method Visit(scheduler: Scheduler, sDir: Dir, path: Path, digest: Digest, ghost s: State)
    requires Matches(scheduler, s) && Possible(s, SyncVisit(path)) && s.phase.todo[path] == digest
    requires sDir.Valid() && sDir != scheduler.dir
    modifies scheduler`pool, scheduler.dir, sDir
    ensures Matches(scheduler, Next(s, SyncVisit(path))) && sDir.Valid()
    ensures DigestsOf(sDir.content) == DigestsOf(old(sDir.content))[path := digest]
  {
    scheduler.VisitItem(sDir, path, digest);
  }

  /** The second loop of `sync`. */
  method Finish(scheduler: Scheduler, sDir: Dir, ghost s: State)
    requires Matches(scheduler, s) && Possible(s, SyncFinish) && DigestsOf(sDir.content) == s.phase.listing
    modifies scheduler`pool
    ensures Matches(scheduler, Next(s, SyncFinish))
  {
    hide SyncOps;
    scheduler.CreateUnlisted(sDir);
  }

  /** A look of the watcher: the first pass comes to the entries without a file, the second to the files. */
  method Look(watcher: FileWatcher, path: Path, file: Option<Digest>, ghost s: State)
    requires watcher.Valid() && Matches(watcher.scheduler, s) && s.phase.Watching? && At(s.files, path) == file
    modifies watcher.dir, watcher.scheduler`pool
    ensures watcher.Valid() && Matches(watcher.scheduler, Next(s, Watch(path)))
  {
    if file.Some? {
      watcher.CheckFile(path, file.value);
    } else if watcher.dir.Contains(path) {
      watcher.CheckEntry(path);
    }
  }

  /** A whole tick, which is the looks at all paths in any order (`WatchAllIsTick`). */
  method TickAll(watcher: FileWatcher, found: seq<(Path, Digest)>, ghost s: State)
    requires watcher.Valid() && Matches(watcher.scheduler, s)
    requires DistinctFiles(found) && FilesOf(found) == s.files
    modifies watcher.dir, watcher.scheduler`pool
    ensures watcher.Valid() && Matches(watcher.scheduler, TickOf(s))
  {
    hide TickOps, Forgotten;
    watcher.Tick(found);
  }

  function VisitSteps(items: seq<(Path, Digest)>): seq<Step> {
    seq(|items|, i requires 0 <= i < |items| => SyncVisit(items[i].0))
  }

  /** The first loop of `sync` is a run that visits the items one by one. */
  lemma {:induction false} VisitRun(s: State, items: seq<(Path, Digest)>) returns (states: seq<State>)
    requires s.phase.Syncing? && DistinctPaths(items)
    requires forall i :: 0 <= i < |items| ==> At(s.phase.todo, items[i].0) == Some(items[i].1)
    ensures IsRun(states, VisitSteps(items)) && states[0] == s
    ensures var final := states[|items|];
            && Book(final.dir, final.pool) == VisitAll(Book(s.dir, s.pool), items)
            && final == s.(dir := final.dir, pool := final.pool, phase := final.phase)
            && final.phase.Syncing? && final.phase.listing == s.phase.listing
            && final.phase.todo == s.phase.todo - PathsOf(items)
  {
    hide Next, AfterVisit, VisitListed, Decide;
    if items == [] {
      states := [s];
    } else {
      var n := |items| - 1;
      var front, p := items[..n], items[n].0;
      var before := VisitRun(s, front);
      PathsOfStep(items, n);
      assert items[..n + 1] == items;
      assert p !in PathsOf(front);
      assert At(before[n].phase.todo, p) == Some(items[n].1);
      states := before + [Next(before[n], SyncVisit(p))];
      VisitOne(before[n], p);
      hide Possible, VisitAll;
      RunExtends(before, VisitSteps(front), SyncVisit(p));
      assert VisitSteps(items) == VisitSteps(front) + [SyncVisit(p)];
    }
  }

  lemma VisitOne(s: State, p: Path)
    requires Possible(s, SyncVisit(p))
    ensures var s' := Next(s, SyncVisit(p));
            && Book(s'.dir, s'.pool) == VisitListed(Book(s.dir, s.pool), p, s.phase.todo[p])
            && s' == s.(dir := s'.dir, pool := s'.pool, phase := s'.phase)
            && s'.phase == s.phase.(todo := s.phase.todo - {p}, emitted := s'.phase.emitted)
  {
  }

  ghost predicate AboutToVisit(s: State, items: seq<(Path, Digest)>) {
    s.phase.Syncing? && DistinctPaths(items) && s.phase.todo == s.phase.listing == ListingOf(items)
  }

  /** As `SyncResult` says of a completed listing. */
  function AfterListing(s: State, items: seq<(Path, Digest)>): State {
    var book := PostCreates(VisitAll(Book(s.dir, s.pool), items), ListingOf(items));
    s.(dir := book.dir, pool := book.pool, phase := Watching)
  }

  /** What `ApplyListing` leaves behind is the end of a run that visits the items and then finishes. */
  lemma ListingIsRun(s: State, items: seq<(Path, Digest)>)
    requires AboutToVisit(s, items)
    ensures exists states ::
              && IsRun(states, VisitSteps(items) + [SyncFinish])
              && states[0] == s && states[|items| + 1] == AfterListing(s, items)
  {
    FilesOfAt(items, |items|);
    assert items[..|items|] == items;
    var states := VisitRun(s, items);
    var last := states[|items|];
    assert last.phase.todo == map[];
    RunExtends(states, VisitSteps(items), SyncFinish);
    assert (states + [Next(last, SyncFinish)])[|items| + 1] == Next(last, SyncFinish);
  }

  // ---------------------------------------------------------------- the answers

  /** Every way an ERASE can go is an answer; a reply of any kind is one that never reaches the handler. */
  lemma EraseAnswered(op: Op, exchange: C.Exchange)
    requires op.kind == Erase
    ensures exists answer: Answer ::
              && Yields(op, C.PlainCallbacks(exchange), answer)
              && !answer.Stale?
              && (exchange.Succeeds() <==> answer.Accepted? || answer.Rejected?)
  {
    if exchange.Succeeds() {
      assert Yields(op, C.PlainCallbacks(exchange), Accepted);
    } else {
      assert Yields(op, C.PlainCallbacks(exchange), Lost(false));
    }
  }

  /**
   * What an upload may come to: the callback tells the handler so, the server can have stored the file only
   * if the chunks reached its end, and a handler is misled only when a later write was the first thing to fail.
   */
  ghost predicate CanMean(op: Op, file: Option<seq<byte>>, link: nat -> C.Exchange, answer: Answer)
    requires SignFits(op.Sign())
  {
    var cut := C.CutOf(file, op.Sign());
    && Yields(op, [C.UploadResult(cut, link)], answer)
    && (answer.Accepted? || answer == Lost(true) ==> cut.complete)
    && (answer.Stale? ==> C.LaterWriteFails(link, |cut.chunks|))
  }

  /**
   * Every way an upload can go is such an answer: `Accepted` or `Rejected`, by the last reply, exactly when all
   * chunks were exchanged and the file ended, and otherwise `Lost` or `Stale`, by what the callback gets.
   */
  lemma UploadAnswered(op: Op, file: Option<seq<byte>>, link: nat -> C.Exchange)
    requires op.kind != Erase && SignFits(op.Sign())
    ensures var cut := C.CutOf(file, op.Sign());
            var whole := cut.complete && C.AllSucceed(link, |cut.chunks|);
            var confirmed := Confirmed(op.kind, op.Sign(), C.UploadResult(cut, link));
            var answer := if whole then if confirmed then Accepted else Rejected
                          else if confirmed then Stale else Lost(false);
            Yields(op, [C.UploadResult(cut, link)], answer) && CanMean(op, file, link, answer)
  {
    var cut := C.CutOf(file, op.Sign());
    var result := C.UploadResult(cut, link);
    C.UploadResultMeaning(file, op.Sign(), link);
  }

  // ---------------------------------------------------------------- files that cannot be uploaded

  /** The lengths that make the chunker raise. */
  predicate Unchunkable(content: seq<byte>, sign: seq<byte>)
    requires SignFits(sign)
  {
    |content| % Capacity(sign) > Capacity(sign) - 5
  }

  /** The reply that confirms the operation. */
  function Confirmation(op: Op): seq<byte> {
    EncodeMessage(op.kind.MsgType(), [Tlv(ITEM, op.Sign()), Tlv(OK, [])])
  }

  /** An upload can be accepted if and only if its file can be cut. */
  lemma AcceptableIff(op: Op, content: seq<byte>)
    requires op.kind != Erase && SignFits(op.Sign())
    ensures (exists link :: CanMean(op, Some(content), link, Accepted)) <==> !Unchunkable(content, op.Sign())
  {
    hide Confirms, EncodeMessage, CutFile;
    CutLength(content, Capacity(op.Sign()));
    if !Unchunkable(content, op.Sign()) {
      var reply := Confirmation(op);
      var link: nat -> C.Exchange := (i: nat) => C.Exchange(True, C.Answered(reply));
      C.UploadResultMeaning(Some(content), op.Sign(), link);
      ConfirmsEncoding(op.kind.MsgType(), [Tlv(ITEM, op.Sign()), Tlv(OK, [])], op.kind, op.Sign());
      assert CanMean(op, Some(content), link, Accepted);
    }
  }

  /** And it can come to a stale reply if and only if it takes two chunks or more. */
  lemma StaleIff(op: Op, file: Option<seq<byte>>)
    requires op.kind != Erase && SignFits(op.Sign())
    ensures (exists link :: CanMean(op, file, link, Stale)) <==> |C.CutOf(file, op.Sign()).chunks| >= 2
  {
    hide Confirms, EncodeMessage, CutFile;
    var n := |C.CutOf(file, op.Sign()).chunks|;
    if n >= 2 {
      var reply := Confirmation(op);
      var link: nat -> C.Exchange :=
        (i: nat) => if i == 0 then C.Exchange(True, C.Answered(reply)) else C.Exchange(False, C.Failed);
      assert C.AllSucceed(link, 1) && !link(1).write.True?;
      C.UploadResultMeaning(file, op.Sign(), link);
      ConfirmsEncoding(op.kind.MsgType(), [Tlv(ITEM, op.Sign()), Tlv(OK, [])], op.kind, op.Sign());
      assert CanMean(op, file, link, Stale);
    }
  }

  /** If the step answers an upload of the path, it was one of this content, which cannot be cut. */
  ghost predicate CannotUpload(s: State, step: Step, p: Path, content: seq<byte>) {
    step.Exchange? && s.strand != [] && s.strand[0].path == p && s.strand[0].kind != Erase ==>
      && SignFits(s.strand[0].Sign()) && Unchunkable(content, s.strand[0].Sign())
      && exists link :: CanMean(s.strand[0], Some(content), link, step.answer)
  }

  lemma CannotStore(s: State, step: Step, p: Path, content: seq<byte>)
    requires Possible(s, step) && CannotUpload(s, step, p, content)
    ensures At(Next(s, step).server, p) == At(s.server, p) || At(Next(s, step).server, p) == None
  {
    if step.Exchange? && s.strand[0].path == p && s.strand[0].kind != Erase {
      CutLength(content, Capacity(s.strand[0].Sign()));
    }
  }

  /** In no run does the server get such a file, whatever is lost, replied or looked at. */
  lemma {:induction false} NeverStored(states: seq<State>, steps: seq<Step>, k: nat, p: Path, content: seq<byte>)
    requires IsRun(states, steps) && k < |states|
    requires forall i :: 0 <= i < k ==> CannotUpload(states[i], steps[i], p, content)
    ensures At(states[k].server, p) == At(states[0].server, p) || At(states[k].server, p) == None
  {
    hide CannotUpload, Possible, Next;
    if k > 0 {
      NeverStored(states, steps, k - 1, p, content);
      CannotStore(states[k - 1], steps[k - 1], p, content);
    }
  }

  /**
   * And it is posted again for ever: whenever nothing is outstanding for its path the next look posts an
   * upload of it, unless the path is stuck, or a stale reply misled the client.
   */
  lemma PostedAgain(states: seq<State>, steps: seq<Step>, k: nat, p: Path, content: seq<byte>, d: Digest)
    requires IsRun(states, steps) && k < |states| && InvAt(states[0], p) && GuardedAt(states, steps, k, p)
    requires forall i :: 0 <= i < k ==> CannotUpload(states[i], steps[i], p, content)
    requires At(states[0].server, p) != Some(d) && At(states[k].files, p) == Some(d)
    requires states[k].phase.Watching? && OpsAt(Outstanding(states[k]), p) == {}
    requires p !in states[k].stuck && p !in states[k].doubtful
    ensures var action := Decide(p, At(states[k].dir, p), Some(d));
            action == Post(Op(Create, p, d)) || action == Post(Op(Update, p, d))
  {
    hide IsRun, CannotUpload, InvAt;
    NeverStored(states, steps, k, p, content);
    RunInvAt(states, steps, k, p);
    assert InvAt(states[k], p);
    AgreesAlready(states[k], p);
  }
}
