/** The watcher's two passes (core/file_watcher.cpp). */
module FileWatchers {
  import opened Wrappers
  import opened Tools
  import opened Directories
  import opened Schedulers

  /** What a tick does about one path. */
  datatype Action = Nothing | Forget | Post(op: Op)

  /** The decision table: by the entry of a path and the file's present digest. */
  function Decide(p: Path, entry: Option<Resource>, file: Option<Digest>): Action {
    match (entry, file)
    case (None, None) => Nothing
    case (None, Some(d)) => Post(Op(Create, p, d))
    case (Some(r), None) =>
      if r.synced.Indeterminate? then Nothing
      else if r.existOnServer then Post(Op(Erase, p, r.digest))
      else Forget
    case (Some(r), Some(d)) =>
      if r.synced.Indeterminate? || (r.synced.True? && r.digest == d) then Nothing
      else if r.synced.True? || r.existOnServer then Post(Op(Update, p, d))
      else Post(Op(Create, p, d))
  }

  function Posted(action: Action): multiset<Op> {
    if action.Post? then multiset{action.op} else multiset{}
  }

  function TickOps(dir: map<Path, Resource>, files: map<Path, Digest>, over: set<Path>): set<Op> {
    set p | p in over && Decide(p, At(dir, p), At(files, p)).Post? :: Decide(p, At(dir, p), At(files, p)).op
  }

  function Forgotten(dir: map<Path, Resource>, files: map<Path, Digest>, over: set<Path>): set<Path> {
    set p | p in over && Decide(p, At(dir, p), At(files, p)).Forget?
  }

  lemma DecidedPath(p: Path, entry: Option<Resource>, file: Option<Digest>)
    ensures Decide(p, entry, file).Post? ==> Decide(p, entry, file).op.path == p
  {
  }

  lemma TickOpsOf(dir: map<Path, Resource>, files: map<Path, Digest>, over: set<Path>, op: Op)
    ensures op in TickOps(dir, files, over) <==>
            op.path in over && Decide(op.path, At(dir, op.path), At(files, op.path)) == Post(op)
  {
    if op in TickOps(dir, files, over) {
      var p :| p in over && Decide(p, At(dir, p), At(files, p)) == Post(op);
      DecidedPath(p, At(dir, p), At(files, p));
    }
  }

  /** Which jobs a tick posts: what it erases is the entry's version, what it uploads is the file's. */
  lemma TickExact(dir: map<Path, Resource>, files: map<Path, Digest>, op: Op)
    ensures op in TickOps(dir, files, dir.Keys + files.Keys) <==>
            match op.kind
            case Erase =>
              && op.path !in files && op.path in dir && !dir[op.path].synced.Indeterminate?
              && dir[op.path].existOnServer && op.digest == dir[op.path].digest
            case Create =>
              && At(files, op.path) == Some(op.digest)
              && (op.path in dir ==> dir[op.path].synced.False? && !dir[op.path].existOnServer)
            case Update =>
              && At(files, op.path) == Some(op.digest) && op.path in dir
              && ((dir[op.path].synced.True? && dir[op.path].digest != op.digest) ||
                  (dir[op.path].synced.False? && dir[op.path].existOnServer))
  {
    hide TickOps;
    TickOpsOf(dir, files, dir.Keys + files.Keys, op);
  }

  /** Which entries it forgets: settled ones that neither the directory nor the server has. */
  lemma ForgottenExact(dir: map<Path, Resource>, files: map<Path, Digest>, p: Path)
    ensures p in Forgotten(dir, files, dir.Keys + files.Keys) <==>
            p in dir && p !in files && !dir[p].synced.Indeterminate? && !dir[p].existOnServer
  {
  }

  /** One more path brings exactly the operation decided for it. */
  lemma TickOpsStep(dir: map<Path, Resource>, files: map<Path, Digest>, over: set<Path>, p: Path)
    requires p !in over
    ensures var action := Decide(p, At(dir, p), At(files, p));
            && multiset(TickOps(dir, files, over + {p})) ==
               multiset(TickOps(dir, files, over)) + Posted(action)
            && Forgotten(dir, files, over + {p}) ==
               Forgotten(dir, files, over) + (if action.Forget? then {p} else {})
  {
    var action := Decide(p, At(dir, p), At(files, p));
    var ops, ops' := TickOps(dir, files, over), TickOps(dir, files, over + {p});
    DecidedPath(p, At(dir, p), At(files, p));
    forall op
      ensures op in ops' <==> op in ops || action == Post(op)
      ensures op in ops ==> action != Post(op)
    {
      TickOpsOf(dir, files, over, op);
      TickOpsOf(dir, files, over + {p}, op);
    }
    assert ops' == ops + (if action.Post? then {action.op} else {});
  }

  /** The regular files the directory iterator finds, with their digests. */
  function FilesOf(found: seq<(Path, Digest)>): map<Path, Digest> {
    ListingOf(found)
  }

  /** The entries the constructor makes of them. */
  function InitialEntries(files: map<Path, Digest>): map<Path, Resource> {
    map p | p in files :: Resource(Indeterminate, false, files[p])
  }

  ghost predicate DistinctFiles(found: seq<(Path, Digest)>) {
    forall i, j :: 0 <= i < j < |found| ==> found[i].0 != found[j].0
  }

  function PathsOf(found: seq<(Path, Digest)>): set<Path> {
    set i | 0 <= i < |found| :: found[i].0
  }

  lemma {:induction false} FilesOfAt(found: seq<(Path, Digest)>, n: nat)
    requires n <= |found|
    ensures FilesOf(found[..n]).Keys == PathsOf(found[..n])
    ensures DistinctFiles(found) ==> forall i :: 0 <= i < n ==> At(FilesOf(found[..n]), found[i].0) == Some(found[i].1)
  {
    if n > 0 {
      FilesOfAt(found, n - 1);
      assert found[..n][..n - 1] == found[..n - 1];
      PathsOfStep(found, n - 1);
    }
  }

  lemma PathsOfStep(found: seq<(Path, Digest)>, n: nat)
    requires n < |found|
    ensures PathsOf(found[..n + 1]) == PathsOf(found[..n]) + {found[n].0}
    ensures DistinctFiles(found) ==> found[n].0 !in PathsOf(found[..n])
  {
    forall p
      ensures p in PathsOf(found[..n + 1]) <==> p in PathsOf(found[..n]) || p == found[n].0
    {
      if p in PathsOf(found[..n]) {
        var i :| 0 <= i < n && found[..n][i].0 == p;
        assert found[..n + 1][i].0 == p;
      }
      if p == found[n].0 {
        assert found[..n + 1][n].0 == p;
      }
    }
  }

  class FileWatcher {
    const dir: Dir
    const scheduler: Scheduler

    ghost predicate Valid()
      reads this, dir
    {
      scheduler.dir == dir && dir.Valid()
    }

    /** Every file found at the start gets an entry whose state on the server is unknown. */
    constructor (dir: Dir, scheduler: Scheduler, found: seq<(Path, Digest)>)
      requires scheduler.dir == dir && dir.Valid()
      modifies dir
      ensures Valid() && this.dir == dir && this.scheduler == scheduler
      ensures dir.content == old(dir.content) + InitialEntries(FilesOf(found))
      ensures dir.content.Keys == old(dir.content.Keys) + PathsOf(found)
      ensures forall p :: p in FilesOf(found) ==>
                At(dir.content, p) == Some(Resource(Indeterminate, false, FilesOf(found)[p]))
    {
      hide ListingOf;
      this.dir, this.scheduler := dir, scheduler;
      new;
      hide InitialEntries, FilesOf;
      NoEntries(found);
      for i := 0 to |found|
        invariant dir.Valid()
        invariant dir.content == old(dir.content) + InitialEntries(FilesOf(found[..i]))
      {
        NextEntry(old(dir.content), found, i);
        var _ := dir.InsertOrAssign(found[i].0, Resource(Indeterminate, false, found[i].1));
      }
      assert found[..|found|] == found;
      FilesOfAt(found, |found|);
    }

    /** The callback of the first pass, for an entry whose file is gone. */
    method CheckEntry(path: Path)
      requires Valid() && path in dir.content
      modifies dir, scheduler`pool
      ensures Valid()
      ensures var action := Decide(path, At(old(dir.content), path), None);
              && dir.content == (if action.Forget? then old(dir.content) - {path} else old(dir.content))
              && dir.chain == (if action.Forget? then Without(old(dir.chain), path) else old(dir.chain))
              && scheduler.pool == old(scheduler.pool) + Posted(action)
      ensures var r := old(dir.content)[path];
              && dir.content == (if !r.synced.Indeterminate? && !r.existOnServer then old(dir.content) - {path}
                                 else old(dir.content))
              && scheduler.pool == old(scheduler.pool) +
                                   (if !r.synced.Indeterminate? && r.existOnServer
                                    then multiset{Op(Erase, path, r.digest)} else multiset{})
    {
      var rsrc := dir.Rsrc(path).value;
      if !rsrc.synced.Indeterminate? {
        if rsrc.existOnServer {
          scheduler.PostErase(path, rsrc.digest);
        } else {
          var _ := dir.Erase(path);
        }
      }
    }

    /** The callback of the first pass. `kept` and `rest` are the entries before and after this one. */
    method VisitEntry(path: Path, existing: set<Path>, ghost start: map<Path, Resource>, ghost over: set<Path>,
                      ghost kept: seq<Path>, ghost rest: seq<Path>)
      returns (ghost kept': seq<Path>)
      requires Valid() && dir.chain == kept + [path] + rest && path !in over
      requires dir.content == start - Forgotten(start, map[], over)
      modifies dir, scheduler`pool
      ensures Valid() && dir.chain == kept' + rest
      ensures var over' := if path in existing then over else over + {path};
              var posted := if path in existing then multiset{} else Posted(Decide(path, At(start, path), None));
              && dir.content == start - Forgotten(start, map[], over')
              && scheduler.pool == old(scheduler.pool) + posted
              && multiset(TickOps(start, map[], over')) == multiset(TickOps(start, map[], over)) + posted
    {
      hide TickOps, Forgotten, Decide;
      assert dir.chain[|kept|] == path;
      if path in existing {
        return kept + [path];
      }
      assert path in Elements(dir.chain);
      EntryStep(start, map[], over, path);
      WithoutOne(kept, path, rest);
      CheckEntry(path);
      return if Decide(path, At(start, path), None).Forget? then kept else kept + [path];
    }

    /**
     * The first pass: every starting entry is visited once, in the order of the hash map, though the
     * pass may erase the entry it is at.
     */
    method EraseMissing(existing: set<Path>)
      requires Valid()
      modifies dir, scheduler`pool
      ensures Valid()
      ensures var missing := old(dir.content).Keys - existing;
              && dir.content == old(dir.content) - Forgotten(old(dir.content), map[], missing)
              && scheduler.pool == old(scheduler.pool) + multiset(TickOps(old(dir.content), map[], missing))
    {
      hide TickOps, Forgotten, Decide, NoDup;
      ghost var start, all := dir.content, dir.chain;
      ghost var kept: seq<Path> := [];
      ghost var i := 0;
      NothingOver(start, map[]);
      assert Elements(all[..0]) - existing == {};
      var it := dir.Begin();
      while it.Some?
        invariant 0 <= i <= |all| && NoDup(all) && Valid()
        invariant it == if i < |all| then Some(all[i]) else None
        invariant dir.chain == kept + all[i..]
        invariant dir.content == start - Forgotten(start, map[], Elements(all[..i]) - existing)
        invariant scheduler.pool == old(scheduler.pool) +
                                    multiset(TickOps(start, map[], Elements(all[..i]) - existing))
        decreases |all| - i
      {
        var path := it.value;
        InChain(kept, all, i);
        it := dir.Next(path);
        OneMore(all, i, existing);
        kept := VisitEntry(path, existing, start, Elements(all[..i]) - existing, kept, all[i + 1..]);
        i := i + 1;
      }
      assert all[..i] == all;
    }

    /** The body of the second pass. */
    method CheckFile(path: Path, digest: Digest)
      requires Valid()
      modifies scheduler`pool
      ensures scheduler.pool == old(scheduler.pool) + Posted(Decide(path, At(dir.content, path), Some(digest)))
      ensures path !in dir.content ==> scheduler.pool == old(scheduler.pool) + multiset{Op(Create, path, digest)}
      ensures path in dir.content ==>
                var r := dir.content[path];
                scheduler.pool == old(scheduler.pool) +
                  (if r.synced.False? && !r.existOnServer then multiset{Op(Create, path, digest)}
                   else if r.synced.False? || (r.synced.True? && r.digest != digest)
                   then multiset{Op(Update, path, digest)} else multiset{})
    {
      if !dir.Contains(path) {
        scheduler.PostCreate(path, digest);
      } else {
        var rsrc := dir.Rsrc(path).value;
        if rsrc.synced == True {
          if rsrc.digest != digest {
            scheduler.PostUpdate(path, digest);
          }
        } else if rsrc.synced == False {
          if rsrc.existOnServer {
            scheduler.PostUpdate(path, digest);
          } else {
            scheduler.PostCreate(path, digest);
          }
        }
      }
    }

    /** The second pass, over the files found this time. */
    method ScheduleChanged(found: seq<(Path, Digest)>)
      requires Valid() && DistinctFiles(found)
      modifies scheduler`pool
      ensures scheduler.pool ==
              old(scheduler.pool) + multiset(TickOps(dir.content, FilesOf(found), FilesOf(found).Keys))
    {
      hide TickOps, Decide, ListingOf;
      ghost var files := FilesOf(found);
      NothingOver(dir.content, files);
      assert PathsOf(found[..0]) == {};
      FilesOfAt(found, |found|);
      assert found[..|found|] == found;
      for i := 0 to |found|
        invariant scheduler.pool == old(scheduler.pool) +
                                    multiset(TickOps(dir.content, files, PathsOf(found[..i])))
      {
        var (path, digest) := found[i];
        PathsOfStep(found, i);
        TickOpsStep(dir.content, files, PathsOf(found[..i]), path);
        assert At(files, path) == Some(digest);
        CheckFile(path, digest);
      }
    }

    /** A tick on a file system that stays as it is: together the passes carry out the decision table. */
    method Tick(found: seq<(Path, Digest)>)
      requires Valid() && DistinctFiles(found)
      modifies dir, scheduler`pool
      ensures Valid()
      ensures var files, start := FilesOf(found), old(dir.content);
              var over := start.Keys + files.Keys;
              && dir.content == start - Forgotten(start, files, over)
              && scheduler.pool == old(scheduler.pool) + multiset(TickOps(start, files, over))
    {
      ghost var files, start := FilesOf(found), dir.content;
      FilesOfAt(found, |found|);
      assert found[..|found|] == found;
      EraseMissing(PathsOf(found));
      TickSplits(start, files);
      ScheduleChanged(found);
    }
  }

  lemma NoEntries(found: seq<(Path, Digest)>)
    ensures InitialEntries(FilesOf(found[..0])) == map[]
  {
  }

  lemma NextEntry(base: map<Path, Resource>, found: seq<(Path, Digest)>, i: nat)
    requires i < |found|
    ensures base + InitialEntries(FilesOf(found[..i + 1])) ==
            (base + InitialEntries(FilesOf(found[..i])))[found[i].0 := Resource(Indeterminate, false, found[i].1)]
  {
    assert found[..i + 1][..i] == found[..i];
    assert InitialEntries(FilesOf(found[..i + 1])) ==
           InitialEntries(FilesOf(found[..i]))[found[i].0 := Resource(Indeterminate, false, found[i].1)];
  }

  lemma NothingOver(dir: map<Path, Resource>, files: map<Path, Digest>)
    ensures TickOps(dir, files, {}) == {} && Forgotten(dir, files, {}) == {}
  {
  }

  lemma InChain(kept: seq<Path>, all: seq<Path>, i: nat)
    requires i < |all| && NoDup(kept + all[i..])
    ensures kept + all[i..] == kept + [all[i]] + all[i + 1..]
    ensures After(kept + all[i..], all[i]) == if i + 1 < |all| then Some(all[i + 1]) else None
  {
    var s := kept + all[i..];
    assert s[|kept|] == all[i];
    AfterAt(s, |kept|);
  }

  lemma EntryStep(start: map<Path, Resource>, files: map<Path, Digest>, over: set<Path>, path: Path)
    requires path !in over
    ensures var content := start - Forgotten(start, files, over);
            var action := Decide(path, At(start, path), At(files, path));
            && At(content, path) == At(start, path)
            && start - Forgotten(start, files, over + {path}) ==
               (if action.Forget? then content - {path} else content)
            && multiset(TickOps(start, files, over + {path})) ==
               multiset(TickOps(start, files, over)) + Posted(action)
  {
    hide TickOps, Decide;
    TickOpsStep(start, files, over, path);
  }

  lemma OneMore(all: seq<Path>, i: nat, except: set<Path>)
    requires i < |all| && NoDup(all)
    ensures all[i] !in Elements(all[..i])
    ensures Elements(all[..i + 1]) - except ==
            if all[i] in except then Elements(all[..i]) - except else Elements(all[..i]) - except + {all[i]}
  {
  }

  /** The absent paths are the first pass's, the present ones the second's. */
  lemma TickSplits(dir: map<Path, Resource>, files: map<Path, Digest>)
    ensures var missing, all := dir.Keys - files.Keys, dir.Keys + files.Keys;
            && Forgotten(dir, files, all) == Forgotten(dir, map[], missing)
            && multiset(TickOps(dir, files, all)) ==
               multiset(TickOps(dir, map[], missing)) +
               multiset(TickOps(dir - Forgotten(dir, map[], missing), files, files.Keys))
  {
  }
}
