/** Job bodies, reply handlers and the initial synchronisation (core/scheduler.cpp). */
module Schedulers {
  import opened Wrappers
  import opened Bytes
  import opened Messages
  import opened TlvViews
  import opened Tools
  import opened Connections
  import opened Directories

  datatype Kind = Create | Update | Erase {
    function MsgType(): byte {
      match this case Create => CREATE case Update => UPDATE case Erase => ERASE
    }
  }

  /** A posted job, and the request it becomes on the strand. */
  datatype Op = Op(kind: Kind, path: Path, digest: Digest) {
    function Sign(): seq<byte> {
      CreateSign(path, digest)
    }
    /** The entry while the operation is under way. */
    function Entry(): Resource {
      Resource(Indeterminate, kind != Create, digest)
    }
  }

  // ---------------------------------------------------------------- replies

  /** A positive reply: the request's type, an ITEM with its sign, then an OK. */
  ghost predicate Confirms(raw: seq<byte>, msgType: byte, sign: seq<byte>) {
    && WellFormed(raw) && raw[0] == msgType
    && |Segments(raw)| >= 2
    && Segments(raw)[0] == Tlv(ITEM, sign)
    && Segments(raw)[1].kind == OK
  }

  lemma ConfirmsEncoding(msgType: byte, ts: seq<Tlv>, kind: Kind, sign: seq<byte>)
    requires Fits(ts)
    ensures Confirms(EncodeMessage(msgType, ts), kind.MsgType(), sign) <==>
            msgType == kind.MsgType() && |ts| >= 2 && ts[0] == Tlv(ITEM, sign) && ts[1].kind == OK
  {
    WellFormedEncoding(msgType, ts);
  }

  /** A reply confirms one operation at most: its sign tells path and digest, its type tells the kind. */
  lemma ConfirmsOne(raw: seq<byte>, a: Op, b: Op)
    requires NUL !in a.digest && NUL !in b.digest
    requires Confirms(raw, a.kind.MsgType(), a.Sign()) && Confirms(raw, b.kind.MsgType(), b.Sign())
    ensures a == b
  {
    SignInjective(a.path, a.digest, b.path, b.digest);
  }

  /** How a handler settles an entry. */
  function Settled(kind: Kind, rsrc: Resource, confirmed: bool): Resource {
    match kind
    case Create => if confirmed then rsrc.(synced := True, existOnServer := true) else rsrc.(synced := False)
    case Update => rsrc.(synced := FromBool(confirmed))
    case Erase => if confirmed then rsrc.(synced := True, existOnServer := false) else rsrc.(synced := False)
  }

  ghost predicate Confirmed(kind: Kind, sign: seq<byte>, response: Option<seq<byte>>) {
    response.Some? && Confirms(response.value, kind.MsgType(), sign)
  }

  /** The five-part condition of the handlers. */
  method CheckReply(kind: Kind, sign: seq<byte>, response: Message) returns (ok: bool)
    requires WellFormed(response.raw)
    ensures ok <==> Confirms(response.raw, kind.MsgType(), sign)
  {
    hide Parse;
    var view := new TlvView(response);
    if response.MsgType() != kind.MsgType() {
      return false;
    }
    var more := view.NextTlv();
    if !more || view.TlvType() != Some(ITEM) || view.Value() != Some(sign) {
      return false;
    }
    more := view.NextTlv();
    return more && view.TlvType() == Some(OK);
  }

  // ---------------------------------------------------------------- the sync plan

  /** The operation the initial synchronisation owes a path. */
  function SyncOp(p: Path, entry: Option<Resource>, listed: Option<Digest>): Option<Op> {
    match (entry, listed)
    case (None, None) => None
    case (None, Some(d)) => Some(Op(Erase, p, d))
    case (Some(r), None) => Some(Op(Create, p, r.digest))
    case (Some(r), Some(d)) => if r.digest != d then Some(Op(Update, p, r.digest)) else None
  }

  function SyncOps(dir: map<Path, Resource>, listing: map<Path, Digest>, over: set<Path>): set<Op> {
    set p | p in over && SyncOp(p, At(dir, p), At(listing, p)).Some? :: SyncOp(p, At(dir, p), At(listing, p)).value
  }

  lemma SyncOpsOf(dir: map<Path, Resource>, listing: map<Path, Digest>, over: set<Path>, op: Op)
    ensures op in SyncOps(dir, listing, over) <==>
            op.path in over && SyncOp(op.path, At(dir, op.path), At(listing, op.path)) == Some(op)
  {
  }

  /** The two parts of the client that the synchronisation changes. */
  datatype Book = Book(dir: map<Path, Resource>, pool: multiset<Op>)

  /** One listed item. */
  function VisitListed(b: Book, p: Path, d: Digest): Book {
    match SyncOp(p, At(b.dir, p), Some(d))
    case Some(op) => b.(pool := b.pool + multiset{op})
    case None => b.(dir := b.dir[p := Resource(True, true, b.dir[p].digest)])
  }

  function VisitAll(b: Book, items: seq<(Path, Digest)>): Book {
    if items == [] then b
    else
      var last := items[|items| - 1];
      VisitListed(VisitAll(b, items[..|items| - 1]), last.0, last.1)
  }

  function ListingOf(items: seq<(Path, Digest)>): map<Path, Digest> {
    if items == [] then map[]
    else
      var last := items[|items| - 1];
      ListingOf(items[..|items| - 1])[last.0 := last.1]
  }

  /** The second loop of `sync`. */
  function PostCreates(b: Book, listing: map<Path, Digest>): Book {
    b.(pool := b.pool + multiset(SyncOps(b.dir, listing, b.dir.Keys - listing.Keys)))
  }

  /** The items of a listing that carry a readable sign. */
  function ItemsOf(ts: seq<Tlv>): seq<(Path, Digest)> {
    if ts == [] then []
    else
      var last := ts[|ts| - 1];
      ItemsOf(ts[..|ts| - 1]) +
      if last.kind == ITEM && SplitSign(last.value).Some? then [SplitSign(last.value).value] else []
  }

  ghost predicate AllSplit(ts: seq<Tlv>) {
    forall t :: t in ts && t.kind == ITEM ==> NUL in t.value
  }

  /**
   * How `sync` ends: by reconnecting, by leaving the process, by an exception on an item without a
   * NUL, or with the listing it rebuilt.
   */
  datatype SyncOutcome = Reconnecting | Exited | Threw | Done(listing: map<Path, Digest>)

  /** A listing `sync` goes on with. */
  ghost predicate Listing(raw: seq<byte>) {
    WellFormed(raw) && raw[0] == SYNC && Segments(raw) != [] && Segments(raw)[0].kind != ERROR
  }

  /** The answers to SYNC that are taken for a listing; `sync` leaves the process on all others. */
  lemma ListingEncoding(msgType: byte, ts: seq<Tlv>)
    requires Fits(ts)
    ensures Listing(EncodeMessage(msgType, ts)) <==> msgType == SYNC && ts != [] && ts[0].kind != ERROR
  {
    WellFormedEncoding(msgType, ts);
  }

  ghost predicate SyncResult(before: Book, after: Book, raw: seq<byte>, outcome: SyncOutcome)
    requires Listing(raw)
  {
    var ts := Segments(raw);
    match outcome
    case Done(listing) =>
      && AllSplit(ts) && listing == ListingOf(ItemsOf(ts))
      && after == PostCreates(VisitAll(before, ItemsOf(ts)), listing)
    case Threw =>
      exists k :: 0 <= k < |ts| && AllSplit(ts[..k]) && !AllSplit(ts[..k + 1])
                  && after == VisitAll(before, ItemsOf(ts[..k]))
    case _ => false
  }

  class Scheduler {
    const dir: Dir
    var pool: multiset<Op>  // jobs posted to the io_context, in no order
    var strand: seq<Op>     // requests handed to the connection, served in order

    constructor (dir: Dir)
      ensures this.dir == dir && pool == multiset{} && strand == []
    {
      this.dir := dir;
      pool, strand := multiset{}, [];
    }

    ghost function Books(): Book
      reads this, dir
    {
      Book(dir.content, pool)
    }

    method PostCreate(path: Path, digest: Digest)
      modifies this`pool
      ensures pool == old(pool) + multiset{Op(Create, path, digest)}
    {
      pool := pool + multiset{Op(Create, path, digest)};
    }

    method PostUpdate(path: Path, digest: Digest)
      modifies this`pool
      ensures pool == old(pool) + multiset{Op(Update, path, digest)}
    {
      pool := pool + multiset{Op(Update, path, digest)};
    }

    method PostErase(path: Path, digest: Digest)
      modifies this`pool
      ensures pool == old(pool) + multiset{Op(Erase, path, digest)}
    {
      pool := pool + multiset{Op(Erase, path, digest)};
    }

    /** The request an ERASE job sends. */
    method EraseRequest(op: Op) returns (request: Message)
      requires op.kind == Erase && |op.Sign()| < TWO_31
      ensures fresh(request)
      ensures request.raw == EncodeMessage(ERASE, [Tlv(ITEM, op.path + [NUL] + op.digest), END_TLV])
    {
      request := new Message(ERASE);
      request.AddTlv(ITEM, CreateSign(op.path, op.digest));
      request.AddTlv(END);
      EncodeTlvsOne(END_TLV);
      EncodeCons(Tlv(ITEM, op.Sign()), [END_TLV]);
      assert [Tlv(ITEM, op.Sign())] + [END_TLV] == [Tlv(ITEM, op.Sign()), END_TLV];
    }

    /** A thread of the pool runs a job: mark the entry, then hand the request to the strand. */
    method RunTask(op: Op)
      requires dir.Valid() && op in pool
      modifies this, dir
      ensures dir.Valid()
      ensures dir.content == old(dir.content)[op.path := Resource(Indeterminate, op.kind != Create, op.digest)]
      ensures pool == old(pool) - multiset{op} && strand == old(strand) + [op]
    {
      pool := pool - multiset{op};
      var rsrc: Resource;
      match op.kind {
        case Create => rsrc := Resource(Indeterminate, false, op.digest);
        case Update => rsrc := Resource(Indeterminate, true, op.digest);
        case Erase => rsrc := Resource(Indeterminate, true, op.digest);
      }
      var _ := dir.InsertOrAssign(op.path, rsrc);
      strand := strand + [op];
    }

    method HandleCreate(path: Path, sign: seq<byte>, response: Option<Message>) returns (exited: bool)
      requires dir.Valid() && (response.Some? ==> WellFormed(response.value.raw))
      modifies dir
      ensures dir.Valid() && exited == (path !in old(dir.content))
      ensures exited ==> dir.content == old(dir.content)
      ensures !exited ==>
                var r := old(dir.content)[path];
                dir.content == old(dir.content)[path :=
                  if response.Some? && Confirms(response.value.raw, CREATE, sign) then Resource(True, true, r.digest)
                  else Resource(False, r.existOnServer, r.digest)]
    {
      var entry := dir.Rsrc(path);
      if entry.None? {
        return true;
      }
      var rsrc := entry.value;
      if response.None? {
        var _ := dir.InsertOrAssign(path, rsrc.(synced := False));
        return false;
      }
      var ok := CheckReply(Create, sign, response.value);
      if ok {
        var _ := dir.InsertOrAssign(path, rsrc.(synced := True).(existOnServer := true));
      } else {
        var _ := dir.InsertOrAssign(path, rsrc.(synced := False));
      }
      return false;
    }

    method HandleUpdate(path: Path, sign: seq<byte>, response: Option<Message>) returns (exited: bool)
      requires dir.Valid() && (response.Some? ==> WellFormed(response.value.raw))
      modifies dir
      ensures dir.Valid() && exited == (path !in old(dir.content))
      ensures exited ==> dir.content == old(dir.content)
      ensures !exited ==>
                var r := old(dir.content)[path];
                dir.content == old(dir.content)[path :=
                  if response.Some? && Confirms(response.value.raw, UPDATE, sign)
                  then Resource(True, r.existOnServer, r.digest)
                  else Resource(False, r.existOnServer, r.digest)]
    {
      var entry := dir.Rsrc(path);
      if entry.None? {
        return true;
      }
      var rsrc := entry.value;
      if response.None? {
        var _ := dir.InsertOrAssign(path, rsrc.(synced := False));
        return false;
      }
      var ok := CheckReply(Update, sign, response.value);
      var _ := dir.InsertOrAssign(path, rsrc.(synced := if ok then True else False));
      return false;
    }

    method HandleErase(path: Path, sign: seq<byte>, response: Option<Message>) returns (exited: bool)
      requires dir.Valid() && (response.Some? ==> WellFormed(response.value.raw))
      modifies dir
      ensures dir.Valid() && exited == (path !in old(dir.content))
      ensures exited ==> dir.content == old(dir.content)
      ensures !exited ==>
                var r := old(dir.content)[path];
                dir.content == old(dir.content)[path :=
                  if response.Some? && Confirms(response.value.raw, ERASE, sign) then Resource(True, false, r.digest)
                  else Resource(False, r.existOnServer, r.digest)]
    {
      var entry := dir.Rsrc(path);
      if entry.None? {
        return true;
      }
      var rsrc := entry.value;
      if response.None? {
        var _ := dir.InsertOrAssign(path, rsrc.(synced := False));
        return false;
      }
      var ok := CheckReply(Erase, sign, response.value);
      if ok {
        var _ := dir.InsertOrAssign(path, rsrc.(synced := True).(existOnServer := false));
      } else {
        var _ := dir.InsertOrAssign(path, rsrc.(synced := False));
      }
      return false;
    }

    /** The body of the first loop of `sync` for one readable item. */
    method VisitItem(sDir: Dir, path: Path, digest: Digest)
      requires dir.Valid() && sDir.Valid() && sDir != dir
      modifies this`pool, dir, sDir
      ensures dir.Valid() && sDir.Valid()
      ensures path !in old(dir.content) ==>
                dir.content == old(dir.content) && pool == old(pool) + multiset{Op(Erase, path, digest)}
      ensures path in old(dir.content) && old(dir.content)[path].digest != digest ==>
                && dir.content == old(dir.content)
                && pool == old(pool) + multiset{Op(Update, path, old(dir.content)[path].digest)}
      ensures path in old(dir.content) && old(dir.content)[path].digest == digest ==>
                dir.content == old(dir.content)[path := Resource(True, true, digest)] && pool == old(pool)
      ensures Books() == VisitListed(old(Books()), path, digest)
      ensures sDir.content == old(sDir.content)[path := Resource(Indeterminate, true, digest)]
    {
      var _ := sDir.InsertOrAssign(path, Resource(Indeterminate, true, digest));
      if !dir.Contains(path) {
        PostErase(path, digest);
      } else {
        var rsrc := dir.Rsrc(path).value;
        if rsrc.digest != digest {
          PostUpdate(path, rsrc.digest);
        } else {
          var _ := dir.InsertOrAssign(path, rsrc.(synced := True).(existOnServer := true));
        }
      }
    }

    /** The second loop of `sync`. */
    method CreateUnlisted(sDir: Dir)
      requires dir.Valid()
      modifies this`pool
      ensures pool == old(pool) + multiset(set p | p in dir.content && p !in sDir.content ::
                                             Op(Create, p, dir.content[p].digest))
      ensures pool == old(pool) + multiset(SyncOps(dir.content, DigestsOf(sDir.content),
                                                   dir.content.Keys - sDir.content.Keys))
    {
      ghost var listing := DigestsOf(sDir.content);
      ghost var i := 0;
      var it := dir.Begin();
      while it.Some?
        invariant 0 <= i <= |dir.chain|
        invariant it == if i < |dir.chain| then Some(dir.chain[i]) else None
        invariant pool == old(pool) + multiset(SyncOps(dir.content, listing,
                                                       Elements(dir.chain[..i]) - sDir.content.Keys))
        decreases |dir.chain| - i
      {
        var path := it.value;
        var rsrc := dir.Rsrc(path).value;
        AfterAt(dir.chain, i);
        it := dir.Next(path);
        AddPath(dir.content, listing, dir.chain, i, sDir.content.Keys);
        if !sDir.Contains(path) {
          PostCreate(path, rsrc.digest);
        }
        i := i + 1;
      }
      assert dir.chain[..i] == dir.chain;
      UnlistedOps(dir.content, listing);
    }

    method Sync(conn: Connection, fault: WriteFault) returns (outcome: SyncOutcome)
      requires dir.Valid()
      requires Receive(conn.inbox, [], true) != Undefined
      requires var r := Receive(conn.inbox, [], true); r.Received? ==> WellFormed(r.message)
      modifies this`pool, dir, conn
      ensures dir.Valid()
      ensures fault.Broken? || (fault.Healthy? && Receive(old(conn.inbox), [], true).Lost?) ==>
                outcome == Reconnecting && Books() == old(Books())
      ensures fault.Rejected? ==> outcome == Exited && Books() == old(Books())
      ensures fault.Healthy? && Receive(old(conn.inbox), [], true).Received? ==>
                var r := Receive(old(conn.inbox), [], true);
                && conn.inbox == r.rest
                && conn.outbox == old(conn.outbox) + FrameBytes(EncodeMessage(SYNC, [END_TLV]))
                && (if Listing(r.message) then SyncResult(old(Books()), Books(), r.message, outcome)
                    else outcome == Exited && Books() == old(Books()))
                && (r.message[0] != SYNC || Segments(r.message) == [] || Segments(r.message)[0].kind == ERROR ==>
                      outcome == Exited && Books() == old(Books()))
    {
      hide Receive, Parse, SyncResult, FrameBytes, EncodeMessage;
      var request := new Message(SYNC);
      request.AddTlv(END);
      SyncRequest();
      assert request.raw == EncodeMessage(SYNC, [END_TLV]);
      var status, response := conn.SyncPost(request, fault);
      if status.Indeterminate? {
        return Reconnecting;
      }
      if status.False? {
        return Exited;
      }
      var responseMsg := new Message.FromBuffer(response.value);
      var view := new TlvView(responseMsg);
      var more := view.NextTlv();
      if responseMsg.MsgType() != SYNC || !more || view.TlvType() == Some(ERROR) {
        return Exited;
      }
      outcome := ApplyListing(view);
    }

    /** The body of the first loop of `sync` for one segment. */
    method VisitSegment(sDir: Dir, segment: Tlv, ghost before: Book, ghost done: seq<Tlv>) returns (readable: bool)
      requires dir.Valid() && sDir.Valid() && sDir != dir
      requires AllSplit(done)
      requires Books() == VisitAll(before, ItemsOf(done)) && DigestsOf(sDir.content) == ListingOf(ItemsOf(done))
      modifies this`pool, dir, sDir
      ensures dir.Valid() && sDir.Valid()
      ensures readable == AllSplit(done + [segment])
      ensures segment.kind != ITEM ==>
                readable && Books() == old(Books()) && sDir.content == old(sDir.content)
      ensures segment.kind == ITEM ==> readable == (NUL in segment.value)
      ensures !readable ==> Books() == VisitAll(before, ItemsOf(done))
      ensures readable ==>
                && Books() == VisitAll(before, ItemsOf(done + [segment]))
                && DigestsOf(sDir.content) == ListingOf(ItemsOf(done + [segment]))
    {
      hide VisitAll, ItemsOf, ListingOf, VisitListed;
      NextItem(done, segment);
      if segment.kind == ITEM {
        var split := SplitSign(segment.value);
        if split.None? {
          assert segment in done + [segment];
          return false;
        }
        VisitItem(sDir, split.value.0, split.value.1);
        NextVisit(before, ItemsOf(done), split.value);
      } else {
        assert ItemsOf(done + [segment]) == ItemsOf(done);
      }
      return true;
    }

    /** Both loops of `sync`, from the first segment on. */
    method ApplyListing(view: TlvView) returns (outcome: SyncOutcome)
      requires dir.Valid() && view.Valid() && view.valid && Listing(view.raw)
      requires Segments(view.raw) == [view.Current()] + view.Remaining()
      modifies this`pool, dir, view
      ensures dir.Valid() && SyncResult(old(Books()), Books(), view.raw, outcome)
    {
      hide Parse, VisitAll, ItemsOf, ListingOf, SyncOps, AllSplit;
      ghost var ts := Segments(view.raw);
      ghost var done: seq<Tlv> := [];
      NothingVisited(Books());
      var sDir := new Dir();
      var more := true;
      while more
        invariant dir.Valid() && sDir.Valid() && fresh(sDir) && view.Valid()
        invariant more ==> view.valid && ts == done + ([view.Current()] + view.Remaining())
        invariant !more ==> ts == done
        invariant AllSplit(done)
        invariant Books() == VisitAll(old(Books()), ItemsOf(done))
        invariant DigestsOf(sDir.content) == ListingOf(ItemsOf(done))
        decreases |ts| - |done|, more
      {
        ghost var next := done + [view.Current()];
        Prefixes(ts, done, view.Current(), view.Remaining());
        var segment := Tlv(view.tlvType, view.raw[view.dataBegin..view.dataEnd]);
        var readable := VisitSegment(sDir, segment, old(Books()), done);
        if !readable {
          return Threw;
        }
        done := next;
        more := view.NextTlv();
      }
      CreateUnlisted(sDir);
      return Done(map p | p in sDir.content :: sDir.content[p].digest);
    }
  }

  lemma UnlistedOps(dir: map<Path, Resource>, listing: map<Path, Digest>)
    ensures SyncOps(dir, listing, dir.Keys - listing.Keys) ==
            set p | p in dir && p !in listing :: Op(Create, p, dir[p].digest)
  {
    hide SyncOps;
    forall op
      ensures op in SyncOps(dir, listing, dir.Keys - listing.Keys) <==>
              op.path in dir && op.path !in listing && op == Op(Create, op.path, dir[op.path].digest)
    {
      SyncOpsOf(dir, listing, dir.Keys - listing.Keys, op);
    }
  }

  lemma Prefixes<T>(s: seq<T>, a: seq<T>, x: T, b: seq<T>)
    requires s == a + ([x] + b)
    ensures |a| < |s| && s[..|a|] == a && s[..|a| + 1] == a + [x] && s == (a + [x]) + b
  {
  }

  function DigestsOf(dir: map<Path, Resource>): (m: map<Path, Digest>)
    ensures m.Keys == dir.Keys
  {
    map p | p in dir :: dir[p].digest
  }

  lemma SyncRequest()
    ensures [SYNC] + EncodeTlv(END_TLV) == EncodeMessage(SYNC, [END_TLV])
  {
    EncodeTlvsOne(END_TLV);
  }

  lemma NextItem(ts: seq<Tlv>, t: Tlv)
    ensures ItemsOf(ts + [t]) == ItemsOf(ts) +
                                 if t.kind == ITEM && SplitSign(t.value).Some? then [SplitSign(t.value).value] else []
    ensures AllSplit(ts) && (t.kind == ITEM ==> NUL in t.value) ==> AllSplit(ts + [t])
  {
    assert (ts + [t])[..|ts|] == ts;
  }

  lemma NothingVisited(b: Book)
    ensures AllSplit([]) && VisitAll(b, ItemsOf([])) == b && ListingOf(ItemsOf([])) == map[] == DigestsOf(map[])
  {
  }

  lemma NextVisit(b: Book, items: seq<(Path, Digest)>, item: (Path, Digest))
    ensures VisitAll(b, items + [item]) == VisitListed(VisitAll(b, items), item.0, item.1)
    ensures ListingOf(items + [item]) == ListingOf(items)[item.0 := item.1]
  {
    assert (items + [item])[..|items|] == items;
  }

  /** One more path brings exactly the operation owed to it. */
  lemma SyncOpsStep(dir: map<Path, Resource>, listing: map<Path, Digest>, over: set<Path>, p: Path)
    requires p !in over
    ensures var op := SyncOp(p, At(dir, p), At(listing, p));
            multiset(SyncOps(dir, listing, over + {p})) ==
            multiset(SyncOps(dir, listing, over)) + (if op.Some? then multiset{op.value} else multiset{})
  {
    hide SyncOps;
    var op := SyncOp(p, At(dir, p), At(listing, p));
    var ops, ops' := SyncOps(dir, listing, over), SyncOps(dir, listing, over + {p});
    forall o
      ensures o in ops' <==> o in ops || op == Some(o)
      ensures o in ops ==> op != Some(o)
    {
      SyncOpsOf(dir, listing, over, o);
      SyncOpsOf(dir, listing, over + {p}, o);
    }
    assert ops' == ops + (if op.Some? then {op.value} else {});
  }

  lemma AddPath(dir: map<Path, Resource>, listing: map<Path, Digest>, chain: seq<Path>, i: nat, except: set<Path>)
    requires NoDup(chain) && i < |chain|
    ensures var p := chain[i];
            var ops := SyncOps(dir, listing, Elements(chain[..i]) - except);
            multiset(SyncOps(dir, listing, Elements(chain[..i + 1]) - except)) ==
            multiset(ops) + if p in except || SyncOp(p, At(dir, p), At(listing, p)).None? then multiset{}
                            else multiset{SyncOp(p, At(dir, p), At(listing, p)).value}
  {
    hide SyncOps, SyncOp;
    var p := chain[i];
    var before, after := Elements(chain[..i]) - except, Elements(chain[..i + 1]) - except;
    assert after == if p in except then before else before + {p};
    assert p !in before;
    SyncOpsStep(dir, listing, before, p);
  }
}
