/** What the initial synchronisation achieves (core/scheduler.cpp, sync). */
module SyncPlan {
  import opened Wrappers
  import opened Bytes
  import opened Messages
  import opened TlvViews
  import opened Tools
  import opened Connections
  import opened Directories
  import opened Schedulers

  // ---------------------------------------------------------------- the plan in closed form

  ghost predicate DistinctPaths(items: seq<(Path, Digest)>) {
    forall i, j :: 0 <= i < j < |items| ==> items[i].0 != items[j].0
  }

  /** The entries after the first loop. */
  function SyncedDir(dir: map<Path, Resource>, listing: map<Path, Digest>): map<Path, Resource> {
    map p | p in dir ::
      if p in listing && dir[p].digest == listing[p] then Resource(True, true, dir[p].digest) else dir[p]
  }

  lemma {:induction false} ListingAt(items: seq<(Path, Digest)>)
    ensures ListingOf(items).Keys == set i | 0 <= i < |items| :: items[i].0
  {
    if items != [] {
      var front := items[..|items| - 1];
      ListingAt(front);
      assert forall i :: 0 <= i < |front| ==> items[i] == front[i];
      forall p
        ensures p in ListingOf(items) <==> p in set i | 0 <= i < |items| :: items[i].0
      {
        if p in ListingOf(front) {
          var i :| 0 <= i < |front| && front[i].0 == p;
          assert items[i].0 == p;
        }
        if p == items[|items| - 1].0 {
          assert items[|items| - 1].0 == p;
        }
      }
    }
  }

  lemma OneMoreListed(front: seq<(Path, Digest)>, p: Path, d: Digest)
    requires DistinctPaths(front) && p !in ListingOf(front)
    ensures DistinctPaths(front + [(p, d)]) && ListingOf(front + [(p, d)]) == ListingOf(front)[p := d]
  {
    var items := front + [(p, d)];
    assert items[..|front|] == front;
    ListingAt(front);
    hide ListingOf;
    forall i, j | 0 <= i < j < |items|
      ensures items[i].0 != items[j].0
    {
      assert items[i] == front[i] && front[i].0 in ListingOf(front);
    }
  }

  /** Whatever files a server has, there is such a listing of them. */
  lemma {:induction false} ServerCanList(server: map<Path, Digest>)
    ensures exists items: seq<(Path, Digest)> :: DistinctPaths(items) && ListingOf(items) == server
  {
    if server == map[] {
      var none: seq<(Path, Digest)> := [];
      assert DistinctPaths(none) && ListingOf(none) == server;
    } else {
      hide ListingOf, DistinctPaths;
      var p :| p in server;
      ServerCanList(server - {p});
      var front: seq<(Path, Digest)> :| DistinctPaths(front) && ListingOf(front) == server - {p};
      OneMoreListed(front, p, server[p]);
      assert ListingOf(front)[p := server[p]] == server;
    }
  }

  /** The first loop, for a listing without repeated paths: the order of the items does not matter. */
  lemma {:induction false} VisitAllClosed(b: Book, items: seq<(Path, Digest)>)
    requires DistinctPaths(items)
    ensures var listing := ListingOf(items);
            VisitAll(b, items) ==
            Book(SyncedDir(b.dir, listing), b.pool + multiset(SyncOps(b.dir, listing, listing.Keys)))
  {
    if items == [] {
      assert SyncedDir(b.dir, map[]) == b.dir;
      assert SyncOps(b.dir, map[], {}) == {};
    } else {
      var front := items[..|items| - 1];
      var (p, d) := items[|items| - 1];
      VisitAllClosed(b, front);
      ListingAt(front);
      VisitOneMore(b, ListingOf(front), p, d);
    }
  }

  lemma VisitOneMore(b: Book, listing: map<Path, Digest>, p: Path, d: Digest)
    requires p !in listing
    ensures var before := Book(SyncedDir(b.dir, listing), b.pool + multiset(SyncOps(b.dir, listing, listing.Keys)));
            var listing' := listing[p := d];
            VisitListed(before, p, d) ==
            Book(SyncedDir(b.dir, listing'), b.pool + multiset(SyncOps(b.dir, listing', listing'.Keys)))
  {
    hide SyncOps, SyncedDir;
    var listing' := listing[p := d];
    assert listing'.Keys == listing.Keys + {p};
    OtherListings(b.dir, listing, p, d);
    SyncOpsStep(b.dir, listing', listing.Keys, p);
    SyncedDirStep(b.dir, listing, p, d);
  }

  lemma OtherListings(dir: map<Path, Resource>, listing: map<Path, Digest>, p: Path, d: Digest)
    requires p !in listing
    ensures SyncOps(dir, listing[p := d], listing.Keys) == SyncOps(dir, listing, listing.Keys)
  {
    hide SyncOps, SyncOp;
    forall op
      ensures op in SyncOps(dir, listing[p := d], listing.Keys) <==> op in SyncOps(dir, listing, listing.Keys)
    {
      SyncOpsOf(dir, listing, listing.Keys, op);
      SyncOpsOf(dir, listing[p := d], listing.Keys, op);
    }
  }

  lemma SyncedDirStep(dir: map<Path, Resource>, listing: map<Path, Digest>, p: Path, d: Digest)
    requires p !in listing
    ensures At(SyncedDir(dir, listing), p) == At(dir, p)
    ensures SyncedDir(dir, listing[p := d]) ==
            if p in dir && dir[p].digest == d then SyncedDir(dir, listing)[p := Resource(True, true, d)]
            else SyncedDir(dir, listing)
  {
  }

  /** Both loops: every path gets the operation it is owed, once, whatever the order of the listing. */
  lemma SyncPosts(b: Book, items: seq<(Path, Digest)>)
    requires DistinctPaths(items)
    ensures var listing := ListingOf(items);
            PostCreates(VisitAll(b, items), listing) ==
            Book(SyncedDir(b.dir, listing),
                 b.pool + multiset(SyncOps(b.dir, listing, b.dir.Keys + listing.Keys)))
  {
    var listing := ListingOf(items);
    VisitAllClosed(b, items);
    PlanSplits(b.dir, SyncedDir(b.dir, listing), listing);
  }

  lemma PlanSplits(dir: map<Path, Resource>, dir': map<Path, Resource>, listing: map<Path, Digest>)
    requires dir'.Keys - listing.Keys == dir.Keys - listing.Keys
    requires forall p :: p in dir && p in dir' && p !in listing ==> dir'[p].digest == dir[p].digest
    ensures multiset(SyncOps(dir, listing, dir.Keys + listing.Keys)) ==
            multiset(SyncOps(dir, listing, listing.Keys)) +
            multiset(SyncOps(dir', listing, dir'.Keys - listing.Keys))
  {
    var all := SyncOps(dir, listing, dir.Keys + listing.Keys);
    var listed := SyncOps(dir, listing, listing.Keys);
    var unlisted := SyncOps(dir', listing, dir'.Keys - listing.Keys);
    forall op
      ensures op in all <==> op in listed || op in unlisted
      ensures !(op in listed && op in unlisted)
    {
      SyncOpsOf(dir, listing, dir.Keys + listing.Keys, op);
      SyncOpsOf(dir, listing, listing.Keys, op);
      SyncOpsOf(dir', listing, dir'.Keys - listing.Keys, op);
      assert op.path in dir.Keys - listing.Keys <==> op.path in dir'.Keys - listing.Keys;
    }
    assert all == listed + unlisted && listed !! unlisted;
  }

  /** Which jobs `sync` posts: what it erases is the listed version, what it uploads is the client's. */
  lemma PlanExact(dir: map<Path, Resource>, listing: map<Path, Digest>, op: Op)
    ensures op in SyncOps(dir, listing, dir.Keys + listing.Keys) <==>
            match op.kind
            case Erase => op.path !in dir && At(listing, op.path) == Some(op.digest)
            case Create => op.path in dir && op.path !in listing && op.digest == dir[op.path].digest
            case Update =>
              && op.path in dir && op.path in listing
              && listing[op.path] != dir[op.path].digest == op.digest
  {
    hide SyncOps;
    SyncOpsOf(dir, listing, dir.Keys + listing.Keys, op);
  }

  // ---------------------------------------------------------------- the plan is right

  /** The effect of a carried-out operation on the server. */
  function Apply(server: map<Path, Digest>, op: Op): map<Path, Digest> {
    match op.kind
    case Erase => server - {op.path}
    case _ => server[op.path := op.digest]
  }

  function ApplyAll(server: map<Path, Digest>, ops: seq<Op>): map<Path, Digest> {
    if ops == [] then server else Apply(ApplyAll(server, ops[..|ops| - 1]), ops[|ops| - 1])
  }

  lemma ApplyAt(server: map<Path, Digest>, op: Op, p: Path)
    ensures At(Apply(server, op), p) ==
            if op.path != p then At(server, p) else if op.kind == Erase then None else Some(op.digest)
  {
  }

  lemma {:induction false} ApplyAllAt(server: map<Path, Digest>, ops: seq<Op>, p: Path)
    requires forall i, j :: 0 <= i < j < |ops| ==> ops[i].path != ops[j].path
    ensures forall i :: 0 <= i < |ops| && ops[i].path == p ==>
                          At(ApplyAll(server, ops), p) == if ops[i].kind == Erase then None else Some(ops[i].digest)
    ensures (forall i :: 0 <= i < |ops| ==> ops[i].path != p) ==> At(ApplyAll(server, ops), p) == At(server, p)
  {
    hide Apply;
    if ops != [] {
      var front, last := ops[..|ops| - 1], ops[|ops| - 1];
      assert forall i :: 0 <= i < |front| ==> front[i] == ops[i];
      ApplyAllAt(server, front, p);
      ApplyAt(ApplyAll(server, front), last, p);
    }
  }

  /** Carried out in any order, the plan turns the server's files into the client's. */
  lemma SyncPlanCorrect(dir: map<Path, Resource>, listing: map<Path, Digest>, ops: seq<Op>)
    requires multiset(ops) == multiset(SyncOps(dir, listing, dir.Keys + listing.Keys))
    ensures ApplyAll(listing, ops) == DigestsOf(dir)
  {
    hide SyncOps, SyncOp, DigestsOf, ApplyAll;
    var plan := SyncOps(dir, listing, dir.Keys + listing.Keys);
    assert forall op :: op in ops <==> op in multiset(ops);
    assert forall op :: op in multiset(ops) <==> op in plan;
    OneOpPerPath(dir, listing, ops);
    forall p
      ensures At(ApplyAll(listing, ops), p) == At(DigestsOf(dir), p)
    {
      ApplyAllAt(listing, ops, p);
      PlanFits(dir, listing, p);
      match SyncOp(p, At(dir, p), At(listing, p))
      case Some(op) =>
        SyncOpsOf(dir, listing, dir.Keys + listing.Keys, op);
        assert op in ops;
        var i :| 0 <= i < |ops| && ops[i] == op;
      case None =>
        forall i | 0 <= i < |ops|
          ensures ops[i].path != p
        {
          assert ops[i] in ops;
          SyncOpsOf(dir, listing, dir.Keys + listing.Keys, ops[i]);
        }
    }
    SameMap(ApplyAll(listing, ops), DigestsOf(dir));
  }

  /** What the client has for a path is what its operation, if any, brings, and what is listed otherwise. */
  lemma PlanFits(dir: map<Path, Resource>, listing: map<Path, Digest>, p: Path)
    ensures At(DigestsOf(dir), p) ==
            match SyncOp(p, At(dir, p), At(listing, p))
            case Some(op) => if op.kind == Erase then None else Some(op.digest)
            case None => At(listing, p)
    ensures var op := SyncOp(p, At(dir, p), At(listing, p));
            op.Some? ==> op.value.path == p && p in dir.Keys + listing.Keys
  {
  }

  lemma SameMap<K, V>(a: map<K, V>, b: map<K, V>)
    requires forall k :: At(a, k) == At(b, k)
    ensures a == b
  {
    assert forall k :: k in a <==> At(a, k).Some?;
    assert forall k :: k in b <==> At(b, k).Some?;
    assert forall k :: k in a ==> a[k] == At(a, k).value == At(b, k).value == b[k];
  }

  /** No two operations of the plan, wherever they stand, are about one path. */
  lemma OneOpPerPath(dir: map<Path, Resource>, listing: map<Path, Digest>, ops: seq<Op>)
    requires multiset(ops) == multiset(SyncOps(dir, listing, dir.Keys + listing.Keys))
    ensures forall i, j :: 0 <= i < j < |ops| ==> ops[i].path != ops[j].path
  {
    var plan := SyncOps(dir, listing, dir.Keys + listing.Keys);
    forall i, j | 0 <= i < j < |ops|
      ensures ops[i].path != ops[j].path
    {
      assert ops[i] in multiset(ops) && ops[j] in multiset(ops);
      SyncOpsOf(dir, listing, dir.Keys + listing.Keys, ops[i]);
      SyncOpsOf(dir, listing, dir.Keys + listing.Keys, ops[j]);
      NoRepeat(ops, i, j);
    }
  }

  lemma NoRepeat<T>(s: seq<T>, i: nat, j: nat)
    requires i < j < |s| && multiset(s)[s[i]] <= 1
    ensures s[i] != s[j]
  {
    assert s == s[..j] + [s[j]] + s[j + 1..];
    assert s[..j][i] == s[i];
    assert multiset(s) == multiset(s[..j]) + multiset{s[j]} + multiset(s[j + 1..]);
    assert s[i] in multiset(s[..j]);
  }

  // ---------------------------------------------------------------- from the wire

  /** The segments of a server's answer to SYNC. */
  function ListingTlvs(items: seq<(Path, Digest)>): (ts: seq<Tlv>)
    ensures |ts| == |items| + 1
  {
    seq(|items|, i requires 0 <= i < |items| => Tlv(ITEM, CreateSign(items[i].0, items[i].1))) + [END_TLV]
  }

  /** Digests as MD5 strings are: without NUL and not empty. */
  ghost predicate GoodDigests(items: seq<(Path, Digest)>) {
    forall i :: 0 <= i < |items| ==> items[i].1 != [] && NUL !in items[i].1
  }

  /** An answer to SYNC cut into frames at segment boundaries, of which the last one carries a segment. */
  ghost predicate ListingFrames(items: seq<(Path, Digest)>, parts: seq<Part>) {
    && parts != [] && parts[|parts| - 1].tlvs != []
    && parts[0].msgType == SYNC
    && AllTlvs(parts) == ListingTlvs(items)
    && Fits(ListingTlvs(items))
    && (forall i :: 0 <= i < |parts| ==> |parts[i].Payload()| < TWO_64)
  }

  lemma NotEndedBeforeEnd(items: seq<(Path, Digest)>, n: nat)
    requires GoodDigests(items) && n <= |items|
    ensures !SeemsEnded(ListingTlvs(items)[..n])
  {
    if n > 0 {
      var v := CreateSign(items[n - 1].0, items[n - 1].1);
      assert ListingTlvs(items)[..n][n - 1] == Tlv(ITEM, v);
      assert v[|v| - 1] == items[n - 1].1[|items[n - 1].1| - 1];
      if |v| >= 5 {
        assert v[|v| - 5..][4] == v[|v| - 1];
      }
    }
  }

  lemma ListingIsFramed(items: seq<(Path, Digest)>, parts: seq<Part>)
    requires GoodDigests(items) && ListingFrames(items, parts)
    ensures Framing(parts)
  {
    hide SeemsEnded;
    forall k | 0 < k < |parts|
      ensures !SeemsEnded(AllTlvs(parts[..k]))
    {
      FramesNotEnded(items, parts, k);
    }
    ListingEnds(items);
  }

  lemma ListingEnds(items: seq<(Path, Digest)>)
    ensures SeemsEnded(ListingTlvs(items))
  {
    assert ListingTlvs(items)[|items|] == END_TLV;
  }

  lemma FramesNotEnded(items: seq<(Path, Digest)>, parts: seq<Part>, k: nat)
    requires GoodDigests(items) && ListingFrames(items, parts) && 0 < k < |parts|
    ensures !SeemsEnded(AllTlvs(parts[..k]))
  {
    hide SeemsEnded, ListingTlvs;
    var ts, last := ListingTlvs(items), |parts| - 1;
    AllTlvsPrefix(parts[..last], k);
    assert parts[..last][..k] == parts[..k];
    var n := |AllTlvs(parts[..k])|;
    assert AllTlvs(parts[..k]) == ts[..n];
    NotEndedBeforeEnd(items, n);
  }

  lemma {:induction false} ItemsRecovered(items: seq<(Path, Digest)>, n: nat)
    requires GoodDigests(items) && n <= |items|
    ensures ItemsOf(ListingTlvs(items)[..n]) == items[..n] && AllSplit(ListingTlvs(items)[..n])
  {
    hide SplitSign;
    var ts := ListingTlvs(items);
    if n > 0 {
      ItemsRecovered(items, n - 1);
      var (p, d) := items[n - 1];
      assert ts[..n] == ts[..n - 1] + [ts[n - 1]];
      assert ts[n - 1] == Tlv(ITEM, CreateSign(p, d));
      SignRoundTrip(p, d);
      NextItem(ts[..n - 1], ts[n - 1]);
    }
  }

  /**
   * End to end: however the server cuts its listing into frames, the client reads exactly that
   * answer, accepts it, and recovers exactly the listed items.
   */
  lemma ListingEndToEnd(items: seq<(Path, Digest)>, parts: seq<Part>, rest: seq<byte>)
    requires GoodDigests(items) && ListingFrames(items, parts)
    ensures Receive(Wire(parts) + rest, [], true) == Received(Whole(parts), rest)
    ensures Listing(Whole(parts))
    ensures AllSplit(Segments(Whole(parts))) && ItemsOf(Segments(Whole(parts))) == items
  {
    hide Receive, Framing;
    ListingIsFramed(items, parts);
    ReceiveWhole(parts, rest);
    var ts := ListingTlvs(items);
    ItemsRecovered(items, |items|);
    assert items[..|items|] == items;
    assert ts == ts[..|items|] + [END_TLV];
    NextItem(ts[..|items|], END_TLV);
    assert ts[0].kind != ERROR;
  }

  /** An ITEM without a NUL raises, whatever comes after it, with the items before it dealt with. */
  lemma SyncThrows(good: seq<Tlv>, bad: Tlv, more: seq<Tlv>, before: Book, after: Book, outcome: SyncOutcome)
    requires Fits(good + [bad] + more) && Listing(EncodeMessage(SYNC, good + [bad] + more))
    requires bad.kind == ITEM && NUL !in bad.value
    requires forall t :: t in good && t.kind == ITEM ==> NUL in t.value
    requires SyncResult(before, after, EncodeMessage(SYNC, good + [bad] + more), outcome)
    ensures outcome == Threw && after == VisitAll(before, ItemsOf(good))
  {
    hide VisitAll, ItemsOf, EncodeMessage;
    var ts := good + [bad] + more;
    WellFormedEncoding(SYNC, ts);
    assert ts[|good|] == bad;
    assert bad in ts && !AllSplit(ts);
    forall k | 0 <= k <= |ts|
      ensures AllSplit(ts[..k]) <==> k <= |good|
    {
      ReadableTo(good, bad, more, k);
    }
    assert ts[..|good|] == good;
  }

  lemma ReadableTo(good: seq<Tlv>, bad: Tlv, more: seq<Tlv>, k: nat)
    requires bad.kind == ITEM && NUL !in bad.value && AllSplit(good) && k <= |good + [bad] + more|
    ensures AllSplit((good + [bad] + more)[..k]) <==> k <= |good|
  {
    var ts := good + [bad] + more;
    if k <= |good| {
      assert forall t :: t in ts[..k] ==> t in good;
    } else {
      assert ts[..k][|good|] == bad;
    }
  }

  /** What `Sync` then leaves behind: the listing rebuilt, and the plan posted. */
  lemma SyncFromWire(items: seq<(Path, Digest)>, parts: seq<Part>, before: Book, after: Book, outcome: SyncOutcome)
    requires GoodDigests(items) && DistinctPaths(items) && ListingFrames(items, parts)
    requires Listing(Whole(parts)) && SyncResult(before, after, Whole(parts), outcome)
    ensures outcome == Done(ListingOf(items))
    ensures var listing := ListingOf(items);
            after == Book(SyncedDir(before.dir, listing),
                          before.pool + multiset(SyncOps(before.dir, listing, before.dir.Keys + listing.Keys)))
  {
    hide Receive, Whole;
    ListingEndToEnd(items, parts, []);
    SyncPosts(before, items);
    var ts := Segments(Whole(parts));
    forall k | 0 <= k <= |ts|
      ensures AllSplit(ts[..k])
    {
      assert forall t :: t in ts[..k] ==> t in ts;
    }
  }
}
