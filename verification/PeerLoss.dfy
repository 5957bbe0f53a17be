/** Which peers a run of the table loses, and the recency order of its buckets (dht/routing_table.go). */
module PeerLoss {
  import opened Bits
  import opened Ranges
  import opened Contacts
  import opened Buckets
  import opened Table
  import opened TableRuns

  // ---------------------------------------------------------------------------
  // Only a bad peer in a full bucket is ever lost
  // ---------------------------------------------------------------------------

  /** op is an update of a new contact whose bucket is full and is not split, and x is that bucket's first bad peer. */
  predicate Evicts(t: TableState, op: Op, x: Bitmap)
    requires Valid(t)
  {
    var i := BucketFor(t, op.c.id);
    var peers := t.buckets[i].peers;
    && op.DoUpdate? && op.c.id !in PeerIds(peers)
    && |peers| >= BUCKET_SIZE && !ShouldSplit(t, i, op.c)
    && FirstBad(peers) < |peers| && peers[FirstBad(peers)].contact.id == x
  }

  /** A peer leaves the table exactly by such an eviction. */
  lemma LostOnlyByEviction(t: TableState, op: Op, x: Bitmap)
    requires Valid(t) && op.c.id != t.id && x in TableIds(t.buckets)
    ensures x !in TableIds(Step(t, op).buckets) <==> Evicts(t, op, x)
  {
    match op
    case DoUpdate(c, now) => UpdateLoses(t, c, now, x);
    case DoFresh(c, now) => FreshValid(t, c, now);
    case DoFail(c) => FailValid(t, c);
  }

  lemma UpdateLoses(t: TableState, c: Contact, now: int, x: Bitmap)
    requires Valid(t) && c.id != t.id && x in TableIds(t.buckets)
    ensures x !in TableIds(Update(t, c, now).buckets) <==> Evicts(t, DoUpdate(c, now), x)
  {
    var i := BucketFor(t, c.id);
    UpdateIds(t, c, now);
    HomeBucket(t, c.id);
    XorCommutes(t.id, c.id);
    assert BucketOK(t.id, t.buckets[i]);
    if ShouldSplit(t, i, c) {
      var l, r := SplitHalves(t, c);
    } else {
      assert Chosen(t, c) == t.buckets[i];
    }
  }

  // ---------------------------------------------------------------------------
  // Failure counts
  // ---------------------------------------------------------------------------

  /** The operation touches the peer with id x, if the table holds it. */
  predicate Touches(t: TableState, op: Op, x: Bitmap)
    requires Valid(t)
  {
    op.c.id == x && (op.DoFresh? || (op.DoUpdate? && Reaches(t, op.c)))
  }

  /** How many times x has failed since it was last touched. */
  function FailsSince(id: Bitmap, ops: seq<Op>, x: Bitmap): nat
    requires Legal(id, ops)
  {
    if ops == [] then 0
    else
      var n := |ops| - 1;
      var before := FailsSince(id, ops[..n], x);
      if ops[n].DoFail? && ops[n].c.id == x then before + 1
      else if Touches(Run(id, ops[..n]), ops[n], x) then 0
      else before
  }

  predicate Counts(peers: seq<Peer>, f: Bitmap -> nat) {
    forall k :: 0 <= k < |peers| ==> peers[k].numFailures == f(peers[k].contact.id)
  }

  predicate AllCount(bs: seq<BucketState>, f: Bitmap -> nat) {
    forall i :: 0 <= i < |bs| ==> Counts(bs[i].peers, f)
  }

  ghost predicate SameBut(f: Bitmap -> nat, g: Bitmap -> nat, x: Bitmap) {
    forall y: Bitmap :: y != x ==> f(y) == g(y)
  }

  lemma CountsElsewhere(peers: seq<Peer>, f: Bitmap -> nat, g: Bitmap -> nat, x: Bitmap)
    requires Counts(peers, f) && SameBut(f, g, x) && x !in PeerIds(peers)
    ensures Counts(peers, g)
  {
    forall k | 0 <= k < |peers| ensures peers[k].numFailures == g(peers[k].contact.id) {
      assert peers[k] in peers;
    }
  }

  lemma AppendCounts(peers: seq<Peer>, p: Peer, f: Bitmap -> nat, g: Bitmap -> nat)
    requires Counts(peers, f) && SameBut(f, g, p.contact.id) && p.contact.id !in PeerIds(peers)
    requires p.numFailures == g(p.contact.id)
    ensures Counts(peers + [p], g)
  {
    CountsElsewhere(peers, f, g, p.contact.id);
  }

  lemma WithoutCounts(peers: seq<Peer>, k: nat, f: Bitmap -> nat)
    requires Counts(peers, f) && k < |peers|
    ensures Counts(Without(peers, k), f)
  {
  }

  lemma AppliedCounts(b: BucketState, p: Peer, insertIfNew: bool, now: int, f: Bitmap -> nat, g: Bitmap -> nat)
    requires Counts(b.peers, f) && SameBut(f, g, p.contact.id) && DistinctPeers(b.peers)
    requires b.range.Covers(p.distance) && g(p.contact.id) == 0
    ensures Counts(UpdatePeer(b, p, insertIfNew, now).0.peers, g)
  {
    var e := EffectOf(b, p, insertIfNew);
    UpdatePeerEffect(b, p, insertIfNew, now);
    match e
    case Untouched => CountsElsewhere(b.peers, f, g, p.contact.id);
    case Appended => AppendCounts(b.peers, p.Touch(now), f, g);
    case Moved(k) =>
      WithoutIds(b.peers, k);
      WithoutCounts(b.peers, k, f);
      AppendCounts(Without(b.peers, k), b.peers[k].Touch(now), f, g);
    case Replaced(k) =>
      WithoutIds(b.peers, k);
      WithoutCounts(b.peers, k, f);
      AppendCounts(Without(b.peers, k), p.Touch(now), f, g);
  }

  lemma FailCounts(b: BucketState, x: Bitmap, f: Bitmap -> nat, g: Bitmap -> nat)
    requires Counts(b.peers, f) && SameBut(f, g, x) && DistinctPeers(b.peers) && g(x) == f(x) + 1
    ensures Counts(FailContact(b, x).peers, g)
  {
    if Find(x, b.peers) == -1 { CountsElsewhere(b.peers, f, g, x); }
  }

  /** Changing x's home bucket alone is enough: no other bucket holds x. */
  lemma HomeCounts(t: TableState, x: Bitmap, j: nat, b: BucketState, f: Bitmap -> nat, g: Bitmap -> nat)
    requires Valid(t) && j == BucketFor(t, x) && AllCount(t.buckets, f) && SameBut(f, g, x) && Counts(b.peers, g)
    ensures AllCount(t.buckets[j := b], g)
  {
    HomeBucket(t, x);
    forall i: nat | i < |t.buckets| && i != j ensures Counts(t.buckets[i].peers, g) {
      CountsElsewhere(t.buckets[i].peers, f, g, x);
    }
  }

  lemma PlacedCounts(t: TableState, c: Contact, f: Bitmap -> nat)
    requires Valid(t) && AllCount(t.buckets, f)
    ensures AllCount(Placed(t, c).0, f)
  {
    var i := BucketFor(t, c.id);
    if ShouldSplit(t, i, c) {
      var l, r := SplitHalves(t, c);
      SelectCount(t.buckets[i].peers, l.range, true, f);
      SelectCount(t.buckets[i].peers, l.range, false, f);
      SplitAtCounts(t.buckets, i, l, r, f);
    }
  }

  lemma SplitAtCounts(bs: seq<BucketState>, i: nat, l: BucketState, r: BucketState, f: Bitmap -> nat)
    requires i < |bs| && AllCount(bs, f) && Counts(l.peers, f) && Counts(r.peers, f)
    ensures AllCount(SplitAt(bs, i, l, r), f)
  {
    var bs' := SplitAt(bs, i, l, r);
    forall k | 0 <= k < |bs'| ensures Counts(bs'[k].peers, f) {
      if k < i { assert bs'[k] == bs[k]; } else if k > i + 1 { assert bs'[k] == bs[k - 1]; }
    }
  }

  lemma SelectCount(peers: seq<Peer>, r: Range, inside: bool, f: Bitmap -> nat)
    requires Counts(peers, f)
    ensures Counts(Select(peers, r, inside), f)
  {
    var s := Select(peers, r, inside);
    forall k | 0 <= k < |s| ensures s[k].numFailures == f(s[k].contact.id) { assert s[k] in peers; }
  }

  lemma UpdateCounts(t: TableState, c: Contact, now: int, f: Bitmap -> nat, g: Bitmap -> nat)
    requires Valid(t) && c.id != t.id && AllCount(t.buckets, f) && SameBut(f, g, c.id)
    requires g(c.id) == if Reaches(t, c) then 0 else f(c.id)
    ensures AllCount(Update(t, c, now).buckets, g)
  {
    PlacedCounts(t, c, f);
    if Reaches(t, c) {
      ReachedCounts(t, c, now, f, g);
    } else {
      var (bs, j) := Placed(t, c);
      assert bs[j := bs[j]] == bs;
      assert forall y: Bitmap :: f(y) == g(y);
    }
  }

  lemma ReachedCounts(t: TableState, c: Contact, now: int, f: Bitmap -> nat, g: Bitmap -> nat)
    requires Valid(t) && c.id != t.id && AllCount(Placed(t, c).0, f) && SameBut(f, g, c.id) && g(c.id) == 0
    requires Reaches(t, c)
    ensures AllCount(Update(t, c, now).buckets, g)
  {
    var (bs, j) := Placed(t, c);
    var t', p := t.(buckets := bs), PeerFor(t, c);
    PlacedValid(t, c);
    assert BucketOK(t.id, bs[j]);
    AppliedCounts(bs[j], p, true, now, f, g);
    XorCommutes(t.id, c.id);
    CoverUnique(t', j, BucketFor(t', c.id), p.distance);
    HomeCounts(t', c.id, j, UpdatePeer(bs[j], p, true, now).0, f, g);
  }

  lemma FreshCounts(t: TableState, c: Contact, now: int, f: Bitmap -> nat, g: Bitmap -> nat)
    requires Valid(t) && AllCount(t.buckets, f) && SameBut(f, g, c.id) && g(c.id) == 0
    ensures AllCount(Fresh(t, c, now).buckets, g)
  {
    var i := BucketFor(t, c.id);
    assert BucketOK(t.id, t.buckets[i]);
    XorCommutes(t.id, c.id);
    AppliedCounts(t.buckets[i], PeerFor(t, c), false, now, f, g);
    HomeCounts(t, c.id, i, UpdatePeer(t.buckets[i], PeerFor(t, c), false, now).0, f, g);
  }

  lemma FailStepCounts(t: TableState, c: Contact, f: Bitmap -> nat, g: Bitmap -> nat)
    requires Valid(t) && AllCount(t.buckets, f) && SameBut(f, g, c.id) && g(c.id) == f(c.id) + 1
    ensures AllCount(Fail(t, c).buckets, g)
  {
    var i := BucketFor(t, c.id);
    assert BucketOK(t.id, t.buckets[i]);
    FailCounts(t.buckets[i], c.id, f, g);
    HomeCounts(t, c.id, i, FailContact(t.buckets[i], c.id), f, g);
  }

  lemma StepCounts(t: TableState, op: Op, f: Bitmap -> nat, g: Bitmap -> nat)
    requires Valid(t) && op.c.id != t.id && AllCount(t.buckets, f) && SameBut(f, g, op.c.id)
    requires g(op.c.id) ==
             if op.DoFail? then f(op.c.id) + 1 else if Touches(t, op, op.c.id) then 0 else f(op.c.id)
    ensures AllCount(Step(t, op).buckets, g)
  {
    match op
    case DoUpdate(c, now) => UpdateCounts(t, c, now, f, g);
    case DoFresh(c, now) => FreshCounts(t, c, now, f, g);
    case DoFail(c) => FailStepCounts(t, c, f, g);
  }

  /** After every run, each peer's failure count is the number of Fail calls since its last touch. */
  lemma {:induction false} FailuresSinceTouch(id: Bitmap, ops: seq<Op>)
    requires Legal(id, ops)
    ensures AllCount(Run(id, ops).buckets, x => FailsSince(id, ops, x))
  {
    if ops != [] {
      var t := Run(id, ops[..|ops| - 1]);
      FailuresSinceTouch(id, ops[..|ops| - 1]);
      RunNext(id, ops, t);
      CountsNext(id, ops, t);
    }
  }

  lemma CountsNext(id: Bitmap, ops: seq<Op>, t: TableState)
    requires ops != [] && Legal(id, ops) && t == Run(id, ops[..|ops| - 1])
    requires AllCount(t.buckets, x => FailsSince(id, ops[..|ops| - 1], x))
    ensures AllCount(Step(t, ops[|ops| - 1]).buckets, x => FailsSince(id, ops, x))
  {
    StepCounts(t, ops[|ops| - 1], x => FailsSince(id, ops[..|ops| - 1], x), x => FailsSince(id, ops, x));
  }

  // ---------------------------------------------------------------------------
  // Recency
  // ---------------------------------------------------------------------------

  /** Least recently active first, and nothing later than the clock. */
  predicate Recent(peers: seq<Peer>, clock: int) {
    && (forall i, j :: 0 <= i < j < |peers| ==> peers[i].lastActivity <= peers[j].lastActivity)
    && (forall i :: 0 <= i < |peers| ==> peers[i].lastActivity <= clock)
  }

  predicate AllRecent(bs: seq<BucketState>, clock: int) {
    forall i :: 0 <= i < |bs| ==> Recent(bs[i].peers, clock)
  }

  lemma UpdatePeerRecent(b: BucketState, p: Peer, insertIfNew: bool, clock: int, now: int)
    requires Recent(b.peers, clock) && clock <= now
    ensures Recent(UpdatePeer(b, p, insertIfNew, now).0.peers, now)
  {
    var e := EffectOf(b, p, insertIfNew);
    UpdatePeerEffect(b, p, insertIfNew, now);
    match e
    case Untouched =>
    case Appended => AppendRecent(b.peers, p.Touch(now), clock, now);
    case Moved(k) =>
      WithoutRecent(b.peers, k, clock);
      AppendRecent(Without(b.peers, k), b.peers[k].Touch(now), clock, now);
    case Replaced(k) =>
      WithoutRecent(b.peers, k, clock);
      AppendRecent(Without(b.peers, k), p.Touch(now), clock, now);
  }

  lemma AppendRecent(peers: seq<Peer>, p: Peer, clock: int, now: int)
    requires Recent(peers, clock) && clock <= now && p.lastActivity == now
    ensures Recent(peers + [p], now)
  {
  }

  lemma WithoutRecent(peers: seq<Peer>, k: nat, clock: int)
    requires Recent(peers, clock) && k < |peers|
    ensures Recent(Without(peers, k), clock)
  {
  }

  lemma {:induction false} SelectRecent(peers: seq<Peer>, r: Range, inside: bool, clock: int)
    requires Recent(peers, clock)
    ensures Recent(Select(peers, r, inside), clock)
  {
    if peers != [] {
      var n := |peers| - 1;
      PrefixRecent(peers, clock);
      SelectRecent(peers[..n], r, inside, peers[n].lastActivity);
      AppendRecent(Select(peers[..n], r, inside), peers[n], peers[n].lastActivity, peers[n].lastActivity);
      LaterRecent(Select(peers, r, inside), peers[n].lastActivity, clock);
    }
  }

  /** All but the last peer were active no later than the last one. */
  lemma PrefixRecent(peers: seq<Peer>, clock: int)
    requires Recent(peers, clock) && peers != []
    ensures Recent(peers[..|peers| - 1], peers[|peers| - 1].lastActivity) && peers[|peers| - 1].lastActivity <= clock
  {
  }

  lemma LaterRecent(peers: seq<Peer>, clock: int, now: int)
    requires Recent(peers, clock) && clock <= now
    ensures Recent(peers, now)
  {
  }

  lemma PlacedRecent(t: TableState, c: Contact, clock: int)
    requires Valid(t) && AllRecent(t.buckets, clock)
    ensures AllRecent(Placed(t, c).0, clock)
  {
    var i := BucketFor(t, c.id);
    if ShouldSplit(t, i, c) {
      var l, r := SplitHalves(t, c);
      SelectRecent(t.buckets[i].peers, l.range, true, clock);
      SelectRecent(t.buckets[i].peers, l.range, false, clock);
      var bs' := SplitAt(t.buckets, i, l, r);
      forall k | 0 <= k < |bs'| ensures Recent(bs'[k].peers, clock) {
        if k < i { assert bs'[k] == t.buckets[k]; } else if k > i + 1 { assert bs'[k] == t.buckets[k - 1]; }
      }
    }
  }

  /** The clock after an operation; `Fail` does not read it. */
  function ClockAfter(clock: int, op: Op): int { if op.DoFail? then clock else op.now }

  lemma StepRecent(t: TableState, op: Op, clock: int)
    requires Valid(t) && AllRecent(t.buckets, clock) && clock <= ClockAfter(clock, op)
    ensures AllRecent(Step(t, op).buckets, ClockAfter(clock, op))
  {
    match op
    case DoUpdate(c, now) => UpdateRecent(t, c, clock, now);
    case DoFresh(c, now) => ReplaceRecent(t.buckets, BucketFor(t, c.id), PeerFor(t, c), false, clock, now);
    case DoFail(c) => FailRecent(t, c, clock);
  }

  lemma UpdateRecent(t: TableState, c: Contact, clock: int, now: int)
    requires Valid(t) && AllRecent(t.buckets, clock) && clock <= now
    ensures AllRecent(Update(t, c, now).buckets, now)
  {
    var (bs, j) := Placed(t, c);
    PlacedRecent(t, c, clock);
    ReplaceRecent(bs, j, PeerFor(t, c), true, clock, now);
  }

  lemma FailRecent(t: TableState, c: Contact, clock: int)
    requires Valid(t) && AllRecent(t.buckets, clock)
    ensures AllRecent(Fail(t, c).buckets, clock)
  {
    assert Recent(FailContact(t.buckets[BucketFor(t, c.id)], c.id).peers, clock);
  }

  lemma ReplaceRecent(bs: seq<BucketState>, j: nat, p: Peer, insertIfNew: bool, clock: int, now: int)
    requires AllRecent(bs, clock) && clock <= now && j < |bs|
    ensures AllRecent(bs[j := UpdatePeer(bs[j], p, insertIfNew, now).0], now)
  {
    UpdatePeerRecent(bs[j], p, insertIfNew, clock, now);
    forall i | 0 <= i < |bs| ensures Recent(bs[i].peers, now) { LaterRecent(bs[i].peers, clock, now); }
  }

  /** The clock at the end of a run, and whether it never ran backwards. */
  function Clock(ops: seq<Op>): int {
    if ops == [] then 0 else ClockAfter(Clock(ops[..|ops| - 1]), ops[|ops| - 1])
  }

  predicate Forward(ops: seq<Op>) {
    ops == [] || (Forward(ops[..|ops| - 1]) && Clock(ops[..|ops| - 1]) <= Clock(ops))
  }

  /** Every bucket stays sorted by last activity. */
  lemma {:induction false} BucketsStayRecent(id: Bitmap, ops: seq<Op>)
    requires Legal(id, ops) && Forward(ops)
    ensures AllRecent(Run(id, ops).buckets, Clock(ops))
  {
    if ops != [] {
      var init, op := ops[..|ops| - 1], ops[|ops| - 1];
      BucketsStayRecent(id, init);
      RunNext(id, ops, Run(id, init));
      StepRecent(Run(id, init), op, Clock(init));
    }
  }

  /** op updates a contact whose bucket is full, and x is the least recently active of that bucket's bad peers. */
  predicate WorstPeer(t: TableState, op: Op, x: Bitmap)
    requires Valid(t)
  {
    var peers := t.buckets[BucketFor(t, op.c.id)].peers;
    && op.DoUpdate? && |peers| == BUCKET_SIZE
    && exists k :: 0 <= k < |peers| && peers[k].contact.id == x
         && forall q :: q in peers && q.IsBad(MAX_PEER_FAILS) ==> peers[k].lastActivity <= q.lastActivity
  }

  /**
    Peer loss over whole runs: a peer leaves only when an insert finds its bucket full, after at least three
    failures since its last touch, and it is the least recently active of that bucket's bad peers.
  */
  lemma LostPeerWasWorst(id: Bitmap, ops: seq<Op>, op: Op, x: Bitmap)
    requires Legal(id, ops) && Forward(ops) && op.c.id != id
    requires x in TableIds(Run(id, ops).buckets) && x !in TableIds(Step(Run(id, ops), op).buckets)
    ensures WorstPeer(Run(id, ops), op, x) && FailsSince(id, ops, x) >= MAX_PEER_FAILS
  {
    FailuresSinceTouch(id, ops);
    BucketsStayRecent(id, ops);
    LostHadFailed(Run(id, ops), op, x, y => FailsSince(id, ops, y));
    LostWasWorst(Run(id, ops), op, x, Clock(ops));
  }

  lemma LostHadFailed(t: TableState, op: Op, x: Bitmap, f: Bitmap -> nat)
    requires Valid(t) && op.c.id != t.id && AllCount(t.buckets, f)
    requires x in TableIds(t.buckets) && x !in TableIds(Step(t, op).buckets)
    ensures f(x) >= MAX_PEER_FAILS
  {
    LostOnlyByEviction(t, op, x);
    assert Counts(t.buckets[BucketFor(t, op.c.id)].peers, f);
  }

  lemma LostWasWorst(t: TableState, op: Op, x: Bitmap, clock: int)
    requires Valid(t) && op.c.id != t.id && AllRecent(t.buckets, clock)
    requires x in TableIds(t.buckets) && x !in TableIds(Step(t, op).buckets)
    ensures WorstPeer(t, op, x)
  {
    var i := BucketFor(t, op.c.id);
    LostOnlyByEviction(t, op, x);
    assert BucketOK(t.id, t.buckets[i]) && Recent(t.buckets[i].peers, clock);
    FirstBadIsOldest(t.buckets[i].peers, clock);
  }

  lemma FirstBadIsOldest(peers: seq<Peer>, clock: int)
    requires Recent(peers, clock) && FirstBad(peers) < |peers|
    ensures forall q :: q in peers && q.IsBad(MAX_PEER_FAILS) ==> peers[FirstBad(peers)].lastActivity <= q.lastActivity
  {
  }
}
