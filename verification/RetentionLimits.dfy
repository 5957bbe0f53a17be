/** Retention holds for no id but the all-zero one: after a split the half is picked by id (dht/routing_table.go). */
module RetentionLimits {
  import opened Bits
  import opened Ranges
  import opened Contacts
  import opened Buckets
  import opened Table
  import opened TableRuns
  import opened PeerLoss
  import opened Retention

  // ---------------------------------------------------------------------------
  // Where a split cuts
  // ---------------------------------------------------------------------------

  function Distances(peers: seq<Peer>): set<nat> {
    if peers == [] then {} else Distances(peers[..|peers| - 1]) + {Value(peers[|peers| - 1].distance)}
  }

  lemma {:induction false} PeerCounted(peers: seq<Peer>, p: Peer)
    requires p in peers
    ensures Value(p.distance) in Distances(peers)
  {
    var n := |peers| - 1;
    assert peers == peers[..n] + [peers[n]];
    if p in peers[..n] { PeerCounted(peers[..n], p); }
  }

  lemma {:induction false} PeerAt(peers: seq<Peer>, d: nat) returns (p: Peer)
    requires d in Distances(peers)
    ensures p in peers && Value(p.distance) == d
  {
    var n := |peers| - 1;
    if d == Value(peers[n].distance) { p := peers[n]; } else { p := PeerAt(peers[..n], d); }
  }

  predicate AllBelow(ds: set<nat>, m: nat) { forall d :: d in ds ==> d < m }

  predicate AllFrom(ds: set<nat>, m: nat) { forall d :: d in ds ==> d >= m }

  /** The start of the right half: halve lo..hi towards the distances until they fall on both sides. */
  function CutOf(lo: nat, hi: nat, ds: set<nat>): nat
    decreases hi - lo
  {
    if lo >= hi then lo
    else
      var m := lo + (hi - lo + 1) / 2;
      if AllFrom(ds, m) then CutOf(m, hi, ds)
      else if AllBelow(ds, m) then CutOf(lo, m - 1, ds)
      else m
  }

  /** Stretching the halves back leaves the cut of the recursion where it was. */
  lemma LopsidedCut(b: BucketState, inside: bool)
    requires Splittable(b) && |b.peers| > 1 && Select(b.peers, LeftHalf(b.range), !inside) == []
    ensures var half := if inside then LeftHalf(b.range) else RightHalf(b.range);
            var side := BucketState(b.peers, b.lastUpdate, half);
            Splittable(side) && Split(b).0.range.Hi() == Split(side).0.range.Hi()
  {
    LopsidedIsSplittable(b, inside);
    SplitRecurses(b, inside);
  }

  lemma EvenCut(b: BucketState)
    requires Splittable(b)
    requires Select(b.peers, LeftHalf(b.range), true) != [] && Select(b.peers, LeftHalf(b.range), false) != []
    ensures Split(b).0.range.Hi() + 1 == Middle(b.range)
  {
    SplitStops(b);
  }

  lemma CutSteps(lo: nat, hi: nat, m: nat, ds: set<nat>)
    requires lo < hi && m == lo + (hi - lo + 1) / 2
    ensures AllFrom(ds, m) ==> CutOf(lo, hi, ds) == CutOf(m, hi, ds)
    ensures !AllFrom(ds, m) && AllBelow(ds, m) ==> CutOf(lo, hi, ds) == CutOf(lo, m - 1, ds)
    ensures !AllFrom(ds, m) && !AllBelow(ds, m) ==> CutOf(lo, hi, ds) == m
  {
  }

  predicate CutsAt(b: BucketState, cut: nat) { Splittable(b) && Split(b).0.range.Hi() + 1 == cut }

  /** The half that a lopsided split goes on with. */
  function Crowded(b: BucketState, inside: bool): BucketState
    requires Splittable(b)
  {
    BucketState(b.peers, b.lastUpdate, if inside then LeftHalf(b.range) else RightHalf(b.range))
  }

  lemma CutFollows(b: BucketState, inside: bool, cut: nat)
    requires Splittable(b) && |b.peers| > 1 && Select(b.peers, LeftHalf(b.range), !inside) == []
    requires CutsAt(Crowded(b, inside), cut)
    ensures CutsAt(b, cut)
  {
    LopsidedCut(b, inside);
  }

  lemma CrowdedFacts(b: BucketState, inside: bool)
    requires Splittable(b) && |b.peers| > 1 && Select(b.peers, LeftHalf(b.range), !inside) == []
    ensures var half, m := Crowded(b, inside), Middle(b.range);
            && Splittable(half) && b.range.Lo() < m <= b.range.Hi()
            && half.range.Lo() == (if inside then b.range.Lo() else m)
            && half.range.Hi() == (if inside then m - 1 else b.range.Hi())
  {
    LopsidedIsSplittable(b, inside);
  }

  /** The recursive split cuts exactly there. */
  lemma {:induction false} SplitCut(b: BucketState, lo: nat, hi: nat, ds: set<nat>)
    requires Splittable(b) && |b.peers| > 1
    requires lo == b.range.Lo() && hi == b.range.Hi() && ds == Distances(b.peers)
    ensures CutsAt(b, CutOf(lo, hi, ds))
    decreases hi - lo, 1
  {
    var m := Middle(b.range);
    SidesByDistance(b);
    if AllFrom(ds, m) {
      CrowdedCut(b, false, lo, hi, ds);
    } else if AllBelow(ds, m) {
      CrowdedCut(b, true, lo, hi, ds);
    } else {
      EvenCut(b);
      CutSteps(lo, hi, m, ds);
    }
  }

  lemma {:induction false} CrowdedCut(b: BucketState, inside: bool, lo: nat, hi: nat, ds: set<nat>)
    requires Splittable(b) && |b.peers| > 1 && Select(b.peers, LeftHalf(b.range), !inside) == []
    requires lo == b.range.Lo() && hi == b.range.Hi() && ds == Distances(b.peers)
    requires AllFrom(ds, Middle(b.range)) <==> !inside
    requires inside ==> AllBelow(ds, Middle(b.range))
    ensures CutsAt(b, CutOf(lo, hi, ds))
    decreases hi - lo, 0
  {
    var m := Middle(b.range);
    CutSteps(lo, hi, m, ds);
    CrowdedFacts(b, inside);
    var lo', hi' := if inside then lo else m, if inside then m - 1 else hi;
    SplitCut(Crowded(b, inside), lo', hi', ds);
    CutFollows(b, inside, CutOf(lo', hi', ds));
  }

  lemma SidesByDistance(b: BucketState)
    requires Splittable(b)
    ensures var left, m := LeftHalf(b.range), Middle(b.range);
            && (Select(b.peers, left, true) == [] <==> AllFrom(Distances(b.peers), m))
            && (Select(b.peers, left, false) == [] <==> AllBelow(Distances(b.peers), m))
  {
    var left, m := LeftHalf(b.range), Middle(b.range);
    var ins, outs := Select(b.peers, left, true), Select(b.peers, left, false);
    forall d | d in Distances(b.peers) ensures if d < m then ins != [] else outs != [] {
      var p := PeerAt(b.peers, d);
      assert p in if d < m then ins else outs;
    }
    if ins != [] { assert ins[0] in ins; PeerCounted(b.peers, ins[0]); }
    if outs != [] { assert outs[0] in outs; PeerCounted(b.peers, outs[0]); }
  }

  /** Halving the whole space first goes down to the smallest block 0..2^k - 1 that holds every distance. */
  lemma {:induction false} CutOfPow2(n: nat, k: nat, ds: set<nat>)
    requires k <= n && ds != {} && AllBelow(ds, Pow2(k))
    ensures CutOf(0, Pow2(n) - 1, ds) == CutOf(0, Pow2(k) - 1, ds)
  {
    if k < n {
      Pow2Grows(k, n - 1);
      var d :| d in ds;
      CutOfPow2(n - 1, k, ds);
    }
  }

  lemma {:induction false} Pow2Grows(k: nat, n: nat)
    requires k <= n
    ensures Pow2(k) <= Pow2(n)
  {
    if k < n { Pow2Grows(k, n - 1); }
  }

  // ---------------------------------------------------------------------------
  // The first bucket along a run of updates
  // ---------------------------------------------------------------------------

  /** The contact at the given distance from id. */
  function At(id: Bitmap, d: nat): Contact
    requires d < Modulus()
  {
    Contact(Xor(FromBig(d), id), 0, 0, 0)
  }

  lemma AtDistance(id: Bitmap, d: nat)
    requires d < Modulus()
    ensures Xor(At(id, d).id, id) == FromBig(d) == Xor(id, At(id, d).id) && Dist(At(id, d).id, id) == d
    ensures d > 0 ==> At(id, d).id != id
  {
    XorCancels(FromBig(d), id);
    XorCommutes(id, At(id, d).id);
    DistZeroSelf(id);
  }

  /** The bucket nearest to us ends at hi and holds contacts at exactly the distances ds. */
  predicate Nearest(t: TableState, hi: nat, ds: set<nat>) {
    Valid(t) && t.buckets[0].range.Hi() == hi && Distances(t.buckets[0].peers) == ds
  }

  lemma {:induction false} DistancesCount(peers: seq<Peer>)
    requires DistinctDistances(peers)
    ensures |Distances(peers)| == |peers|
  {
    if peers != [] {
      var n := |peers| - 1;
      var init, p := peers[..n], peers[n];
      DistancesCount(init);
      if Value(p.distance) in Distances(init) {
        var q := PeerAt(init, Value(p.distance));
        ValueInjective(q.distance, p.distance);
      }
    }
  }

  lemma DistancesAppend(peers: seq<Peer>, p: Peer)
    ensures Distances(peers + [p]) == Distances(peers) + {Value(p.distance)}
  {
    assert (peers + [p])[..|peers|] == peers;
  }

  lemma NearestCount(t: TableState, hi: nat, ds: set<nat>)
    requires Nearest(t, hi, ds)
    ensures |t.buckets[0].peers| == |ds|
  {
    var b := t.buckets[0];
    assert BucketOK(t.id, b);
    DistinctPeersDistances(t.id, b.peers);
    DistancesCount(b.peers);
  }

  /** Whether the bucket nearest to us holds the contact at distance d can be read off ds. */
  lemma NearestHolds(t: TableState, hi: nat, ds: set<nat>, d: nat)
    requires Nearest(t, hi, ds) && d <= hi < Modulus()
    ensures BucketFor(t, At(t.id, d).id) == 0
    ensures d !in ds ==> At(t.id, d).id !in TableIds(t.buckets) && At(t.id, d).id !in PeerIds(t.buckets[0].peers)
  {
    var b, x := t.buckets[0], At(t.id, d).id;
    AtDistance(t.id, d);
    assert b.range.Covers(Xor(x, t.id));
    HomeBucket(t, x);
    if p :| p in b.peers && p.contact.id == x {
      assert BucketOK(t.id, b) && PeerOK(t.id, p);
      PeerCounted(b.peers, p);
    }
  }

  /** A bucket with room takes a new peer that it covers. */
  lemma TakesNewPeer(b: BucketState, p: Peer, now: int)
    requires b.range.Covers(p.distance) && |b.peers| < BUCKET_SIZE && p.contact.id !in PeerIds(b.peers)
    ensures var b' := UpdatePeer(b, p, true, now).0;
            b'.range == b.range && Distances(b'.peers) == Distances(b.peers) + {Value(p.distance)}
  {
    UpdatePeerEffect(b, p, true, now);
    DistancesAppend(b.peers, p.Touch(now));
  }

  /** While there is room, an update just adds its distance. */
  lemma NearestAdds(t: TableState, hi: nat, ds: set<nat>, d: nat)
    requires Nearest(t, hi, ds) && 0 < d <= hi < Modulus() && d !in ds && |ds| < BUCKET_SIZE
    ensures Nearest(Update(t, At(t.id, d), 0), hi, ds + {d})
  {
    var c := At(t.id, d);
    AtDistance(t.id, d);
    NearestCount(t, hi, ds);
    NearestHolds(t, hi, ds, d);
    UpdateValid(t, c, 0);
    TakesNewPeer(t.buckets[0], PeerFor(t, c), 0);
  }

  lemma FullIsSplit(t: TableState, hi: nat, ds: set<nat>, d: nat)
    requires Nearest(t, hi, ds) && d <= hi < Modulus() && d !in ds && |ds| == BUCKET_SIZE
    ensures BucketFor(t, At(t.id, d).id) == 0 && ShouldSplit(t, 0, At(t.id, d)) && |t.buckets[0].peers| == BUCKET_SIZE
  {
    var b, c := t.buckets[0], At(t.id, d);
    NearestCount(t, hi, ds);
    NearestHolds(t, hi, ds, d);
    forall k | 0 <= k < |b.peers| ensures b.peers[k].contact.id != c.id { assert b.peers[k] in b.peers; }
  }

  lemma SplitFullCut(id: Bitmap, b: BucketState)
    requires BucketOK(id, b) && |b.peers| > 1
    ensures SplitFull(id, b).0.range.Hi() + 1 == CutOf(b.range.Lo(), b.range.Hi(), Distances(b.peers))
  {
    SplitOK(id, b);
    SplitCut(b, b.range.Lo(), b.range.Hi(), Distances(b.peers));
  }

  /** The halves of an update's split, with the place of the cut. */
  lemma HalvesCut(t: TableState, c: Contact) returns (l: BucketState, r: BucketState)
    requires Valid(t) && BucketFor(t, c.id) == 0 && ShouldSplit(t, 0, c)
    ensures IsSplitOf(t.buckets[0], l, r) && |l.peers| < |t.buckets[0].peers|
    ensures Placed(t, c) == (SplitAt(t.buckets, 0, l, r), if l.range.Covers(c.id) then 0 else 1)
    ensures l.range.Hi() + 1 == CutOf(0, t.buckets[0].range.Hi(), Distances(t.buckets[0].peers))
  {
    assert BucketOK(t.id, t.buckets[0]);
    l, r := SplitFull(t.id, t.buckets[0]).0, SplitFull(t.id, t.buckets[0]).1;
    SplitFullCut(t.id, t.buckets[0]);
  }

  /** The next update splits a full bucket at the cut of its distances, and goes by the id of its contact. */
  lemma NearestSplits(t: TableState, hi: nat, ds: set<nat>, d: nat) returns (l: BucketState, r: BucketState)
    requires Nearest(t, hi, ds) && d <= hi < Modulus() && d !in ds && |ds| == BUCKET_SIZE
    ensures var c, cut := At(t.id, d), CutOf(0, hi, ds);
            && IsSplitOf(t.buckets[0], l, r) && l.range.Hi() + 1 == cut <= hi && |l.peers| < BUCKET_SIZE
            && Placed(t, c) == (SplitAt(t.buckets, 0, l, r), if Value(c.id) < cut then 0 else 1)
  {
    FullIsSplit(t, hi, ds, d);
    l, r := HalvesCut(t, At(t.id, d));
  }

  function Below(ds: set<nat>, cut: nat): set<nat> { set d | d in ds && d < cut }

  lemma LowHalfDistances(b: BucketState, l: BucketState, r: BucketState)
    requires IsSplitOf(b, l, r) && InRange(b.peers, b.range)
    ensures Distances(l.peers) == Below(Distances(b.peers), l.range.Hi() + 1)
  {
    forall d | d in Distances(b.peers) && d <= l.range.Hi() ensures d in Distances(l.peers) {
      var p := PeerAt(b.peers, d);
      assert b.range.Covers(p.distance) && p in l.peers;
      PeerCounted(l.peers, p);
    }
    forall d | d in Distances(l.peers) ensures d in Below(Distances(b.peers), l.range.Hi() + 1) {
      var p := PeerAt(l.peers, d);
      PeerCounted(b.peers, p);
    }
  }

  /** When the id and the distance both lie below the cut, the contact joins the lower half. */
  lemma NearestShrinks(t: TableState, hi: nat, ds: set<nat>, d: nat)
    requires Nearest(t, hi, ds) && 0 < d <= hi < Modulus() && d !in ds && |ds| == BUCKET_SIZE
    requires d < CutOf(0, hi, ds) && Value(At(t.id, d).id) < CutOf(0, hi, ds)
    ensures var cut := CutOf(0, hi, ds); Nearest(Update(t, At(t.id, d), 0), cut - 1, Below(ds, cut) + {d})
  {
    var c := At(t.id, d);
    AtDistance(t.id, d);
    NearestHolds(t, hi, ds, d);
    UpdateValid(t, c, 0);
    var l, r := NearestSplits(t, hi, ds, d);
    assert BucketOK(t.id, t.buckets[0]);
    LowHalfDistances(t.buckets[0], l, r);
    TakesNewPeer(l, PeerFor(t, c), 0);
  }

  /** When the cut separates the id from the distance, the contact is refused. */
  lemma NearestRefuses(t: TableState, hi: nat, ds: set<nat>, d: nat)
    requires Nearest(t, hi, ds) && 0 < d <= hi < Modulus() && d !in ds && |ds| == BUCKET_SIZE
    requires d < CutOf(0, hi, ds) <= Value(At(t.id, d).id)
    ensures At(t.id, d).id !in TableIds(Update(t, At(t.id, d), 0).buckets)
  {
    var c := At(t.id, d);
    AtDistance(t.id, d);
    NearestHolds(t, hi, ds, d);
    var l, r := NearestSplits(t, hi, ds, d);
    assert SplitAt(t.buckets, 0, l, r)[1] == r;
    assert !Reaches(t, c);
    UpdateIds(t, c, 0);
  }

  // ---------------------------------------------------------------------------
  // Runs of updates
  // ---------------------------------------------------------------------------

  predicate OnlyUpdates(ops: seq<Op>) { forall i :: 0 <= i < |ops| ==> ops[i].DoUpdate? }

  lemma {:induction false} NoFailures(id: Bitmap, ops: seq<Op>, x: Bitmap)
    requires Legal(id, ops) && OnlyUpdates(ops)
    ensures FailsSince(id, ops, x) == 0
  {
    if ops != [] { NoFailures(id, ops[..|ops| - 1], x); }
  }

  /** Without failures no peer is ever bad. */
  lemma {:induction false} UpdatesNeverBad(id: Bitmap, ops: seq<Op>)
    requires Legal(id, ops) && OnlyUpdates(ops)
    ensures NeverBad(id, ops)
  {
    if ops != [] {
      UpdatesNeverBad(id, ops[..|ops| - 1]);
      UpdatesEndGood(id, ops[..|ops| - 1]);
    }
  }

  lemma UpdatesEndGood(id: Bitmap, ops: seq<Op>)
    requires Legal(id, ops) && OnlyUpdates(ops)
    ensures NoBadPeer(Run(id, ops))
  {
    FailuresSinceTouch(id, ops);
    forall x: Bitmap ensures FailsSince(id, ops, x) == 0 { NoFailures(id, ops, x); }
    ZeroCountsAreGood(Run(id, ops), x => FailsSince(id, ops, x));
  }

  lemma ZeroCountsAreGood(t: TableState, f: Bitmap -> nat)
    requires AllCount(t.buckets, f) && forall x: Bitmap :: f(x) == 0
    ensures NoBadPeer(t)
  {
    forall i, k | 0 <= i < |t.buckets| && 0 <= k < |t.buckets[i].peers|
      ensures !t.buckets[i].peers[k].IsBad(MAX_PEER_FAILS)
    {
      assert Counts(t.buckets[i].peers, f);
    }
  }

  predicate Proper(ds: seq<nat>) { forall k :: 0 <= k < |ds| ==> 0 < ds[k] < Modulus() }

  /** Updates of the contacts at these distances, in order. */
  function Visit(id: Bitmap, ds: seq<nat>): (ops: seq<Op>)
    requires Proper(ds)
    ensures Legal(id, ops) && OnlyUpdates(ops)
  {
    var ops := seq(|ds|, k requires 0 <= k < |ds| => DoUpdate(At(id, ds[k]), 0));
    assert Legal(id, ops) by {
      forall k | 0 <= k < |ds| ensures ops[k].c.id != id { AtDistance(id, ds[k]); }
    }
    ops
  }

  function Visited(id: Bitmap, ds: seq<nat>): (t: TableState)
    requires Proper(ds)
    ensures Valid(t) && t.id == id
  {
    Run(id, Visit(id, ds))
  }

  lemma RunAppend(id: Bitmap, ops: seq<Op>, op: Op)
    requires Legal(id, ops) && op.c.id != id
    ensures Legal(id, ops + [op]) && Run(id, ops + [op]) == Step(Run(id, ops), op)
  {
    assert (ops + [op])[..|ops|] == ops;
    RunNext(id, ops + [op], Run(id, ops));
  }

  lemma VisitAppend(id: Bitmap, ds: seq<nat>, d: nat)
    requires Proper(ds) && 0 < d < Modulus()
    ensures Proper(ds + [d]) && Visit(id, ds + [d]) == Visit(id, ds) + [DoUpdate(At(id, d), 0)]
  {
  }

  lemma VisitNext(id: Bitmap, ds: seq<nat>, d: nat)
    requires Proper(ds) && 0 < d < Modulus()
    ensures Proper(ds + [d]) && Visited(id, ds + [d]) == Update(Visited(id, ds), At(id, d), 0)
  {
    AtDistance(id, d);
    VisitAppend(id, ds, d);
    RunAppend(id, Visit(id, ds), DoUpdate(At(id, d), 0));
  }

  /** After visiting these distances the bucket nearest to us ends at hi and holds the distances in ds. */
  predicate Leads(id: Bitmap, visits: seq<nat>, hi: nat, ds: set<nat>) {
    Proper(visits) && hi < Modulus() && Nearest(Visited(id, visits), hi, ds)
  }

  function Elements(ds: seq<nat>): set<nat> { set d | d in ds }

  predicate Distinct(ds: seq<nat>) { forall i, j :: 0 <= i < j < |ds| ==> ds[i] != ds[j] }

  lemma VisitAdds(id: Bitmap, before: seq<nat>, hi: nat, ds: set<nat>, d: nat)
    requires Leads(id, before, hi, ds) && 0 < d <= hi && d !in ds && |ds| < BUCKET_SIZE
    ensures Leads(id, before + [d], hi, ds + {d})
  {
    NearestAdds(Visited(id, before), hi, ds, d);
    VisitNext(id, before, d);
  }

  lemma {:induction false} ElementsCount(ds: seq<nat>)
    requires Distinct(ds)
    ensures |Elements(ds)| == |ds|
  {
    if ds != [] {
      ElementsCount(ds[..|ds| - 1]);
      ElementsStep(ds);
    }
  }

  lemma ElementsStep(ds: seq<nat>)
    requires ds != []
    ensures var n := |ds| - 1; Elements(ds) == Elements(ds[..n]) + {ds[n]} && ds == ds[..n] + [ds[n]]
  {
    assert ds == ds[..|ds| - 1] + [ds[|ds| - 1]];
  }

  /** The first eight distances fill the only bucket. */
  lemma {:induction false} VisitFirst(id: Bitmap, ds: seq<nat>)
    requires Proper(ds) && Distinct(ds) && |ds| <= BUCKET_SIZE
    ensures Leads(id, ds, Modulus() - 1, Elements(ds))
  {
    if ds == [] {
      VisitNone(id, ds);
    } else {
      VisitFirst(id, ds[..|ds| - 1]);
      VisitOneMore(id, ds);
    }
  }

  lemma VisitNone(id: Bitmap, ds: seq<nat>)
    requires ds == []
    ensures Leads(id, ds, Modulus() - 1, Elements(ds))
  {
    assert Visit(id, ds) == [];
    assert Distances(NewTable(id).buckets[0].peers) == {};
  }

  lemma VisitOneMore(id: Bitmap, ds: seq<nat>)
    requires ds != [] && Proper(ds) && Distinct(ds) && |ds| <= BUCKET_SIZE
    requires Leads(id, ds[..|ds| - 1], Modulus() - 1, Elements(ds[..|ds| - 1]))
    ensures Leads(id, ds, Modulus() - 1, Elements(ds))
  {
    var init, d := ds[..|ds| - 1], ds[|ds| - 1];
    ElementsCount(init);
    ElementsStep(ds);
    VisitAdds(id, init, Modulus() - 1, Elements(init), d);
  }

  // ---------------------------------------------------------------------------
  // Losing one of the eight closest contacts
  // ---------------------------------------------------------------------------

  /** The table reports the eight contacts closest to us of all that were ever passed to `Update`. */
  ghost predicate ReportsClosest(id: Bitmap, ops: seq<Op>)
    requires Legal(id, ops)
  {
    KClosest(Ids(GetClosest(Run(id, ops), id, BUCKET_SIZE)), Seen(ops), id, BUCKET_SIZE)
  }

  /** A table that lacks a seen contact with fewer than eight nearer ones does not. */
  lemma ClosestMissing(t: TableState, seen: set<Bitmap>, x: Bitmap)
    requires Valid(t) && x in seen && x !in TableIds(t.buckets) && |Nearer(seen, x, t.id)| < BUCKET_SIZE
    ensures !KClosest(Ids(GetClosest(t, t.id, BUCKET_SIZE)), seen, t.id, BUCKET_SIZE)
  {
    var near := Ids(GetClosest(t, t.id, BUCKET_SIZE));
    GetClosestIsKClosest(t, t.id, BUCKET_SIZE);
    NearOutsiderMissing(near, seen, x, t.id);
  }

  /** The eight closest of a set include everything with fewer than eight nearer members. */
  lemma NearOutsiderMissing(near: set<Bitmap>, seen: set<Bitmap>, x: Bitmap, target: Bitmap)
    requires x in seen && x !in near && |Nearer(seen, x, target)| < BUCKET_SIZE
    ensures !KClosest(near, seen, target, BUCKET_SIZE)
  {
    if KClosest(near, seen, target, BUCKET_SIZE) {
      forall y | y in near ensures y in Nearer(seen, x, target) {
        OutsideIsFarther(near, seen, target, BUCKET_SIZE, y, x);
      }
      SubsetSize(near, Nearer(seen, x, target));
      SubsetSize(Nearer(seen, x, target), seen - {x});
    }
  }

  /** Ids whose distances are all in ds are no more than ds. */
  lemma {:induction false} FewIds(ids: set<Bitmap>, target: Bitmap, ds: set<nat>)
    requires forall x :: x in ids ==> Dist(x, target) in ds
    ensures |ids| <= |ds|
  {
    if x :| x in ids {
      forall y | y in ids - {x} ensures Dist(y, target) in ds - {Dist(x, target)} {
        if Dist(y, target) == Dist(x, target) { DistInjective(target, x, y); }
      }
      FewIds(ids - {x}, target, ds - {Dist(x, target)});
    }
  }

  lemma SeenOnVisit(id: Bitmap, ds: seq<nat>, x: Bitmap)
    requires Proper(ds) && x in Seen(Visit(id, ds))
    ensures Dist(x, id) in Elements(ds)
  {
    var ops := Visit(id, ds);
    var i :| 0 <= i < |ops| && ops[i].c.id == x;
    AtDistance(id, ds[i]);
    assert ds[i] in ds;
  }

  /** Some run without bad peers ends in a table that does not. */
  ghost predicate Forgets(id: Bitmap) {
    exists ops :: Legal(id, ops) && NeverBad(id, ops) && !ReportsClosest(id, ops)
  }

  /** The next visit, at distance d, finds the nearest bucket full and cut between its distance and its id. */
  predicate Refuses(id: Bitmap, visits: seq<nat>, hi: nat, ds: set<nat>, d: nat) {
    && Leads(id, visits, hi, ds) && |ds| == BUCKET_SIZE && 0 < d <= hi && d !in ds
    && d < CutOf(0, hi, ds) <= Value(At(id, d).id)
  }

  /** A visit that the full bucket refuses although fewer than eight visits were nearer breaks retention. */
  lemma RefusalForgets(id: Bitmap, visits: seq<nat>, hi: nat, ds: set<nat>, d: nat)
    requires Refuses(id, visits, hi, ds, d) && |Below(Elements(visits), d)| < BUCKET_SIZE
    ensures Forgets(id)
  {
    var all := visits + [d];
    VisitNext(id, visits, d);
    var ops, x := Visit(id, all), At(id, d).id;
    NearestRefuses(Visited(id, visits), hi, ds, d);
    UpdatesNeverBad(id, ops);
    assert ops[|visits|].c.id == x;
    FewNearer(id, visits, d);
    ClosestMissing(Run(id, ops), Seen(ops), x);
  }

  lemma FewNearer(id: Bitmap, visits: seq<nat>, d: nat)
    requires Proper(visits + [d]) && d < Modulus() && |Below(Elements(visits), d)| < BUCKET_SIZE
    ensures |Nearer(Seen(Visit(id, visits + [d])), At(id, d).id, id)| < BUCKET_SIZE
  {
    var nearer := Nearer(Seen(Visit(id, visits + [d])), At(id, d).id, id);
    AtDistance(id, (visits + [d])[|visits|]);
    forall y | y in nearer ensures Dist(y, id) in Below(Elements(visits), d) {
      SeenOnVisit(id, visits + [d], y);
    }
    FewIds(nearer, id, Below(Elements(visits), d));
  }

  lemma SmallValues()
    ensures Modulus() > 32 && Pow2(4) == 16 && Pow2(5) == 32
  {
    Pow2Byte(NUM_BITS - 8);
  }

  /** A block 0..2^k - 1 of the whole space that holds every distance is cut as if it were alone. */
  lemma CutOfAll(k: nat, ds: set<nat>)
    requires k <= 8 * |Blank()| && ds != {} && AllBelow(ds, Pow2(k))
    ensures CutOf(0, Modulus() - 1, ds) == CutOf(0, Pow2(k) - 1, ds)
  {
    CutOfPow2(8 * |Blank()|, k, ds);
  }

  /** The distances first, first + 1, ..., eight in all. */
  function Row(first: nat): (ds: seq<nat>)
    ensures |ds| == BUCKET_SIZE && Distinct(ds)
    ensures forall d :: d in Elements(ds) <==> first <= d < first + BUCKET_SIZE
  {
    var ds := seq(BUCKET_SIZE, k requires 0 <= k < BUCKET_SIZE => first + k);
    assert forall d :: d in Elements(ds) <==> first <= d < first + BUCKET_SIZE by {
      forall d | first <= d < first + BUCKET_SIZE ensures d in ds { assert ds[d - first] == d; }
    }
    ds
  }

  /** Eight updates that fill the only bucket with a row. */
  lemma VisitRow(id: Bitmap, first: nat) returns (ds: set<nat>)
    requires 0 < first <= 16
    ensures Leads(id, Row(first), Modulus() - 1, ds) && |ds| == BUCKET_SIZE && ds == Elements(Row(first))
  {
    SmallValues();
    ds := Elements(Row(first));
    VisitFirst(id, Row(first));
    ElementsCount(Row(first));
  }

  // Ids of 9 and more: eight contacts at distances 2 to 9, cut at 8, then one at distance 1.

  lemma RowAtTwoCut(ds: set<nat>)
    requires AllBelow(ds, 16) && 2 in ds && 9 in ds
    ensures CutOf(0, Modulus() - 1, ds) == 8
  {
    SmallValues();
    CutOfAll(4, ds);
    CutSteps(0, 15, 8, ds);
  }

  lemma LargeIdForgets(id: Bitmap)
    requires Value(id) >= 9
    ensures Forgets(id)
  {
    SmallValues();
    var ds := VisitRow(id, 2);
    RowAtTwoCut(ds);
    AtDistance(id, 1);
    OneAway(id, At(id, 1).id);
    assert Below(ds, 1) == {};
    RefusalForgets(id, Row(2), Modulus() - 1, ds, 1);
  }

  lemma OneAway(id: Bitmap, x: Bitmap)
    requires Dist(x, id) == 1
    ensures Value(x) + 1 >= Value(id)
  {
    DistFromZero(id);
    DistFromZero(x);
    DistSymmetric(id, x);
    DistTriangle(id, x, Zero());
  }

  // Ids of 1 to 8: contacts at distances 16 to 23 are cut at 20; four more between 10 and 14 fill the lower
  // bucket again, whose range 0..19 is then cut at 15, which is the id of the last contact but not its distance.

  lemma RowAtSixteenCut(ds: set<nat>)
    requires AllFrom(ds, 16) && AllBelow(ds, 24) && 16 in ds && 23 in ds
    ensures CutOf(0, Modulus() - 1, ds) == 20
  {
    SmallValues();
    CutOfAll(5, ds);
    CutSteps(0, 31, 16, ds);
    CutSteps(16, 31, 24, ds);
    CutSteps(16, 23, 20, ds);
  }

  lemma InnerCut(ds: set<nat>, d: nat)
    requires AllFrom(ds, 10) && d in ds && d < 15 && 16 in ds
    ensures CutOf(0, 19, ds) == 15
  {
    CutSteps(0, 19, 10, ds);
    CutSteps(10, 19, 15, ds);
  }

  /** The k-th number from 10 on that is not d. */
  function Skip(d: nat, k: nat): nat { if d <= 10 + k then 11 + k else 10 + k }

  lemma VisitShrinks(id: Bitmap, visits: seq<nat>, hi: nat, ds: set<nat>, d: nat)
    requires Leads(id, visits, hi, ds) && |ds| == BUCKET_SIZE && 0 < d <= hi && d !in ds
    requires d < CutOf(0, hi, ds) <= hi && Value(At(id, d).id) < CutOf(0, hi, ds)
    ensures var cut := CutOf(0, hi, ds); Leads(id, visits + [d], cut - 1, Below(ds, cut) + {d})
  {
    NearestShrinks(Visited(id, visits), hi, ds, d);
    VisitNext(id, visits, d);
  }

  predicate AllLow(visits: seq<nat>, ds: set<nat>) {
    16 in ds && AllFrom(ds, 10) && Below(Elements(visits), 20) <= ds
  }

  /** Along a run whose last split was at 20: the bucket nearest to us holds every visited distance below that. */
  predicate LowRun(id: Bitmap, visits: seq<nat>, ds: set<nat>) { Leads(id, visits, 19, ds) && AllLow(visits, ds) }

  lemma LowRow(d: nat)
    requires 10 <= d < 16
    ensures Below(Elements(Row(16)), 20) == {16, 17, 18, 19} && AllLow(Row(16) + [d], {16, 17, 18, 19} + {d})
  {
  }

  /** Sixteen to twenty-three, then one contact below sixteen. */
  lemma SplitOuter(id: Bitmap, d: nat) returns (ds: set<nat>)
    requires Value(id) < 16 && 10 <= d < 16
    ensures LowRun(id, Row(16) + [d], ds) && ds == {16, 17, 18, 19} + {d}
  {
    SmallValues();
    var row := VisitRow(id, 16);
    RowAtSixteenCut(row);
    SmallDist(FromBig(d), id);
    VisitShrinks(id, Row(16), Modulus() - 1, row, d);
    LowRow(d);
    ds := {16, 17, 18, 19} + {d};
  }

  lemma LowRunAdds(id: Bitmap, visits: seq<nat>, ds: set<nat>, d: nat)
    requires LowRun(id, visits, ds) && 10 <= d < 20 && d !in ds && |ds| < BUCKET_SIZE
    ensures LowRun(id, visits + [d], ds + {d})
  {
    VisitAdds(id, visits, 19, ds, d);
    AllLowAdds(visits, ds, d);
  }

  lemma AllLowAdds(visits: seq<nat>, ds: set<nat>, d: nat)
    requires AllLow(visits, ds) && d >= 10
    ensures AllLow(visits + [d], ds + {d})
  {
  }

  /** The distances after k + 1 visits of the second filling, which avoids d. */
  predicate Refilled(ds: set<nat>, d: nat, k: nat) {
    |ds| == 5 + k && Skip(d, 0) in ds && d !in ds && forall e :: e in ds ==> e >= 16 || e <= Skip(d, k)
  }

  lemma RefillStarts(d: nat)
    requires d < 15
    ensures Refilled({16, 17, 18, 19} + {Skip(d, 0)}, d, 0)
  {
  }

  lemma RefillNext(ds: set<nat>, d: nat, k: nat)
    requires d < 15 && 0 < k < 4 && Refilled(ds, d, k - 1)
    ensures Skip(d, k) !in ds && |ds| < BUCKET_SIZE && 10 <= Skip(d, k) < 16 && Refilled(ds + {Skip(d, k)}, d, k)
  {
  }

  lemma {:induction false} FillInner(id: Bitmap, d: nat, k: nat) returns (visits: seq<nat>, ds: set<nat>)
    requires Value(id) < 16 && d < 15 && k < 4
    ensures LowRun(id, visits, ds) && Refilled(ds, d, k)
  {
    if k == 0 {
      ds := SplitOuter(id, Skip(d, 0));
      visits := Row(16) + [Skip(d, 0)];
      RefillStarts(d);
    } else {
      var visits0, ds0 := FillInner(id, d, k - 1);
      RefillNext(ds0, d, k);
      LowRunAdds(id, visits0, ds0, Skip(d, k));
      visits, ds := visits0 + [Skip(d, k)], ds0 + {Skip(d, k)};
    }
  }

  lemma FewBelow(visits: seq<nat>, ds: set<nat>, d: nat)
    requires AllLow(visits, ds) && d <= 15
    ensures |Below(Elements(visits), d)| < |ds|
  {
    SubsetCount(Below(Elements(visits), d), ds - {16});
  }

  lemma {:induction false} SubsetCount(a: set<nat>, b: set<nat>)
    requires a <= b
    ensures |a| <= |b|
  {
    if x :| x in a { SubsetCount(a - {x}, b - {x}); }
  }

  /** The contact with id 15 has a distance below 15. */
  lemma FifteenIsNearer(id: Bitmap) returns (d: nat)
    requires 0 < Value(id) <= 8
    ensures 0 < d < 15 < Modulus() && At(id, d).id == FromBig(15)
  {
    SmallValues();
    var x := FromBig(15);
    d := Dist(x, id);
    SmallDist(x, id);
    DistZero(x, id);
    AtDistance(id, d);
    DistInjective(id, At(id, d).id, x);
    DistFromZero(x);
    DistSymmetric(x, id);
    DistSymmetric(x, Zero());
    if d == 15 { DistInjective(x, id, Zero()); }
  }

  lemma SmallIdForgets(id: Bitmap)
    requires 0 < Value(id) <= 8
    ensures Forgets(id)
  {
    var d := FifteenIsNearer(id);
    var visits, ds := FillInner(id, d, 3);
    FewBelow(visits, ds, d);
    FifteenRefused(id, visits, ds, d);
    RefusalForgets(id, visits, 19, ds, d);
  }

  lemma FifteenRefused(id: Bitmap, visits: seq<nat>, ds: set<nat>, d: nat)
    requires LowRun(id, visits, ds) && Refilled(ds, d, 3)
    requires 0 < d < 15 < Modulus() && At(id, d).id == FromBig(15)
    ensures Refuses(id, visits, 19, ds, d)
  {
    InnerCut(ds, Skip(d, 0));
  }

  /**
    The table reports the eight closest contacts ever seen, after every run in which no peer becomes bad,
    exactly when its own id is all zeros.
  */
  lemma RetentionIff(id: Bitmap)
    ensures (forall ops :: Legal(id, ops) && NeverBad(id, ops) ==> ReportsClosest(id, ops)) <==> id == Zero()
  {
    if id == Zero() {
      forall ops | Legal(id, ops) && NeverBad(id, ops) ensures ReportsClosest(id, ops) {
        ZeroIdClosestEverSeen(ops);
      }
    } else {
      if Value(id) == 0 { ValueInjective(id, Zero()); }
      if Value(id) >= 9 { LargeIdForgets(id); } else { SmallIdForgets(id); }
    }
  }
}
