/** Peers and buckets as values: what each bucket operation computes (dht/routing_table.go). */
module Buckets {
  import opened Bits
  import opened Ranges
  import opened Contacts

  const MAX_PEER_FAILS := 3

  datatype Peer = Peer(contact: Contact, distance: Bitmap, lastActivity: int, numFailures: nat) {
    function Touch(now: int): Peer { this.(lastActivity := now, numFailures := 0) }

    function Fail(): Peer { this.(numFailures := numFailures + 1) }

    predicate IsBad(maxFailures: nat) { numFailures >= maxFailures }
  }

  datatype BucketState = BucketState(peers: seq<Peer>, lastUpdate: int, range: Range)

  function PeerIds(peers: seq<Peer>): set<Bitmap> { set p | p in peers :: p.contact.id }

  function ContactsOf(peers: seq<Peer>): (r: seq<Contact>)
    ensures |r| == |peers| && Ids(r) == PeerIds(peers)
  {
    var r := seq(|peers|, i requires 0 <= i < |peers| => peers[i].contact);
    assert Ids(r) == PeerIds(peers) by {
      forall p | p in peers ensures p.contact in r {
        var i :| 0 <= i < |peers| && peers[i] == p;
        assert r[i] == p.contact;
      }
    }
    r
  }

  /** `find`: the first position holding the id, or -1. */
  function Find(id: Bitmap, peers: seq<Peer>): (i: int)
    ensures -1 <= i < |peers|
    ensures i == -1 <==> id !in PeerIds(peers)
    ensures i >= 0 ==> peers[i].contact.id == id
  {
    if peers == [] then -1
    else if peers[|peers| - 1].contact.id != id then Find(id, peers[..|peers| - 1])
    else
      var rest := Find(id, peers[..|peers| - 1]);
      if rest >= 0 then rest else |peers| - 1
  }

  function MovedToBack(peers: seq<Peer>, index: int): seq<Peer> {
    if index < 0 || |peers| <= index + 1 then peers
    else peers[..index] + peers[index + 1..] + [peers[index]]
  }

  /** The first bad peer, or the length when there is none. */
  function FirstBad(peers: seq<Peer>): (k: nat)
    ensures k <= |peers|
    ensures forall i :: 0 <= i < k ==> !peers[i].IsBad(MAX_PEER_FAILS)
    ensures k < |peers| ==> peers[k].IsBad(MAX_PEER_FAILS)
  {
    if peers == [] then 0
    else if peers[0].IsBad(MAX_PEER_FAILS) then 0
    else 1 + FirstBad(peers[1..])
  }

  function Without(peers: seq<Peer>, k: nat): seq<Peer>
    requires k < |peers|
  {
    peers[..k] + peers[k + 1..]
  }

  predicate HasRoom(peers: seq<Peer>) { |peers| < BUCKET_SIZE || FirstBad(peers) < |peers| }

  /** The peers after an insert: a full bucket gives up its first bad peer, or refuses. */
  function Inserted(peers: seq<Peer>, p: Peer): seq<Peer> {
    if |peers| < BUCKET_SIZE then peers + [p]
    else if FirstBad(peers) < |peers| then Without(peers, FirstBad(peers)) + [p]
    else peers
  }

  /** `UpdatePeer`; the flag is false when the bucket refuses the peer as out of range. */
  function UpdatePeer(b: BucketState, p: Peer, insertIfNew: bool, now: int): (BucketState, bool) {
    if !b.range.Covers(p.distance) then (b, false)
    else
      var i := Find(p.contact.id, b.peers);
      if i >= 0 then
        (b.(peers := MovedToBack(b.peers[i := b.peers[i].Touch(now)], i), lastUpdate := now), true)
      else if insertIfNew && HasRoom(b.peers) then
        (b.(peers := Inserted(b.peers, p.Touch(now)), lastUpdate := now), true)
      else (b, true)
  }

  /** `FailContact` */
  function FailContact(b: BucketState, id: Bitmap): BucketState {
    var i := Find(id, b.peers);
    if i >= 0 then b.(peers := b.peers[i := b.peers[i].Fail()]) else b
  }

  // ---------------------------------------------------------------------------
  // Splitting
  // ---------------------------------------------------------------------------

  /** The peers whose distance lies in r (or outside it), in their original order. */
  function Select(peers: seq<Peer>, r: Range, inside: bool): (s: seq<Peer>)
    ensures forall p :: p in s <==> p in peers && r.Covers(p.distance) == inside
    ensures |s| <= |peers|
  {
    if peers == [] then []
    else
      var p, s := peers[|peers| - 1], Select(peers[..|peers| - 1], r, inside);
      assert peers == peers[..|peers| - 1] + [p];
      if r.Covers(p.distance) == inside then s + [p] else s
  }

  predicate InRange(peers: seq<Peer>, r: Range) {
    forall i :: 0 <= i < |peers| ==> r.Covers(peers[i].distance)
  }

  predicate DistinctDistances(peers: seq<Peer>) {
    forall i, j :: 0 <= i < j < |peers| ==> peers[i].distance != peers[j].distance
  }

  predicate Splittable(b: BucketState) {
    b.range.Lo() < b.range.Hi() && InRange(b.peers, b.range) && DistinctDistances(b.peers)
  }

  lemma TwoPeersNeedTwoValues(b: BucketState)
    requires |b.peers| >= 2 && InRange(b.peers, b.range) && DistinctDistances(b.peers)
    ensures b.range.Lo() < b.range.Hi()
  {
    var x, y := b.peers[0].distance, b.peers[1].distance;
    assert b.range.Covers(x) && b.range.Covers(y);
    if Value(x) == Value(y) { ValueInjective(x, y); }
  }

  function LeftHalf(r: Range): (h: Range)
    requires r.Lo() < r.Hi()
    ensures h.start == r.start && h.Hi() == Middle(r) - 1 && r.Lo() <= h.Hi() < r.Hi()
  {
    Halves(r);
    IntervalP(r, 1, 2).value
  }

  function RightHalf(r: Range): (h: Range)
    requires r.Lo() < r.Hi()
    ensures h.end == r.end && h.Lo() == Middle(r) && r.Lo() < h.Lo() <= r.Hi()
  {
    Halves(r);
    IntervalP(r, 2, 2).value
  }

  lemma {:induction false} SelectAll(peers: seq<Peer>, r: Range, inside: bool)
    requires forall p :: p in peers ==> r.Covers(p.distance) == inside
    ensures Select(peers, r, inside) == peers && Select(peers, r, !inside) == []
  {
    if peers != [] {
      SelectAll(peers[..|peers| - 1], r, inside);
      assert peers == peers[..|peers| - 1] + [peers[|peers| - 1]];
    }
  }

  lemma {:induction false} SelectSame(peers: seq<Peer>, r: Range, r': Range, inside: bool)
    requires forall p :: p in peers ==> r.Covers(p.distance) == r'.Covers(p.distance)
    ensures Select(peers, r, inside) == Select(peers, r', inside)
  {
    if peers != [] { SelectSame(peers[..|peers| - 1], r, r', inside); }
  }

  lemma {:induction false} SelectCounts(peers: seq<Peer>, r: Range)
    ensures |Select(peers, r, true)| + |Select(peers, r, false)| == |peers|
    ensures multiset(Select(peers, r, true)) + multiset(Select(peers, r, false)) == multiset(peers)
  {
    if peers != [] {
      SelectCounts(peers[..|peers| - 1], r);
      assert peers == peers[..|peers| - 1] + [peers[|peers| - 1]];
    }
  }

  /** A bucket that keeps only the peers on one side. */
  function Side(b: BucketState, r: Range, inside: bool, half: Range): BucketState {
    BucketState(Select(b.peers, r, inside), b.lastUpdate, half)
  }

  /** When one half gets no peers, all of them sit in the other, which is then splittable itself. */
  lemma LopsidedIsSplittable(b: BucketState, inside: bool)
    requires Splittable(b) && |b.peers| > 1 && Select(b.peers, LeftHalf(b.range), !inside) == []
    ensures var half := if inside then LeftHalf(b.range) else RightHalf(b.range);
            var side := Side(b, LeftHalf(b.range), inside, half);
            side.peers == b.peers && Splittable(side) && half.Hi() - half.Lo() < b.range.Hi() - b.range.Lo()
  {
    var half := if inside then LeftHalf(b.range) else RightHalf(b.range);
    AllOnOneSide(b, inside, half);
    SelectAll(b.peers, LeftHalf(b.range), inside);
    TwoPeersNeedTwoValues(Side(b, LeftHalf(b.range), inside, half));
  }

  lemma AllOnOneSide(b: BucketState, inside: bool, half: Range)
    requires Splittable(b) && Select(b.peers, LeftHalf(b.range), !inside) == []
    requires half == if inside then LeftHalf(b.range) else RightHalf(b.range)
    ensures forall p :: p in b.peers ==> LeftHalf(b.range).Covers(p.distance) == inside
    ensures InRange(b.peers, half)
  {
    forall p | p in b.peers ensures LeftHalf(b.range).Covers(p.distance) == inside {
      assert p !in Select(b.peers, LeftHalf(b.range), !inside);
    }
    forall k | 0 <= k < |b.peers| ensures half.Covers(b.peers[k].distance) {
      assert b.peers[k] in b.peers;
    }
  }

  function StretchStart(b: BucketState, start: Bitmap): BucketState { b.(range := b.range.(start := start)) }

  function StretchEnd(b: BucketState, end: Bitmap): BucketState { b.(range := b.range.(end := end)) }

  /** `Split`: halve the range; while one half holds every peer, split that half and stretch it back. */
  function Split(b: BucketState): (BucketState, BucketState)
    requires Splittable(b)
    decreases b.range.Hi() - b.range.Lo()
  {
    var leftRange, rightRange := LeftHalf(b.range), RightHalf(b.range);
    var left, right := Side(b, leftRange, true, leftRange), Side(b, leftRange, false, rightRange);
    if |b.peers| > 1 && left.peers == [] then
      LopsidedIsSplittable(b, false);
      var (l, r) := Split(right);
      (StretchStart(l, b.range.start), r)
    else if |b.peers| > 1 && right.peers == [] then
      LopsidedIsSplittable(b, true);
      var (l, r) := Split(left);
      (l, StretchEnd(r, b.range.end))
    else (left, right)
  }

  /** One recursion step of `Split`, towards the half that holds every peer. */
  lemma SplitRecurses(b: BucketState, inside: bool)
    requires Splittable(b) && |b.peers| > 1 && Select(b.peers, LeftHalf(b.range), !inside) == []
    ensures var half := if inside then LeftHalf(b.range) else RightHalf(b.range);
            var side := Side(b, LeftHalf(b.range), inside, half);
            && Splittable(side) && half.Hi() - half.Lo() < b.range.Hi() - b.range.Lo()
            && var (l, r) := Split(side);
               Split(b) == if inside then (l, StretchEnd(r, b.range.end)) else (StretchStart(l, b.range.start), r)
  {
    LopsidedIsSplittable(b, inside);
  }

  /** The case where `Split` stops. */
  lemma SplitStops(b: BucketState)
    requires Splittable(b)
    requires |b.peers| <= 1 || Select(b.peers, LeftHalf(b.range), true) != []
    requires |b.peers| <= 1 || Select(b.peers, LeftHalf(b.range), false) != []
    ensures Split(b) == (Side(b, LeftHalf(b.range), true, LeftHalf(b.range)),
                         Side(b, LeftHalf(b.range), false, RightHalf(b.range)))
  {
  }

  /** l and r tile b's range, and divide its peers by range without reordering or losing any. */
  predicate IsSplitOf(b: BucketState, l: BucketState, r: BucketState) {
    && l.range.start == b.range.start && r.range.end == b.range.end
    && b.range.Lo() <= l.range.Hi() && l.range.Hi() + 1 == r.range.Lo() && r.range.Lo() <= b.range.Hi()
    && l.peers == Select(b.peers, l.range, true)
    && r.peers == Select(b.peers, l.range, false)
    && l.lastUpdate == b.lastUpdate && r.lastUpdate == b.lastUpdate
  }

  lemma {:induction false} SplitIsSplit(b: BucketState)
    requires Splittable(b)
    ensures var (l, r) := Split(b);
            IsSplitOf(b, l, r) && (|b.peers| > 1 ==> l.peers != [] && r.peers != [])
    decreases b.range.Hi() - b.range.Lo()
  {
    var leftRange, rightRange := LeftHalf(b.range), RightHalf(b.range);
    var left, right := Side(b, leftRange, true, leftRange), Side(b, leftRange, false, rightRange);
    if |b.peers| > 1 && left.peers == [] {
      LopsidedIsSplittable(b, false);
      SplitIsSplit(right);
      var (l, r) := Split(right);
      StretchSelects(b, right, l.range, l.range.(start := b.range.start));
    } else if |b.peers| > 1 && right.peers == [] {
      LopsidedIsSplittable(b, true);
      SplitIsSplit(left);
    }
  }

  /** Moving a range's start down past no peer's distance selects the same peers. */
  lemma StretchSelects(b: BucketState, side: BucketState, r: Range, r': Range)
    requires side.peers == b.peers && InRange(side.peers, side.range)
    requires r.start == side.range.start && r'.end == r.end && r'.Lo() <= r.Lo()
    ensures Select(b.peers, r, true) == Select(b.peers, r', true)
    ensures Select(b.peers, r, false) == Select(b.peers, r', false)
  {
    forall p | p in b.peers ensures r.Covers(p.distance) == r'.Covers(p.distance) {
    }
    SelectSame(b.peers, r, r', true);
    SelectSame(b.peers, r, r', false);
  }

  lemma SplitDivides(b: BucketState, l: BucketState, r: BucketState)
    requires IsSplitOf(b, l, r) && InRange(b.peers, b.range)
    ensures InRange(l.peers, l.range) && InRange(r.peers, r.range)
    ensures multiset(l.peers) + multiset(r.peers) == multiset(b.peers) && |l.peers| + |r.peers| == |b.peers|
  {
    SelectCounts(b.peers, l.range);
    forall i | 0 <= i < |r.peers| ensures r.range.Covers(r.peers[i].distance) {
      assert r.peers[i] in r.peers;
    }
  }

  /** After splitting a bucket of two or more, each half holds some but not all of the peers. */
  lemma SplitLeavesRoom(b: BucketState)
    requires Splittable(b) && |b.peers| > 1
    ensures var (l, r) := Split(b); 0 < |l.peers| < |b.peers| && 0 < |r.peers| < |b.peers|
  {
    SplitIsSplit(b);
    var (l, r) := Split(b);
    SplitDivides(b, l, r);
  }

  // ---------------------------------------------------------------------------
  // The bucket invariant
  // ---------------------------------------------------------------------------

  /** A peer of the table with this id: not the table's own id, and filed under its XOR distance. */
  predicate PeerOK(id: Bitmap, p: Peer) { p.contact.id != id && p.distance == Xor(id, p.contact.id) }

  predicate DistinctPeers(peers: seq<Peer>) {
    forall i, j :: 0 <= i < j < |peers| ==> peers[i].contact.id != peers[j].contact.id
  }

  predicate AllOK(id: Bitmap, peers: seq<Peer>) { forall i :: 0 <= i < |peers| ==> PeerOK(id, peers[i]) }

  predicate BucketOK(id: Bitmap, b: BucketState) {
    && b.range.Lo() <= b.range.Hi()
    && |b.peers| <= BUCKET_SIZE
    && InRange(b.peers, b.range)
    && DistinctPeers(b.peers)
    && AllOK(id, b.peers)
  }

  lemma SameDistanceSameId(id: Bitmap, p: Peer, q: Peer)
    requires PeerOK(id, p) && PeerOK(id, q) && p.distance == q.distance
    ensures p.contact.id == q.contact.id
  {
    XorCommutes(id, p.contact.id);
    XorCommutes(id, q.contact.id);
    DistInjective(id, p.contact.id, q.contact.id);
  }

  lemma DistinctPeersDistances(id: Bitmap, peers: seq<Peer>)
    requires AllOK(id, peers) && DistinctPeers(peers)
    ensures DistinctDistances(peers)
  {
    forall i, j | 0 <= i < j < |peers| ensures peers[i].distance != peers[j].distance {
      if peers[i].distance == peers[j].distance { SameDistanceSameId(id, peers[i], peers[j]); }
    }
  }

  lemma WithoutIds(peers: seq<Peer>, k: nat)
    requires DistinctPeers(peers) && k < |peers|
    ensures DistinctPeers(Without(peers, k))
    ensures PeerIds(Without(peers, k)) == PeerIds(peers) - {peers[k].contact.id}
  {
    var rest := Without(peers, k);
    forall x | x in PeerIds(peers) && x != peers[k].contact.id ensures x in PeerIds(rest) {
      var i :| 0 <= i < |peers| && peers[i].contact.id == x;
      assert peers[i] == rest[if i < k then i else i - 1];
    }
    forall i | 0 <= i < |rest| ensures rest[i] in peers && rest[i].contact.id != peers[k].contact.id {
      assert rest[i] == peers[if i < k then i else i + 1];
    }
  }

  lemma AppendIds(peers: seq<Peer>, p: Peer)
    ensures PeerIds(peers + [p]) == PeerIds(peers) + {p.contact.id}
    ensures DistinctPeers(peers) && p.contact.id !in PeerIds(peers) ==> DistinctPeers(peers + [p])
  {
    forall i | 0 <= i < |peers| ensures peers[i].contact.id in PeerIds(peers) { assert peers[i] in peers; }
  }

  lemma {:induction false} SelectDistinct(peers: seq<Peer>, cut: Range, inside: bool)
    requires DistinctPeers(peers)
    ensures DistinctPeers(Select(peers, cut, inside))
  {
    if peers != [] {
      var n := |peers| - 1;
      SelectDistinct(peers[..n], cut, inside);
      var s := Select(peers[..n], cut, inside);
      forall i | 0 <= i < |s| ensures s[i].contact.id != peers[n].contact.id { assert s[i] in peers[..n]; }
    }
  }

  /** Both halves of a split are buckets again. */
  lemma SplitOK(id: Bitmap, b: BucketState)
    requires BucketOK(id, b) && |b.peers| > 1
    ensures Splittable(b)
    ensures var (l, r) := Split(b);
            && IsSplitOf(b, l, r) && BucketOK(id, l) && BucketOK(id, r)
            && |l.peers| < |b.peers| && |r.peers| < |b.peers|
            && PeerIds(l.peers) + PeerIds(r.peers) == PeerIds(b.peers)
  {
    DistinctPeersDistances(id, b.peers);
    TwoPeersNeedTwoValues(b);
    SplitIsSplit(b);
    SplitLeavesRoom(b);
    HalvesOK(id, b, Split(b).0, Split(b).1);
  }

  lemma HalvesOK(id: Bitmap, b: BucketState, l: BucketState, r: BucketState)
    requires BucketOK(id, b) && IsSplitOf(b, l, r) && |l.peers| <= |b.peers| && |r.peers| <= |b.peers|
    ensures BucketOK(id, l) && BucketOK(id, r) && PeerIds(l.peers) + PeerIds(r.peers) == PeerIds(b.peers)
  {
    SplitDivides(b, l, r);
    SelectDistinct(b.peers, l.range, true);
    SelectDistinct(b.peers, l.range, false);
    forall i | 0 <= i < |l.peers| ensures PeerOK(id, l.peers[i]) { assert l.peers[i] in b.peers; }
    forall i | 0 <= i < |r.peers| ensures PeerOK(id, r.peers[i]) { assert r.peers[i] in b.peers; }
  }

  /** What `UpdatePeer` does to the peers: nothing, or one peer touched and put at the back. */
  datatype Effect = Untouched | Moved(at: nat) | Appended | Replaced(at: nat)

  function EffectOf(b: BucketState, p: Peer, insertIfNew: bool): (e: Effect)
    ensures e.Moved? ==> e.at < |b.peers| && b.peers[e.at].contact.id == p.contact.id
    ensures e.Appended? ==> |b.peers| < BUCKET_SIZE
    ensures e.Replaced? ==> e.at == FirstBad(b.peers) < |b.peers| && |b.peers| >= BUCKET_SIZE
    ensures e.Appended? || e.Replaced? ==> p.contact.id !in PeerIds(b.peers)
    ensures !e.Untouched? ==> b.range.Covers(p.distance)
  {
    if !b.range.Covers(p.distance) then Untouched
    else if Find(p.contact.id, b.peers) >= 0 then Moved(Find(p.contact.id, b.peers))
    else if !insertIfNew || !HasRoom(b.peers) then Untouched
    else if |b.peers| < BUCKET_SIZE then Appended
    else Replaced(FirstBad(b.peers))
  }

  function Applied(peers: seq<Peer>, e: Effect, p: Peer, now: int): seq<Peer>
    requires e.Moved? || e.Replaced? ==> e.at < |peers|
  {
    match e
    case Untouched => peers
    case Moved(i) => Without(peers, i) + [peers[i].Touch(now)]
    case Appended => peers + [p.Touch(now)]
    case Replaced(i) => Without(peers, i) + [p.Touch(now)]
  }

  lemma UpdatePeerEffect(b: BucketState, p: Peer, insertIfNew: bool, now: int)
    ensures var (b', ok) := UpdatePeer(b, p, insertIfNew, now);
            && b'.peers == Applied(b.peers, EffectOf(b, p, insertIfNew), p, now)
            && b'.range == b.range
            && b'.lastUpdate == (if EffectOf(b, p, insertIfNew).Untouched? then b.lastUpdate else now)
            && ok == b.range.Covers(p.distance)
  {
    var i := Find(p.contact.id, b.peers);
    if i >= 0 {
      var touched := b.peers[i := b.peers[i].Touch(now)];
      assert touched[..i] == b.peers[..i] && touched[i + 1..] == b.peers[i + 1..];
      assert MovedToBack(touched, i) == Without(b.peers, i) + [b.peers[i].Touch(now)];
    }
  }

  /** The ids in a bucket after an update. */
  function IdsAfter(peers: seq<Peer>, e: Effect, x: Bitmap): set<Bitmap>
    requires e.Replaced? ==> e.at < |peers|
  {
    match e
    case Untouched => PeerIds(peers)
    case Moved(_) => PeerIds(peers)
    case Appended => PeerIds(peers) + {x}
    case Replaced(k) => PeerIds(peers) - {peers[k].contact.id} + {x}
  }

  lemma AppliedIds(peers: seq<Peer>, e: Effect, p: Peer, now: int)
    requires DistinctPeers(peers)
    requires e.Moved? || e.Replaced? ==> e.at < |peers|
    requires e.Moved? ==> peers[e.at].contact.id == p.contact.id
    requires e.Appended? || e.Replaced? ==> p.contact.id !in PeerIds(peers)
    ensures PeerIds(Applied(peers, e, p, now)) == IdsAfter(peers, e, p.contact.id)
    ensures DistinctPeers(Applied(peers, e, p, now))
  {
    match e
    case Untouched =>
    case Moved(k) =>
      WithoutIds(peers, k);
      AppendIds(Without(peers, k), peers[k].Touch(now));
      assert peers[k] in peers;
    case Appended =>
      AppendIds(peers, p.Touch(now));
    case Replaced(k) =>
      WithoutIds(peers, k);
      AppendIds(Without(peers, k), p.Touch(now));
  }

  lemma AppliedOK(id: Bitmap, peers: seq<Peer>, r: Range, e: Effect, p: Peer, now: int)
    requires AllOK(id, peers) && InRange(peers, r)
    requires e.Moved? || e.Replaced? ==> e.at < |peers|
    requires !e.Untouched? ==> PeerOK(id, p) && r.Covers(p.distance)
    ensures AllOK(id, Applied(peers, e, p, now)) && InRange(Applied(peers, e, p, now), r)
  {
    var s := Applied(peers, e, p, now);
    forall i | 0 <= i < |s| ensures PeerOK(id, s[i]) && r.Covers(s[i].distance) {
      if e.Moved? && i < |s| - 1 { assert s[i] == peers[if i < e.at then i else i + 1]; }
    }
  }

  lemma UpdatePeerOK(id: Bitmap, b: BucketState, p: Peer, insertIfNew: bool, now: int)
    requires BucketOK(id, b) && PeerOK(id, p)
    ensures var b' := UpdatePeer(b, p, insertIfNew, now).0;
            && BucketOK(id, b')
            && b'.range == b.range
            && PeerIds(b'.peers) == IdsAfter(b.peers, EffectOf(b, p, insertIfNew), p.contact.id)
  {
    var e := EffectOf(b, p, insertIfNew);
    UpdatePeerEffect(b, p, insertIfNew, now);
    AppliedIds(b.peers, e, p, now);
    AppliedOK(id, b.peers, b.range, e, p, now);
  }

  lemma FailContactOK(id: Bitmap, b: BucketState, x: Bitmap)
    requires BucketOK(id, b)
    ensures var b' := FailContact(b, x);
            BucketOK(id, b') && PeerIds(b'.peers) == PeerIds(b.peers) && b'.range == b.range
  {
    var i, b' := Find(x, b.peers), FailContact(b, x);
    if i >= 0 {
      SameContacts(b.peers, b'.peers);
      forall k | 0 <= k < |b'.peers| ensures b'.range.Covers(b'.peers[k].distance) && PeerOK(id, b'.peers[k]) {
        assert PeerOK(id, b.peers[k]);
      }
    }
  }

  lemma SameContacts(a: seq<Peer>, b: seq<Peer>)
    requires |a| == |b| && forall k :: 0 <= k < |a| ==> a[k].contact == b[k].contact
    ensures PeerIds(a) == PeerIds(b)
  {
    forall k | 0 <= k < |a| ensures a[k].contact.id in PeerIds(b) && b[k].contact.id in PeerIds(a) {
      assert a[k] in a && b[k] in b;
    }
  }
}
