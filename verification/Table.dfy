/** The routing table as a state machine over values (dht/routing_table.go). */
module Table {
  import opened Bits
  import opened Ranges
  import opened Contacts
  import opened Buckets

  datatype TableState = TableState(id: Bitmap, buckets: seq<BucketState>)

  function NewTable(id: Bitmap): TableState { TableState(id, [BucketState([], 0, MaxRange())]) }

  // ---------------------------------------------------------------------------
  // Invariant
  // ---------------------------------------------------------------------------

  /** The ranges follow one another without gap or overlap from 0 to 2^384 - 1. */
  predicate Tiled(bs: seq<BucketState>) {
    && |bs| > 0
    && bs[0].range.Lo() == 0
    && bs[|bs| - 1].range.Hi() == Modulus() - 1
    && forall i, j :: 0 <= i < |bs| && i < j < |bs| && j == i + 1 ==> bs[i].range.Hi() + 1 == bs[j].range.Lo()
  }

  predicate AllBucketsOK(id: Bitmap, bs: seq<BucketState>) {
    forall i :: 0 <= i < |bs| ==> BucketOK(id, bs[i])
  }

  predicate Valid(t: TableState) { Tiled(t.buckets) && AllBucketsOK(t.id, t.buckets) }

  lemma NewTableValid(id: Bitmap)
    ensures Valid(NewTable(id))
  {
  }

  lemma {:induction false} RangesOrdered(id: Bitmap, bs: seq<BucketState>, i: nat, j: nat)
    requires Tiled(bs) && AllBucketsOK(id, bs) && i < j < |bs|
    ensures bs[i].range.Hi() < bs[j].range.Lo()
  {
    assert BucketOK(id, bs[j - 1]);
    if i < j - 1 { RangesOrdered(id, bs, i, j - 1); }
  }

  /** No two buckets cover the same distance. */
  lemma CoverUnique(t: TableState, i: nat, j: nat, d: Bitmap)
    requires Valid(t) && i < |t.buckets| && j < |t.buckets|
    requires t.buckets[i].range.Covers(d) && t.buckets[j].range.Covers(d)
    ensures i == j
  {
    if i < j { RangesOrdered(t.id, t.buckets, i, j); }
    if j < i { RangesOrdered(t.id, t.buckets, j, i); }
  }

  function SearchFrom(t: TableState, d: Bitmap, i: nat): (r: nat)
    requires Valid(t) && i < |t.buckets| && t.buckets[i].range.Lo() <= Value(d)
    ensures r < |t.buckets| && t.buckets[r].range.Covers(d)
    decreases |t.buckets| - i
  {
    ValueBound(d);
    if t.buckets[i].range.Covers(d) then i else SearchFrom(t, d, i + 1)
  }

  /** `bucketFor`: always finds a bucket (its final panic is unreachable), and by CoverUnique the only one. */
  function BucketFor(t: TableState, target: Bitmap): (r: nat)
    requires Valid(t)
    ensures r < |t.buckets| && t.buckets[r].range.Covers(Xor(target, t.id))
  {
    SearchFrom(t, Xor(target, t.id), 0)
  }

  function TableIds(bs: seq<BucketState>): set<Bitmap> {
    if bs == [] then {} else TableIds(bs[..|bs| - 1]) + PeerIds(bs[|bs| - 1].peers)
  }

  lemma {:induction false} InTableIds(bs: seq<BucketState>, x: Bitmap)
    ensures x in TableIds(bs) <==> exists i :: 0 <= i < |bs| && x in PeerIds(bs[i].peers)
  {
    if bs != [] {
      var n := |bs| - 1;
      InTableIds(bs[..n], x);
      if i :| 0 <= i < |bs| && x in PeerIds(bs[i].peers) {
        if i < n { assert bs[..n][i] == bs[i]; }
      }
    }
  }

  lemma {:induction false} TableIdsConcat(a: seq<BucketState>, b: seq<BucketState>)
    ensures TableIds(a + b) == TableIds(a) + TableIds(b)
  {
    if b == [] {
      assert a + b == a;
    } else {
      var n := |b| - 1;
      assert (a + b)[..|a + b| - 1] == a + b[..n];
      TableIdsConcat(a, b[..n]);
    }
  }

  /** An id sits in the one bucket that covers its distance, or nowhere. */
  lemma HomeBucket(t: TableState, x: Bitmap)
    requires Valid(t)
    ensures x in TableIds(t.buckets) <==> x in PeerIds(t.buckets[BucketFor(t, x)].peers)
    ensures x in TableIds(t.buckets) ==> x != t.id
    ensures forall i: nat :: i < |t.buckets| && i != BucketFor(t, x) ==> x !in PeerIds(t.buckets[i].peers)
  {
    InTableIds(t.buckets, x);
    forall i: nat | i < |t.buckets| && x in PeerIds(t.buckets[i].peers)
      ensures i == BucketFor(t, x) && x != t.id
    {
      HeldIdIsHome(t, x, i);
    }
  }

  lemma HeldIdIsHome(t: TableState, x: Bitmap, i: nat)
    requires Valid(t) && i < |t.buckets| && x in PeerIds(t.buckets[i].peers)
    ensures i == BucketFor(t, x) && x != t.id
  {
    assert BucketOK(t.id, t.buckets[i]);
    var k :| 0 <= k < |t.buckets[i].peers| && t.buckets[i].peers[k].contact.id == x;
    assert PeerOK(t.id, t.buckets[i].peers[k]);
    XorCommutes(t.id, x);
    CoverUnique(t, i, BucketFor(t, x), Xor(x, t.id));
  }

  // ---------------------------------------------------------------------------
  // Reading the whole table
  // ---------------------------------------------------------------------------

  function AllContacts(bs: seq<BucketState>): seq<Contact> {
    if bs == [] then [] else AllContacts(bs[..|bs| - 1]) + ContactsOf(bs[|bs| - 1].peers)
  }

  lemma {:induction false} AllContactsIds(bs: seq<BucketState>)
    ensures Ids(AllContacts(bs)) == TableIds(bs)
  {
    if bs != [] {
      var n := |bs| - 1;
      AllContactsIds(bs[..n]);
      IdsConcat(AllContacts(bs[..n]), ContactsOf(bs[n].peers));
    }
  }

  lemma IdsConcat(a: seq<Contact>, b: seq<Contact>)
    ensures Ids(a + b) == Ids(a) + Ids(b)
  {
  }

  lemma DistinctConcat(a: seq<Contact>, b: seq<Contact>)
    requires DistinctIds(a) && DistinctIds(b) && Ids(a) !! Ids(b)
    ensures DistinctIds(a + b)
  {
    forall i, j | 0 <= i < |a| && 0 <= j < |b| ensures a[i].id != b[j].id {
      assert a[i].id in Ids(a) && b[j].id in Ids(b);
    }
  }

  /** No id occurs twice anywhere in the table. */
  lemma AllContactsDistinct(t: TableState)
    requires Valid(t)
    ensures DistinctIds(AllContacts(t.buckets))
  {
    PrefixDistinct(t, |t.buckets|);
    assert t.buckets[..|t.buckets|] == t.buckets;
  }

  lemma {:induction false} PrefixDistinct(t: TableState, n: nat)
    requires Valid(t) && n <= |t.buckets|
    ensures DistinctIds(AllContacts(t.buckets[..n]))
  {
    if n > 0 {
      var init, last := t.buckets[..n - 1], t.buckets[n - 1];
      PrefixDistinct(t, n - 1);
      assert t.buckets[..n][..n - 1] == init;
      AllContactsIds(init);
      assert BucketOK(t.id, last);
      forall x | x in TableIds(init) ensures x !in PeerIds(last.peers) {
        InTableIds(init, x);
        var i: nat :| i < n - 1 && x in PeerIds(init[i].peers);
        HeldIdIsHome(t, x, i);
        HomeBucket(t, x);
      }
      DistinctConcat(AllContacts(init), ContactsOf(last.peers));
    }
  }

  /** `getClosest` */
  function GetClosest(t: TableState, target: Bitmap, limit: nat): seq<Contact> {
    var s := SortByDistance(AllContacts(t.buckets), target);
    s[..Min(limit, |s|)]
  }

  /** `getClosest` returns, nearest first, the limit closest ids of the table. */
  lemma GetClosestIsKClosest(t: TableState, target: Bitmap, limit: nat)
    requires Valid(t)
    ensures var r := GetClosest(t, target, limit);
            && StrictlySortedTo(r, target)
            && KClosest(Ids(r), TableIds(t.buckets), target, limit)
            && |r| == Min(limit, |TableIds(t.buckets)|)
  {
    var all := AllContacts(t.buckets);
    var s := SortByDistance(all, target);
    AllContactsDistinct(t);
    AllContactsIds(t.buckets);
    SortDistinct(all, target);
    TakeIsKClosest(s, target, limit);
    IdsCount(s);
  }

  // ---------------------------------------------------------------------------
  // Update, Fresh, Fail
  // ---------------------------------------------------------------------------

  predicate Has(b: BucketState, c: Contact) { exists i :: 0 <= i < |b.peers| && b.peers[i].contact.Equals(c, true) }

  lemma {:induction false} FullBucketFillsTable(bs: seq<BucketState>, i: nat)
    requires i < |bs|
    ensures |AllContacts(bs)| >= |bs[i].peers|
  {
    var n := |bs| - 1;
    if i < n { FullBucketFillsTable(bs[..n], i); }
  }

  /** Distance of the eighth closest contact (the farthest, if fewer) from the table's own id. */
  function KthClosest(t: TableState, i: nat): nat
    requires i < |t.buckets| && |t.buckets[i].peers| >= BUCKET_SIZE
  {
    FullBucketFillsTable(t.buckets, i);
    SortIsSorted(AllContacts(t.buckets), t.id);
    var kClosest := GetClosest(t, t.id, BUCKET_SIZE);
    Dist(kClosest[|kClosest| - 1].id, t.id)
  }

  /** `shouldSplit` for bucket i. */
  predicate ShouldSplit(t: TableState, i: nat, c: Contact)
    requires i < |t.buckets|
  {
    var b := t.buckets[i];
    !Has(b, c) && |b.peers| >= BUCKET_SIZE && (b.range.Lo() == 0 || Dist(c.id, t.id) < KthClosest(t, i))
  }

  function SplitAt(bs: seq<BucketState>, i: nat, l: BucketState, r: BucketState): (bs': seq<BucketState>)
    requires i < |bs|
    ensures |bs'| == |bs| + 1
  {
    bs[..i] + [l, r] + bs[i + 1..]
  }

  /** `Split` of a bucket of the table with at least two peers. */
  function SplitFull(id: Bitmap, b: BucketState): (r: (BucketState, BucketState))
    requires BucketOK(id, b) && |b.peers| > 1
    ensures IsSplitOf(b, r.0, r.1) && BucketOK(id, r.0) && BucketOK(id, r.1)
    ensures |r.0.peers| < |b.peers| && |r.1.peers| < |b.peers|
    ensures PeerIds(r.0.peers) + PeerIds(r.1.peers) == PeerIds(b.peers)
  {
    SplitOK(id, b);
    Split(b)
  }

  function SplitBucket(t: TableState, i: nat): (BucketState, BucketState)
    requires Valid(t) && i < |t.buckets| && |t.buckets[i].peers| >= BUCKET_SIZE
  {
    assert BucketOK(t.id, t.buckets[i]);
    SplitFull(t.id, t.buckets[i])
  }

  /** The buckets after the split, if any, that an update of c causes, and the bucket then chosen for c. */
  function Placed(t: TableState, c: Contact): (r: (seq<BucketState>, nat))
    requires Valid(t)
    ensures r.1 < |r.0|
  {
    var i := BucketFor(t, c.id);
    if !ShouldSplit(t, i, c) then (t.buckets, i)
    else
      var (left, right) := SplitBucket(t, i);
      var j: nat := if left.range.Covers(c.id) then i else i + 1;
      (SplitAt(t.buckets, i, left, right), j)
  }

  function PeerFor(t: TableState, c: Contact): Peer { Peer(c, Xor(t.id, c.id), 0, 0) }

  function Update(t: TableState, c: Contact, now: int): TableState
    requires Valid(t)
  {
    var (bs, j) := Placed(t, c);
    t.(buckets := bs[j := UpdatePeer(bs[j], PeerFor(t, c), true, now).0])
  }

  function Fresh(t: TableState, c: Contact, now: int): TableState
    requires Valid(t)
  {
    var i := BucketFor(t, c.id);
    t.(buckets := t.buckets[i := UpdatePeer(t.buckets[i], PeerFor(t, c), false, now).0])
  }

  function Fail(t: TableState, c: Contact): TableState
    requires Valid(t)
  {
    var i := BucketFor(t, c.id);
    t.(buckets := t.buckets[i := FailContact(t.buckets[i], c.id)])
  }

  // ---------------------------------------------------------------------------
  // Every operation keeps the invariant
  // ---------------------------------------------------------------------------

  lemma ReplaceValid(t: TableState, i: nat, b: BucketState)
    requires Valid(t) && i < |t.buckets| && BucketOK(t.id, b) && b.range == t.buckets[i].range
    ensures Valid(t.(buckets := t.buckets[i := b]))
  {
  }

  lemma SplitAtValid(t: TableState, i: nat, l: BucketState, r: BucketState)
    requires Valid(t) && i < |t.buckets| && IsSplitOf(t.buckets[i], l, r) && BucketOK(t.id, l) && BucketOK(t.id, r)
    requires PeerIds(l.peers) + PeerIds(r.peers) == PeerIds(t.buckets[i].peers)
    ensures Valid(t.(buckets := SplitAt(t.buckets, i, l, r)))
    ensures TableIds(SplitAt(t.buckets, i, l, r)) == TableIds(t.buckets)
  {
    var bs' := SplitAt(t.buckets, i, l, r);
    SplitAtTiled(t.buckets, i, l, r);
    forall k | 0 <= k < |bs'| ensures BucketOK(t.id, bs'[k]) {
      if k < i { assert bs'[k] == t.buckets[k]; } else if k > i + 1 { assert bs'[k] == t.buckets[k - 1]; }
    }
    SplitAtIds(t.buckets, i, l, r);
  }

  lemma SplitAtTiled(bs: seq<BucketState>, i: nat, l: BucketState, r: BucketState)
    requires Tiled(bs) && i < |bs| && IsSplitOf(bs[i], l, r)
    ensures Tiled(SplitAt(bs, i, l, r))
  {
    var bs' := SplitAt(bs, i, l, r);
    forall k | 0 <= k < |bs'| - 1 ensures bs'[k].range.Hi() + 1 == bs'[k + 1].range.Lo() {
      if k > i + 1 { assert bs'[k] == bs[k - 1] && bs'[k + 1] == bs[k]; }
    }
  }

  lemma SplitAtIds(bs: seq<BucketState>, i: nat, l: BucketState, r: BucketState)
    requires i < |bs| && PeerIds(l.peers) + PeerIds(r.peers) == PeerIds(bs[i].peers)
    ensures TableIds(SplitAt(bs, i, l, r)) == TableIds(bs)
  {
    ReplaceIds(bs, i, bs[i]);
    TableIdsConcat(bs[..i] + [l, r], bs[i + 1..]);
    TableIdsConcat(bs[..i], [l, r]);
    PairIds(l, r);
  }

  lemma PairIds(l: BucketState, r: BucketState)
    ensures TableIds([l, r]) == PeerIds(l.peers) + PeerIds(r.peers)
  {
    assert [l, r] == [l] + [r];
    TableIdsConcat([l], [r]);
    assert [l][..0] == [] && [r][..0] == [];
  }

  lemma PlacedValid(t: TableState, c: Contact)
    requires Valid(t)
    ensures var (bs, j) := Placed(t, c);
            Valid(t.(buckets := bs)) && TableIds(bs) == TableIds(t.buckets)
  {
    var i := BucketFor(t, c.id);
    if ShouldSplit(t, i, c) {
      var b := t.buckets[i];
      assert BucketOK(t.id, b);
      var (l, r) := SplitFull(t.id, b);
      SplitAtValid(t, i, l, r);
    }
  }

  lemma UpdateValid(t: TableState, c: Contact, now: int)
    requires Valid(t) && c.id != t.id
    ensures Valid(Update(t, c, now))
  {
    var (bs, j) := Placed(t, c);
    PlacedValid(t, c);
    assert BucketOK(t.id, bs[j]);
    UpdatePeerOK(t.id, bs[j], PeerFor(t, c), true, now);
    ReplaceValid(t.(buckets := bs), j, UpdatePeer(bs[j], PeerFor(t, c), true, now).0);
  }

  lemma FreshValid(t: TableState, c: Contact, now: int)
    requires Valid(t) && c.id != t.id
    ensures Valid(Fresh(t, c, now)) && TableIds(Fresh(t, c, now).buckets) == TableIds(t.buckets)
  {
    var i := BucketFor(t, c.id);
    var b := t.buckets[i];
    assert BucketOK(t.id, b);
    UpdatePeerOK(t.id, b, PeerFor(t, c), false, now);
    ReplaceValid(t, i, UpdatePeer(b, PeerFor(t, c), false, now).0);
    ReplaceIds(t.buckets, i, UpdatePeer(b, PeerFor(t, c), false, now).0);
  }

  lemma FailValid(t: TableState, c: Contact)
    requires Valid(t)
    ensures Valid(Fail(t, c)) && TableIds(Fail(t, c).buckets) == TableIds(t.buckets)
  {
    var i := BucketFor(t, c.id);
    assert BucketOK(t.id, t.buckets[i]);
    FailContactOK(t.id, t.buckets[i], c.id);
    ReplaceValid(t, i, FailContact(t.buckets[i], c.id));
    ReplaceIds(t.buckets, i, FailContact(t.buckets[i], c.id));
  }

  /** Putting a new bucket at position i changes the ids exactly there. */
  lemma ReplaceIds(bs: seq<BucketState>, i: nat, b: BucketState)
    requires i < |bs|
    ensures TableIds(bs[i := b]) == TableIds(bs[..i]) + PeerIds(b.peers) + TableIds(bs[i + 1..])
    ensures TableIds(bs) == TableIds(bs[..i]) + PeerIds(bs[i].peers) + TableIds(bs[i + 1..])
  {
    assert bs == bs[..i] + [bs[i]] + bs[i + 1..];
    assert bs[i := b] == bs[..i] + [b] + bs[i + 1..];
    TableIdsConcat(bs[..i] + [bs[i]], bs[i + 1..]);
    TableIdsConcat(bs[..i], [bs[i]]);
    TableIdsConcat(bs[..i] + [b], bs[i + 1..]);
    TableIdsConcat(bs[..i], [b]);
  }
}
