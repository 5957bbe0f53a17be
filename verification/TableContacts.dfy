/** Which contacts the table holds and reports, with their addresses, over whole runs (dht/routing_table.go). */
module TableContacts {
  import opened Bits
  import opened Results
  import opened Contacts
  import opened Buckets
  import opened Table
  import opened TableRuns
  import opened Retention

  predicate HeldIn(peers: seq<Peer>, c: Contact) { exists k :: 0 <= k < |peers| && peers[k].contact == c }

  predicate HeldSomewhere(bs: seq<BucketState>, c: Contact) { exists i :: 0 <= i < |bs| && HeldIn(bs[i].peers, c) }

  lemma HeldInPrefix(bs: seq<BucketState>, c: Contact)
    requires bs != []
    ensures HeldSomewhere(bs, c) <==> HeldSomewhere(bs[..|bs| - 1], c) || HeldIn(bs[|bs| - 1].peers, c)
  {
    var init := bs[..|bs| - 1];
    if i :| 0 <= i < |bs| && HeldIn(bs[i].peers, c) {
      if i < |init| { assert init[i] == bs[i]; }
    }
    if i :| 0 <= i < |init| && HeldIn(init[i].peers, c) { assert bs[i] == init[i]; }
  }

  /** The whole table's contacts are those of its peers. */
  lemma {:induction false} AllContactsAre(bs: seq<BucketState>, c: Contact)
    ensures c in AllContacts(bs) <==> HeldSomewhere(bs, c)
  {
    if bs != [] {
      AllContactsAre(bs[..|bs| - 1], c);
      ContactsOfAre(bs[|bs| - 1].peers, c);
      HeldInPrefix(bs, c);
    }
  }

  lemma ContactsOfAre(peers: seq<Peer>, c: Contact)
    ensures c in ContactsOf(peers) <==> HeldIn(peers, c)
  {
    var r := ContactsOf(peers);
    if k :| 0 <= k < |peers| && peers[k].contact == c { assert r[k] == c; }
  }

  lemma HeldInBoth(a: seq<Peer>, b: seq<Peer>, c: Contact)
    ensures HeldIn(a + b, c) <==> HeldIn(a, c) || HeldIn(b, c)
  {
    if k :| 0 <= k < |a| && a[k].contact == c { assert (a + b)[k].contact == c; }
    if k :| 0 <= k < |b| && b[k].contact == c { assert (a + b)[|a| + k].contact == c; }
  }

  lemma HeldWithout(peers: seq<Peer>, k: nat, c: Contact)
    requires k < |peers| && HeldIn(Without(peers, k), c)
    ensures HeldIn(peers, c)
  {
    var rest := Without(peers, k);
    var i :| 0 <= i < |rest| && rest[i].contact == c;
    assert rest[i] == peers[if i < k then i else i + 1];
  }

  lemma AppliedContacts(peers: seq<Peer>, e: Effect, p: Peer, now: int, c: Contact)
    requires e.Moved? || e.Replaced? ==> e.at < |peers|
    requires HeldIn(Applied(peers, e, p, now), c)
    ensures HeldIn(peers, c) || (c == p.contact && (e.Appended? || e.Replaced?))
  {
    match e
    case Untouched =>
    case Appended => HeldInBoth(peers, [p.Touch(now)], c);
    case Moved(i) =>
      HeldInBoth(Without(peers, i), [peers[i].Touch(now)], c);
      if HeldIn(Without(peers, i), c) { HeldWithout(peers, i, c); }
    case Replaced(i) =>
      HeldInBoth(Without(peers, i), [p.Touch(now)], c);
      if HeldIn(Without(peers, i), c) { HeldWithout(peers, i, c); }
  }

  /** An update of a bucket keeps contacts as they are; only its own contact can be new, when it is inserted. */
  lemma UpdatePeerContacts(b: BucketState, p: Peer, insertIfNew: bool, now: int, c: Contact)
    requires HeldIn(UpdatePeer(b, p, insertIfNew, now).0.peers, c)
    ensures var e := EffectOf(b, p, insertIfNew);
            HeldIn(b.peers, c) || (c == p.contact && (e.Appended? || e.Replaced?) && insertIfNew)
  {
    UpdatePeerEffect(b, p, insertIfNew, now);
    AppliedContacts(b.peers, EffectOf(b, p, insertIfNew), p, now, c);
  }

  lemma FailContacts(b: BucketState, x: Bitmap, c: Contact)
    requires HeldIn(FailContact(b, x).peers, c)
    ensures HeldIn(b.peers, c)
  {
    var peers := FailContact(b, x).peers;
    var k :| 0 <= k < |peers| && peers[k].contact == c;
    assert b.peers[k].contact == c;
  }

  lemma SelectContacts(b: BucketState, l: BucketState, r: BucketState, c: Contact)
    requires IsSplitOf(b, l, r) && (HeldIn(l.peers, c) || HeldIn(r.peers, c))
    ensures HeldIn(b.peers, c)
  {
    var half := if HeldIn(l.peers, c) then l.peers else r.peers;
    var k :| 0 <= k < |half| && half[k].contact == c;
    assert half[k] in b.peers;
  }

  lemma InBucket(bs: seq<BucketState>, i: nat, c: Contact)
    requires i < |bs| && HeldIn(bs[i].peers, c)
    ensures c in AllContacts(bs)
  {
    AllContactsAre(bs, c);
  }

  lemma PlacedContacts(t: TableState, c0: Contact, j: nat, c: Contact)
    requires Valid(t) && j < |Placed(t, c0).0| && HeldIn(Placed(t, c0).0[j].peers, c)
    ensures c in AllContacts(t.buckets)
  {
    var i := BucketFor(t, c0.id);
    if ShouldSplit(t, i, c0) {
      var l, r := SplitHalves(t, c0);
      SplitContacts(t.buckets, i, l, r, j, c);
    } else {
      InBucket(t.buckets, j, c);
    }
  }

  lemma SplitContacts(bs: seq<BucketState>, i: nat, l: BucketState, r: BucketState, j: nat, c: Contact)
    requires i < |bs| && IsSplitOf(bs[i], l, r) && j < |bs| + 1 && HeldIn(SplitAt(bs, i, l, r)[j].peers, c)
    ensures c in AllContacts(bs)
  {
    if j == i || j == i + 1 {
      SelectContacts(bs[i], l, r, c);
      InBucket(bs, i, c);
    } else {
      InBucket(bs, if j < i then j else j - 1, c);
    }
  }

  /** An insert is of an id that was nowhere in the table. */
  lemma InsertIsNew(t: TableState, c: Contact)
    requires Valid(t) && (UpdateEffect(t, c).Appended? || UpdateEffect(t, c).Replaced?)
    ensures c.id !in TableIds(t.buckets)
  {
    var (bs, j) := Placed(t, c);
    var t' := t.(buckets := bs);
    PlacedValid(t, c);
    XorCommutes(t.id, c.id);
    CoverUnique(t', j, BucketFor(t', c.id), PeerFor(t, c).distance);
    HomeBucket(t', c.id);
  }

  lemma UpdateContacts(t: TableState, c0: Contact, now: int, c: Contact)
    requires Valid(t) && c in AllContacts(Update(t, c0, now).buckets)
    ensures c in AllContacts(t.buckets) || (c == c0 && c.id !in TableIds(t.buckets))
  {
    var (bs, j) := Placed(t, c0);
    var bs' := Update(t, c0, now).buckets;
    AllContactsAre(bs', c);
    var i :| 0 <= i < |bs'| && HeldIn(bs'[i].peers, c);
    if i == j {
      UpdatePeerContacts(bs[j], PeerFor(t, c0), true, now, c);
    }
    if HeldIn(bs[i].peers, c) { PlacedContacts(t, c0, i, c); } else { InsertIsNew(t, c0); }
  }

  lemma FreshContacts(t: TableState, c0: Contact, now: int, c: Contact)
    requires Valid(t) && c in AllContacts(Fresh(t, c0, now).buckets)
    ensures c in AllContacts(t.buckets)
  {
    var j, bs' := BucketFor(t, c0.id), Fresh(t, c0, now).buckets;
    AllContactsAre(bs', c);
    AllContactsAre(t.buckets, c);
    var i :| 0 <= i < |bs'| && HeldIn(bs'[i].peers, c);
    if i == j { UpdatePeerContacts(t.buckets[j], PeerFor(t, c0), false, now, c); }
  }

  lemma FailedContacts(t: TableState, c0: Contact, c: Contact)
    requires Valid(t) && c in AllContacts(Fail(t, c0).buckets)
    ensures c in AllContacts(t.buckets)
  {
    var j, bs' := BucketFor(t, c0.id), Fail(t, c0).buckets;
    AllContactsAre(bs', c);
    AllContactsAre(t.buckets, c);
    var i :| 0 <= i < |bs'| && HeldIn(bs'[i].peers, c);
    if i == j { FailContacts(t.buckets[j], c0.id, c); }
  }

  lemma StepContacts(t: TableState, op: Op, c: Contact)
    requires Valid(t) && c in AllContacts(Step(t, op).buckets)
    ensures c in AllContacts(t.buckets) || (op.DoUpdate? && c == op.c && c.id !in TableIds(t.buckets))
  {
    match op
    case DoUpdate(c0, now) => UpdateContacts(t, c0, now, c);
    case DoFresh(c0, now) => FreshContacts(t, c0, now, c);
    case DoFail(c0) => FailedContacts(t, c0, c);
  }

  /** The contact of the update that last brought the id x into the table. */
  function BroughtBy(id: Bitmap, ops: seq<Op>, x: Bitmap): Option<Contact>
    requires Legal(id, ops)
  {
    if ops == [] then None
    else
      var n := |ops| - 1;
      if ops[n].DoUpdate? && ops[n].c.id == x && x !in TableIds(Run(id, ops[..n]).buckets) then Some(ops[n].c)
      else BroughtBy(id, ops[..n], x)
  }

  /** In every run each contact of the table is, with its address, the one that last brought its id into the table. */
  lemma {:induction false} ContactsAreAsBrought(id: Bitmap, ops: seq<Op>, c: Contact)
    requires Legal(id, ops) && c in AllContacts(Run(id, ops).buckets)
    ensures BroughtBy(id, ops, c.id) == Some(c)
  {
    if ops == [] {
      NothingInNewTable(id, ops, c);
    } else {
      var n := |ops| - 1;
      var t := Run(id, ops[..n]);
      RunNext(id, ops, t);
      StepContacts(t, ops[n], c);
      if c in AllContacts(t.buckets) {
        ContactsAreAsBrought(id, ops[..n], c);
        AllContactsIds(t.buckets);
        assert c.id in Ids(AllContacts(t.buckets));
      }
    }
  }

  lemma NothingInNewTable(id: Bitmap, ops: seq<Op>, c: Contact)
    requires ops == []
    ensures c !in AllContacts(Run(id, ops).buckets)
  {
    AllContactsAre(NewTable(id).buckets, c);
  }

  /** So what the table reports are whole contacts, as last brought in. */
  lemma ReportsWholeContacts(id: Bitmap, ops: seq<Op>, target: Bitmap, limit: nat)
    requires Legal(id, ops)
    ensures forall c :: c in GetClosest(Run(id, ops), target, limit) ==> BroughtBy(id, ops, c.id) == Some(c)
  {
    var all := AllContacts(Run(id, ops).buckets);
    SortIsSorted(all, target);
    forall c | c in GetClosest(Run(id, ops), target, limit) ensures BroughtBy(id, ops, c.id) == Some(c) {
      assert c in multiset(SortByDistance(all, target));
      ContactsAreAsBrought(id, ops, c);
    }
  }

  /** The contact brought in was given to `Update` as it is. */
  lemma {:induction false} BroughtByUpdate(id: Bitmap, ops: seq<Op>, x: Bitmap)
    requires Legal(id, ops) && BroughtBy(id, ops, x).Some?
    ensures exists i ::
              0 <= i < |ops| && ops[i].DoUpdate? && ops[i].c.id == x && Some(ops[i].c) == BroughtBy(id, ops, x)
  {
    var n := |ops| - 1;
    if BroughtBy(id, ops, x) != Some(ops[n].c) || !ops[n].DoUpdate? || ops[n].c.id != x {
      BroughtByUpdate(id, ops[..n], x);
      var i :| 0 <= i < n && ops[..n][i].DoUpdate? && Some(ops[..n][i].c) == BroughtBy(id, ops[..n], x)
               && ops[..n][i].c.id == x;
      assert ops[i] == ops[..n][i];
    }
  }

  // ---------------------------------------------------------------------------
  // When a bucket is split
  // ---------------------------------------------------------------------------

  /** The bucket holds a peer with the contact's id and address. */
  predicate HoldsAddress(b: BucketState, c: Contact) {
    exists k :: 0 <= k < |b.peers| &&
      b.peers[k].contact.id == c.id && b.peers[k].contact.ip == c.ip && b.peers[k].contact.port == c.port
  }

  /** The ids no farther from the target than x. */
  function NoFarther(ids: set<Bitmap>, x: Bitmap, target: Bitmap): set<Bitmap> {
    set y | y in ids && Dist(y, target) <= Dist(x, target)
  }

  /**
    A bucket is split for a contact exactly when it does not hold that contact, has eight peers, and either starts at
    distance zero or fewer than eight held ids are as close as the contact.
  */
  lemma SplitsIff(t: TableState, i: nat, c: Contact)
    requires Valid(t) && i < |t.buckets|
    ensures var b := t.buckets[i];
            ShouldSplit(t, i, c) <==>
            && !HoldsAddress(b, c) && |b.peers| == 8
            && (b.range.Lo() == 0 || |NoFarther(TableIds(t.buckets), c.id, t.id)| < 8)
  {
    var b := t.buckets[i];
    assert BucketOK(t.id, b);
    HasIff(b, c);
    if |b.peers| == BUCKET_SIZE { KthIff(t, i, c.id); }
  }

  lemma HasIff(b: BucketState, c: Contact)
    ensures Has(b, c) <==> HoldsAddress(b, c)
  {
    if k :| 0 <= k < |b.peers| && b.peers[k].contact.Equals(c, true) {
      assert b.peers[k].contact.id == c.id;
    }
    if k :| 0 <= k < |b.peers| && b.peers[k].contact.id == c.id && b.peers[k].contact.ip == c.ip
            && b.peers[k].contact.port == c.port {
      assert b.peers[k].contact.Equals(c, true);
    }
  }

  lemma KthIff(t: TableState, i: nat, x: Bitmap)
    requires Valid(t) && i < |t.buckets| && |t.buckets[i].peers| == BUCKET_SIZE
    ensures Dist(x, t.id) < KthClosest(t, i) <==> |NoFarther(TableIds(t.buckets), x, t.id)| < BUCKET_SIZE
  {
    GetClosestIsKClosest(t, t.id, BUCKET_SIZE);
    AtLeastEight(t, i);
    LastOfEight(GetClosest(t, t.id, BUCKET_SIZE), TableIds(t.buckets), x, t.id);
  }

  /** Nearer than the last of the eight closest means that fewer than eight are as near. */
  lemma LastOfEight(r: seq<Contact>, held: set<Bitmap>, x: Bitmap, target: Bitmap)
    requires StrictlySortedTo(r, target) && |r| == BUCKET_SIZE && KClosest(Ids(r), held, target, BUCKET_SIZE)
    ensures Dist(x, target) < Dist(r[BUCKET_SIZE - 1].id, target) <==> |NoFarther(held, x, target)| < BUCKET_SIZE
  {
    var last, near := r[BUCKET_SIZE - 1], NoFarther(held, x, target);
    assert DistinctIds(r);
    IdsCount(r);
    assert last in r;
    if Dist(x, target) < Dist(last.id, target) {
      forall y | y in near ensures y in Ids(r) - {last.id} {
        if y !in Ids(r) { OutsideIsFarther(Ids(r), held, target, BUCKET_SIZE, last.id, y); }
      }
      SubsetSize(near, Ids(r) - {last.id});
    } else {
      forall y | y in Ids(r) ensures y in near {
        var k :| 0 <= k < |r| && r[k].id == y;
      }
      SubsetSize(Ids(r), near);
    }
  }
}
