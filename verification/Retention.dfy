/** The table never forgets a contact it might want: retention over whole runs (dht/routing_table.go). */
module Retention {
  import opened Bits
  import opened Contacts
  import opened Buckets
  import opened Table
  import opened TableRuns

  /** The ids passed to `Update` in a run. */
  function Seen(ops: seq<Op>): set<Bitmap> {
    set i | 0 <= i < |ops| && ops[i].DoUpdate? :: ops[i].c.id
  }

  function Nearer(ids: set<Bitmap>, x: Bitmap, target: Bitmap): set<Bitmap> {
    set y | y in ids && Dist(y, target) < Dist(x, target)
  }

  /** Everything seen is held, or has eight held ids closer to the target. */
  predicate Retains(held: set<Bitmap>, seen: set<Bitmap>, target: Bitmap) {
    held <= seen && forall x :: x in seen && x !in held ==> |Nearer(held, x, target)| >= BUCKET_SIZE
  }

  predicate NoBadPeer(t: TableState) {
    forall i, k :: 0 <= i < |t.buckets| && 0 <= k < |t.buckets[i].peers| ==>
                     !t.buckets[i].peers[k].IsBad(MAX_PEER_FAILS)
  }

  lemma MoreHeldStillRetains(held: set<Bitmap>, more: set<Bitmap>, seen: set<Bitmap>, target: Bitmap)
    requires Retains(held, seen, target) && held <= more <= seen + more
    ensures Retains(more, seen + more, target)
  {
    forall x | x in seen + more && x !in more ensures |Nearer(more, x, target)| >= BUCKET_SIZE {
      SubsetSize(Nearer(held, x, target), Nearer(more, x, target));
    }
  }

  /** Retention is all that is needed: the k closest held are the k closest ever seen. */
  lemma RetainedClosest(near: set<Bitmap>, held: set<Bitmap>, seen: set<Bitmap>, target: Bitmap)
    requires Retains(held, seen, target) && KClosest(near, held, target, BUCKET_SIZE)
    ensures KClosest(near, seen, target, BUCKET_SIZE)
  {
    SubsetSize(held, seen);
    if |held| < BUCKET_SIZE {
      forall x | x in seen ensures x in held { SubsetSize(Nearer(held, x, target), held); }
      assert held == seen;
    } else {
      forall x, y | x in near && y in seen - near ensures Dist(x, target) < Dist(y, target) {
        if y in held {
          OutsideIsFarther(near, held, target, BUCKET_SIZE, x, y);
        } else {
          DroppedIsFarther(near, held, target, x, y);
        }
      }
    }
  }

  lemma DroppedIsFarther(near: set<Bitmap>, held: set<Bitmap>, target: Bitmap, x: Bitmap, y: Bitmap)
    requires KClosest(near, held, target, BUCKET_SIZE) && |near| == BUCKET_SIZE && x in near
    requires |Nearer(held, y, target)| >= BUCKET_SIZE
    ensures Dist(x, target) < Dist(y, target)
  {
    var nearer := Nearer(held, y, target);
    if nearer <= near {
      SubsetSize(nearer, near);
    } else {
      var z :| z in nearer && z !in near;
      OutsideIsFarther(near, held, target, BUCKET_SIZE, x, z);
    }
  }

  lemma NoBadNoVictim(t: TableState, i: nat)
    requires NoBadPeer(t) && i < |t.buckets|
    ensures FirstBad(t.buckets[i].peers) == |t.buckets[i].peers|
  {
  }

  /** A contact refused without a split has eight held contacts closer to the table's id. */
  lemma RefusedIsFar(t: TableState, c: Contact)
    requires Valid(t) && c.id !in TableIds(t.buckets)
    requires |t.buckets[BucketFor(t, c.id)].peers| >= BUCKET_SIZE && !ShouldSplit(t, BucketFor(t, c.id), c)
    ensures |Nearer(TableIds(t.buckets), c.id, t.id)| >= BUCKET_SIZE
  {
    var i, held := BucketFor(t, c.id), TableIds(t.buckets);
    var kc := GetClosest(t, t.id, BUCKET_SIZE);
    GetClosestIsKClosest(t, t.id, BUCKET_SIZE);
    HomeBucket(t, c.id);
    assert !Has(t.buckets[i], c) by {
      forall k | 0 <= k < |t.buckets[i].peers| ensures t.buckets[i].peers[k].contact.id != c.id {
        assert t.buckets[i].peers[k] in t.buckets[i].peers;
      }
    }
    AtLeastEight(t, i);
    forall x | x in Ids(kc) ensures x in Nearer(held, c.id, t.id) {
      var k :| 0 <= k < |kc| && kc[k].id == x;
      assert Dist(x, t.id) <= Dist(kc[|kc| - 1].id, t.id) <= Dist(c.id, t.id);
      if Dist(x, t.id) == Dist(c.id, t.id) { DistInjective(t.id, x, c.id); }
    }
    SubsetSize(Ids(kc), Nearer(held, c.id, t.id));
  }

  lemma AtLeastEight(t: TableState, i: nat)
    requires Valid(t) && i < |t.buckets| && |t.buckets[i].peers| >= BUCKET_SIZE
    ensures |TableIds(t.buckets)| >= BUCKET_SIZE
  {
    FullBucketFillsTable(t.buckets, i);
    AllContactsDistinct(t);
    AllContactsIds(t.buckets);
    IdsCount(AllContacts(t.buckets));
  }

  /** An undisturbed update adds its contact, or leaves the ids alone because eight are closer. */
  lemma UpdateAddsOrIsFar(t: TableState, c: Contact, now: int)
    requires Valid(t) && c.id != t.id && NoBadPeer(t) && Reaches(t, c)
    ensures var held, held' := TableIds(t.buckets), TableIds(Update(t, c, now).buckets);
            held' == held + {c.id} || (held' == held && |Nearer(held, c.id, t.id)| >= BUCKET_SIZE)
  {
    var i := BucketFor(t, c.id);
    UpdateIds(t, c, now);
    UpdateInserts(t, c, now);
    NothingEvicted(t, c);
    NoBadNoVictim(t, i);
    if c.id !in TableIds(t.buckets) && |t.buckets[i].peers| >= BUCKET_SIZE && !ShouldSplit(t, i, c) {
      RefusedIsFar(t, c);
    }
  }

  lemma AddRetains(held: set<Bitmap>, held': set<Bitmap>, seen: set<Bitmap>, x: Bitmap, target: Bitmap)
    requires Retains(held, seen, target)
    requires held' == held + {x} || (held' == held && |Nearer(held, x, target)| >= BUCKET_SIZE)
    ensures Retains(held', seen + {x}, target)
  {
    if held' == held + {x} {
      MoreHeldStillRetains(held, held', seen, target);
      assert seen + held' == seen + {x};
    }
  }

  lemma StepRetains(t: TableState, op: Op, seen: set<Bitmap>)
    requires Valid(t) && op.c.id != t.id && NoBadPeer(t) && (op.DoUpdate? ==> Reaches(t, op.c))
    requires Retains(TableIds(t.buckets), seen, t.id)
    ensures Retains(TableIds(Step(t, op).buckets), seen + if op.DoUpdate? then {op.c.id} else {}, t.id)
  {
    match op
    case DoUpdate(c, now) =>
      UpdateAddsOrIsFar(t, c, now);
      AddRetains(TableIds(t.buckets), TableIds(Update(t, c, now).buckets), seen, c.id, t.id);
    case DoFresh(c, now) => FreshValid(t, c, now); assert seen + {} == seen;
    case DoFail(c) => FailValid(t, c); assert seen + {} == seen;
  }

  lemma NothingEvicted(t: TableState, c: Contact)
    requires Valid(t) && NoBadPeer(t)
    ensures !UpdateEffect(t, c).Replaced?
  {
    var i := BucketFor(t, c.id);
    NoBadNoVictim(t, i);
    if ShouldSplit(t, i, c) { var l, r := SplitHalves(t, c); }
  }

  /** Before every step of the run no peer is bad. */
  predicate NeverBad(id: Bitmap, ops: seq<Op>)
    requires Legal(id, ops)
  {
    ops == [] || (NeverBad(id, ops[..|ops| - 1]) && NoBadPeer(Run(id, ops[..|ops| - 1])))
  }

  /** Every update of the run offers its contact to the bucket that covers it. */
  predicate AlwaysReaches(id: Bitmap, ops: seq<Op>)
    requires Legal(id, ops)
  {
    || ops == []
    || var n := |ops| - 1;
       AlwaysReaches(id, ops[..n]) && (ops[n].DoUpdate? ==> Reaches(Run(id, ops[..n]), ops[n].c))
  }

  lemma {:induction false} RunRetains(id: Bitmap, ops: seq<Op>)
    requires Legal(id, ops) && NeverBad(id, ops) && AlwaysReaches(id, ops)
    ensures Retains(TableIds(Run(id, ops).buckets), Seen(ops), id)
  {
    if ops == [] {
      NewTableEmpty(id);
    } else {
      var n := |ops| - 1;
      RunRetains(id, ops[..n]);
      SeenStep(ops);
      StepRetains(Run(id, ops[..n]), ops[n], Seen(ops[..n]));
    }
  }

  lemma NewTableEmpty(id: Bitmap)
    ensures TableIds(NewTable(id).buckets) == {}
  {
    assert NewTable(id).buckets[..0] == [];
  }

  lemma {:induction false} ZeroIdAlwaysReaches(ops: seq<Op>)
    requires Legal(Zero(), ops)
    ensures AlwaysReaches(Zero(), ops)
  {
    if ops != [] {
      var n := |ops| - 1;
      ZeroIdAlwaysReaches(ops[..n]);
      ZeroIdReaches(Run(Zero(), ops[..n]), ops[n].c);
    }
  }

  lemma SeenStep(ops: seq<Op>)
    requires ops != []
    ensures var n := |ops| - 1;
            Seen(ops) == Seen(ops[..n]) + if ops[n].DoUpdate? then {ops[n].c.id} else {}
  {
    var n := |ops| - 1;
    forall x | x in Seen(ops) && !(ops[n].DoUpdate? && ops[n].c.id == x) ensures x in Seen(ops[..n]) {
      var i :| 0 <= i < |ops| && ops[i].DoUpdate? && ops[i].c.id == x;
      assert ops[..n][i] == ops[i];
    }
    forall x | x in Seen(ops[..n]) ensures x in Seen(ops) {
      var i :| 0 <= i < n && ops[..n][i].DoUpdate? && ops[..n][i].c.id == x;
      assert ops[i].c.id == x;
    }
  }

  /**
    Retention: after any such run the eight contacts closest to us that the table reports are the
    eight closest of all contacts ever passed to `Update`, nearest first.
  */
  lemma ClosestEverSeen(id: Bitmap, ops: seq<Op>)
    requires Legal(id, ops) && NeverBad(id, ops) && AlwaysReaches(id, ops)
    ensures var r := GetClosest(Run(id, ops), id, BUCKET_SIZE);
            StrictlySortedTo(r, id) && KClosest(Ids(r), Seen(ops), id, BUCKET_SIZE)
  {
    var t := Run(id, ops);
    RunRetains(id, ops);
    GetClosestIsKClosest(t, id, BUCKET_SIZE);
    RetainedClosest(Ids(GetClosest(t, id, BUCKET_SIZE)), TableIds(t.buckets), Seen(ops), id);
  }

  /** For the all-zero id the absence of bad peers is the only condition. */
  lemma ZeroIdClosestEverSeen(ops: seq<Op>)
    requires Legal(Zero(), ops) && NeverBad(Zero(), ops)
    ensures var r := GetClosest(Run(Zero(), ops), Zero(), BUCKET_SIZE);
            StrictlySortedTo(r, Zero()) && KClosest(Ids(r), Seen(ops), Zero(), BUCKET_SIZE)
  {
    ZeroIdAlwaysReaches(ops);
    ClosestEverSeen(Zero(), ops);
  }
}
