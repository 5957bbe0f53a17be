/** Whole runs of the routing table: who is kept, who is lost, and in what order (dht/routing_table.go). */
module TableRuns {
  import opened Bits
  import opened Contacts
  import opened Buckets
  import opened Table

  datatype Op = DoUpdate(c: Contact, now: int) | DoFresh(c: Contact, now: int) | DoFail(c: Contact)

  function Step(t: TableState, op: Op): TableState
    requires Valid(t)
  {
    match op
    case DoUpdate(c, now) => Update(t, c, now)
    case DoFresh(c, now) => Fresh(t, c, now)
    case DoFail(c) => Fail(t, c)
  }

  /** No operation is on the table's own id. */
  predicate Legal(id: Bitmap, ops: seq<Op>) { forall i :: 0 <= i < |ops| ==> ops[i].c.id != id }

  lemma StepValid(t: TableState, op: Op)
    requires Valid(t) && op.c.id != t.id
    ensures Valid(Step(t, op)) && Step(t, op).id == t.id
  {
    match op
    case DoUpdate(c, now) => UpdateValid(t, c, now);
    case DoFresh(c, now) => FreshValid(t, c, now);
    case DoFail(c) => FailValid(t, c);
  }

  /** The table after a run; the invariant holds after every run, whatever the id. */
  function Run(id: Bitmap, ops: seq<Op>): (t: TableState)
    requires Legal(id, ops)
    ensures Valid(t) && t.id == id
  {
    if ops == [] then
      NewTableValid(id);
      NewTable(id)
    else
      var t := Run(id, ops[..|ops| - 1]);
      StepValid(t, ops[|ops| - 1]);
      Step(t, ops[|ops| - 1])
  }

  /** One operation as the program makes it: `bucketFor` panics on the table's own id. */
  function Execute(t: TableState, op: Op): Outcome<TableState>
    requires Valid(t)
  {
    if op.c.id == t.id then Panicked else Returned(Step(t, op))
  }

  /** A run as the program makes it; nothing runs after a panic. */
  function ExecuteAll(id: Bitmap, ops: seq<Op>): (o: Outcome<TableState>)
    ensures o.Returned? ==> Valid(o.value) && o.value.id == id
  {
    if ops == [] then
      NewTableValid(id);
      Returned(NewTable(id))
    else
      match ExecuteAll(id, ops[..|ops| - 1])
      case Panicked => Panicked
      case Returned(t) =>
        ExecuteValid(t, ops[|ops| - 1]);
        Execute(t, ops[|ops| - 1])
  }

  lemma ExecuteValid(t: TableState, op: Op)
    requires Valid(t)
    ensures var o := Execute(t, op); o.Returned? ==> Valid(o.value) && o.value.id == t.id
  {
    if op.c.id != t.id { StepValid(t, op); }
  }

  /** A run panics exactly when an operation carries the table's own id, and otherwise ends in the table of `Run`. */
  lemma {:induction false} PanicsIff(id: Bitmap, ops: seq<Op>)
    ensures ExecuteAll(id, ops).Panicked? <==> !Legal(id, ops)
    ensures Legal(id, ops) ==> ExecuteAll(id, ops) == Returned(Run(id, ops))
  {
    if ops != [] {
      var n := |ops| - 1;
      PanicsIff(id, ops[..n]);
      LegalStep(id, ops);
      if Legal(id, ops[..n]) {
        ExecuteStep(id, ops, Run(id, ops[..n]));
        if Legal(id, ops) { RunNext(id, ops, Run(id, ops[..n])); }
      }
    }
  }

  lemma LegalStep(id: Bitmap, ops: seq<Op>)
    requires ops != []
    ensures var n := |ops| - 1; Legal(id, ops) <==> Legal(id, ops[..n]) && ops[n].c.id != id
  {
    assert ops == ops[..|ops| - 1] + [ops[|ops| - 1]];
  }

  lemma ExecuteStep(id: Bitmap, ops: seq<Op>, t: TableState)
    requires ops != [] && ExecuteAll(id, ops[..|ops| - 1]) == Returned(t)
    ensures Valid(t) && t.id == id && ExecuteAll(id, ops) == Execute(t, ops[|ops| - 1])
  {
  }

  lemma RunNext(id: Bitmap, ops: seq<Op>, t: TableState)
    requires ops != [] && Legal(id, ops) && t == Run(id, ops[..|ops| - 1])
    ensures Run(id, ops) == Step(t, ops[|ops| - 1])
  {
  }

  // ---------------------------------------------------------------------------
  // What one update does to the ids
  // ---------------------------------------------------------------------------

  /** The bucket that `Update` finally offers c to, after any split. */
  function Chosen(t: TableState, c: Contact): BucketState
    requires Valid(t)
  {
    var (bs, j) := Placed(t, c);
    bs[j]
  }

  /** The chosen bucket is the one that covers c's distance; after a split `Update` goes by c's id instead. */
  predicate Reaches(t: TableState, c: Contact)
    requires Valid(t)
  {
    Chosen(t, c).range.Covers(PeerFor(t, c).distance)
  }

  /** The halves an update splits its bucket into: both valid and both with room. */
  lemma SplitHalves(t: TableState, c: Contact) returns (l: BucketState, r: BucketState)
    requires Valid(t) && ShouldSplit(t, BucketFor(t, c.id), c)
    ensures var i := BucketFor(t, c.id);
            && IsSplitOf(t.buckets[i], l, r)
            && Placed(t, c) == (SplitAt(t.buckets, i, l, r), if l.range.Covers(c.id) then i else i + 1)
            && |l.peers| < |t.buckets[i].peers| && |r.peers| < |t.buckets[i].peers|
            && |t.buckets[i].peers| <= BUCKET_SIZE
            && Chosen(t, c) == if l.range.Covers(c.id) then l else r
  {
    var i := BucketFor(t, c.id);
    assert BucketOK(t.id, t.buckets[i]);
    l, r := SplitFull(t.id, t.buckets[i]).0, SplitFull(t.id, t.buckets[i]).1;
    var bs := SplitAt(t.buckets, i, l, r);
    assert bs[i] == l && bs[i + 1] == r;
  }

  /** After a split the contact is offered to its half exactly when its id and its distance are on the same side. */
  lemma ReachesAfterSplit(t: TableState, c: Contact)
    requires Valid(t) && ShouldSplit(t, BucketFor(t, c.id), c)
    ensures var left := Placed(t, c).0[BucketFor(t, c.id)].range;
            Reaches(t, c) <==> (left.Covers(c.id) <==> left.Covers(PeerFor(t, c).distance))
  {
    var i, d := BucketFor(t, c.id), PeerFor(t, c).distance;
    XorCommutes(t.id, c.id);
    var l, r := SplitHalves(t, c);
    assert Placed(t, c).0[i] == l;
    assert l.range.Covers(d) <==> !r.range.Covers(d);
  }

  lemma ReachesUnlessSplitDisagrees(t: TableState, c: Contact)
    requires Valid(t)
    ensures var i := BucketFor(t, c.id);
            Reaches(t, c) <==>
            (ShouldSplit(t, i, c) ==>
               var left := Placed(t, c).0[i].range; left.Covers(c.id) == left.Covers(PeerFor(t, c).distance))
  {
    if ShouldSplit(t, BucketFor(t, c.id), c) { ReachesAfterSplit(t, c); } else { XorCommutes(t.id, c.id); }
  }

  /** With the all-zero id a contact's distance is its id, so the two tests always agree. */
  lemma ZeroIdReaches(t: TableState, c: Contact)
    requires Valid(t) && t.id == Zero()
    ensures Reaches(t, c)
  {
    DistFromZero(c.id);
    ReachesUnlessSplitDisagrees(t, c);
  }

  function UpdateEffect(t: TableState, c: Contact): Effect
    requires Valid(t)
  {
    EffectOf(Chosen(t, c), PeerFor(t, c), true)
  }

  lemma UpdateIds(t: TableState, c: Contact, now: int)
    requires Valid(t) && c.id != t.id
    ensures var e := UpdateEffect(t, c);
            TableIds(Update(t, c, now).buckets) ==
            if e.Appended? then TableIds(t.buckets) + {c.id}
            else if e.Replaced? then TableIds(t.buckets) - {Chosen(t, c).peers[e.at].contact.id} + {c.id}
            else TableIds(t.buckets)
  {
    var (bs, j) := Placed(t, c);
    var b, p := bs[j], PeerFor(t, c);
    PlacedValid(t, c);
    assert BucketOK(t.id, b);
    UpdatePeerOK(t.id, b, p, true, now);
    ReplacedIds(t.(buckets := bs), j, UpdatePeer(b, p, true, now).0, EffectOf(b, p, true), c.id);
  }

  lemma ReplacedIds(t: TableState, j: nat, b: BucketState, e: Effect, x: Bitmap)
    requires Valid(t) && j < |t.buckets| && (e.Replaced? ==> e.at < |t.buckets[j].peers|)
    requires PeerIds(b.peers) == IdsAfter(t.buckets[j].peers, e, x)
    ensures TableIds(t.buckets[j := b]) ==
            if e.Appended? then TableIds(t.buckets) + {x}
            else if e.Replaced? then TableIds(t.buckets) - {t.buckets[j].peers[e.at].contact.id} + {x}
            else TableIds(t.buckets)
  {
    ReplaceIds(t.buckets, j, b);
    var a, c := TableIds(t.buckets[..j]), TableIds(t.buckets[j + 1..]);
    if e.Replaced? {
      var p := t.buckets[j].peers[e.at];
      assert p in t.buckets[j].peers;
      OnlyAtHome(t, j, p.contact.id);
      SwapOne(a, PeerIds(t.buckets[j].peers), c, p.contact.id, x);
    }
  }

  lemma SwapOne(a: set<Bitmap>, b: set<Bitmap>, c: set<Bitmap>, y: Bitmap, x: Bitmap)
    requires y !in a && y !in c
    ensures a + (b - {y} + {x}) + c == a + b + c - {y} + {x}
  {
  }

  lemma OnlyAtHome(t: TableState, j: nat, x: Bitmap)
    requires Valid(t) && j < |t.buckets| && x in PeerIds(t.buckets[j].peers)
    ensures x !in TableIds(t.buckets[..j]) && x !in TableIds(t.buckets[j + 1..])
  {
    HeldIdIsHome(t, x, j);
    HomeBucket(t, x);
    InTableIds(t.buckets[..j], x);
    InTableIds(t.buckets[j + 1..], x);
  }

  /** Exactly when a contact is in the table after `Update`. */
  lemma UpdateInserts(t: TableState, c: Contact, now: int)
    requires Valid(t) && c.id != t.id
    ensures var i := BucketFor(t, c.id);
            c.id in TableIds(Update(t, c, now).buckets) <==>
            || c.id in TableIds(t.buckets)
            || (if ShouldSplit(t, i, c) then Reaches(t, c) else HasRoom(t.buckets[i].peers))
  {
    UpdateIds(t, c, now);
    NotEvictedByItself(t, c);
    if c.id !in TableIds(t.buckets) { EffectIff(t, c); }
  }

  /** When an update adds an id the table does not hold yet. */
  lemma EffectIff(t: TableState, c: Contact)
    requires Valid(t) && c.id !in TableIds(t.buckets)
    ensures var i, e := BucketFor(t, c.id), UpdateEffect(t, c);
            e.Appended? || e.Replaced? <==> if ShouldSplit(t, i, c) then Reaches(t, c) else HasRoom(t.buckets[i].peers)
  {
    if c.id in PeerIds(Chosen(t, c).peers) { InPlaced(t, c); }
    EffectOnNew(Chosen(t, c), PeerFor(t, c));
    ChosenRoom(t, c);
  }

  lemma EffectOnNew(b: BucketState, p: Peer)
    requires p.contact.id !in PeerIds(b.peers)
    ensures var e := EffectOf(b, p, true);
            e.Appended? || e.Replaced? <==> b.range.Covers(p.distance) && HasRoom(b.peers)
  {
  }

  /** After a split there is room; without one the chosen bucket is the covering one. */
  lemma ChosenRoom(t: TableState, c: Contact)
    requires Valid(t)
    ensures var i := BucketFor(t, c.id);
            if ShouldSplit(t, i, c) then HasRoom(Chosen(t, c).peers) else Chosen(t, c) == t.buckets[i] && Reaches(t, c)
  {
    XorCommutes(t.id, c.id);
    if ShouldSplit(t, BucketFor(t, c.id), c) { var l, r := SplitHalves(t, c); }
  }

  lemma InPlaced(t: TableState, c: Contact)
    requires Valid(t) && c.id in PeerIds(Chosen(t, c).peers)
    ensures c.id in TableIds(t.buckets)
  {
    var (bs, j) := Placed(t, c);
    PlacedValid(t, c);
    InTableIds(bs, c.id);
  }

  lemma NotEvictedByItself(t: TableState, c: Contact)
    requires Valid(t)
    ensures var e := UpdateEffect(t, c);
            e.Replaced? ==> Chosen(t, c).peers[e.at].contact.id != c.id
  {
    var b, e := Chosen(t, c), UpdateEffect(t, c);
    if e.Replaced? { assert b.peers[e.at] in b.peers; }
  }
}
