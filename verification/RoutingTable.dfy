/** The routing table as the program keeps it: bucket objects updated in place (dht/routing_table.go). */
module RoutingTable {
  import opened Bits
  import opened Ranges
  import opened Contacts
  import B = Buckets
  import T = Table
  import R = TableRuns

  /** `moveToBack`: shifts the later peers down one place. */
  method MoveToBack(peers: seq<B.Peer>, index: int) returns (r: seq<B.Peer>)
    ensures r == B.MovedToBack(peers, index)
  {
    r := peers;
    if index < 0 || |peers| <= index + 1 { return; }
    var p := peers[index];
    for i := index to |peers| - 1
      invariant |r| == |peers|
      invariant r[..index] == peers[..index]
      invariant forall k :: index <= k < i ==> r[k] == peers[k + 1]
      invariant forall k :: i <= k < |r| ==> r[k] == peers[k]
    {
      r := r[i := r[i + 1]];
    }
    r := r[|r| - 1 := p];
    assert r[index..|r| - 1] == peers[index + 1..];
    assert r == r[..index] + r[index..|r| - 1] + [r[|r| - 1]];
  }

  /** `find` */
  method Find(id: Bitmap, peers: seq<B.Peer>) returns (index: int)
    ensures index == B.Find(id, peers)
  {
    for i := 0 to |peers|
      invariant B.Find(id, peers[..i]) == -1
    {
      EqualsIsEquality(peers[i].contact.id, id);
      assert peers[..i + 1][..i] == peers[..i];
      if Equals(peers[i].contact.id, id) {
        FoundEarly(id, peers, i + 1);
        return i;
      }
    }
    assert peers[..|peers|] == peers;
    return -1;
  }

  lemma {:induction false} FoundEarly(id: Bitmap, peers: seq<B.Peer>, n: nat)
    requires n <= |peers| && B.Find(id, peers[..n]) >= 0
    ensures B.Find(id, peers) == B.Find(id, peers[..n])
    decreases |peers| - n
  {
    if n == |peers| {
      assert peers[..n] == peers;
    } else {
      assert peers[..n + 1][..n] == peers[..n];
      FoundEarly(id, peers, n + 1);
    }
  }

  class Bucket {
    var peers: seq<B.Peer>
    var lastUpdate: int
    var range: Range

    function State(): B.BucketState
      reads this
    {
      B.BucketState(peers, lastUpdate, range)
    }

    constructor (r: Range)
      ensures State() == B.BucketState([], 0, r)
    {
      peers, lastUpdate, range := [], 0, r;
    }

    /** `UpdatePeer` */
    method UpdatePeer(p: B.Peer, insertIfNew: bool, now: int) returns (ok: bool)
      modifies this
      ensures (State(), ok) == B.UpdatePeer(old(State()), p, insertIfNew, now)
    {
      ContainsIsCovers(range, p.distance);
      if !range.Contains(p.distance) { return false; }
      ok := true;
      var index := Find(p.contact.id, peers);
      if index >= 0 {
        lastUpdate := now;
        peers := peers[index := peers[index].Touch(now)];
        peers := MoveToBack(peers, index);
      } else if insertIfNew {
        var hasRoom := true;
        if |peers| >= BUCKET_SIZE {
          hasRoom := false;
          var i := 0;
          while i < |peers|
            invariant 0 <= i <= |peers| && !hasRoom && State() == old(State())
            invariant i <= B.FirstBad(peers)
          {
            if peers[i].IsBad(B.MAX_PEER_FAILS) {
              peers := peers[..i] + peers[i + 1..];
              hasRoom := true;
              break;
            }
            i := i + 1;
          }
        }
        if hasRoom {
          lastUpdate := now;
          peers := peers + [p.Touch(now)];
        }
      }
    }

    /** `FailContact` */
    method FailContact(id: Bitmap)
      modifies this
      ensures State() == B.FailContact(old(State()), id)
    {
      var i := Find(id, peers);
      if i >= 0 {
        peers := peers[i := peers[i].Fail()];
      }
    }

    /** `Has` */
    method Has(c: Contact) returns (r: bool)
      ensures r == T.Has(State(), c)
    {
      for i := 0 to |peers|
        invariant forall k :: 0 <= k < i ==> !peers[k].contact.Equals(c, true)
      {
        if peers[i].contact.Equals(c, true) { return true; }
      }
      return false;
    }

    /** `Contacts` */
    method Contacts() returns (r: seq<Contact>)
      ensures r == B.ContactsOf(peers)
    {
      r := [];
      for i := 0 to |peers|
        invariant |r| == i && forall k :: 0 <= k < i ==> r[k] == peers[k].contact
      {
        r := r + [peers[i].contact];
      }
    }

    /** The loop of `Split`: each peer goes left if the left range contains its distance. */
    method Divide(left: Bucket, right: Bucket)
      requires left != right && left != this && right != this && left.peers == [] && right.peers == []
      modifies left`peers, right`peers
      ensures left.peers == B.Select(peers, left.range, true)
      ensures right.peers == B.Select(peers, left.range, false)
    {
      for i := 0 to |peers|
        invariant left.peers == B.Select(peers[..i], left.range, true)
        invariant right.peers == B.Select(peers[..i], left.range, false)
      {
        var p := peers[i];
        assert peers[..i + 1][..i] == peers[..i];
        ContainsIsCovers(left.range, p.distance);
        if left.range.Contains(p.distance) {
          left.peers := left.peers + [p];
        } else {
          right.peers := right.peers + [p];
        }
      }
      assert peers[..|peers|] == peers;
    }

    /** The first part of `Split`: both halves of the range with their peers. */
    method Halve() returns (left: Bucket, right: Bucket)
      requires range.Lo() < range.Hi()
      ensures fresh(left) && fresh(right) && left != right
      ensures left.State() == B.Side(State(), B.LeftHalf(range), true, B.LeftHalf(range))
      ensures right.State() == B.Side(State(), B.LeftHalf(range), false, B.RightHalf(range))
    {
      Halves(range);
      left := new Bucket(IntervalP(range, 1, 2).value);
      right := new Bucket(IntervalP(range, 2, 2).value);
      left.lastUpdate := lastUpdate;
      right.lastUpdate := lastUpdate;
      Divide(left, right);
    }

    /** The recursion of `Split` into the right half, whose left part then reaches back to the old start. */
    method SplitRight(right: Bucket) returns (l: Bucket, r: Bucket)
      requires B.Splittable(State()) && |peers| > 1 && B.Select(peers, B.LeftHalf(range), true) == []
      requires right.State() == B.Side(State(), B.LeftHalf(range), false, B.RightHalf(range))
      ensures fresh(l) && fresh(r) && l != r
      ensures l.State() == B.Split(State()).0 && r.State() == B.Split(State()).1
      decreases range.Hi() - range.Lo(), 0
    {
      B.SplitRecurses(State(), false);
      l, r := right.Split();
      l.range := l.range.(start := range.start);
    }

    /** The recursion into the left half. */
    method SplitLeft(left: Bucket) returns (l: Bucket, r: Bucket)
      requires B.Splittable(State()) && |peers| > 1 && B.Select(peers, B.LeftHalf(range), false) == []
      requires left.State() == B.Side(State(), B.LeftHalf(range), true, B.LeftHalf(range))
      ensures fresh(l) && fresh(r) && l != r
      ensures l.State() == B.Split(State()).0 && r.State() == B.Split(State()).1
      decreases range.Hi() - range.Lo(), 0
    {
      B.SplitRecurses(State(), true);
      l, r := left.Split();
      r.range := r.range.(end := range.end);
    }

    /** `Split`: two fresh buckets; the bucket itself is left alone. */
    method Split() returns (left: Bucket, right: Bucket)
      requires B.Splittable(State())
      ensures fresh(left) && fresh(right) && left != right
      ensures left.State() == B.Split(State()).0 && right.State() == B.Split(State()).1
      decreases range.Hi() - range.Lo(), 1
    {
      left, right := Halve();
      if |peers| > 1 && |left.peers| == 0 {
        left, right := SplitRight(right);
      } else if |peers| > 1 && |right.peers| == 0 {
        left, right := SplitLeft(left);
      } else {
        B.SplitStops(State());
      }
    }
  }

  class RoutingTable {
    const id: Bitmap
    var buckets: seq<Bucket>

    function State(): T.TableState
      reads this, buckets
    {
      T.TableState(id, States(buckets))
    }

    /** The bucket objects are distinct and their values satisfy the table invariant. */
    ghost predicate Valid()
      reads this, buckets
    {
      Distinct(buckets) && T.Valid(State())
    }

    constructor (id: Bitmap)
      ensures Valid() && fresh(buckets) && State() == T.NewTable(id)
    {
      this.id := id;
      var b := new Bucket(MaxRange());
      buckets := [b];
      new;
      T.NewTableValid(id);
    }

    /** `bucketFor`: the final panic of the original is unreachable. */
    method BucketFor(target: Bitmap) returns (ghost at: nat, b: Bucket)
      requires Valid() && target != id
      ensures at == T.BucketFor(State(), target) && b == buckets[at]
    {
      var distance := Xor(target, id);
      ghost var t := State();
      var i := 0;
      while true
        invariant 0 <= i < |buckets| && t.buckets[i].range.Lo() <= Value(distance)
        invariant T.SearchFrom(t, distance, i) == T.BucketFor(t, target)
        decreases |buckets| - i
      {
        ContainsIsCovers(buckets[i].range, distance);
        if buckets[i].range.Contains(distance) { return i, buckets[i]; }
        ValueBound(distance);
        i := i + 1;
      }
    }

    /** `getClosest` */
    method GetClosest(target: Bitmap, limit: nat) returns (r: seq<Contact>)
      requires Valid()
      ensures r == T.GetClosest(State(), target, limit)
    {
      r := [];
      for i := 0 to |buckets|
        invariant r == T.AllContacts(State().buckets[..i])
      {
        var cs := buckets[i].Contacts();
        assert State().buckets[..i + 1][..i] == State().buckets[..i];
        r := r + cs;
      }
      assert State().buckets[..|buckets|] == State().buckets;
      r := SortByDistance(r, target);
      if |r| > limit { r := r[..limit]; }
    }

    /** `shouldSplit` */
    method ShouldSplit(ghost at: nat, b: Bucket, c: Contact) returns (r: bool)
      requires Valid() && at < |buckets| && b == buckets[at]
      ensures r == T.ShouldSplit(State(), at, c)
    {
      var has := b.Has(c);
      if has { return false; }
      if |b.peers| >= BUCKET_SIZE {
        EqualsIsEquality(b.range.start, Zero());
        if Value(b.range.start) == 0 { ValueInjective(b.range.start, Zero()); }
        if Equals(b.range.start, Zero()) { return true; }
        var kClosest := GetClosest(id, BUCKET_SIZE);
        T.FullBucketFillsTable(State().buckets, at);
        SortIsSorted(T.AllContacts(State().buckets), id);
        CloserIsDist(id, c.id, kClosest[|kClosest| - 1].id);
        if Closer(id, c.id, kClosest[|kClosest| - 1].id) { return true; }
      }
      return false;
    }

    /** Puts left and right in place of the bucket that starts where left does. */
    method ReplaceBucket(ghost at: nat, left: Bucket, right: Bucket)
      requires Valid() && at < |buckets| && B.IsSplitOf(buckets[at].State(), left.State(), right.State())
      modifies this
      ensures buckets == old(buckets)[..at] + [left, right] + old(buckets)[at + 1..]
    {
      ghost var t := State();
      var i := 0;
      while !Equals(buckets[i].range.start, left.range.start)
        invariant 0 <= i <= at && State() == t && buckets == old(buckets)
        decreases at - i
      {
        EqualsIsEquality(buckets[at].range.start, left.range.start);
        i := i + 1;
      }
      EqualsIsEquality(buckets[i].range.start, left.range.start);
      if i < at {
        assert B.BucketOK(id, t.buckets[i]);
        T.RangesOrdered(id, t.buckets, i, at);
      }
      buckets := buckets[..i] + [left, right] + buckets[i + 1..];
    }

    /** Splits the bucket at the given position in place. */
    method SplitBucket(ghost at: nat, b: Bucket) returns (left: Bucket, right: Bucket)
      requires Valid() && at < |buckets| && b == buckets[at] && |b.peers| > 1
      requires B.BucketOK(id, b.State())
      modifies this
      ensures fresh(left) && fresh(right) && left != right
      ensures buckets == old(buckets)[..at] + [left, right] + old(buckets)[at + 1..]
      ensures left.State() == T.SplitFull(id, b.State()).0 && right.State() == T.SplitFull(id, b.State()).1
    {
      B.SplitOK(id, b.State());
      left, right := b.Split();
      ReplaceBucket(at, left, right);
    }

    /** Splits b and picks the half that contains c's id. */
    method SplitAndPick(ghost at: nat, b: Bucket, c: Contact) returns (ghost pos: nat, chosen: Bucket)
      requires Valid() && at < |buckets| && b == buckets[at] && |b.peers| > 1
      requires B.BucketOK(id, b.State())
      modifies this
      ensures var (l, r) := T.SplitFull(id, old(b.State()));
              && States(buckets) == T.SplitAt(old(States(buckets)), at, l, r)
              && pos == if l.range.Covers(c.id) then at else at + 1
      ensures chosen == buckets[pos]
      ensures Distinct(buckets) && forall x :: x in buckets && x !in old(buckets) ==> fresh(x)
    {
      var left, right := SplitBucket(at, b);
      Splice(old(buckets), at, left, right);
      ContainsIsCovers(left.range, c.id);
      if left.range.Contains(c.id) { pos, chosen := at, left; } else { pos, chosen := at + 1, right; }
    }

    /** c's bucket, and whether it should be split for c. */
    method Locate(c: Contact) returns (ghost at: nat, b: Bucket, split: bool)
      requires Valid() && c.id != id
      ensures at == T.BucketFor(State(), c.id) && b == buckets[at] && split == T.ShouldSplit(State(), at, c)
      ensures B.BucketOK(id, b.State()) && (split ==> |b.peers| > 1)
    {
      at, b := BucketFor(c.id);
      split := ShouldSplit(at, b, c);
      assert B.BucketOK(id, State().buckets[at]);
    }

    /** The first part of `Update`: splits c's bucket if it should, and picks a half by c's id. */
    method Place(c: Contact) returns (ghost pos: nat, chosen: Bucket)
      requires Valid() && c.id != id
      modifies this
      ensures (States(buckets), pos) == T.Placed(old(State()), c) && chosen == buckets[pos]
      ensures Distinct(buckets) && forall b :: b in buckets && b !in old(buckets) ==> fresh(b)
    {
      var at, b, split := Locate(c);
      pos, chosen := at, b;
      if split { pos, chosen := SplitAndPick(at, b, c); }
    }

    /** `Update` */
    method Update(c: Contact, now: int)
      requires Valid() && c.id != id
      modifies this, buckets
      ensures Valid() && State() == T.Update(old(State()), c, now)
      ensures forall b :: b in buckets && b !in old(buckets) ==> fresh(b)
    {
      ghost var t := State();
      assert T.Valid(T.Update(t, c, now)) by { T.UpdateValid(t, c, now); }
      var pos, chosen := Place(c);
      ghost var before := States(buckets);
      assert chosen in buckets;
      var ok := chosen.UpdatePeer(B.Peer(c, Xor(id, c.id), 0, 0), true, now);
      OneChanged(buckets, before, pos);
    }

    /** `Fresh` */
    method Fresh(c: Contact, now: int)
      requires Valid() && c.id != id
      modifies this, buckets
      ensures Valid() && buckets == old(buckets) && State() == T.Fresh(old(State()), c, now)
    {
      ghost var t := State();
      assert T.Valid(T.Fresh(t, c, now)) by { T.FreshValid(t, c, now); }
      var at, b := BucketFor(c.id);
      var ok := b.UpdatePeer(B.Peer(c, Xor(id, c.id), 0, 0), false, now);
      OneChanged(buckets, t.buckets, at);
    }

    /** `Fail` */
    method Fail(c: Contact)
      requires Valid() && c.id != id
      modifies this, buckets
      ensures Valid() && buckets == old(buckets) && State() == T.Fail(old(State()), c)
    {
      ghost var t := State();
      assert T.Valid(T.Fail(t, c)) by { T.FailValid(t, c); }
      var at, b := BucketFor(c.id);
      b.FailContact(c.id);
      OneChanged(buckets, t.buckets, at);
    }

    /** Any of the three; on the table's own id `bucketFor` panics before anything is changed. */
    method Do(op: R.Op) returns (o: Outcome<()>)
      requires Valid()
      modifies this, buckets
      ensures Valid() && forall b :: b in buckets && b !in old(buckets) ==> fresh(b)
      ensures o.Panicked? <==> op.c.id == id
      ensures State() == if o.Panicked? then old(State()) else R.Step(old(State()), op)
    {
      EqualsIsEquality(id, op.c.id);
      if Equals(id, op.c.id) { return Panicked; }
      o := Returned(());
      match op
      case DoUpdate(c, now) => Update(c, now);
      case DoFresh(c, now) => Fresh(c, now);
      case DoFail(c) => Fail(c);
    }
  }

  function States(buckets: seq<Bucket>): (r: seq<B.BucketState>)
    reads buckets
    ensures |r| == |buckets|
  {
    seq(|buckets|, i requires 0 <= i < |buckets| reads buckets => buckets[i].State())
  }

  ghost predicate Distinct(buckets: seq<Bucket>) {
    forall i, j :: 0 <= i < j < |buckets| ==> buckets[i] != buckets[j]
  }

  /** Two new buckets in place of the one at the given position. */
  lemma Splice(buckets: seq<Bucket>, at: nat, left: Bucket, right: Bucket)
    requires at < |buckets| && Distinct(buckets) && left !in buckets && right !in buckets && left != right
    ensures var r := buckets[..at] + [left, right] + buckets[at + 1..];
            && States(r) == T.SplitAt(States(buckets), at, left.State(), right.State())
            && Distinct(r)
            && (forall b :: b in r ==> b in buckets || b == left || b == right)
            && r[at] == left && r[at + 1] == right
  {
  }

  lemma OneChanged(buckets: seq<Bucket>, before: seq<B.BucketState>, at: nat)
    requires at < |buckets| == |before|
    requires forall i :: 0 <= i < |buckets| && i != at ==> buckets[i].State() == before[i]
    ensures States(buckets) == before[at := buckets[at].State()]
  {
  }
}
