/** Which nodes an announcement stores at (dht/dht_announce.go, with the lookup of dht/node_finder.go). */
module Announce {
  import opened Bits
  import opened Contacts
  import opened Finder
  import opened FinderRecords

  /** The contact list edit of `announce`: this node joins a short list, or replaces a farther last entry. */
  function StoreTargets(contacts: seq<Contact>, self: Contact, hash: Bitmap): seq<Contact> {
    if |contacts| < BUCKET_SIZE then contacts + [self]
    else if Dist(self.id, hash) < Dist(contacts[BUCKET_SIZE - 1].id, hash) then contacts[BUCKET_SIZE - 1 := self]
    else contacts
  }

  /** The edit as `announce` makes it. */
  method ChooseTargets(found: seq<Contact>, self: Contact, hash: Bitmap) returns (contacts: seq<Contact>)
    ensures contacts == StoreTargets(found, self, hash)
  {
    contacts := found;
    if |contacts| < BUCKET_SIZE {
      contacts := contacts + [self];
    } else {
      CloserIsDist(hash, self.id, contacts[BUCKET_SIZE - 1].id);
      if Closer(hash, self.id, contacts[BUCKET_SIZE - 1].id) { contacts := contacts[BUCKET_SIZE - 1 := self]; }
    }
  }

  /** The stores are distinct, and the k closest to the hash of the active contacts and this node. */
  ghost predicate GoodTargets(stores: seq<Contact>, active: seq<Contact>, self: Contact, hash: Bitmap) {
    KClosest(Ids(stores), Ids(active) + {self.id}, hash, BUCKET_SIZE) && DistinctIds(stores)
  }

  lemma ShortList(active: seq<Contact>, self: Contact, hash: Bitmap)
    requires StrictlySortedTo(active, hash) && self.id !in Ids(active) && |active| < BUCKET_SIZE
    ensures GoodTargets(active + [self], active, self, hash)
  {
    IdsAppend(active, self);
    IdsCount(active);
  }

  lemma SelfIsFar(active: seq<Contact>, self: Contact, hash: Bitmap)
    requires StrictlySortedTo(active, hash) && self.id !in Ids(active) && |active| >= BUCKET_SIZE
    requires Dist(active[BUCKET_SIZE - 1].id, hash) <= Dist(self.id, hash)
    ensures GoodTargets(active[..BUCKET_SIZE], active, self, hash)
  {
    TakeIsKClosest(active, hash, BUCKET_SIZE);
    assert DistinctIds(active);
    IdsCount(active);
    forall x | x in Ids(active[..BUCKET_SIZE]) ensures Dist(x, hash) < Dist(self.id, hash) {
      var i :| 0 <= i < BUCKET_SIZE && active[i].id == x;
      assert Dist(x, hash) <= Dist(active[BUCKET_SIZE - 1].id, hash);
      if Dist(x, hash) == Dist(self.id, hash) { DistInjective(hash, x, self.id); }
    }
    NewcomerIgnored(Ids(active[..BUCKET_SIZE]), Ids(active), self.id, hash, BUCKET_SIZE);
  }

  /** A newcomer farther than the k closest changes nothing. */
  lemma NewcomerIgnored(near: set<Bitmap>, all: set<Bitmap>, z: Bitmap, hash: Bitmap, k: nat)
    requires KClosest(near, all, hash, k) && |all| >= k && z !in all
    requires forall x :: x in near ==> Dist(x, hash) < Dist(z, hash)
    ensures KClosest(near, all + {z}, hash, k)
  {
    forall x, y | x in near && y in all + {z} - near ensures Dist(x, hash) < Dist(y, hash) {
      if y != z { OutsideIsFarther(near, all, hash, k, x, y); }
    }
  }

  /** A newcomer nearer than everything outside the k - 1 closest completes the k closest. */
  lemma NewcomerCompletes(near: set<Bitmap>, all: set<Bitmap>, z: Bitmap, hash: Bitmap, k: nat)
    requires k > 0 && KClosest(near, all, hash, k - 1) && |all| >= k && z !in all
    requires forall y :: y in all && y !in near ==> Dist(z, hash) < Dist(y, hash)
    ensures KClosest(near + {z}, all + {z}, hash, k)
  {
    forall x, y | x in near + {z} && y in all + {z} - (near + {z}) ensures Dist(x, hash) < Dist(y, hash) {
      if x in near { OutsideIsFarther(near, all, hash, k - 1, x, y); }
    }
  }

  lemma SelfIsNear(active: seq<Contact>, self: Contact, hash: Bitmap)
    requires StrictlySortedTo(active, hash) && self.id !in Ids(active) && |active| >= BUCKET_SIZE
    requires Dist(self.id, hash) < Dist(active[BUCKET_SIZE - 1].id, hash)
    ensures GoodTargets(active[..BUCKET_SIZE - 1] + [self], active, self, hash)
  {
    var m := BUCKET_SIZE - 1;
    var front := active[..m];
    TakeIsKClosest(active, hash, m);
    StrictIsDistinct(active, hash);
    forall y | y in Ids(active) && y !in Ids(front) ensures Dist(self.id, hash) < Dist(y, hash) {
      BeyondPrefix(active, hash, m, y);
    }
    NewcomerCompletes(Ids(front), Ids(active), self.id, hash, BUCKET_SIZE);
    AppendDistinct(active, m, self);
  }

  lemma StrictIsDistinct(s: seq<Contact>, hash: Bitmap)
    requires StrictlySortedTo(s, hash)
    ensures DistinctIds(s) && |Ids(s)| == |s|
  {
    assert DistinctIds(s);
    IdsCount(s);
  }

  lemma AppendDistinct(s: seq<Contact>, m: nat, c: Contact)
    requires DistinctIds(s) && m <= |s| && c.id !in Ids(s)
    ensures DistinctIds(s[..m] + [c]) && Ids(s[..m] + [c]) == Ids(s[..m]) + {c.id}
  {
    forall i | 0 <= i < m ensures s[..m][i].id in Ids(s) { assert s[i] in s; }
    IdsAppend(s[..m], c);
  }

  lemma BeyondPrefix(s: seq<Contact>, hash: Bitmap, m: nat, y: Bitmap)
    requires StrictlySortedTo(s, hash) && m < |s| && y in Ids(s) && y !in Ids(s[..m])
    ensures Dist(s[m].id, hash) <= Dist(y, hash)
  {
    forall l: nat | l < m ensures s[l].id in Ids(s[..m]) { IdInPrefix(s, m, l); }
    var j :| 0 <= j < |s| && s[j].id == y;
  }

  /** The three outcomes of the edit on a lookup's result. */
  lemma TargetsAre(active: seq<Contact>, self: Contact, hash: Bitmap)
    ensures StoreTargets(active[..Min(BUCKET_SIZE, |active|)], self, hash) ==
            if |active| < BUCKET_SIZE then active + [self]
            else if Dist(self.id, hash) < Dist(active[BUCKET_SIZE - 1].id, hash) then active[..BUCKET_SIZE - 1] + [self]
            else active[..BUCKET_SIZE]
  {
  }

  /** The edit of `announce` on a lookup's result yields the k closest, without duplicates. */
  lemma TargetsAreClosest(active: seq<Contact>, self: Contact, hash: Bitmap)
    requires StrictlySortedTo(active, hash) && self.id !in Ids(active)
    ensures GoodTargets(StoreTargets(active[..Min(BUCKET_SIZE, |active|)], self, hash), active, self, hash)
  {
    TargetsAre(active, self, hash);
    if |active| < BUCKET_SIZE {
      ShortList(active, self, hash);
    } else if Dist(self.id, hash) < Dist(active[BUCKET_SIZE - 1].id, hash) {
      SelfIsNear(active, self, hash);
    } else {
      SelfIsFar(active, self, hash);
    }
  }

  /**
    In every lookup that found no value, `announce` stores at exactly the eight nodes closest to the hash among the
    contacts that answered, as far as recorded, and this node, or at all of them if there are fewer; nowhere twice.
  */
  lemma StoresAtClosest(states: seq<State>, actions: seq<Action>, k: nat, self: Contact)
    requires IsRun(states, actions) && k < |states| && !FindResult(states[k]).1 && self.id == states[k].nodeId
    ensures var stores := StoreTargets(FindResult(states[k]).0, self, states[k].target);
            var responders := Recorded(states, actions, k);
            && DistinctIds(stores) && Contents(stores) <= responders + {self}
            && KClosest(Ids(stores), IdsOf(responders) + {self.id}, states[k].target, BUCKET_SIZE)
  {
    var s := states[k];
    ListsInEveryRun(states, actions, k);
    TargetsAreClosest(s.active, self, s.target);
    ActiveIsRecorded(states, actions, k);
    TargetsAre(s.active, self, s.target);
    assert Contents(s.active) == Recorded(states, actions, k);
  }
}
