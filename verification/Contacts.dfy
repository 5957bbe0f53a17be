/** Contacts and their order by XOR distance (dht/contact.go). */
module Contacts {
  import opened Bits

  const BUCKET_SIZE := 8
  const ALPHA := 3

  datatype Contact = Contact(id: Bitmap, ip: int, port: int, peerPort: int) {
    /** `Equals`: same address, and same id when checkID is set. */
    predicate Equals(other: Contact, checkID: bool) {
      ip == other.ip && port == other.port && (!checkID || id == other.id)
    }
  }

  function Ids(s: seq<Contact>): set<Bitmap> { set c | c in s :: c.id }

  predicate DistinctIds(s: seq<Contact>) {
    forall i, j :: 0 <= i < j < |s| ==> s[i].id != s[j].id
  }

  predicate SortedTo(s: seq<Contact>, target: Bitmap) {
    forall i, j :: 0 <= i < j < |s| ==> Dist(s[i].id, target) <= Dist(s[j].id, target)
  }

  predicate StrictlySortedTo(s: seq<Contact>, target: Bitmap) {
    forall i, j :: 0 <= i < j < |s| ==> Dist(s[i].id, target) < Dist(s[j].id, target)
  }

  // ---------------------------------------------------------------------------
  // sortByDistance
  // ---------------------------------------------------------------------------

  /** Insertion before the first strictly farther contact. */
  function InsertSorted(c: Contact, s: seq<Contact>, target: Bitmap): seq<Contact> {
    if s == [] then [c]
    else if Dist(c.id, target) < Dist(s[0].id, target) then [c] + s
    else [s[0]] + InsertSorted(c, s[1..], target)
  }

  /** A sorted arrangement of s; for distinct ids the only one, by SortIsUnique. */
  function SortByDistance(s: seq<Contact>, target: Bitmap): seq<Contact> {
    if s == [] then [] else InsertSorted(s[|s| - 1], SortByDistance(s[..|s| - 1], target), target)
  }

  lemma {:induction false} InsertSortedContents(c: Contact, s: seq<Contact>, target: Bitmap)
    ensures var r := InsertSorted(c, s, target); multiset(r) == multiset(s) + multiset{c} && |r| == |s| + 1
  {
    if s != [] {
      InsertSortedContents(c, s[1..], target);
      assert s == [s[0]] + s[1..];
    }
  }

  lemma {:induction false} InsertSortedIsSorted(c: Contact, s: seq<Contact>, target: Bitmap)
    requires SortedTo(s, target)
    ensures SortedTo(InsertSorted(c, s, target), target)
  {
    if s != [] {
      if Dist(c.id, target) >= Dist(s[0].id, target) {
        var rest := InsertSorted(c, s[1..], target);
        InsertSortedIsSorted(c, s[1..], target);
        InsertSortedContents(c, s[1..], target);
        forall i | 0 <= i < |rest| ensures Dist(s[0].id, target) <= Dist(rest[i].id, target) {
          assert rest[i] in multiset(rest);
          assert rest[i] == c || rest[i] in s[1..];
        }
        PrependSorted(s[0], rest, target);
      }
    }
  }

  lemma PrependSorted(c: Contact, s: seq<Contact>, target: Bitmap)
    requires SortedTo(s, target) && forall i :: 0 <= i < |s| ==> Dist(c.id, target) <= Dist(s[i].id, target)
    ensures SortedTo([c] + s, target)
  {
  }

  lemma {:induction false} SortIsSorted(s: seq<Contact>, target: Bitmap)
    ensures var r := SortByDistance(s, target);
            SortedTo(r, target) && multiset(r) == multiset(s) && |r| == |s|
  {
    if s != [] {
      var n := |s| - 1;
      var init := SortByDistance(s[..n], target);
      SortIsSorted(s[..n], target);
      InsertSortedIsSorted(s[n], init, target);
      InsertSortedContents(s[n], init, target);
      LastInMultiset(s);
    }
  }

  lemma LastInMultiset(s: seq<Contact>)
    requires s != []
    ensures multiset(s) == multiset(s[..|s| - 1]) + multiset{s[|s| - 1]}
  {
    assert s == s[..|s| - 1] + [s[|s| - 1]];
  }

  lemma DistinctByMultiset(s: seq<Contact>, r: seq<Contact>)
    requires multiset(s) == multiset(r) && DistinctIds(s)
    ensures DistinctIds(r) && Ids(s) == Ids(r) && |s| == |r|
  {
    assert |s| == |multiset(s)| == |r|;
    forall c ensures c in s <==> c in r {
      assert c in s <==> c in multiset(s);
      assert c in r <==> c in multiset(r);
    }
    forall i, j | 0 <= i < j < |r| ensures r[i].id != r[j].id {
      if r[i].id == r[j].id {
        assert r[i] in s && r[j] in s;
        assert r[i] == r[j];
        TwiceInMultiset(r, i, j);
        OnceInMultiset(s, r[i]);
      }
    }
  }

  lemma TwiceInMultiset(r: seq<Contact>, i: nat, j: nat)
    requires i < j < |r| && r[i] == r[j]
    ensures multiset(r)[r[i]] >= 2
  {
    assert r == r[..i] + [r[i]] + r[i + 1..j] + [r[j]] + r[j + 1..];
  }

  lemma {:induction false} OnceInMultiset(s: seq<Contact>, c: Contact)
    requires DistinctIds(s)
    ensures multiset(s)[c] <= 1
  {
    if s != [] {
      var n := |s| - 1;
      assert s == s[..n] + [s[n]];
      OnceInMultiset(s[..n], c);
      if s[n] == c { assert c !in s[..n]; }
    }
  }

  lemma SortedDistinctIsStrict(s: seq<Contact>, target: Bitmap)
    requires SortedTo(s, target) && DistinctIds(s)
    ensures StrictlySortedTo(s, target)
  {
    forall i, j | 0 <= i < j < |s| ensures Dist(s[i].id, target) < Dist(s[j].id, target) {
      if Dist(s[i].id, target) == Dist(s[j].id, target) { DistInjective(target, s[i].id, s[j].id); }
    }
  }

  lemma SortDistinct(s: seq<Contact>, target: Bitmap)
    requires DistinctIds(s)
    ensures var r := SortByDistance(s, target);
            StrictlySortedTo(r, target) && multiset(r) == multiset(s) && Ids(r) == Ids(s) && |r| == |s|
  {
    var r := SortByDistance(s, target);
    SortIsSorted(s, target);
    DistinctByMultiset(s, r);
    SortedDistinctIsStrict(r, target);
  }

  /** Whatever sorting algorithm is used, distinct ids leave one possible result. */
  lemma {:induction false} SortIsUnique(a: seq<Contact>, b: seq<Contact>, target: Bitmap)
    requires multiset(a) == multiset(b) && StrictlySortedTo(a, target) && SortedTo(b, target)
    ensures a == b
  {
    assert |a| == |multiset(a)| == |b|;
    if a != [] {
      SameHead(a, b, target);
      TailMultiset(a);
      TailMultiset(b);
      SortIsUnique(a[1..], b[1..], target);
      assert a == [a[0]] + a[1..] && b == [b[0]] + b[1..];
    }
  }

  lemma TailMultiset(a: seq<Contact>)
    requires a != []
    ensures multiset(a[1..]) == multiset(a) - multiset{a[0]}
  {
    assert a == [a[0]] + a[1..];
  }

  lemma SameHead(a: seq<Contact>, b: seq<Contact>, target: Bitmap)
    requires a != [] && b != [] && multiset(a) == multiset(b) && StrictlySortedTo(a, target) && SortedTo(b, target)
    ensures a[0] == b[0]
  {
    assert a[0] in multiset(b) && b[0] in multiset(a);
    var i :| 0 <= i < |a| && a[i] == b[0];
    var j :| 0 <= j < |b| && b[j] == a[0];
  }

  // ---------------------------------------------------------------------------
  // The k closest of a set, independently of any list
  // ---------------------------------------------------------------------------

  function Min(a: nat, b: nat): nat { if a < b then a else b }

  /** near consists of k members of all (or all of them, if fewer), each closer to target than any other member. */
  ghost predicate KClosest(near: set<Bitmap>, all: set<Bitmap>, target: Bitmap, k: nat) {
    && near <= all
    && |near| == Min(k, |all|)
    && forall x, y :: x in near && y in all - near ==> Dist(x, target) < Dist(y, target)
  }

  lemma SubsetSize(a: set<Bitmap>, b: set<Bitmap>)
    requires a <= b
    ensures |a| <= |b| && (|a| == |b| ==> a == b)
  {
    assert b == a + (b - a) && |b| == |a| + |b - a|;
  }

  lemma OutsideIsFarther(near: set<Bitmap>, all: set<Bitmap>, target: Bitmap, k: nat, x: Bitmap, y: Bitmap)
    requires KClosest(near, all, target, k) && x in near && y in all && y !in near
    ensures Dist(x, target) < Dist(y, target)
  {
    assert y in all - near;
  }

  lemma Exchange(a: set<Bitmap>, b: set<Bitmap>) returns (x: Bitmap, y: Bitmap)
    requires |a| == |b| && a != b
    ensures x in a && x !in b && y in b && y !in a
  {
    if a <= b { SubsetSize(a, b); }
    if b <= a { SubsetSize(b, a); }
    x :| x in a && x !in b;
    y :| y in b && y !in a;
  }

  lemma KClosestIsUnique(a: set<Bitmap>, b: set<Bitmap>, all: set<Bitmap>, target: Bitmap, k: nat)
    requires KClosest(a, all, target, k) && KClosest(b, all, target, k)
    ensures a == b
  {
    if a != b {
      var x, y := Exchange(a, b);
      OutsideIsFarther(a, all, target, k, x, y);
      OutsideIsFarther(b, all, target, k, y, x);
    }
  }

  lemma {:induction false} IdsCount(s: seq<Contact>)
    requires DistinctIds(s)
    ensures |Ids(s)| == |s|
  {
    if s != [] {
      var n := |s| - 1;
      IdsCount(s[..n]);
      assert Ids(s) == Ids(s[..n]) + {s[n].id};
      assert s[n].id !in Ids(s[..n]);
    }
  }

  lemma IdInPrefix(s: seq<Contact>, m: nat, j: nat)
    requires j < m <= |s|
    ensures s[j].id in Ids(s[..m])
  {
    assert s[..m][j] == s[j];
  }

  /** The first k of a strictly sorted list are its k closest. */
  lemma TakeIsKClosest(s: seq<Contact>, target: Bitmap, k: nat)
    requires StrictlySortedTo(s, target)
    ensures KClosest(Ids(s[..Min(k, |s|)]), Ids(s), target, k)
  {
    var m := Min(k, |s|);
    assert DistinctIds(s);
    IdsCount(s);
    IdsCount(s[..m]);
    forall l: nat | l < m ensures s[l].id in Ids(s[..m]) { IdInPrefix(s, m, l); }
    forall x, y | x in Ids(s[..m]) && y in Ids(s) - Ids(s[..m]) ensures Dist(x, target) < Dist(y, target) {
      var i :| 0 <= i < m && s[i].id == x;
      var j :| 0 <= j < |s| && s[j].id == y;
    }
  }
}
