/** The finder's shared lists as the program keeps them, one method per locked section (dht/node_finder.go). */
module ContactFinder {
  import opened Bits
  import opened Contacts
  import opened Results
  import F = Finder

  class ContactFinder {
    const target: Bitmap
    var shortlist: seq<Contact>
    var shortlistAdded: map<Bitmap, bool>
    var activeContacts: seq<Contact>
    var closestContact: Option<Contact>

    constructor (target: Bitmap)
      ensures this.target == target && shortlist == [] && shortlistAdded == map[] && activeContacts == []
      ensures closestContact == None
    {
      this.target := target;
      shortlist, shortlistAdded, activeContacts, closestContact := [], map[], [], None;
    }

    /** `appendNewToShortlist` */
    method AppendNewToShortlist(contacts: seq<Contact>)
      modifies this`shortlist, this`shortlistAdded
      ensures var (s, a) := F.AppendNew(old(shortlist), old(shortlistAdded).Keys, contacts);
              shortlist == SortByDistance(s, target) && shortlistAdded.Keys == a
    {
      for i := 0 to |contacts|
        invariant (shortlist, shortlistAdded.Keys) ==
                  F.AppendNew(old(shortlist), old(shortlistAdded).Keys, contacts[..i])
      {
        var c := contacts[i];
        assert contacts[..i + 1][..i] == contacts[..i];
        if c.id !in shortlistAdded {
          shortlist := shortlist + [c];
          ghost var keys := shortlistAdded.Keys;
          shortlistAdded := shortlistAdded[c.id := true];
          assert shortlistAdded.Keys == keys + {c.id};
        }
      }
      assert contacts[..|contacts|] == contacts;
      shortlist := SortByDistance(shortlist, target);
    }

    /** `popFromShortlist` */
    method PopFromShortlist() returns (c: Option<Contact>)
      modifies this`shortlist
      ensures old(shortlist) == [] ==> c == None && shortlist == []
      ensures old(shortlist) != [] ==> c.Some? && [c.value] + shortlist == old(shortlist)
    {
      if |shortlist| == 0 { return None; }
      c := Some(shortlist[0]);
      shortlist := shortlist[1..];
    }

    /** `insertIntoActiveList`: in front of the first strictly farther contact. */
    method InsertIntoActiveList(c: Contact)
      modifies this`activeContacts
      ensures activeContacts == InsertSorted(c, old(activeContacts), target)
    {
      var i := 0;
      while i < |activeContacts|
        invariant 0 <= i <= |activeContacts| && activeContacts == old(activeContacts)
        invariant forall k :: 0 <= k < i ==> Dist(c.id, target) >= Dist(activeContacts[k].id, target)
      {
        CloserIsDist(target, c.id, activeContacts[i].id);
        if Closer(target, c.id, activeContacts[i].id) {
          InsertsAt(c, activeContacts, target, i);
          activeContacts := activeContacts[..i] + [c] + activeContacts[i..];
          return;
        }
        i := i + 1;
      }
      InsertsAt(c, activeContacts, target, i);
      assert activeContacts[i..] == [] && activeContacts[..i] == activeContacts;
      activeContacts := activeContacts + [c];
    }

    /** The locked update of the shared closest contact at the end of `cycle`. */
    method OfferClosest(c: Contact)
      modifies this`closestContact
      ensures closestContact ==
              if F.Improves(Some(c), old(closestContact), target) then Some(c) else old(closestContact)
    {
      if closestContact.Some? { CloserIsDist(target, c.id, closestContact.value.id); }
      if closestContact.None? || Closer(target, c.id, closestContact.value.id) {
        closestContact := Some(c);
      }
    }

    /** `closest` */
    method Closest(contacts: seq<Contact>) returns (c: Option<Contact>)
      ensures c == F.ClosestOf(contacts, target)
    {
      if |contacts| == 0 { return None; }
      var closest := contacts[0];
      assert contacts[..1][..0] == [];
      for i := 1 to |contacts|
        invariant Some(closest) == F.ClosestOf(contacts[..i], target)
      {
        assert contacts[..i + 1][..i] == contacts[..i];
        CloserIsDist(target, contacts[i].id, closest.id);
        if Closer(target, contacts[i].id, closest.id) { closest := contacts[i]; }
      }
      assert contacts[..|contacts|] == contacts;
      return Some(closest);
    }
  }

  lemma {:induction false} InsertsAt(c: Contact, s: seq<Contact>, target: Bitmap, i: nat)
    requires i <= |s| && forall k :: 0 <= k < i ==> Dist(c.id, target) >= Dist(s[k].id, target)
    requires i < |s| ==> Dist(c.id, target) < Dist(s[i].id, target)
    ensures InsertSorted(c, s, target) == s[..i] + [c] + s[i..]
  {
    if i > 0 {
      InsertsAt(c, s[1..], target, i - 1);
      assert s[1..][..i - 1] == s[1..i] && s[1..][i - 1..] == s[i..];
    }
  }

  /** `closest` returns a member that no other member beats. */
  lemma {:induction false} ClosestIsMinimum(contacts: seq<Contact>, target: Bitmap)
    ensures F.ClosestOf(contacts, target).None? <==> contacts == []
    ensures contacts != [] ==>
              var c := F.ClosestOf(contacts, target).value;
              c in contacts && forall k :: 0 <= k < |contacts| ==> Dist(c.id, target) <= Dist(contacts[k].id, target)
  {
    if contacts != [] { ClosestIsMinimum(contacts[..|contacts| - 1], target); }
  }
}
