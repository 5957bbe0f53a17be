/** What the lookup's lists record: who answered, and where every contact comes from (dht/node_finder.go). */
module FinderRecords {
  import opened Bits
  import opened Contacts
  import opened Results
  import opened Finder

  // ---------------------------------------------------------------------------
  // An answer is recorded
  // ---------------------------------------------------------------------------

  /** The result of a probe is the nearest contact of the reply, if there is any. */
  predicate NearestOf(r: Option<Contact>, cs: seq<Contact>, target: Bitmap) {
    match r
    case None => cs == []
    case Some(c) => c in cs && forall d :: d in cs ==> Dist(c.id, target) <= Dist(d.id, target)
  }

  lemma {:induction false} ClosestIsNearest(cs: seq<Contact>, target: Bitmap)
    ensures NearestOf(ClosestOf(cs, target), cs, target)
  {
    if cs != [] {
      var n := |cs| - 1;
      ClosestIsNearest(cs[..n], target);
      assert cs == cs[..n] + [cs[n]];
    }
  }

  /** Contact c is recorded as active, and its reply cs as added and as the nearest of it. */
  predicate RecordedReply(s: State, r: Option<Contact>, c: Contact, cs: seq<Contact>) {
    c in s.active && Ids(cs) <= s.added && NearestOf(r, cs, s.target)
  }

  /** How far probe p has come in recording that contact c answered with cs. */
  predicate Records(s: State, p: nat, c: Contact, cs: seq<Contact>) {
    && p < |s.probes|
    && match s.probes[p].pc
       case Inserting(d, reply) => d == c && reply == cs
       case Appending(reply) => reply == cs && c in s.active
       case Finished(r) => RecordedReply(s, r, c, cs)
       case Received(r) => RecordedReply(s, r, c, cs)
       case _ => false
  }

  lemma {:induction false} AppendNewAdds(shortlist: seq<Contact>, added: set<Bitmap>, cs: seq<Contact>)
    ensures var (s, a) := AppendNew(shortlist, added, cs);
            && added <= a && Ids(cs) <= a
            && (forall c :: c in s ==> c in shortlist || c in cs)
  {
    if cs != [] {
      var n := |cs| - 1;
      AppendNewAdds(shortlist, added, cs[..n]);
      assert cs == cs[..n] + [cs[n]];
      IdsAppend(cs[..n], cs[n]);
    }
  }

  /** What is never undone. */
  predicate Grows(s: State, s': State) {
    && s'.target == s.target && s'.nodeId == s.nodeId && s'.findValue == s.findValue
    && s.added <= s'.added && |s.probes| <= |s'.probes|
    && forall c :: c in s.active ==> c in s'.active
  }

  lemma InsertedIn(c: Contact, s: seq<Contact>, target: Bitmap)
    ensures forall d :: d in InsertSorted(c, s, target) <==> d == c || d in s
  {
    InsertSortedContents(c, s, target);
    forall d ensures d in InsertSorted(c, s, target) <==> d == c || d in s {
      assert d in multiset(InsertSorted(c, s, target)) <==> d == c || d in multiset(s);
    }
  }

  lemma StepGrows(s: State, a: Action)
    requires Enabled(s, a)
    ensures Grows(s, Apply(s, a))
  {
    match a
    case Insert(p) => InsertedIn(s.probes[p].pc.c, s.active, s.target);
    case Append(p) => AppendNewAdds(s.shortlist, s.added, s.probes[p].pc.reply);
    case _ =>
  }

  /** A step on another probe, or on none, leaves probe p alone. */
  predicate Concerns(a: Action, p: nat) {
    match a
    case Pop(q) => q == p
    case Answer(q, _) => q == p
    case Insert(q) => q == p
    case Append(q) => q == p
    case Receive(_, q) => q == p
    case _ => false
  }

  lemma OtherProbesStay(s: State, a: Action, p: nat)
    requires Enabled(s, a) && p < |s.probes| && !Concerns(a, p)
    ensures p < |Apply(s, a).probes| && Apply(s, a).probes[p] == s.probes[p]
  {
  }

  lemma AnswerRecords(s: State, p: nat, cs: seq<Contact>)
    requires Enabled(s, Answer(p, Nodes(cs)))
    ensures Records(Apply(s, Answer(p, Nodes(cs))), p, s.probes[p].pc.c, cs)
  {
  }

  lemma StepKeepsRecords(s: State, a: Action, p: nat, c: Contact, cs: seq<Contact>)
    requires Enabled(s, a) && Records(s, p, c, cs)
    ensures Records(Apply(s, a), p, c, cs)
  {
    StepGrows(s, a);
    if Concerns(a, p) {
      OwnStepRecords(s, a, p, c, cs);
    } else {
      OtherProbesStay(s, a, p);
    }
  }

  lemma OwnStepRecords(s: State, a: Action, p: nat, c: Contact, cs: seq<Contact>)
    requires Enabled(s, a) && Records(s, p, c, cs) && Concerns(a, p) && Grows(s, Apply(s, a))
    ensures Records(Apply(s, a), p, c, cs)
  {
    match a
    case Insert(_) => InsertedIn(c, s.active, s.target);
    case Append(_) =>
      AppendNewAdds(s.shortlist, s.added, cs);
      ClosestIsNearest(cs, s.target);
    case _ =>
  }

  /**
    In every run, from the moment a contact has answered with contacts, its probe is either about to record it or has it
    in the active list; and a probe that is done has added the whole reply and reports the nearest contact of it.
  */
  lemma {:induction false} AnswersAreRecorded(
    states: seq<State>, actions: seq<Action>, k: nat, j: nat, p: nat, cs: seq<Contact>)
    requires IsRun(states, actions) && k < j < |states| && actions[k] == Answer(p, Nodes(cs))
    ensures p < |states[k].probes| && states[k].probes[p].pc.Waiting?
    ensures Records(states[j], p, states[k].probes[p].pc.c, cs)
  {
    assert StepAt(states, actions, k) && StepAt(states, actions, j - 1);
    if j == k + 1 {
      AnswerRecords(states[k], p, cs);
    } else {
      AnswersAreRecorded(states, actions, k, j - 1, p, cs);
      StepKeepsRecords(states[j - 1], actions[j - 1], p, states[k].probes[p].pc.c, cs);
    }
  }

  // ---------------------------------------------------------------------------
  // The active list is who answered
  // ---------------------------------------------------------------------------

  /** The contact whose reply the action delivers, if it does. */
  function Answered(s: State, a: Action): set<Contact> {
    if a.Answer? && a.reply.Nodes? && a.p < |s.probes| && s.probes[a.p].pc.Waiting? then {s.probes[a.p].pc.c} else {}
  }

  /** The contacts that have answered with contacts in the first k steps. */
  function Responders(states: seq<State>, actions: seq<Action>, k: nat): set<Contact>
    requires k <= |actions| < |states|
  {
    if k == 0 then {} else Responders(states, actions, k - 1) + Answered(states[k - 1], actions[k - 1])
  }

  /** Some probe is about to record c. */
  predicate InHand(s: State, c: Contact) {
    exists p :: 0 <= p < |s.probes| && s.probes[p].pc.Inserting? && s.probes[p].pc.c == c
  }

  ghost predicate Accounted(s: State, responders: set<Contact>) {
    forall c :: c in responders <==> c in s.active || InHand(s, c)
  }

  lemma StepAccounts(s: State, a: Action, responders: set<Contact>)
    requires Enabled(s, a) && Accounted(s, responders)
    ensures Accounted(Apply(s, a), responders + Answered(s, a))
  {
    var s' := Apply(s, a);
    if a.Insert? {
      InsertAccounts(s, a.p, responders);
    } else if a.Answer? && a.reply.Nodes? {
      AnswerAccounts(s, a.p, a.reply.contacts, responders);
    } else {
      HandsStay(s, a);
    }
  }

  lemma HandsStay(s: State, a: Action)
    requires Enabled(s, a) && !a.Insert? && !(a.Answer? && a.reply.Nodes?)
    ensures Apply(s, a).active == s.active && forall c :: InHand(Apply(s, a), c) <==> InHand(s, c)
  {
    forall c ensures InHand(Apply(s, a), c) <==> InHand(s, c) { HandStays(s, a, c); }
  }

  lemma HandStays(s: State, a: Action, c: Contact)
    requires Enabled(s, a) && !a.Insert? && !(a.Answer? && a.reply.Nodes?)
    ensures InHand(Apply(s, a), c) <==> InHand(s, c)
  {
    var s' := Apply(s, a);
    if p: nat :| p < |s'.probes| && s'.probes[p].pc.Inserting? && s'.probes[p].pc.c == c {
      if p >= |s.probes| { NewProbeIsLaunched(s, a, p); }
      assert s.probes[p] == s'.probes[p];
    }
    if p: nat :| p < |s.probes| && s.probes[p].pc.Inserting? && s.probes[p].pc.c == c {
      OtherProbesStay(s, a, p);
    }
  }

  lemma InsertAccounts(s: State, p: nat, responders: set<Contact>)
    requires Enabled(s, Insert(p)) && Accounted(s, responders)
    ensures Accounted(Apply(s, Insert(p)), responders)
  {
    var s', d := Apply(s, Insert(p)), s.probes[p].pc.c;
    InsertedIn(d, s.active, s.target);
    forall c ensures c in responders <==> c in s'.active || InHand(s', c) {
      if InHand(s, c) && c != d {
        var q :| 0 <= q < |s.probes| && s.probes[q].pc.Inserting? && s.probes[q].pc.c == c;
        assert s'.probes[q] == s.probes[q];
      }
      if q :| 0 <= q < |s'.probes| && s'.probes[q].pc.Inserting? && s'.probes[q].pc.c == c {
        assert s.probes[q] == s'.probes[q];
      }
    }
  }

  lemma AnswerAccounts(s: State, p: nat, cs: seq<Contact>, responders: set<Contact>)
    requires Enabled(s, Answer(p, Nodes(cs))) && Accounted(s, responders)
    ensures Accounted(Apply(s, Answer(p, Nodes(cs))), responders + {s.probes[p].pc.c})
  {
    var s', d := Apply(s, Answer(p, Nodes(cs))), s.probes[p].pc.c;
    assert s'.probes[p].pc.Inserting? && s'.probes[p].pc.c == d;
    forall c ensures InHand(s', c) <==> InHand(s, c) || c == d {
      if q :| 0 <= q < |s.probes| && s.probes[q].pc.Inserting? && s.probes[q].pc.c == c {
        assert s'.probes[q] == s.probes[q];
      }
      if q :| 0 <= q < |s'.probes| && s'.probes[q].pc.Inserting? && s'.probes[q].pc.c == c {
        assert q == p || s.probes[q] == s'.probes[q];
      }
    }
  }

  /** In every run the active contacts are those that have answered, except the ones a probe is about to record. */
  lemma {:induction false} ActiveAreResponders(states: seq<State>, actions: seq<Action>, k: nat)
    requires IsRun(states, actions) && k < |states|
    ensures Accounted(states[k], Responders(states, actions, k))
  {
    if k == 0 {
      assert states[0].active == [] && states[0].probes == [];
    } else {
      ActiveAreResponders(states, actions, k - 1);
      assert StepAt(states, actions, k - 1);
      StepAccounts(states[k - 1], actions[k - 1], Responders(states, actions, k - 1));
    }
  }

  /** Those that have answered and are recorded. */
  function Recorded(states: seq<State>, actions: seq<Action>, k: nat): set<Contact>
    requires k <= |actions| < |states|
  {
    set c | c in Responders(states, actions, k) && !InHand(states[k], c)
  }

  function IdsOf(cs: set<Contact>): set<Bitmap> { set c | c in cs :: c.id }

  lemma ActiveIsRecorded(states: seq<State>, actions: seq<Action>, k: nat)
    requires IsRun(states, actions) && k < |states|
    ensures (set c | c in states[k].active) == Recorded(states, actions, k)
    ensures Ids(states[k].active) == IdsOf(Recorded(states, actions, k))
  {
    var s, recorded := states[k], Recorded(states, actions, k);
    ActiveAreResponders(states, actions, k);
    ListsInEveryRun(states, actions, k);
    forall c | c in s.active ensures !InHand(s, c) {
      assert c.id in Ids(s.active);
      if p :| 0 <= p < |s.probes| && s.probes[p].pc.Inserting? && s.probes[p].pc.c == c {
        assert Holds(s, p, c.id);
      }
    }
    assert (set c | c in s.active) == recorded;
    forall x ensures x in Ids(s.active) <==> x in IdsOf(recorded) {
      if c :| c in s.active && c.id == x { assert c in recorded; }
      if c :| c in recorded && c.id == x { assert c in s.active; }
    }
  }

  // ---------------------------------------------------------------------------
  // Where contacts and values come from
  // ---------------------------------------------------------------------------

  function Contents(cs: seq<Contact>): set<Contact> { set c | c in cs }

  /** The contacts the lookup was given: the seeds and the replies of the first k steps. */
  function Heard(seeds: seq<Contact>, actions: seq<Action>, k: nat): set<Contact>
    requires k <= |actions|
  {
    if k == 0 then Contents(seeds)
    else
      var a := actions[k - 1];
      Heard(seeds, actions, k - 1) + if a.Answer? && a.reply.Nodes? then Contents(a.reply.contacts) else {}
  }

  /** What a probe knows: the contact it holds and the reply it is recording. */
  predicate ProbeHeard(p: Probe, heard: set<Contact>) {
    match p.pc
    case Waiting(c) => c in heard
    case Inserting(c, reply) => c in heard && Contents(reply) <= heard
    case Appending(reply) => Contents(reply) <= heard
    case _ => true
  }

  predicate AllHeard(s: State, heard: set<Contact>) {
    && Contents(s.shortlist) <= heard && Contents(s.popped) <= heard && Contents(s.active) <= heard
    && forall p :: 0 <= p < |s.probes| ==> ProbeHeard(s.probes[p], heard)
  }

  lemma SortedContents(cs: seq<Contact>, target: Bitmap)
    ensures Contents(SortByDistance(cs, target)) == Contents(cs)
  {
    SortIsSorted(cs, target);
    forall c ensures c in SortByDistance(cs, target) <==> c in cs {
      assert c in multiset(SortByDistance(cs, target)) <==> c in multiset(cs);
    }
  }

  lemma AppendedHeard(s: State, cs: seq<Contact>, heard: set<Contact>)
    requires Contents(s.shortlist) <= heard && Contents(cs) <= heard
    ensures Contents(AppendNewToShortlist(s, cs).shortlist) <= heard
  {
    AppendNewAdds(s.shortlist, s.added, cs);
    SortedContents(AppendNew(s.shortlist, s.added, cs).0, s.target);
  }

  lemma StepHeard(s: State, a: Action, heard: set<Contact>, heard': set<Contact>)
    requires Enabled(s, a) && AllHeard(s, heard) && heard <= heard'
    requires a.Answer? && a.reply.Nodes? ==> Contents(a.reply.contacts) <= heard'
    ensures AllHeard(Apply(s, a), heard')
  {
    ListsHeard(s, a, heard);
    var s' := Apply(s, a);
    forall p: nat | p < |s'.probes| ensures ProbeHeard(s'.probes[p], heard') {
      if p < |s.probes| && !Concerns(a, p) {
        OtherProbesStay(s, a, p);
        assert ProbeHeard(s.probes[p], heard);
      } else if p < |s.probes| {
        OwnStepHeard(s, a, p, heard, heard');
      } else {
        NewProbeIsLaunched(s, a, p);
      }
    }
  }

  lemma NewProbeIsLaunched(s: State, a: Action, p: nat)
    requires Enabled(s, a) && |s.probes| <= p < |Apply(s, a).probes|
    ensures Apply(s, a).probes[p].pc == Launched
  {
  }

  lemma OwnStepHeard(s: State, a: Action, p: nat, heard: set<Contact>, heard': set<Contact>)
    requires Enabled(s, a) && AllHeard(s, heard) && heard <= heard' && p < |s.probes| && Concerns(a, p)
    requires a.Answer? && a.reply.Nodes? ==> Contents(a.reply.contacts) <= heard'
    ensures p < |Apply(s, a).probes| && ProbeHeard(Apply(s, a).probes[p], heard')
  {
    assert ProbeHeard(s.probes[p], heard);
    if a.Pop? && s.shortlist != [] { assert s.shortlist[0] in Contents(s.shortlist); }
  }

  lemma ListsHeard(s: State, a: Action, heard: set<Contact>)
    requires Enabled(s, a) && AllHeard(s, heard)
    ensures var s' := Apply(s, a);
            Contents(s'.shortlist) <= heard && Contents(s'.popped) <= heard && Contents(s'.active) <= heard
  {
    match a
    case Pop(p) => if s.shortlist != [] { assert s.shortlist == [s.shortlist[0]] + s.shortlist[1..]; }
    case Insert(p) =>
      assert ProbeHeard(s.probes[p], heard);
      InsertedIn(s.probes[p].pc.c, s.active, s.target);
    case Append(p) =>
      assert ProbeHeard(s.probes[p], heard);
      AppendedHeard(s, s.probes[p].pc.reply, heard);
    case _ =>
  }

  /** In every run each contact in the lists is, with its address, a seed or a member of some reply. */
  lemma {:induction false} ContactsAreHeard(
    states: seq<State>, actions: seq<Action>, k: nat,
    findValue: bool, target: Bitmap, nodeId: Bitmap, seeds: seq<Contact>)
    requires IsRun(states, actions) && k < |states| && Init(findValue, target, nodeId, seeds) == Some(states[0])
    ensures AllHeard(states[k], Heard(seeds, actions, k))
  {
    if k == 0 {
      var s := State(findValue, target, nodeId, [], {}, [], [], None, false, [], false, [], []);
      AppendedHeard(s, seeds, Contents(seeds));
    } else {
      ContactsAreHeard(states, actions, k - 1, findValue, target, nodeId, seeds);
      assert StepAt(states, actions, k - 1);
      StepHeard(states[k - 1], actions[k - 1], Heard(seeds, actions, k - 1), Heard(seeds, actions, k));
    }
  }

  /** A lookup starts unless there are no seeds, and then with all of them added and one small cycle. */
  lemma InitIs(findValue: bool, target: Bitmap, nodeId: Bitmap, seeds: seq<Contact>)
    ensures var o := Init(findValue, target, nodeId, seeds);
            && (o.None? <==> seeds == [])
            && (o.Some? ==>
                  && o.value.added == Ids(seeds) == Ids(o.value.shortlist)
                  && o.value.cycles == [Cycle(None, false, Spawned)])
  {
    var s := State(findValue, target, nodeId, [], {}, [], [], None, false, [], false, [], []);
    assert ShortlistOK(s);
    AppendKeepsShortlist(s, seeds);
    if seeds != [] { assert seeds[0].id in Ids(seeds); }
  }

  /** The last value the first k steps delivered, if any. */
  function LastValue(actions: seq<Action>, k: nat): seq<Contact>
    requires k <= |actions|
  {
    if k == 0 then []
    else
      var a := actions[k - 1];
      if a.Answer? && a.reply.Value? then a.reply.contacts else LastValue(actions, k - 1)
  }

  lemma {:induction false} FoundIsLastValue(states: seq<State>, actions: seq<Action>, k: nat)
    requires IsRun(states, actions) && k < |states|
    ensures states[k].found == LastValue(actions, k)
  {
    if k > 0 {
      FoundIsLastValue(states, actions, k - 1);
      FoundStep(states, actions, k - 1);
    }
  }

  lemma FoundStep(states: seq<State>, actions: seq<Action>, k: nat)
    requires IsRun(states, actions) && k < |actions|
    ensures var a := actions[k];
            states[k + 1].found == if a.Answer? && a.reply.Value? then a.reply.contacts else states[k].found
  {
    assert StepAt(states, actions, k);
  }

  /** What `Find` returns: the last value found, or the eight closest of the recorded responders. */
  lemma FindReturns(states: seq<State>, actions: seq<Action>, k: nat)
    requires IsRun(states, actions) && k < |states|
    ensures var s, value := states[k], LastValue(actions, k);
            var (contacts, found) := FindResult(s);
            if s.findValue && value != [] then found && contacts == value
            else
              && !found && StrictlySortedTo(contacts, s.target)
              && Contents(contacts) <= Recorded(states, actions, k)
              && KClosest(Ids(contacts), IdsOf(Recorded(states, actions, k)), s.target, BUCKET_SIZE)
  {
    var s := states[k];
    FoundIsLastValue(states, actions, k);
    if !(s.findValue && s.found != []) {
      ListsInEveryRun(states, actions, k);
      ActiveIsRecorded(states, actions, k);
      TakeIsKClosest(s.active, s.target, BUCKET_SIZE);
    }
  }

  // ---------------------------------------------------------------------------
  // Every popped contact is asked
  // ---------------------------------------------------------------------------

  /** The contact that the action makes a probe wait for. */
  function Asked(s: State, a: Action): set<Contact> {
    if a.Pop? && Enabled(s, a) && Apply(s, a).probes[a.p].pc.Waiting? then {Apply(s, a).probes[a.p].pc.c} else {}
  }

  function AskedBy(states: seq<State>, actions: seq<Action>, k: nat): set<Contact>
    requires k <= |actions| < |states|
  {
    if k == 0 then {} else AskedBy(states, actions, k - 1) + Asked(states[k - 1], actions[k - 1])
  }

  /** In every run exactly the popped contacts other than this node have been asked. */
  lemma {:induction false} PoppedAreAsked(states: seq<State>, actions: seq<Action>, k: nat)
    requires IsRun(states, actions) && k < |states|
    ensures AskedBy(states, actions, k) == set c | c in states[k].popped && c.id != states[k].nodeId
  {
    if k > 0 {
      PoppedAreAsked(states, actions, k - 1);
      assert StepAt(states, actions, k - 1);
      StepAsks(states[k - 1], actions[k - 1]);
    }
  }

  lemma StepAsks(s: State, a: Action)
    requires Enabled(s, a)
    ensures var s' := Apply(s, a);
            && s'.nodeId == s.nodeId
            && (set c | c in s'.popped && c.id != s'.nodeId)
               == (set c | c in s.popped && c.id != s.nodeId) + Asked(s, a)
  {
    if a.Pop? { PopAsks(s, a.p); } else { OthersAskNobody(s, a); }
  }

  lemma OthersAskNobody(s: State, a: Action)
    requires Enabled(s, a) && !a.Pop?
    ensures Apply(s, a).popped == s.popped && Apply(s, a).nodeId == s.nodeId
  {
  }

  lemma PopAsks(s: State, p: nat)
    requires Enabled(s, Pop(p))
    ensures var s', a := PopShortlist(s, p), Pop(p);
            && s'.nodeId == s.nodeId
            && (set c | c in s'.popped && c.id != s'.nodeId)
               == (set c | c in s.popped && c.id != s.nodeId) + Asked(s, a)
  {
    if s.shortlist != [] {
      var c := s.shortlist[0];
      assert PopShortlist(s, p).popped == s.popped + [c];
      assert Asked(s, Pop(p)) == if c.id == s.nodeId then {} else {c};
    }
  }
}
