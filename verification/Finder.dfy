/** The iterative lookup as a concurrent state machine; each locked section is one step (dht/node_finder.go). */
module Finder {
  import opened Bits
  import opened Contacts
  import opened Results

  // ---------------------------------------------------------------------------
  // State
  // ---------------------------------------------------------------------------

  /**
    Where a probe goroutine is; it holds its contact until it has recorded it as active. Received keeps the result
    that its cycle took.
  */
  datatype ProbePc =
    | Launched
    | Waiting(c: Contact)
    | Inserting(c: Contact, reply: seq<Contact>)
    | Appending(reply: seq<Contact>)
    | Finished(result: Option<Contact>)
    | Received(result: Option<Contact>)

  datatype Probe = Probe(cycle: nat, pc: ProbePc)

  /**
    Where a cycle goroutine is; captured is the shared closest contact it read when it started, closer the best
    contact found since, if any beats it.
  */
  datatype CyclePc =
    | Spawned
    | Collecting(captured: Option<Contact>, closer: Option<Contact>, pending: nat)
    | Publishing(captured: Option<Contact>, candidate: Contact)
    | Ended(captured: Option<Contact>)

  datatype Cycle = Cycle(parent: Option<nat>, big: bool, pc: CyclePc)

  /** popped records the contacts taken off the shortlist, oldest first. */
  datatype State = State(
    findValue: bool, target: Bitmap, nodeId: Bitmap,
    shortlist: seq<Contact>, added: set<Bitmap>, popped: seq<Contact>,
    active: seq<Contact>, closest: Option<Contact>, notGettingCloser: bool,
    found: seq<Contact>, stopped: bool,
    cycles: seq<Cycle>, probes: seq<Probe>)

  // ---------------------------------------------------------------------------
  // The locked sections
  // ---------------------------------------------------------------------------

  /** The loop of `appendNewToShortlist`: contacts whose id was never added before. */
  function AppendNew(shortlist: seq<Contact>, added: set<Bitmap>, cs: seq<Contact>): (seq<Contact>, set<Bitmap>) {
    if cs == [] then (shortlist, added)
    else
      var c := cs[|cs| - 1];
      var (s, a) := AppendNew(shortlist, added, cs[..|cs| - 1]);
      if c.id in a then (s, a) else (s + [c], a + {c.id})
  }

  function AppendNewToShortlist(s: State, cs: seq<Contact>): State {
    var (shortlist, added) := AppendNew(s.shortlist, s.added, cs);
    s.(shortlist := SortByDistance(shortlist, s.target), added := added)
  }

  /** `closest`: the nearest of the contacts, the first one if several. */
  function ClosestOf(cs: seq<Contact>, target: Bitmap): Option<Contact> {
    if cs == [] then None
    else
      match ClosestOf(cs[..|cs| - 1], target)
      case None => Some(cs[|cs| - 1])
      case Some(c) => if Dist(cs[|cs| - 1].id, target) < Dist(c.id, target) then Some(cs[|cs| - 1]) else Some(c)
  }

  predicate SearchFinished(s: State) {
    (s.findValue && |s.found| > 0) || s.stopped || s.notGettingCloser || |s.active| >= BUCKET_SIZE
  }

  /** The result of `Find` when it is read off in state s. */
  function FindResult(s: State): (seq<Contact>, bool) {
    if s.findValue && |s.found| > 0 then (s.found, true)
    else (s.active[..Min(BUCKET_SIZE, |s.active|)], false)
  }

  // ---------------------------------------------------------------------------
  // Steps
  // ---------------------------------------------------------------------------

  datatype Reply = Nothing | Value(contacts: seq<Contact>) | Nodes(contacts: seq<Contact>)

  /** Timeout launches another cycle; Cancel is the parent group stopping the lookup, at any moment. */
  datatype Action =
    | Timeout
    | Cancel
    | Start(i: nat)
    | Pop(p: nat)
    | Answer(p: nat, reply: Reply)
    | Insert(p: nat)
    | Append(p: nat)
    | Receive(i: nat, p: nat)
    | Decide(i: nat)
    | Publish(i: nat)

  predicate Enabled(s: State, a: Action) {
    match a
    case Timeout => true
    case Cancel => true
    case Start(i) => i < |s.cycles| && s.cycles[i].pc.Spawned?
    case Pop(p) => p < |s.probes| && s.probes[p].pc.Launched?
    case Answer(p, r) => p < |s.probes| && s.probes[p].pc.Waiting? && (r.Value? ==> s.findValue)
    case Insert(p) => p < |s.probes| && s.probes[p].pc.Inserting?
    case Append(p) => p < |s.probes| && s.probes[p].pc.Appending?
    case Receive(i, p) =>
      && p < |s.probes| && s.probes[p].pc.Finished? && s.probes[p].cycle == i
      && i < |s.cycles| && s.cycles[i].pc.Collecting? && s.cycles[i].pc.pending > 0
    case Decide(i) => i < |s.cycles| && s.cycles[i].pc.Collecting? && s.cycles[i].pc.pending == 0
    case Publish(i) => i < |s.cycles| && s.cycles[i].pc.Publishing?
  }

  function SetProbe(s: State, p: nat, pc: ProbePc): State
    requires p < |s.probes|
  {
    s.(probes := s.probes[p := s.probes[p].(pc := pc)])
  }

  function SetCycle(s: State, i: nat, pc: CyclePc): State
    requires i < |s.cycles|
  {
    s.(cycles := s.cycles[i := s.cycles[i].(pc := pc)])
  }

  function Spawn(s: State, parent: Option<nat>, big: bool): State {
    s.(cycles := s.cycles + [Cycle(parent, big, Spawned)])
  }

  function StartCycle(s: State, i: nat): State
    requires i < |s.cycles|
  {
    var limit := if s.cycles[i].big then BUCKET_SIZE else ALPHA;
    SetCycle(s, i, Collecting(s.closest, None, limit))
    .(probes := s.probes + seq(limit, _ => Probe(i, Launched)))
  }

  function PopShortlist(s: State, p: nat): State
    requires p < |s.probes|
  {
    if s.shortlist == [] then SetProbe(s, p, Finished(None))
    else
      var c := s.shortlist[0];
      var s' := s.(shortlist := s.shortlist[1..], popped := s.popped + [c]);
      SetProbe(s', p, if c.id == s.nodeId then Finished(None) else Waiting(c))
  }

  function AnswerProbe(s: State, p: nat, reply: Reply): State
    requires p < |s.probes| && s.probes[p].pc.Waiting?
  {
    match reply
    case Nothing => SetProbe(s, p, Finished(None))
    case Value(cs) => SetProbe(s.(found := cs, stopped := true), p, Finished(None))
    case Nodes(cs) => SetProbe(s, p, Inserting(s.probes[p].pc.c, cs))
  }

  /** An improvement on the cycle's own best contact so far. */
  predicate Improves(c: Option<Contact>, best: Option<Contact>, target: Bitmap) {
    c.Some? && (best.None? || Dist(c.value.id, target) < Dist(best.value.id, target))
  }

  function ReceiveResult(s: State, i: nat, p: nat): State
    requires p < |s.probes| && s.probes[p].pc.Finished? && i < |s.cycles| && s.cycles[i].pc.Collecting?
    requires s.cycles[i].pc.pending > 0
  {
    var pc, c := s.cycles[i].pc, s.probes[p].pc.result;
    var best := if pc.closer.Some? then pc.closer else pc.captured;
    var closer := if Improves(c, best, s.target) then c else pc.closer;
    SetCycle(SetProbe(s, p, Received(c)), i, Collecting(pc.captured, closer, pc.pending - 1))
  }

  function DecideCycle(s: State, i: nat): State
    requires i < |s.cycles| && s.cycles[i].pc.Collecting?
  {
    var pc := s.cycles[i].pc;
    var ended := SetCycle(s, i, Ended(pc.captured));
    if SearchFinished(s) then ended.(stopped := true)
    else if pc.closer.Some? then SetCycle(s, i, Publishing(pc.captured, pc.closer.value))
    else if !s.cycles[i].big then Spawn(ended, Some(i), true)
    else ended.(notGettingCloser := true)
  }

  function PublishCycle(s: State, i: nat): State
    requires i < |s.cycles| && s.cycles[i].pc.Publishing?
  {
    var pc := s.cycles[i].pc;
    var s' := if Improves(Some(pc.candidate), s.closest, s.target) then s.(closest := Some(pc.candidate)) else s;
    Spawn(SetCycle(s', i, Ended(pc.captured)), Some(i), false)
  }

  function Apply(s: State, a: Action): State
    requires Enabled(s, a)
  {
    match a
    case Timeout => Spawn(s, None, false)
    case Cancel => s.(stopped := true)
    case Start(i) => StartCycle(s, i)
    case Pop(p) => PopShortlist(s, p)
    case Answer(p, r) => AnswerProbe(s, p, r)
    case Insert(p) =>
      var pc := s.probes[p].pc;
      SetProbe(s.(active := InsertSorted(pc.c, s.active, s.target)), p, Appending(pc.reply))
    case Append(p) =>
      var reply := s.probes[p].pc.reply;
      SetProbe(AppendNewToShortlist(s, reply), p, Finished(ClosestOf(reply, s.target)))
    case Receive(i, p) => ReceiveResult(s, i, p)
    case Decide(i) => DecideCycle(s, i)
    case Publish(i) => PublishCycle(s, i)
  }

  /** A lookup starts from the contacts the routing table offers; none at all is an error. */
  function Init(findValue: bool, target: Bitmap, nodeId: Bitmap, seeds: seq<Contact>): Option<State> {
    var s := State(findValue, target, nodeId, [], {}, [], [], None, false, [], false, [], []);
    var s' := AppendNewToShortlist(s, seeds);
    if s'.shortlist == [] then None else Some(Spawn(s', None, false))
  }

  predicate StepAt(states: seq<State>, actions: seq<Action>, k: nat)
    requires k < |actions| < |states|
  {
    Enabled(states[k], actions[k]) && states[k + 1] == Apply(states[k], actions[k])
  }

  /** states is the history of one interleaving of the actions. */
  ghost predicate IsRun(states: seq<State>, actions: seq<Action>) {
    && |states| == |actions| + 1
    && (exists findValue, target, nodeId, seeds :: Init(findValue, target, nodeId, seeds) == Some(states[0]))
    && forall k: nat :: k < |actions| ==> StepAt(states, actions, k)
  }

  // ---------------------------------------------------------------------------
  // Shortlist and active list
  // ---------------------------------------------------------------------------

  /** Popped and waiting contacts are disjoint, duplicate-free, and together all that was ever added. */
  predicate ShortlistOK(s: State) {
    && StrictlySortedTo(s.shortlist, s.target)
    && DistinctIds(s.popped)
    && Ids(s.popped) !! Ids(s.shortlist)
    && Ids(s.popped) + Ids(s.shortlist) == s.added
  }

  /** The contact a probe has taken but not yet recorded. */
  function Holding(p: Probe): Option<Contact> {
    if p.pc.Waiting? || p.pc.Inserting? then Some(p.pc.c) else None
  }

  predicate Holds(s: State, p: nat, x: Bitmap) {
    p < |s.probes| && Holding(s.probes[p]).Some? && Holding(s.probes[p]).value.id == x
  }

  /** Active contacts are sorted, were popped, are not us; and no probe is about to record one again. */
  ghost predicate ActiveOK(s: State) {
    && StrictlySortedTo(s.active, s.target)
    && Ids(s.active) <= Ids(s.popped)
    && s.nodeId !in Ids(s.active)
    && (forall p, x :: Holds(s, p, x) ==> x in Ids(s.popped) && x !in Ids(s.active) && x != s.nodeId)
    && (forall p, q, x :: Holds(s, p, x) && Holds(s, q, x) ==> p == q)
  }

  lemma {:induction false} AppendNewIds(shortlist: seq<Contact>, added: set<Bitmap>, cs: seq<Contact>)
    requires DistinctIds(shortlist) && Ids(shortlist) <= added
    ensures var (s, a) := AppendNew(shortlist, added, cs);
            DistinctIds(s) && a == added + Ids(cs) && Ids(s) == Ids(shortlist) + (Ids(cs) - added)
  {
    if cs != [] {
      var n := |cs| - 1;
      AppendNewIds(shortlist, added, cs[..n]);
      var (s, a) := AppendNew(shortlist, added, cs[..n]);
      assert cs == cs[..n] + [cs[n]];
      IdsAppend(cs[..n], cs[n]);
      IdsAppend(s, cs[n]);
    }
  }

  lemma IdsAppend(s: seq<Contact>, c: Contact)
    ensures Ids(s + [c]) == Ids(s) + {c.id}
    ensures DistinctIds(s) && c.id !in Ids(s) ==> DistinctIds(s + [c])
  {
    forall i | 0 <= i < |s| ensures s[i].id in Ids(s) { assert s[i] in s; }
  }

  lemma AppendKeepsShortlist(s: State, cs: seq<Contact>)
    requires ShortlistOK(s)
    ensures var s' := AppendNewToShortlist(s, cs); ShortlistOK(s') && s'.added == s.added + Ids(cs)
  {
    var (sl, a) := AppendNew(s.shortlist, s.added, cs);
    AppendNewIds(s.shortlist, s.added, cs);
    SortDistinct(sl, s.target);
  }

  lemma PopKeepsShortlist(s: State, p: nat)
    requires ShortlistOK(s) && p < |s.probes| && s.shortlist != []
    ensures ShortlistOK(PopShortlist(s, p))
    ensures s.shortlist[0].id !in Ids(s.popped)
    ensures Ids(PopShortlist(s, p).popped) == Ids(s.popped) + {s.shortlist[0].id}
  {
    var c, rest := s.shortlist[0], s.shortlist[1..];
    assert s.shortlist == [c] + rest;
    assert Ids(s.shortlist) == {c.id} + Ids(rest);
    forall i | 0 <= i < |rest| ensures rest[i].id != c.id { assert rest[i] == s.shortlist[i + 1]; }
    IdsAppend(s.popped, c);
  }

  /** Each pop takes the closest contact that is known and was never popped, so no node is probed twice. */
  lemma PopIsClosestUnprobed(s: State)
    requires ShortlistOK(s) && s.shortlist != []
    ensures var c := s.shortlist[0];
            c.id in s.added - Ids(s.popped)
            && forall x :: x in s.added - Ids(s.popped) && x != c.id ==> Dist(c.id, s.target) < Dist(x, s.target)
  {
    assert s.shortlist[0] in s.shortlist;
    forall x | x in s.added - Ids(s.popped) && x != s.shortlist[0].id
      ensures Dist(s.shortlist[0].id, s.target) < Dist(x, s.target)
    {
      var i :| 0 <= i < |s.shortlist| && s.shortlist[i].id == x;
    }
  }

  lemma InsertKeepsActive(s: State, p: nat)
    requires ActiveOK(s) && Enabled(s, Insert(p))
    ensures ActiveOK(Apply(s, Insert(p)))
  {
    var c, s' := s.probes[p].pc.c, Apply(s, Insert(p));
    assert Holds(s, p, c.id);
    InsertStrict(c, s.active, s.target);
    forall q, x | Holds(s', q, x) ensures Holds(s, q, x) && x != c.id {
      if x == c.id { assert Holds(s, q, c.id); }
    }
  }

  lemma InsertStrict(c: Contact, s: seq<Contact>, target: Bitmap)
    requires StrictlySortedTo(s, target) && c.id !in Ids(s)
    ensures StrictlySortedTo(InsertSorted(c, s, target), target) && Ids(InsertSorted(c, s, target)) == Ids(s) + {c.id}
  {
    var r := InsertSorted(c, s, target);
    InsertSortedIsSorted(c, s, target);
    InsertSortedContents(c, s, target);
    IdsAppend(s, c);
    assert multiset(s + [c]) == multiset(r);
    DistinctByMultiset(s + [c], r);
    SortedDistinctIsStrict(r, target);
  }

  lemma PopKeepsActive(s: State, p: nat)
    requires ShortlistOK(s) && ActiveOK(s) && Enabled(s, Pop(p))
    ensures ActiveOK(PopShortlist(s, p))
  {
    var s' := PopShortlist(s, p);
    if s.shortlist == [] {
      forall q, x | Holds(s', q, x) ensures Holds(s, q, x) {}
    } else {
      PopKeepsShortlist(s, p);
      forall q, x | Holds(s', q, x) ensures Holds(s, q, x) || (q == p && x == s.shortlist[0].id) {}
    }
  }

  /** A step that changes no list and gives no probe a new contact. */
  lemma QuietKeepsActive(s: State, s': State)
    requires ActiveOK(s) && s'.active == s.active && s'.popped == s.popped
    requires s'.target == s.target && s'.nodeId == s.nodeId
    requires HoldsNoMore(s, s')
    ensures ActiveOK(s')
  {
    forall p, x | Holds(s', p, x) ensures Holds(s, p, x) {}
  }

  /** No probe holds a contact it did not hold before. */
  predicate HoldsNoMore(s: State, s': State) {
    && |s.probes| <= |s'.probes|
    && forall q :: 0 <= q < |s'.probes| ==>
         Holding(s'.probes[q]).None? || (q < |s.probes| && Holding(s'.probes[q]) == Holding(s.probes[q]))
  }

  lemma QuietSteps(s: State, a: Action)
    requires Enabled(s, a) && !a.Pop? && !a.Insert? && !a.Append?
    ensures var s' := Apply(s, a);
            && s'.shortlist == s.shortlist && s'.added == s.added && s'.popped == s.popped && s'.active == s.active
            && s'.target == s.target && s'.nodeId == s.nodeId
            && HoldsNoMore(s, s')
  {
    QuietHolders(s, a);
  }

  lemma QuietHolders(s: State, a: Action)
    requires Enabled(s, a) && !a.Pop? && !a.Insert? && !a.Append?
    ensures HoldsNoMore(s, Apply(s, a))
  {
    var s' := Apply(s, a);
    if a.Answer? || a.Receive? {
      SetProbeHolders(s.probes, a.p, s'.probes[a.p].pc);
    } else if !a.Start? {
      assert s'.probes == s.probes;
    }
  }

  lemma SetProbeHolders(probes: seq<Probe>, p: nat, pc: ProbePc)
    requires p < |probes|
    requires var h := Holding(probes[p].(pc := pc)); h.None? || h == Holding(probes[p])
    ensures forall q :: 0 <= q < |probes| ==>
              var h := Holding(probes[p := probes[p].(pc := pc)][q]); h.None? || h == Holding(probes[q])
  {
  }

  lemma AppendStep(s: State, p: nat)
    requires ShortlistOK(s) && ActiveOK(s) && Enabled(s, Append(p))
    ensures ShortlistOK(Apply(s, Append(p))) && ActiveOK(Apply(s, Append(p)))
  {
    var s' := Apply(s, Append(p));
    AppendKeepsShortlist(s, s.probes[p].pc.reply);
    QuietKeepsActive(s, s');
  }

  lemma StepKeepsLists(s: State, a: Action)
    requires ShortlistOK(s) && ActiveOK(s) && Enabled(s, a)
    ensures ShortlistOK(Apply(s, a)) && ActiveOK(Apply(s, a))
  {
    if a.Pop? {
      if s.shortlist != [] { PopKeepsShortlist(s, a.p); }
      PopKeepsActive(s, a.p);
    } else if a.Insert? {
      InsertKeepsActive(s, a.p);
    } else if a.Append? {
      AppendStep(s, a.p);
    } else {
      QuietSteps(s, a);
      QuietKeepsActive(s, Apply(s, a));
    }
  }

  lemma InitLists(findValue: bool, target: Bitmap, nodeId: Bitmap, seeds: seq<Contact>)
    requires Init(findValue, target, nodeId, seeds).Some?
    ensures var s := Init(findValue, target, nodeId, seeds).value; ShortlistOK(s) && ActiveOK(s)
  {
    var s := State(findValue, target, nodeId, [], {}, [], [], None, false, [], false, [], []);
    AppendKeepsShortlist(s, seeds);
  }

  /** In every interleaving, both lists stay as described. */
  lemma {:induction false} ListsInEveryRun(states: seq<State>, actions: seq<Action>, k: nat)
    requires IsRun(states, actions) && k < |states|
    ensures ShortlistOK(states[k]) && ActiveOK(states[k])
  {
    if k == 0 {
      var findValue, target, nodeId, seeds :| Init(findValue, target, nodeId, seeds) == Some(states[0]);
      InitLists(findValue, target, nodeId, seeds);
    } else {
      ListsInEveryRun(states, actions, k - 1);
      assert StepAt(states, actions, k - 1);
      StepKeepsLists(states[k - 1], actions[k - 1]);
    }
  }

  // ---------------------------------------------------------------------------
  // Every chain of cycles ends
  // ---------------------------------------------------------------------------

  /** Distance of an optional contact; nothing at all is farther than everything. */
  function Key(c: Option<Contact>, target: Bitmap): nat {
    match c
    case None => Modulus()
    case Some(c) => Dist(c.id, target)
  }

  /** The measure of a cycle: its captured distance first, and a big cycle below a small one. */
  function Rank(captured: Option<Contact>, big: bool, target: Bitmap): nat {
    2 * Key(captured, target) + if big then 0 else 1
  }

  /** The rank of cycle i, or the rank it would get if it started now. */
  function CycleRank(s: State, i: nat): nat
    requires i < |s.cycles|
  {
    var c := s.cycles[i];
    Rank(if c.pc.Spawned? then s.closest else c.pc.captured, c.big, s.target)
  }

  /** What a started cycle knows about the shared closest contact, which only ever moves closer. */
  predicate CycleOK(s: State, i: nat)
    requires i < |s.cycles|
  {
    var pc := s.cycles[i].pc;
    && (!pc.Spawned? ==> Key(s.closest, s.target) <= Key(pc.captured, s.target))
    && (pc.Collecting? && pc.closer.Some? ==> Key(pc.closer, s.target) < Key(pc.captured, s.target))
    && (pc.Publishing? ==> Key(Some(pc.candidate), s.target) < Key(pc.captured, s.target))
  }

  /** A cycle's parent came earlier, is over, and has a strictly greater rank. */
  predicate ParentOK(s: State, i: nat)
    requires i < |s.cycles|
  {
    match s.cycles[i].parent
    case None => true
    case Some(j) => j < i && s.cycles[j].pc.Ended? && CycleRank(s, i) < CycleRank(s, j)
  }

  predicate CyclesOK(s: State) {
    forall i :: 0 <= i < |s.cycles| ==> CycleOK(s, i) && ParentOK(s, i)
  }

  lemma DistBelowModulus(a: Bitmap, b: Bitmap)
    ensures Dist(a, b) < Modulus()
  {
    ValueBound(Xor(a, b));
  }

  lemma ImprovesIsCloser(c: Option<Contact>, best: Option<Contact>, target: Bitmap)
    ensures Improves(c, best, target) <==> Key(c, target) < Key(best, target)
  {
    if c.Some? { DistBelowModulus(c.value.id, target); }
    if best.Some? { DistBelowModulus(best.value.id, target); }
  }

  /** Cycle i moves on without losing what it knew; every other cycle and the shared contact stay. */
  lemma MoveKeepsCycles(s: State, s': State, i: nat)
    requires CyclesOK(s) && i < |s.cycles| == |s'.cycles| && s'.target == s.target && s'.closest == s.closest
    requires s'.cycles == s.cycles[i := s.cycles[i].(pc := s'.cycles[i].pc)]
    requires !s.cycles[i].pc.Ended? && CycleOK(s', i) && CycleRank(s', i) == CycleRank(s, i)
    ensures CyclesOK(s')
  {
    forall k | 0 <= k < |s'.cycles| ensures CycleOK(s', k) && ParentOK(s', k) {
      assert CycleOK(s, k) && ParentOK(s, k);
      assert s'.cycles[k].parent == s.cycles[k].parent && CycleRank(s', k) == CycleRank(s, k);
    }
  }

  lemma SpawnKeepsCycles(s: State, parent: Option<nat>, big: bool)
    requires CyclesOK(s)
    requires parent.Some? ==>
               && parent.value < |s.cycles| && s.cycles[parent.value].pc.Ended?
               && Rank(s.closest, big, s.target) < CycleRank(s, parent.value)
    ensures CyclesOK(Spawn(s, parent, big))
  {
    var s' := Spawn(s, parent, big);
    forall k | 0 <= k < |s'.cycles| ensures CycleOK(s', k) && ParentOK(s', k) {
      if k < |s.cycles| {
        assert CycleOK(s, k) && ParentOK(s, k);
        assert s'.cycles[k] == s.cycles[k];
      }
    }
  }

  /** Bringing the shared contact closer lowers the rank of cycles still to start, and of no others. */
  lemma CloserKeepsCycles(s: State, c: Contact)
    requires CyclesOK(s) && Key(Some(c), s.target) <= Key(s.closest, s.target)
    ensures CyclesOK(s.(closest := Some(c)))
  {
    var s' := s.(closest := Some(c));
    forall k | 0 <= k < |s'.cycles| ensures CycleOK(s', k) && ParentOK(s', k) {
      assert CycleOK(s, k) && ParentOK(s, k);
    }
  }

  lemma StartKeepsCycles(s: State, i: nat)
    requires CyclesOK(s) && Enabled(s, Start(i))
    ensures CyclesOK(StartCycle(s, i))
  {
    MoveKeepsCycles(s, StartCycle(s, i), i);
  }

  lemma ReceiveKeepsCycles(s: State, i: nat, p: nat)
    requires CyclesOK(s) && Enabled(s, Receive(i, p))
    ensures CyclesOK(ReceiveResult(s, i, p))
  {
    var pc, c := s.cycles[i].pc, s.probes[p].pc.result;
    assert CycleOK(s, i);
    ImprovesIsCloser(c, if pc.closer.Some? then pc.closer else pc.captured, s.target);
    MoveKeepsCycles(s, ReceiveResult(s, i, p), i);
  }

  lemma DecideKeepsCycles(s: State, i: nat)
    requires CyclesOK(s) && Enabled(s, Decide(i))
    ensures CyclesOK(DecideCycle(s, i))
  {
    var pc := s.cycles[i].pc;
    assert CycleOK(s, i);
    if pc.closer.Some? && !SearchFinished(s) {
      MoveKeepsCycles(s, SetCycle(s, i, Publishing(pc.captured, pc.closer.value)), i);
    } else {
      var ended := SetCycle(s, i, Ended(pc.captured));
      MoveKeepsCycles(s, ended, i);
      if !SearchFinished(s) && !s.cycles[i].big {
        SpawnKeepsCycles(ended, Some(i), true);
      } else {
        SameCycles(ended, DecideCycle(s, i));
      }
    }
  }

  lemma SameCycles(s: State, s': State)
    requires CyclesOK(s) && s'.cycles == s.cycles && s'.closest == s.closest && s'.target == s.target
    ensures CyclesOK(s')
  {
    forall k | 0 <= k < |s'.cycles| ensures CycleOK(s', k) && ParentOK(s', k) {
      assert CycleOK(s, k) && ParentOK(s, k);
    }
  }

  lemma PublishKeepsCycles(s: State, i: nat)
    requires CyclesOK(s) && Enabled(s, Publish(i))
    ensures CyclesOK(PublishCycle(s, i))
  {
    var pc := s.cycles[i].pc;
    assert CycleOK(s, i);
    ImprovesIsCloser(Some(pc.candidate), s.closest, s.target);
    var improves := Improves(Some(pc.candidate), s.closest, s.target);
    if improves { CloserKeepsCycles(s, pc.candidate); }
    var s' := if improves then s.(closest := Some(pc.candidate)) else s;
    var ended := SetCycle(s', i, Ended(pc.captured));
    MoveKeepsCycles(s', ended, i);
    SpawnKeepsCycles(ended, Some(i), false);
  }

  lemma StepKeepsCycles(s: State, a: Action)
    requires CyclesOK(s) && Enabled(s, a)
    ensures CyclesOK(Apply(s, a))
  {
    match a
    case Timeout => SpawnKeepsCycles(s, None, false);
    case Start(i) => StartKeepsCycles(s, i);
    case Receive(i, p) => ReceiveKeepsCycles(s, i, p);
    case Decide(i) => DecideKeepsCycles(s, i);
    case Publish(i) => PublishKeepsCycles(s, i);
    case _ => SameCycles(s, Apply(s, a));
  }

  lemma {:induction false} CyclesInEveryRun(states: seq<State>, actions: seq<Action>, k: nat)
    requires IsRun(states, actions) && k < |states|
    ensures CyclesOK(states[k])
  {
    if k > 0 {
      CyclesInEveryRun(states, actions, k - 1);
      StepKeepsCyclesAt(states, actions, k - 1);
    } else {
      StartsWithOneCycle(states, actions);
    }
  }

  lemma StepKeepsCyclesAt(states: seq<State>, actions: seq<Action>, k: nat)
    requires IsRun(states, actions) && k < |actions| && CyclesOK(states[k])
    ensures CyclesOK(states[k + 1])
  {
    assert StepAt(states, actions, k);
    StepKeepsCycles(states[k], actions[k]);
  }

  lemma StartsWithOneCycle(states: seq<State>, actions: seq<Action>)
    requires IsRun(states, actions)
    ensures CyclesOK(states[0])
  {
    assert states[0].cycles == [Cycle(None, false, Spawned)];
  }

  /** s' looks for the same target and knows a contact no farther from it. */
  predicate NoFarther(s: State, s': State) {
    s'.target == s.target && Key(s'.closest, s'.target) <= Key(s.closest, s.target)
  }

  lemma StepMovesCloser(s: State, a: Action)
    requires Enabled(s, a)
    ensures NoFarther(s, Apply(s, a))
  {
    if a.Publish? { ImprovesIsCloser(Some(s.cycles[a.i].pc.candidate), s.closest, s.target); }
  }

  /** From any moment of a run to any later one, the shared closest contact is replaced by closer ones only. */
  lemma ClosestMovesCloser(states: seq<State>, actions: seq<Action>, j: nat, k: nat)
    requires IsRun(states, actions) && j <= k < |states|
    ensures NoFarther(states[j], states[k])
  {
    forall i: nat | i < |actions| ensures NoFarther(states[i], states[i + 1]) { MovesCloserAt(states, actions, i); }
    StepByStep(states, j, k);
  }

  lemma {:induction false} StepByStep(states: seq<State>, j: nat, k: nat)
    requires j <= k < |states|
    requires forall i, i' :: 0 <= i && i' == i + 1 && i' < |states| ==> NoFarther(states[i], states[i'])
    ensures NoFarther(states[j], states[k])
  {
    if j < k {
      StepByStep(states, j, k - 1);
      NoFartherChain(states[j], states[k - 1], states[k]);
    }
  }

  lemma MovesCloserAt(states: seq<State>, actions: seq<Action>, k: nat)
    requires IsRun(states, actions) && k < |actions|
    ensures NoFarther(states[k], states[k + 1])
  {
    assert StepAt(states, actions, k);
    StepMovesCloser(states[k], actions[k]);
  }

  lemma NoFartherChain(s: State, s': State, s'': State)
    requires NoFarther(s, s') && NoFarther(s', s'')
    ensures NoFarther(s, s'')
  {
  }

  /** Each cycle of the chain was launched by the one before it. */
  predicate IsChain(s: State, chain: seq<nat>) {
    && (forall m :: 0 <= m < |chain| ==> chain[m] < |s.cycles|)
    && (forall m :: 0 < m < |chain| ==> s.cycles[chain[m]].parent == Some(chain[m - 1]))
  }

  lemma {:induction false} RanksFall(s: State, chain: seq<nat>)
    requires CyclesOK(s) && IsChain(s, chain) && chain != []
    ensures CycleRank(s, chain[|chain| - 1]) + |chain| - 1 <= CycleRank(s, chain[0])
  {
    var n := |chain| - 1;
    if n > 0 {
      RanksFall(s, chain[..n]);
      assert ParentOK(s, chain[n]);
    }
  }

  /**
    For any replies and any interleaving, a chain of cycles each launched by the one before is no longer than
    twice the number of distances: the captured distance falls, or stays while a big cycle follows a small one.
  */
  lemma ChainsAreFinite(states: seq<State>, actions: seq<Action>, k: nat, chain: seq<nat>)
    requires IsRun(states, actions) && k < |states| && IsChain(states[k], chain)
    ensures |chain| <= 2 * Modulus() + 2
  {
    if chain != [] {
      var s := states[k];
      CyclesInEveryRun(states, actions, k);
      RanksFall(s, chain);
      RankBound(s, chain[0]);
    }
  }

  lemma RankBound(s: State, i: nat)
    requires i < |s.cycles|
    ensures CycleRank(s, i) <= 2 * Modulus() + 1
  {
    var c := if s.cycles[i].pc.Spawned? then s.closest else s.cycles[i].pc.captured;
    if c.Some? { DistBelowModulus(c.value.id, s.target); }
  }
}
