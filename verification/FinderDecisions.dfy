/** What each cycle of the lookup decides, and when the lookup stops (dht/node_finder.go). */
module FinderDecisions {
  import opened Bits
  import opened Contacts
  import opened Results
  import opened Finder
  import opened FinderProbes

  // ---------------------------------------------------------------------------
  // What steps leave alone
  // ---------------------------------------------------------------------------

  /** A probe keeps its cycle, and its result once received; only a cycle about to start gets new probes. */
  predicate ProbesKept(s: State, s': State) {
    && |s.probes| <= |s'.probes|
    && (forall p :: 0 <= p < |s.probes| ==>
          && s'.probes[p].cycle == s.probes[p].cycle
          && (s.probes[p].pc.Received? ==> s'.probes[p] == s.probes[p]))
    && (forall p :: |s.probes| <= p < |s'.probes| ==>
          s'.probes[p].cycle < |s.cycles| && s.cycles[s'.probes[p].cycle].pc.Spawned?)
  }

  /** A cycle keeps its parent and size, what it captured once started, and everything once ended. */
  predicate CyclesKept(s: State, s': State) {
    && s'.target == s.target && |s.cycles| <= |s'.cycles|
    && forall i :: 0 <= i < |s.cycles| ==> CycleKept(s.cycles[i], s'.cycles[i])
  }

  predicate CycleKept(c: Cycle, c': Cycle) {
    && c'.parent == c.parent && c'.big == c.big
    && (c.pc.Ended? ==> c' == c)
    && (!c.pc.Spawned? ==> !c'.pc.Spawned? && c'.pc.captured == c.pc.captured)
  }

  lemma StepKeepsProbes(s: State, a: Action)
    requires Enabled(s, a)
    ensures ProbesKept(s, Apply(s, a))
  {
    if a.Start? {
      StartKeepsProbes(s, a.i);
    } else {
      OneProbeMoves(s, a);
    }
  }

  lemma StartKeepsProbes(s: State, i: nat)
    requires Enabled(s, Start(i))
    ensures ProbesKept(s, StartCycle(s, i))
  {
  }

  lemma OneProbeMoves(s: State, a: Action)
    requires Enabled(s, a) && !a.Start?
    ensures ProbesKept(s, Apply(s, a)) && |Apply(s, a).probes| == |s.probes|
  {
  }

  /** Only cycle i changes, and perhaps one more is launched. */
  lemma OneCycleMoves(s: State, s': State, i: nat)
    requires i < |s.cycles| <= |s'.cycles| && s'.target == s.target && CycleKept(s.cycles[i], s'.cycles[i])
    requires forall k :: 0 <= k < |s.cycles| && k != i ==> s'.cycles[k] == s.cycles[k]
    ensures CyclesKept(s, s')
  {
  }

  lemma DecideKept(s: State, i: nat)
    requires Enabled(s, Decide(i))
    ensures CyclesKept(s, DecideCycle(s, i))
  {
    OneCycleMoves(s, DecideCycle(s, i), i);
  }

  lemma PublishKept(s: State, i: nat)
    requires Enabled(s, Publish(i))
    ensures CyclesKept(s, PublishCycle(s, i))
  {
    OneCycleMoves(s, PublishCycle(s, i), i);
  }

  lemma StepKeepsCycles(s: State, a: Action)
    requires Enabled(s, a)
    ensures CyclesKept(s, Apply(s, a))
  {
    match a
    case Start(i) => OneCycleMoves(s, Apply(s, a), i);
    case Receive(i, p) => OneCycleMoves(s, Apply(s, a), i);
    case Decide(i) => DecideKept(s, i);
    case Publish(i) => PublishKept(s, i);
    case _ =>
  }

  // ---------------------------------------------------------------------------
  // The results of a cycle
  // ---------------------------------------------------------------------------

  /** Probe p gave cycle i a contact closer than best. */
  predicate Beats(p: Probe, i: nat, best: Option<Contact>, target: Bitmap) {
    p.cycle == i && p.pc.Received? && Key(p.pc.result, target) < Key(best, target)
  }

  /** All results of the ended cycle i are in, and none is closer than what it captured. */
  predicate Futile(s: State, i: nat) {
    && i < |s.cycles| && s.cycles[i].pc.Ended?
    && forall p :: 0 <= p < |s.probes| && s.probes[p].cycle == i ==>
         s.probes[p].pc.Received? && !Beats(s.probes[p], i, s.cycles[i].pc.captured, s.target)
  }

  /** Some result of cycle i is closer than what it captured. */
  predicate Fruitful(s: State, i: nat) {
    && i < |s.cycles| && !s.cycles[i].pc.Spawned?
    && exists p :: 0 <= p < |s.probes| && Beats(s.probes[p], i, s.cycles[i].pc.captured, s.target)
  }

  lemma FutileStays(s: State, s': State, i: nat)
    requires ProbesKept(s, s') && CyclesKept(s, s') && Futile(s, i)
    ensures Futile(s', i)
  {
    assert CycleKept(s.cycles[i], s'.cycles[i]);
    forall p | 0 <= p < |s'.probes| && s'.probes[p].cycle == i ensures p < |s.probes| && s'.probes[p] == s.probes[p] {}
  }

  lemma FruitfulStays(s: State, s': State, i: nat)
    requires ProbesKept(s, s') && CyclesKept(s, s') && Fruitful(s, i)
    ensures Fruitful(s', i)
  {
    assert CycleKept(s.cycles[i], s'.cycles[i]);
    var p :| 0 <= p < |s.probes| && Beats(s.probes[p], i, s.cycles[i].pc.captured, s.target);
    assert s'.probes[p] == s.probes[p];
  }

  /** best is the nearest result cycle i has received, or what it captured if none is nearer. */
  predicate BestOf(s: State, i: nat, captured: Option<Contact>, closer: Option<Contact>) {
    && (forall p :: 0 <= p < |s.probes| ==> !Beats(s.probes[p], i, if closer.Some? then closer else captured, s.target))
    && (closer.Some? ==>
          && Key(closer, s.target) < Key(captured, s.target)
          && exists p :: 0 <= p < |s.probes| && s.probes[p] == Probe(i, Received(closer)))
  }

  /** What a cycle holds as its best contact is the best of its results. */
  predicate Tracks(s: State, i: nat)
    requires i < |s.cycles|
  {
    match s.cycles[i].pc
    case Collecting(captured, closer, _) => BestOf(s, i, captured, closer)
    case Publishing(captured, candidate) => BestOf(s, i, captured, Some(candidate))
    case _ => true
  }

  predicate AllTrack(s: State) { forall i :: 0 <= i < |s.cycles| ==> Tracks(s, i) }

  /** BestOf depends on the received results only. */
  lemma BestStays(s: State, s': State, i: nat, captured: Option<Contact>, closer: Option<Contact>)
    requires ProbesKept(s, s') && s'.target == s.target && BestOf(s, i, captured, closer)
    requires forall p :: 0 <= p < |s'.probes| && s'.probes[p].cycle == i && s'.probes[p].pc.Received? ==>
               p < |s.probes| && s.probes[p].pc.Received?
    ensures BestOf(s', i, captured, closer)
  {
    if closer.Some? {
      var p :| 0 <= p < |s.probes| && s.probes[p] == Probe(i, Received(closer));
      assert s'.probes[p] == s.probes[p];
    }
  }

  lemma {:induction false} NoProbesYet(probes: seq<Probe>, i: nat)
    requires LaunchedBy(probes, i) == 0
    ensures forall p :: 0 <= p < |probes| ==> probes[p].cycle != i
  {
    if probes != [] { NoProbesYet(probes[..|probes| - 1], i); }
  }

  lemma StartTracks(s: State, i: nat)
    requires Books(s) && AllTrack(s) && Enabled(s, Start(i))
    ensures AllTrack(StartCycle(s, i))
  {
    var s' := StartCycle(s, i);
    assert CycleBooks(s, i);
    NoProbesYet(s.probes, i);
    StepKeepsProbes(s, Start(i));
    forall k | 0 <= k < |s'.cycles| && k != i ensures Tracks(s', k) {
      assert Tracks(s, k) && s'.cycles[k] == s.cycles[k];
      TracksStays(s, s', k);
    }
  }

  /** A cycle that stays as it is, and receives nothing, keeps tracking. */
  lemma TracksStays(s: State, s': State, i: nat)
    requires ProbesKept(s, s') && s'.target == s.target && i < |s.cycles| && i < |s'.cycles|
    requires Tracks(s, i) && s'.cycles[i] == s.cycles[i]
    requires forall p :: 0 <= p < |s'.probes| && s'.probes[p].cycle == i && s'.probes[p].pc.Received? ==>
               p < |s.probes| && s.probes[p].pc.Received?
    ensures Tracks(s', i)
  {
    match s.cycles[i].pc
    case Collecting(captured, closer, _) => BestStays(s, s', i, captured, closer);
    case Publishing(captured, candidate) => BestStays(s, s', i, captured, Some(candidate));
    case _ =>
  }

  lemma ReceiveTracks(s: State, i: nat, p: nat)
    requires AllTrack(s) && Enabled(s, Receive(i, p))
    ensures AllTrack(ReceiveResult(s, i, p))
  {
    var s' := ReceiveResult(s, i, p);
    StepKeepsProbes(s, Receive(i, p));
    ReceiveBest(s, i, p);
    forall k | 0 <= k < |s'.cycles| && k != i ensures Tracks(s', k) {
      assert Tracks(s, k) && s'.cycles[k] == s.cycles[k];
      TracksStays(s, s', k);
    }
  }

  lemma ReceiveBest(s: State, i: nat, p: nat)
    requires AllTrack(s) && Enabled(s, Receive(i, p))
    ensures Tracks(ReceiveResult(s, i, p), i)
  {
    var s', pc, c := ReceiveResult(s, i, p), s.cycles[i].pc, s.probes[p].pc.result;
    var best := if pc.closer.Some? then pc.closer else pc.captured;
    assert Tracks(s, i);
    ImprovesIsCloser(c, best, s.target);
    assert s'.probes[p] == Probe(i, Received(c));
    forall q | 0 <= q < |s'.probes| && q != p ensures s'.probes[q] == s.probes[q] {}
    if !Improves(c, best, s.target) && pc.closer.Some? {
      var q :| 0 <= q < |s.probes| && s.probes[q] == Probe(i, Received(pc.closer));
      assert s'.probes[q] == s.probes[q];
    }
  }

  /** From collecting to publishing the best contact. */
  predicate Publishes(pc: CyclePc, pc': CyclePc) {
    pc.Collecting? && pc'.Publishing? && pc.closer == Some(pc'.candidate)
  }

  /** A step that receives nothing and starts nothing: the deciding or publishing cycle keeps its best contact. */
  lemma QuietTracks(s: State, s': State)
    requires AllTrack(s) && CyclesKept(s, s') && ProbesKept(s, s')
    requires forall p :: 0 <= p < |s'.probes| && s'.probes[p].pc.Received? ==>
               p < |s.probes| && s.probes[p].pc.Received?
    requires forall i :: 0 <= i < |s'.cycles| ==>
               || s'.cycles[i].pc.Spawned? || s'.cycles[i].pc.Ended?
               || (i < |s.cycles| && (s'.cycles[i] == s.cycles[i] || Publishes(s.cycles[i].pc, s'.cycles[i].pc)))
    ensures AllTrack(s')
  {
    forall i | 0 <= i < |s'.cycles| ensures Tracks(s', i) {
      if i < |s.cycles| {
        assert Tracks(s, i) && CycleKept(s.cycles[i], s'.cycles[i]);
        if s'.cycles[i] == s.cycles[i] {
          TracksStays(s, s', i);
        } else if s'.cycles[i].pc.Publishing? {
          BestStays(s, s', i, s.cycles[i].pc.captured, s.cycles[i].pc.closer);
        }
      }
    }
  }

  lemma DecideTracks(s: State, i: nat)
    requires AllTrack(s) && Enabled(s, Decide(i))
    ensures AllTrack(DecideCycle(s, i))
  {
    DecideKept(s, i);
    QuietTracks(s, DecideCycle(s, i));
  }

  lemma PublishTracks(s: State, i: nat)
    requires AllTrack(s) && Enabled(s, Publish(i))
    ensures AllTrack(PublishCycle(s, i))
  {
    PublishKept(s, i);
    QuietTracks(s, PublishCycle(s, i));
  }

  lemma OtherTracks(s: State, a: Action)
    requires AllTrack(s) && Enabled(s, a) && !a.Start? && !a.Receive? && !a.Decide? && !a.Publish?
    ensures AllTrack(Apply(s, a))
  {
    StepKeepsProbes(s, a);
    StepKeepsCycles(s, a);
    QuietTracks(s, Apply(s, a));
  }

  lemma StepTracks(s: State, a: Action)
    requires Books(s) && AllTrack(s) && Enabled(s, a)
    ensures AllTrack(Apply(s, a))
  {
    match a
    case Start(i) => StartTracks(s, i);
    case Receive(i, p) => ReceiveTracks(s, i, p);
    case Decide(i) => DecideTracks(s, i);
    case Publish(i) => PublishTracks(s, i);
    case _ => OtherTracks(s, a);
  }

  // ---------------------------------------------------------------------------
  // Parents and children
  // ---------------------------------------------------------------------------

  /** A big cycle follows a small one that was futile; a small one follows one that was not, or none. */
  predicate ChildOK(s: State, j: nat)
    requires j < |s.cycles|
  {
    match s.cycles[j].parent
    case None => !s.cycles[j].big
    case Some(i) => if s.cycles[j].big then Futile(s, i) && !s.cycles[i].big else Fruitful(s, i)
  }

  predicate HasChild(s: State, i: nat) { exists j :: 0 <= j < |s.cycles| && s.cycles[j].parent == Some(i) }

  /** Some big cycle is over, and none of its results was closer than what it captured. */
  predicate GaveUp(s: State) { exists i :: 0 <= i < |s.cycles| && s.cycles[i].big && Futile(s, i) }

  predicate NotStopped(s: State) { !s.stopped && !s.notGettingCloser }

  /** Unless the lookup is over, every ended cycle has launched another. */
  predicate Lively(s: State) {
    NotStopped(s) ==> forall i :: 0 <= i < |s.cycles| && s.cycles[i].pc.Ended? ==> HasChild(s, i)
  }

  /** Among the first k actions there is a cancellation or a value. */
  predicate Interrupted(actions: seq<Action>, k: nat)
    requires k <= |actions|
  {
    exists j :: 0 <= j < k && (actions[j].Cancel? || (actions[j].Answer? && actions[j].reply.Value?))
  }

  /** Why a lookup is over. */
  predicate Justified(s: State, interrupted: bool) {
    && (s.found != [] ==> interrupted)
    && (s.notGettingCloser ==> GaveUp(s))
    && (s.stopped ==> interrupted || |s.active| >= BUCKET_SIZE || GaveUp(s))
  }

  predicate Decisions(s: State, interrupted: bool) {
    && AllTrack(s) && Lively(s) && Justified(s, interrupted)
    && forall j :: 0 <= j < |s.cycles| ==> ChildOK(s, j)
  }

  lemma ChildStays(s: State, s': State, j: nat)
    requires ProbesKept(s, s') && CyclesKept(s, s') && j < |s.cycles| && ChildOK(s, j)
    ensures ChildOK(s', j)
  {
    assert CycleKept(s.cycles[j], s'.cycles[j]);
    if s.cycles[j].parent.Some? {
      var i := s.cycles[j].parent.value;
      assert CycleKept(s.cycles[i], s'.cycles[i]);
      if s.cycles[j].big { FutileStays(s, s', i); } else { FruitfulStays(s, s', i); }
    }
  }

  lemma HasChildStays(s: State, s': State, i: nat)
    requires CyclesKept(s, s') && HasChild(s, i)
    ensures HasChild(s', i)
  {
    var j :| 0 <= j < |s.cycles| && s.cycles[j].parent == Some(i);
    assert CycleKept(s.cycles[j], s'.cycles[j]);
  }

  lemma GaveUpStays(s: State, s': State)
    requires ProbesKept(s, s') && CyclesKept(s, s') && GaveUp(s)
    ensures GaveUp(s')
  {
    var i :| 0 <= i < |s.cycles| && s.cycles[i].big && Futile(s, i);
    FutileStays(s, s', i);
    assert CycleKept(s.cycles[i], s'.cycles[i]);
  }

  /** When a cycle decides, all its results are in. */
  lemma AllIn(s: State, i: nat, p: nat)
    requires Books(s) && i < |s.cycles| && p < |s.probes| && s.probes[p].cycle == i
    requires s.cycles[i].pc.Publishing? || (s.cycles[i].pc.Collecting? && s.cycles[i].pc.pending == 0)
    ensures s.probes[p].pc.Received?
  {
    assert CycleBooks(s, i);
    AllReceived(s.probes, i, p);
  }

  /** A cycle that decides without a closer contact is futile once it has ended. */
  lemma EndsFutile(s: State, s': State, i: nat)
    requires Books(s) && AllTrack(s) && Enabled(s, Decide(i)) && s.cycles[i].pc.closer.None?
    requires s'.probes == s.probes && s'.target == s.target && i < |s'.cycles|
    requires s'.cycles[i].pc == Ended(s.cycles[i].pc.captured)
    ensures Futile(s', i)
  {
    assert Tracks(s, i);
    forall p: nat | p < |s.probes| && s.probes[p].cycle == i ensures s.probes[p].pc.Received? { AllIn(s, i, p); }
  }

  /** A cycle that publishes had a closer result. */
  lemma EndsFruitful(s: State, s': State, i: nat)
    requires AllTrack(s) && Enabled(s, Publish(i))
    requires s'.probes == s.probes && s'.target == s.target && i < |s'.cycles|
    requires s'.cycles[i].pc == Ended(s.cycles[i].pc.captured)
    ensures Fruitful(s', i)
  {
    assert Tracks(s, i);
    var c := Some(s.cycles[i].pc.candidate);
    var p :| 0 <= p < |s.probes| && s.probes[p] == Probe(i, Received(c));
    assert Beats(s'.probes[p], i, s.cycles[i].pc.captured, s.target);
  }

  // ---------------------------------------------------------------------------
  // Every step
  // ---------------------------------------------------------------------------

  /** What has to be shown of a step beyond what it leaves alone. */
  predicate Progress(s: State, s': State, interrupted: bool) {
    && |s.active| <= |s'.active|
    && (NotStopped(s') ==> NotStopped(s))
    && (s'.found != [] ==> s.found != [] || interrupted)
    && (s'.notGettingCloser ==> s.notGettingCloser || GaveUp(s'))
    && (s'.stopped ==> s.stopped || interrupted || |s'.active| >= BUCKET_SIZE || GaveUp(s'))
    && (forall j :: |s.cycles| <= j < |s'.cycles| ==> ChildOK(s', j))
    && (NotStopped(s') ==>
          forall i :: 0 <= i < |s'.cycles| && s'.cycles[i].pc.Ended? ==>
            (i < |s.cycles| && s.cycles[i].pc.Ended?) || HasChild(s', i))
  }

  lemma ProgressKeeps(s: State, s': State, before: bool, interrupted: bool)
    requires Decisions(s, before) && (before ==> interrupted)
    requires ProbesKept(s, s') && CyclesKept(s, s') && AllTrack(s') && Progress(s, s', interrupted)
    ensures Decisions(s', interrupted)
  {
    forall j | 0 <= j < |s'.cycles| ensures ChildOK(s', j) {
      if j < |s.cycles| { ChildStays(s, s', j); }
    }
    if GaveUp(s) { GaveUpStays(s, s'); }
    if NotStopped(s') {
      forall i | 0 <= i < |s'.cycles| && s'.cycles[i].pc.Ended? ensures HasChild(s', i) {
        if i < |s.cycles| && s.cycles[i].pc.Ended? { HasChildStays(s, s', i); }
      }
    }
  }

  /** Whether the action is a cancellation or delivers a value. */
  predicate Interrupts(a: Action) { a.Cancel? || (a.Answer? && a.reply.Value?) }

  lemma ActiveGrows(s: State, a: Action)
    requires Enabled(s, a)
    ensures |Apply(s, a).active| >= |s.active|
  {
    if a.Insert? { InsertSortedContents(s.probes[a.p].pc.c, s.active, s.target); }
  }

  lemma CalmProgress(s: State, a: Action)
    requires Enabled(s, a) && !a.Decide? && !a.Publish?
    ensures Progress(s, Apply(s, a), Interrupts(a))
  {
    ActiveGrows(s, a);
    CalmCycles(s, a);
  }

  lemma CalmCycles(s: State, a: Action)
    requires Enabled(s, a) && !a.Decide? && !a.Publish?
    ensures var s' := Apply(s, a);
            && (forall i :: 0 <= i < |s'.cycles| && s'.cycles[i].pc.Ended? ==> i < |s.cycles| && s.cycles[i].pc.Ended?)
            && |s'.cycles| == |s.cycles| + (if a.Timeout? then 1 else 0)
            && (forall j :: |s.cycles| <= j < |s'.cycles| ==> s'.cycles[j] == Cycle(None, false, Spawned))
            && s'.notGettingCloser == s.notGettingCloser
            && s'.stopped == (s.stopped || Interrupts(a))
            && (s'.found == s.found || Interrupts(a))
  {
  }

  lemma PublishProgress(s: State, i: nat)
    requires AllTrack(s) && Enabled(s, Publish(i))
    ensures Progress(s, PublishCycle(s, i), false)
  {
    var s', n := PublishCycle(s, i), |s.cycles|;
    PublishIs(s, i);
    EndsFruitful(s, s', i);
    assert s'.cycles[n].parent == Some(i);
    assert HasChild(s', i);
  }

  /** Publishing ends the cycle, launches a small one, and touches nothing else but the shared contact. */
  lemma PublishIs(s: State, i: nat)
    requires Enabled(s, Publish(i))
    ensures var s', child := PublishCycle(s, i), Cycle(Some(i), false, Spawned);
            && s'.cycles == s.cycles[i := s.cycles[i].(pc := Ended(s.cycles[i].pc.captured))] + [child]
            && s' == s.(cycles := s'.cycles, closest := s'.closest)
  {
  }

  lemma DecideProgress(s: State, i: nat, before: bool)
    requires Books(s) && Decisions(s, before) && Enabled(s, Decide(i))
    ensures Progress(s, DecideCycle(s, i), before)
  {
    var s', pc := DecideCycle(s, i), s.cycles[i].pc;
    if SearchFinished(s) {
      if GaveUp(s) {
        StepKeepsProbes(s, Decide(i));
        DecideKept(s, i);
        GaveUpStays(s, s');
      }
    } else if pc.closer.None? {
      EndsFutile(s, s', i);
      if !s.cycles[i].big {
        assert s'.cycles[|s.cycles|] == Cycle(Some(i), true, Spawned);
        assert HasChild(s', i);
      }
    }
  }

  lemma StepDecisions(s: State, a: Action, before: bool)
    requires Books(s) && Decisions(s, before) && Enabled(s, a)
    ensures Decisions(Apply(s, a), before || Interrupts(a))
  {
    StepKeepsProbes(s, a);
    StepKeepsCycles(s, a);
    StepTracks(s, a);
    if a.Decide? {
      DecideProgress(s, a.i, before);
    } else if a.Publish? {
      PublishProgress(s, a.i);
    } else {
      CalmProgress(s, a);
    }
    ProgressKeeps(s, Apply(s, a), before, before || Interrupts(a));
  }

  // ---------------------------------------------------------------------------
  // Every run
  // ---------------------------------------------------------------------------

  lemma InterruptedStep(actions: seq<Action>, k: nat)
    requires k < |actions|
    ensures Interrupted(actions, k + 1) <==> Interrupted(actions, k) || Interrupts(actions[k])
  {
  }

  lemma {:induction false} DecisionsInEveryRun(states: seq<State>, actions: seq<Action>, k: nat)
    requires IsRun(states, actions) && k < |states|
    ensures Decisions(states[k], Interrupted(actions, k))
  {
    if k == 0 {
      DecisionsAtStart(states, actions);
    } else {
      DecisionsInEveryRun(states, actions, k - 1);
      DecisionsNext(states, actions, k - 1);
    }
  }

  lemma DecisionsAtStart(states: seq<State>, actions: seq<Action>)
    requires IsRun(states, actions)
    ensures Decisions(states[0], false)
  {
    assert states[0].cycles == [Cycle(None, false, Spawned)];
  }

  lemma DecisionsNext(states: seq<State>, actions: seq<Action>, k: nat)
    requires IsRun(states, actions) && k < |actions| && Decisions(states[k], Interrupted(actions, k))
    ensures Decisions(states[k + 1], Interrupted(actions, k + 1))
  {
    BooksInEveryRun(states, actions, k);
    assert StepAt(states, actions, k);
    StepDecisions(states[k], actions[k], Interrupted(actions, k));
    InterruptedStep(actions, k);
  }

  /**
    In every run a lookup is over only for one of three reasons: it was cancelled or a value arrived; eight contacts are
    active; or a big cycle has ended and none of its eight results was closer than what it captured.
  */
  lemma StopsForAReason(states: seq<State>, actions: seq<Action>, k: nat)
    requires IsRun(states, actions) && k < |states|
    ensures var s := states[k];
            && (s.stopped ==> Interrupted(actions, k) || |s.active| >= BUCKET_SIZE || GaveUp(s))
            && (s.notGettingCloser ==> GaveUp(s))
            && (forall i: nat :: Futile(s, i) ==> LaunchedBy(s.probes, i) == Limit(s.cycles[i]))
  {
    DecisionsInEveryRun(states, actions, k);
    BooksInEveryRun(states, actions, k);
    forall i: nat | Futile(states[k], i) ensures LaunchedBy(states[k].probes, i) == Limit(states[k].cycles[i]) {
      assert CycleBooks(states[k], i);
    }
  }

  /** Until then every ended cycle has launched another: a big one if small and futile, a small one if not futile. */
  lemma GoesOnUntilThen(states: seq<State>, actions: seq<Action>, k: nat)
    requires IsRun(states, actions) && k < |states|
    ensures var s := states[k];
            && (NotStopped(s) ==> forall i :: 0 <= i < |s.cycles| && s.cycles[i].pc.Ended? ==> HasChild(s, i))
            && forall j :: 0 <= j < |s.cycles| ==> ChildOK(s, j)
  {
    DecisionsInEveryRun(states, actions, k);
  }

  /** The contact a cycle is about to publish is the nearest of all its results. */
  lemma PublishesBest(states: seq<State>, actions: seq<Action>, k: nat, i: nat)
    requires IsRun(states, actions) && k < |states| && i < |states[k].cycles| && states[k].cycles[i].pc.Publishing?
    ensures var s := states[k];
            var c := Some(s.cycles[i].pc.candidate);
            && (exists p :: 0 <= p < |s.probes| && s.probes[p] == Probe(i, Received(c)))
            && (forall p :: 0 <= p < |s.probes| && s.probes[p].cycle == i ==>
                  s.probes[p].pc.Received? && Key(c, s.target) <= Key(s.probes[p].pc.result, s.target))
            && Key(c, s.target) < Key(s.cycles[i].pc.captured, s.target)
  {
    var s := states[k];
    var c := Some(s.cycles[i].pc.candidate);
    DecisionsInEveryRun(states, actions, k);
    BooksInEveryRun(states, actions, k);
    assert Tracks(s, i);
    forall p: nat | p < |s.probes| && s.probes[p].cycle == i
      ensures s.probes[p].pc.Received? && Key(c, s.target) <= Key(s.probes[p].pc.result, s.target)
    {
      AllIn(s, i, p);
      assert !Beats(s.probes[p], i, c, s.target);
    }
  }

  /** The contact that beats what cycle i captured, if some result does. */
  predicate SomeBetter(s: State, i: nat)
    requires i < |s.cycles| && s.cycles[i].pc.Collecting?
  {
    exists p :: 0 <= p < |s.probes| && Beats(s.probes[p], i, s.cycles[i].pc.captured, s.target)
  }

  /**
    What a cycle decides, in every run: with eight active contacts, after a value, a stop, or a futile big cycle it
    stops the lookup and launches nothing. Otherwise it publishes if some result was closer; if none was, a small cycle
    launches a big one and a big cycle gives up.
  */
  lemma DecidesSo(states: seq<State>, actions: seq<Action>, k: nat, i: nat)
    requires IsRun(states, actions) && k < |actions| && actions[k] == Decide(i)
    ensures i < |states[k].cycles| && states[k].cycles[i].pc.Collecting?
    ensures var s, s' := states[k], states[k + 1];
            if (s.findValue && s.found != []) || s.stopped || s.notGettingCloser || |s.active| >= 8 then
              s'.stopped && |s'.cycles| == |s.cycles| && s'.cycles[i].pc.Ended?
            else if SomeBetter(s, i) then
              NotStopped(s') && |s'.cycles| == |s.cycles| && s'.cycles[i].pc.Publishing?
            else if !s.cycles[i].big then
              && NotStopped(s') && |s'.cycles| == |s.cycles| + 1
              && s'.cycles[i].pc.Ended? && s'.cycles[|s.cycles|] == Cycle(Some(i), true, Spawned)
            else
              !s'.stopped && s'.notGettingCloser && |s'.cycles| == |s.cycles| && s'.cycles[i].pc.Ended?
  {
    var s := states[k];
    assert StepAt(states, actions, k);
    DecisionsInEveryRun(states, actions, k);
    assert Tracks(s, i);
    BetterIff(s, i);
  }

  lemma BetterIff(s: State, i: nat)
    requires i < |s.cycles| && s.cycles[i].pc.Collecting? && Tracks(s, i)
    ensures SomeBetter(s, i) <==> s.cycles[i].pc.closer.Some?
  {
    var pc := s.cycles[i].pc;
    if pc.closer.Some? {
      var p :| 0 <= p < |s.probes| && s.probes[p] == Probe(i, Received(pc.closer));
      assert Beats(s.probes[p], i, pc.captured, s.target);
    }
  }
}
