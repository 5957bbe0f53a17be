/** Probe accounting of the lookup: a cycle decides only on the results of all its probes (dht/node_finder.go). */
module FinderProbes {
  import opened Contacts
  import opened Finder
  import opened Results

  /** How many probes a cycle launches. */
  function Limit(c: Cycle): nat { if c.big then BUCKET_SIZE else ALPHA }

  function LaunchedBy(probes: seq<Probe>, i: nat): nat {
    if probes == [] then 0
    else LaunchedBy(probes[..|probes| - 1], i) + if probes[|probes| - 1].cycle == i then 1 else 0
  }

  predicate OwesResult(p: Probe, i: nat) { p.cycle == i && !p.pc.Received? }

  function Outstanding(probes: seq<Probe>, i: nat): nat {
    if probes == [] then 0
    else Outstanding(probes[..|probes| - 1], i) + if OwesResult(probes[|probes| - 1], i) then 1 else 0
  }

  /** The cycle's books: nothing launched before it starts, then its limit, and pending counts what is outstanding. */
  predicate CycleBooks(s: State, i: nat)
    requires i < |s.cycles|
  {
    var c := s.cycles[i];
    && LaunchedBy(s.probes, i) == (if c.pc.Spawned? then 0 else Limit(c))
    && Outstanding(s.probes, i) == (if c.pc.Collecting? then c.pc.pending else 0)
  }

  predicate Books(s: State) {
    && (forall p :: 0 <= p < |s.probes| ==> s.probes[p].cycle < |s.cycles|)
    && (forall i :: 0 <= i < |s.cycles| ==> CycleBooks(s, i))
  }

  lemma {:induction false} SetPc(probes: seq<Probe>, p: nat, pc: ProbePc, i: nat)
    requires p < |probes| && !probes[p].pc.Received?
    ensures var probes' := probes[p := probes[p].(pc := pc)];
            && LaunchedBy(probes', i) == LaunchedBy(probes, i)
            && Outstanding(probes', i) + (if probes[p].cycle == i && pc.Received? then 1 else 0)
               == Outstanding(probes, i)
  {
    var n := |probes| - 1;
    var probes' := probes[p := probes[p].(pc := pc)];
    if p < n {
      SetPc(probes[..n], p, pc, i);
      assert probes'[..n] == probes[..n][p := probes[p].(pc := pc)];
    } else {
      assert probes'[..n] == probes[..n];
    }
  }

  lemma {:induction false} LaunchMany(probes: seq<Probe>, k: nat, i: nat, j: nat)
    ensures var probes' := probes + seq(k, _ => Probe(i, Launched));
            && LaunchedBy(probes', j) == LaunchedBy(probes, j) + (if i == j then k else 0)
            && Outstanding(probes', j) == Outstanding(probes, j) + (if i == j then k else 0)
  {
    var more := seq(k, _ => Probe(i, Launched));
    if k == 0 {
      assert probes + more == probes;
    } else {
      LaunchMany(probes, k - 1, i, j);
      var fewer := seq(k - 1, _ => Probe(i, Launched));
      assert (probes + more)[..|probes + more| - 1] == probes + fewer;
    }
  }

  lemma {:induction false} NoneYet(probes: seq<Probe>, i: nat)
    requires forall p :: 0 <= p < |probes| ==> probes[p].cycle != i
    ensures LaunchedBy(probes, i) == 0 && Outstanding(probes, i) == 0
  {
    if probes != [] { NoneYet(probes[..|probes| - 1], i); }
  }

  lemma {:induction false} OutstandingAtMostLaunched(probes: seq<Probe>, i: nat)
    ensures Outstanding(probes, i) <= LaunchedBy(probes, i)
  {
    if probes != [] { OutstandingAtMostLaunched(probes[..|probes| - 1], i); }
  }

  lemma {:induction false} AllReceived(probes: seq<Probe>, i: nat, p: nat)
    requires Outstanding(probes, i) == 0 && p < |probes|
    ensures !OwesResult(probes[p], i)
  {
    if p < |probes| - 1 { AllReceived(probes[..|probes| - 1], i, p); }
  }

  /** A probe that moves on without being received changes no books. */
  lemma ProbeMoves(s: State, s': State, p: nat, pc: ProbePc)
    requires Books(s) && p < |s.probes| && !s.probes[p].pc.Received? && !pc.Received?
    requires s'.cycles == s.cycles && s'.probes == s.probes[p := s.probes[p].(pc := pc)]
    ensures Books(s')
  {
    forall i | 0 <= i < |s'.cycles| ensures CycleBooks(s', i) {
      assert CycleBooks(s, i);
      SetPc(s.probes, p, pc, i);
    }
  }

  lemma SpawnBooks(s: State, parent: Option<nat>, big: bool)
    requires Books(s)
    ensures Books(Spawn(s, parent, big))
  {
    var s' := Spawn(s, parent, big);
    forall i | 0 <= i < |s'.cycles| ensures CycleBooks(s', i) {
      if i < |s.cycles| { assert CycleBooks(s, i); } else { NoneYet(s.probes, i); }
    }
  }

  /** A cycle with no outstanding probe moves past collecting. */
  lemma CycleMoves(s: State, i: nat, pc: CyclePc)
    requires Books(s) && i < |s.cycles| && !s.cycles[i].pc.Spawned? && !pc.Spawned? && !pc.Collecting?
    requires s.cycles[i].pc.Collecting? ==> s.cycles[i].pc.pending == 0
    ensures Books(SetCycle(s, i, pc))
  {
    var s' := SetCycle(s, i, pc);
    forall k | 0 <= k < |s'.cycles| ensures CycleBooks(s', k) { assert CycleBooks(s, k); }
  }

  lemma StartBooks(s: State, i: nat)
    requires Books(s) && Enabled(s, Start(i))
    ensures Books(StartCycle(s, i))
  {
    var s', limit := StartCycle(s, i), Limit(s.cycles[i]);
    forall k | 0 <= k < |s'.cycles| ensures CycleBooks(s', k) {
      assert CycleBooks(s, k);
      OutstandingAtMostLaunched(s.probes, k);
      LaunchMany(s.probes, limit, i, k);
    }
  }

  lemma ReceiveBooks(s: State, i: nat, p: nat)
    requires Books(s) && Enabled(s, Receive(i, p))
    ensures Books(ReceiveResult(s, i, p))
  {
    var s' := ReceiveResult(s, i, p);
    forall k | 0 <= k < |s'.cycles| ensures CycleBooks(s', k) {
      assert CycleBooks(s, k);
      SetPc(s.probes, p, Received(s.probes[p].pc.result), k);
    }
  }

  lemma DecideBooks(s: State, i: nat)
    requires Books(s) && Enabled(s, Decide(i))
    ensures Books(DecideCycle(s, i))
  {
    var pc := s.cycles[i].pc;
    if pc.closer.Some? { CycleMoves(s, i, Publishing(pc.captured, pc.closer.value)); }
    var ended := SetCycle(s, i, Ended(pc.captured));
    CycleMoves(s, i, Ended(pc.captured));
    SpawnBooks(ended, Some(i), true);
    SameBooks(ended, ended.(stopped := true));
    SameBooks(ended, ended.(notGettingCloser := true));
  }

  lemma SameBooks(s: State, s': State)
    requires Books(s) && s'.cycles == s.cycles && s'.probes == s.probes
    ensures Books(s')
  {
    forall k | 0 <= k < |s'.cycles| ensures CycleBooks(s', k) { assert CycleBooks(s, k); }
  }

  lemma PublishBooks(s: State, i: nat)
    requires Books(s) && Enabled(s, Publish(i))
    ensures Books(PublishCycle(s, i))
  {
    var pc := s.cycles[i].pc;
    var s' := if Improves(Some(pc.candidate), s.closest, s.target) then s.(closest := Some(pc.candidate)) else s;
    SameBooks(s, s');
    CycleMoves(s', i, Ended(pc.captured));
    SpawnBooks(SetCycle(s', i, Ended(pc.captured)), Some(i), false);
  }

  lemma StepBooks(s: State, a: Action)
    requires Books(s) && Enabled(s, a)
    ensures Books(Apply(s, a))
  {
    var s' := Apply(s, a);
    match a
    case Timeout => SpawnBooks(s, None, false);
    case Cancel => SameBooks(s, s');
    case Start(i) => StartBooks(s, i);
    case Receive(i, p) => ReceiveBooks(s, i, p);
    case Decide(i) => DecideBooks(s, i);
    case Publish(i) => PublishBooks(s, i);
    case _ => ProbeMoves(s, s', a.p, s'.probes[a.p].pc);
  }

  lemma {:induction false} BooksInEveryRun(states: seq<State>, actions: seq<Action>, k: nat)
    requires IsRun(states, actions) && k < |states|
    ensures Books(states[k])
  {
    if k > 0 {
      BooksInEveryRun(states, actions, k - 1);
      assert StepAt(states, actions, k - 1);
      StepBooks(states[k - 1], actions[k - 1]);
    }
  }

  /**
    In every interleaving, a cycle that decides has launched exactly its limit of probes, three or eight, and has
    received the result of each of them.
  */
  lemma DecidesOnAllResults(states: seq<State>, actions: seq<Action>, k: nat, i: nat)
    requires IsRun(states, actions) && k < |states| && Enabled(states[k], Decide(i))
    ensures var s := states[k];
            && LaunchedBy(s.probes, i) == Limit(s.cycles[i])
            && forall p :: 0 <= p < |s.probes| && s.probes[p].cycle == i ==> s.probes[p].pc.Received?
  {
    var s := states[k];
    BooksInEveryRun(states, actions, k);
    assert CycleBooks(s, i);
    forall p: nat | p < |s.probes| && s.probes[p].cycle == i ensures s.probes[p].pc.Received? {
      AllReceived(s.probes, i, p);
    }
  }
}
