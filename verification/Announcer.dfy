/** The announce scheduler as a queue of values, and what holds over its whole runs (dht/dht_announce.go). */
module Announcer {
  import opened Bits
  import opened Results

  /** last is when the hash was last announced, if ever. */
  datatype Entry = Entry(hash: Bitmap, last: Option<int>)

  /** What `announceNextHash` receives from: nothing, the rate limiter, or the timer set for a moment. */
  datatype Wake = Never | Limiter | Timer(at: int)

  /** The ring read from the queue pointer. */
  datatype Queue = Queue(entries: seq<Entry>, wake: Wake)

  function Hashes(entries: seq<Entry>): set<Bitmap> { set e | e in entries :: e.hash }

  function IndexOf(entries: seq<Entry>, h: Bitmap): (k: nat)
    requires h in Hashes(entries)
    ensures k < |entries| && entries[k].hash == h
  {
    if entries[0].hash == h then 0
    else
      assert entries == [entries[0]] + entries[1..];
      1 + IndexOf(entries[1..], h)
  }

  function AddHash(q: Queue, h: Bitmap): Queue {
    if h in Hashes(q.entries) then q else Queue([Entry(h, None)] + q.entries, Limiter)
  }

  function RemoveHash(q: Queue, h: Bitmap): Queue {
    if h !in Hashes(q.entries) then q
    else
      var k := IndexOf(q.entries, h);
      Queue(q.entries[..k] + q.entries[k + 1..], if |q.entries| == 1 then Never else q.wake)
  }

  /** The announcement of e is due at the given moment. */
  predicate Due(e: Entry, now: int, reannounce: int) { e.last.None? || e.last.value + reannounce <= now }

  /** One wake-up: the clock is read at now for the test and at later for the record. */
  function Tick(q: Queue, now: int, later: int, reannounce: int): Queue
    requires q.entries != []
  {
    var e := q.entries[0];
    if !Due(e, now, reannounce) then q.(wake := Timer(e.last.value + reannounce))
    else Queue(q.entries[1..] + [Entry(e.hash, Some(later))], Limiter)
  }

  // ---------------------------------------------------------------------------
  // Runs
  // ---------------------------------------------------------------------------

  datatype Op = DoAdd(h: Bitmap) | DoRemove(h: Bitmap) | DoTick(now: int, later: int)

  /** A tick can come whenever the wake-up channel is not nil, even before the timer is up. */
  predicate Enabled(q: Queue, op: Op) { op.DoTick? ==> q.wake != Never }

  /** One turn of the loop; a wake-up reads the value of the queue pointer, which panics when that is nil. */
  function Step(q: Queue, op: Op, reannounce: int): Outcome<Queue> {
    match op
    case DoAdd(h) => Returned(AddHash(q, h))
    case DoRemove(h) => Returned(RemoveHash(q, h))
    case DoTick(now, later) => if q.entries == [] then Panicked else Returned(Tick(q, now, later, reannounce))
  }

  predicate DistinctHashes(entries: seq<Entry>) {
    forall i, j :: 0 <= i < j < |entries| ==> entries[i].hash != entries[j].hash
  }

  /** Each hash once, and an enabled wake-up exactly when there is something to announce. */
  predicate Sound(q: Queue) { DistinctHashes(q.entries) && (q.wake == Never <==> q.entries == []) }

  predicate NoLater(a: Option<int>, b: Option<int>) { a.None? || (b.Some? && a.value <= b.value) }

  /** Never announced first, then the longest ago; nothing announced in the future. */
  predicate Ordered(entries: seq<Entry>, clock: int) {
    && (forall i, j :: 0 <= i < j < |entries| ==> NoLater(entries[i].last, entries[j].last))
    && (forall i :: 0 <= i < |entries| ==> NoLater(entries[i].last, Some(clock)))
  }

  /** While the announcer sleeps, it will wake no later than the earliest due time. */
  predicate WakesInTime(q: Queue, reannounce: int) {
    q.wake.Timer? ==>
      forall i :: 0 <= i < |q.entries| ==>
        q.entries[i].last.Some? && q.wake.at <= q.entries[i].last.value + reannounce
  }

  predicate Scheduled(q: Queue, clock: int, reannounce: int) {
    Sound(q) && Ordered(q.entries, clock) && WakesInTime(q, reannounce)
  }

  function ClockAfter(clock: int, op: Op): int { if op.DoTick? then op.later else clock }

  predicate Forward(clock: int, op: Op) { op.DoTick? ==> clock <= op.now <= op.later }

  lemma RemoveAt(entries: seq<Entry>, k: nat, clock: int)
    requires k < |entries| && DistinctHashes(entries)
    ensures DistinctHashes(entries[..k] + entries[k + 1..])
    ensures Ordered(entries, clock) ==> Ordered(entries[..k] + entries[k + 1..], clock)
  {
  }

  lemma AddSound(q: Queue, h: Bitmap)
    requires Sound(q)
    ensures Sound(AddHash(q, h))
  {
    forall i | 0 <= i < |q.entries| ensures q.entries[i].hash in Hashes(q.entries) { assert q.entries[i] in q.entries; }
  }

  lemma RemoveSound(q: Queue, h: Bitmap)
    requires Sound(q)
    ensures Sound(RemoveHash(q, h))
  {
    if h in Hashes(q.entries) { RemoveAt(q.entries, IndexOf(q.entries, h), 0); }
  }

  lemma TickSound(q: Queue, now: int, later: int, reannounce: int)
    requires Sound(q) && q.entries != []
    ensures Sound(Tick(q, now, later, reannounce))
  {
  }

  lemma StepScheduled(q: Queue, op: Op, clock: int, reannounce: int)
    requires Scheduled(q, clock, reannounce) && Enabled(q, op) && Forward(clock, op)
    ensures var o := Step(q, op, reannounce); o.Returned? && Scheduled(o.value, ClockAfter(clock, op), reannounce)
  {
    match op
    case DoAdd(h) => AddScheduled(q, h, clock, reannounce);
    case DoRemove(h) => RemoveScheduled(q, h, clock, reannounce);
    case DoTick(now, later) => TickScheduled(q, now, later, clock, reannounce);
  }

  lemma AddScheduled(q: Queue, h: Bitmap, clock: int, reannounce: int)
    requires Scheduled(q, clock, reannounce)
    ensures Scheduled(AddHash(q, h), clock, reannounce)
  {
    AddSound(q, h);
  }

  lemma RemoveScheduled(q: Queue, h: Bitmap, clock: int, reannounce: int)
    requires Scheduled(q, clock, reannounce)
    ensures Scheduled(RemoveHash(q, h), clock, reannounce)
  {
    RemoveSound(q, h);
    if h in Hashes(q.entries) {
      var k := IndexOf(q.entries, h);
      RemoveAt(q.entries, k, clock);
      var rest := q.entries[..k] + q.entries[k + 1..];
      forall i | 0 <= i < |rest| ensures rest[i] == q.entries[if i < k then i else i + 1] {}
    }
  }

  lemma TickScheduled(q: Queue, now: int, later: int, clock: int, reannounce: int)
    requires Scheduled(q, clock, reannounce) && q.entries != [] && clock <= now <= later
    ensures Scheduled(Tick(q, now, later, reannounce), later, reannounce)
  {
    var e := q.entries[0];
    if !Due(e, now, reannounce) {
      forall i | 0 <= i < |q.entries| ensures NoLater(e.last, q.entries[i].last) {}
    }
  }

  /** The k-th operation of a history can happen and leads from the k-th queue and clock to the next. */
  predicate StepAt(qs: seq<Queue>, clocks: seq<int>, ops: seq<Op>, reannounce: int, k: nat)
    requires k < |ops| < |qs| && |clocks| == |qs|
  {
    && Enabled(qs[k], ops[k]) && Forward(clocks[k], ops[k])
    && Step(qs[k], ops[k], reannounce) == Returned(qs[k + 1])
    && clocks[k + 1] == ClockAfter(clocks[k], ops[k])
  }

  /** A history of the announcer from its empty start, with a clock that never runs backwards. */
  predicate IsRun(qs: seq<Queue>, clocks: seq<int>, ops: seq<Op>, reannounce: int) {
    && |qs| == |clocks| == |ops| + 1
    && qs[0] == Queue([], Never)
    && forall k: nat :: k < |ops| ==> StepAt(qs, clocks, ops, reannounce, k)
  }

  lemma {:induction false} ScheduledInEveryRun(qs: seq<Queue>, clocks: seq<int>, ops: seq<Op>, reannounce: int, k: nat)
    requires IsRun(qs, clocks, ops, reannounce) && k < |qs|
    ensures Scheduled(qs[k], clocks[k], reannounce)
  {
    if k > 0 {
      ScheduledInEveryRun(qs, clocks, ops, reannounce, k - 1);
      assert StepAt(qs, clocks, ops, reannounce, k - 1);
      StepScheduled(qs[k - 1], ops[k - 1], clocks[k - 1], reannounce);
    }
  }

  /** No operation that can happen in a run panics: an enabled wake-up never meets a nil queue. */
  lemma NeverPanics(qs: seq<Queue>, clocks: seq<int>, ops: seq<Op>, reannounce: int, k: nat, op: Op)
    requires IsRun(qs, clocks, ops, reannounce) && k < |qs| && Enabled(qs[k], op)
    ensures Step(qs[k], op, reannounce).Returned?
  {
    ScheduledInEveryRun(qs, clocks, ops, reannounce, k);
  }

  /**
    A tick goes to sleep exactly when every hash was announced less than the reannounce time ago, and then until the
    earliest of them is due; otherwise it announces the hash at the front.
  */
  lemma SleepsOnlyWhenNothingDue(q: Queue, now: int, later: int, clock: int, reannounce: int)
    requires Scheduled(q, clock, reannounce) && q.entries != []
    ensures var q' := Tick(q, now, later, reannounce);
            var resting := forall i :: 0 <= i < |q.entries| ==>
                             q.entries[i].last.Some? && now < q.entries[i].last.value + reannounce;
            && (q'.wake.Timer? <==> resting)
            && (Announces(q, DoTick(now, later), q.entries[0].hash, reannounce) <==> !resting)
            && (resting ==> q'.entries == q.entries && WakesAtEarliest(q', reannounce))
            && (!resting ==> q' == Queue(q.entries[1..] + [Entry(q.entries[0].hash, Some(later))], Limiter))
  {
    if !Due(q.entries[0], now, reannounce) {
      forall i | 0 <= i < |q.entries| ensures NoLater(q.entries[0].last, q.entries[i].last) {}
    }
  }

  /** The timer is set for the moment when the first hash becomes due. */
  predicate WakesAtEarliest(q: Queue, reannounce: int) {
    && WakesInTime(q, reannounce) && q.wake.Timer?
    && exists i :: 0 <= i < |q.entries| && q.entries[i].last == Some(q.wake.at - reannounce)
  }

  /** The hashes added and not removed since. */
  function Members(ops: seq<Op>): set<Bitmap> {
    if ops == [] then {}
    else
      var before := Members(ops[..|ops| - 1]);
      match ops[|ops| - 1]
      case DoAdd(h) => before + {h}
      case DoRemove(h) => before - {h}
      case DoTick(_, _) => before
  }

  lemma StepMembers(q: Queue, op: Op, reannounce: int)
    requires Sound(q) && Step(q, op, reannounce).Returned?
    ensures var q' := Step(q, op, reannounce).value;
            Hashes(q'.entries) == match op
                                  case DoAdd(h) => Hashes(q.entries) + {h}
                                  case DoRemove(h) => Hashes(q.entries) - {h}
                                  case DoTick(_, _) => Hashes(q.entries)
  {
    match op
    case DoAdd(h) => if h !in Hashes(q.entries) { HashesConcat([Entry(h, None)], q.entries); }
    case DoRemove(h) => RemoveMembers(q, h);
    case DoTick(now, later) => TickMembers(q, now, later, reannounce);
  }

  lemma HashesConcat(a: seq<Entry>, b: seq<Entry>)
    ensures Hashes(a + b) == Hashes(a) + Hashes(b)
  {
  }

  lemma RemoveMembers(q: Queue, h: Bitmap)
    requires Sound(q)
    ensures Hashes(RemoveHash(q, h).entries) == Hashes(q.entries) - {h}
  {
    if h in Hashes(q.entries) {
      var k := IndexOf(q.entries, h);
      var a, c := q.entries[..k], q.entries[k + 1..];
      assert q.entries == a + [q.entries[k]] + c;
      HashesConcat(a, c);
      HashesConcat(a + [q.entries[k]], c);
      HashesConcat(a, [q.entries[k]]);
      assert h !in Hashes(a) && h !in Hashes(c);
    }
  }

  lemma TickMembers(q: Queue, now: int, later: int, reannounce: int)
    requires q.entries != []
    ensures Hashes(Tick(q, now, later, reannounce).entries) == Hashes(q.entries)
  {
    var e, rest := q.entries[0], q.entries[1..];
    assert q.entries == [e] + rest;
    HashesConcat([e], rest);
    HashesConcat(rest, [Entry(e.hash, Some(later))]);
  }

  /** Adding what is there, or removing what is not, does nothing at all. */
  lemma NoChangeNoEffect(q: Queue, op: Op, reannounce: int)
    requires Sound(q) && !op.DoTick? && Hashes(Step(q, op, reannounce).value.entries) == Hashes(q.entries)
    ensures Step(q, op, reannounce) == Returned(q)
  {
    StepMembers(q, op, reannounce);
  }

  /** Besides wake-ups, only a new hash and the removal of the last one change when the announcer wakes. */
  lemma WakeChanges(q: Queue, op: Op, reannounce: int)
    requires Sound(q) && !op.DoTick?
    ensures var q' := Step(q, op, reannounce).value;
            q'.wake == if |q'.entries| > |q.entries| then Limiter else if q'.entries == [] then Never else q.wake
  {
  }

  /** In every run the queue holds exactly the hashes added and not removed since. */
  lemma {:induction false} MembersInEveryRun(
    qs: seq<Queue>, clocks: seq<int>, ops: seq<Op>, reannounce: int, k: nat)
    requires IsRun(qs, clocks, ops, reannounce) && k < |qs|
    ensures Hashes(qs[k].entries) == Members(ops[..k])
  {
    if k > 0 {
      MembersInEveryRun(qs, clocks, ops, reannounce, k - 1);
      ScheduledInEveryRun(qs, clocks, ops, reannounce, k - 1);
      assert StepAt(qs, clocks, ops, reannounce, k - 1);
      StepMembers(qs[k - 1], ops[k - 1], reannounce);
      assert ops[..k][..k - 1] == ops[..k - 1];
    }
  }

  // ---------------------------------------------------------------------------
  // No hash is announced twice within the reannounce time
  // ---------------------------------------------------------------------------

  /** Operation k announces h. */
  predicate Announces(q: Queue, op: Op, h: Bitmap, reannounce: int) {
    op.DoTick? && q.entries != [] && q.entries[0].hash == h && Due(q.entries[0], op.now, reannounce)
  }

  /** The queue holds h, last announced no earlier than the given moment. */
  predicate AnnouncedSince(q: Queue, h: Bitmap, since: int) {
    exists i ::
      0 <= i < |q.entries| && q.entries[i].hash == h && q.entries[i].last.Some? && q.entries[i].last.value >= since
  }

  lemma StepKeepsRecord(q: Queue, op: Op, clock: int, reannounce: int, h: Bitmap, since: int)
    requires Scheduled(q, clock, reannounce) && Enabled(q, op) && Forward(clock, op)
    requires AnnouncedSince(q, h, since) && op != DoRemove(h) && since <= clock
    ensures var o := Step(q, op, reannounce); o.Returned? && AnnouncedSince(o.value, h, since)
  {
    var i :| 0 <= i < |q.entries| && q.entries[i].hash == h && q.entries[i].last.Some?
             && q.entries[i].last.value >= since;
    var q' := Step(q, op, reannounce).value;
    match op
    case DoAdd(x) => if q' != q { assert q'.entries[i + 1] == q.entries[i]; }
    case DoRemove(x) => RemoveKeepsOther(q, x, i);
    case DoTick(now, later) =>
      if q'.entries != q.entries {
        if i > 0 { assert q'.entries[i - 1] == q.entries[i]; }
        else { assert q'.entries[|q'.entries| - 1] == Entry(h, Some(later)); }
      }
  }

  lemma RemoveKeepsOther(q: Queue, x: Bitmap, i: nat)
    requires i < |q.entries| && q.entries[i].hash != x
    ensures q.entries[i] in RemoveHash(q, x).entries
  {
    if x in Hashes(q.entries) {
      var k := IndexOf(q.entries, x);
      assert RemoveHash(q, x).entries[if i < k then i else i - 1] == q.entries[i];
    }
  }

  lemma {:induction false} RecordLasts(
    qs: seq<Queue>, clocks: seq<int>, ops: seq<Op>, reannounce: int, h: Bitmap, i: nat, j: nat)
    requires IsRun(qs, clocks, ops, reannounce) && i < j <= |ops| && Announces(qs[i], ops[i], h, reannounce)
    requires forall k :: i < k < j ==> ops[k] != DoRemove(h)
    ensures AnnouncedSince(qs[j], h, ops[i].later) && ops[i].later <= clocks[j]
  {
    ScheduledInEveryRun(qs, clocks, ops, reannounce, j - 1);
    assert StepAt(qs, clocks, ops, reannounce, j - 1);
    if i == j - 1 {
      assert qs[j].entries[|qs[j].entries| - 1] == Entry(h, Some(ops[i].later));
    } else {
      RecordLasts(qs, clocks, ops, reannounce, h, i, j - 1);
      StepKeepsRecord(qs[j - 1], ops[j - 1], clocks[j - 1], reannounce, h, ops[i].later);
    }
  }

  /** Two announcements of a hash that was not removed in between are at least the reannounce time apart. */
  lemma ReannounceSpacing(
    qs: seq<Queue>, clocks: seq<int>, ops: seq<Op>, reannounce: int, h: Bitmap, i: nat, j: nat)
    requires IsRun(qs, clocks, ops, reannounce) && i < j < |ops|
    requires Announces(qs[i], ops[i], h, reannounce) && Announces(qs[j], ops[j], h, reannounce)
    requires forall k :: i < k < j ==> ops[k] != DoRemove(h)
    ensures ops[i].later + reannounce <= ops[j].now
  {
    RecordLasts(qs, clocks, ops, reannounce, h, i, j);
    var k :| 0 <= k < |qs[j].entries| && qs[j].entries[k].hash == h && qs[j].entries[k].last.Some?
             && qs[j].entries[k].last.value >= ops[i].later;
    ScheduledInEveryRun(qs, clocks, ops, reannounce, j);
  }

  // ---------------------------------------------------------------------------
  // How long a due hash waits
  // ---------------------------------------------------------------------------

  predicate Before(entries: seq<Entry>, x: Bitmap, h: Bitmap) {
    x in Hashes(entries) && h in Hashes(entries) && IndexOf(entries, x) < IndexOf(entries, h)
  }

  /** How far an operation that does not concern h moves it: back by a new hash, forward by one less ahead. */
  function Shift(q: Queue, op: Op, h: Bitmap): int {
    match op
    case DoAdd(x) => if x in Hashes(q.entries) then 0 else 1
    case DoRemove(x) => if Before(q.entries, x, h) then -1 else 0
    case DoTick(_, _) => -1
  }

  /** The queue holds h at position p, and its announcement is due. */
  predicate Waits(q: Queue, h: Bitmap, p: nat, clock: int, reannounce: int) {
    p < |q.entries| && q.entries[p].hash == h && Due(q.entries[p], clock, reannounce)
  }

  lemma OnlyIndex(entries: seq<Entry>, h: Bitmap, p: nat)
    requires DistinctHashes(entries) && p < |entries| && entries[p].hash == h
    ensures h in Hashes(entries) && IndexOf(entries, h) == p
  {
    assert entries[p] in entries;
  }

  /** While h waits, every wake-up announces some hash, and each operation moves h by its shift. */
  lemma StepShifts(q: Queue, op: Op, clock: int, reannounce: int, h: Bitmap, p: nat)
    requires Scheduled(q, clock, reannounce) && Enabled(q, op) && Forward(clock, op)
    requires Waits(q, h, p, clock, reannounce)
    requires op != DoRemove(h) && !Announces(q, op, h, reannounce)
    ensures p + Shift(q, op, h) >= 0
    ensures var o := Step(q, op, reannounce);
            o.Returned? && Waits(o.value, h, p + Shift(q, op, h), ClockAfter(clock, op), reannounce)
  {
    match op
    case DoAdd(x) =>
      if x !in Hashes(q.entries) { assert AddHash(q, x).entries[p + 1] == q.entries[p]; }
    case DoRemove(x) => RemoveShifts(q, x, h, p);
    case DoTick(now, later) =>
      assert NoLater(q.entries[0].last, q.entries[p].last);
      assert Tick(q, now, later, reannounce).entries[p - 1] == q.entries[p];
  }

  lemma RemoveShifts(q: Queue, x: Bitmap, h: Bitmap, p: nat)
    requires Sound(q) && p < |q.entries| && q.entries[p].hash == h != x
    ensures var p', rest := p + Shift(q, DoRemove(x), h), RemoveHash(q, x).entries;
            0 <= p' < |rest| && rest[p'] == q.entries[p]
  {
    OnlyIndex(q.entries, h, p);
    if x in Hashes(q.entries) {
      var k := IndexOf(q.entries, x);
      assert RemoveHash(q, x).entries[if p < k then p else p - 1] == q.entries[p];
    }
  }

  /** The sum of the shifts of operations i to j - 1. */
  function Shifts(qs: seq<Queue>, ops: seq<Op>, h: Bitmap, i: nat, j: nat): int
    requires i <= j <= |ops| < |qs|
  {
    if i == j then 0 else Shifts(qs, ops, h, i, j - 1) + Shift(qs[j - 1], ops[j - 1], h)
  }

  /** Operations i to j - 1 neither remove nor announce h. */
  predicate PassedOver(qs: seq<Queue>, ops: seq<Op>, h: Bitmap, reannounce: int, i: nat, j: nat)
    requires i <= j <= |ops| < |qs|
  {
    forall k :: i <= k < j ==> ops[k] != DoRemove(h) && !Announces(qs[k], ops[k], h, reannounce)
  }

  /** Where a due hash stands, in every run, as long as it is neither removed nor announced. */
  lemma {:induction false} PositionInEveryRun(
    qs: seq<Queue>, clocks: seq<int>, ops: seq<Op>, reannounce: int, h: Bitmap, p: nat, i: nat, j: nat)
    requires IsRun(qs, clocks, ops, reannounce) && i <= j <= |ops| && Waits(qs[i], h, p, clocks[i], reannounce)
    requires PassedOver(qs, ops, h, reannounce, i, j)
    ensures p + Shifts(qs, ops, h, i, j) >= 0
    ensures Waits(qs[j], h, p + Shifts(qs, ops, h, i, j), clocks[j], reannounce)
  {
    if i < j {
      PositionInEveryRun(qs, clocks, ops, reannounce, h, p, i, j - 1);
      ScheduledInEveryRun(qs, clocks, ops, reannounce, j - 1);
      assert StepAt(qs, clocks, ops, reannounce, j - 1);
      StepShifts(qs[j - 1], ops[j - 1], clocks[j - 1], reannounce, h, p + Shifts(qs, ops, h, i, j - 1));
    }
  }

  /** So the wake-up that announces it is known: the first one that finds no hash ahead of it. */
  lemma AnnouncedIff(
    qs: seq<Queue>, clocks: seq<int>, ops: seq<Op>, reannounce: int, h: Bitmap, p: nat, i: nat, j: nat)
    requires IsRun(qs, clocks, ops, reannounce) && i <= j < |ops| && Waits(qs[i], h, p, clocks[i], reannounce)
    requires PassedOver(qs, ops, h, reannounce, i, j) && ops[j].DoTick?
    ensures Announces(qs[j], ops[j], h, reannounce) <==> p + Shifts(qs, ops, h, i, j) == 0
  {
    PositionInEveryRun(qs, clocks, ops, reannounce, h, p, i, j);
    ScheduledInEveryRun(qs, clocks, ops, reannounce, j);
    assert StepAt(qs, clocks, ops, reannounce, j);
    var p' := p + Shifts(qs, ops, h, i, j);
    if p' > 0 { assert qs[j].entries[0].hash != qs[j].entries[p'].hash; }
  }

  function AddsIn(ops: seq<Op>): nat {
    if ops == [] then 0 else AddsIn(ops[..|ops| - 1]) + if ops[|ops| - 1].DoAdd? then 1 else 0
  }

  function TicksIn(ops: seq<Op>): nat {
    if ops == [] then 0 else TicksIn(ops[..|ops| - 1]) + if ops[|ops| - 1].DoTick? then 1 else 0
  }

  lemma {:induction false} ShiftsBound(qs: seq<Queue>, ops: seq<Op>, h: Bitmap, i: nat, j: nat)
    requires i <= j <= |ops| < |qs|
    ensures Shifts(qs, ops, h, i, j) + TicksIn(ops[i..j]) <= AddsIn(ops[i..j])
  {
    if i < j {
      ShiftsBound(qs, ops, h, i, j - 1);
      assert ops[i..j][..j - 1 - i] == ops[i..j - 1];
    }
  }

  /**
    A due hash with p hashes ahead of it is announced, unless it is removed, as soon as the wake-ups outnumber p
    and the hashes added since.
  */
  lemma DueHashIsAnnounced(
    qs: seq<Queue>, clocks: seq<int>, ops: seq<Op>, reannounce: int, h: Bitmap, p: nat, i: nat, j: nat)
    requires IsRun(qs, clocks, ops, reannounce) && i <= j <= |ops| && Waits(qs[i], h, p, clocks[i], reannounce)
    requires forall k :: i <= k < j ==> ops[k] != DoRemove(h)
    requires TicksIn(ops[i..j]) > p + AddsIn(ops[i..j])
    ensures exists k :: i <= k < j && Announces(qs[k], ops[k], h, reannounce)
  {
    ShiftsBound(qs, ops, h, i, j);
    if PassedOver(qs, ops, h, reannounce, i, j) {
      PositionInEveryRun(qs, clocks, ops, reannounce, h, p, i, j);
    }
  }

  // ---------------------------------------------------------------------------
  // A new hash goes to the front, so adding faster than announcing starves the rest
  // ---------------------------------------------------------------------------

  /** The queue of one hash that was never announced. */
  function Alone(h: Bitmap): Queue { Queue([Entry(h, None)], Limiter) }

  /** Adding x, announcing it and removing it again leaves the queue as it was. */
  lemma Detour(h: Bitmap, x: Bitmap, reannounce: int)
    requires x != h
    ensures var q1 := AddHash(Alone(h), x);
            var q2 := Tick(q1, 0, 0, reannounce);
            && Announces(q1, DoTick(0, 0), x, reannounce) && RemoveHash(q2, x) == Alone(h)
            && q1.entries == [Entry(x, None), Entry(h, None)] && q1.wake == Limiter
            && q2.entries == [Entry(h, None), Entry(x, Some(0))]
  {
    var q1 := AddHash(Alone(h), x);
    assert Hashes(Alone(h).entries) == {h};
    assert q1.entries == [Entry(x, None), Entry(h, None)];
    var q2 := Tick(q1, 0, 0, reannounce);
    assert q2.entries == [Entry(h, None), Entry(x, Some(0))];
    OnlyIndex(q2.entries, x, 1);
    assert q2.entries[..1] == [Entry(h, None)] && q2.entries[2..] == [];
  }

  /** op announces or changes something else, and h, never announced, is in the queue afterwards. */
  predicate Bypasses(q: Queue, op: Op, q': Queue, reannounce: int, h: Bitmap) {
    && op != DoRemove(h) && !Announces(q, op, h, reannounce) && Entry(h, None) in q'.entries
    && (op.DoTick? ==> q.entries != [] && Due(q.entries[0], op.now, reannounce))
  }

  /** A run with n announcements, none of them of h, which is due and in the queue from the first operation on. */
  predicate Starves(qs: seq<Queue>, clocks: seq<int>, ops: seq<Op>, reannounce: int, h: Bitmap, n: nat) {
    && IsRun(qs, clocks, ops, reannounce) && TicksIn(ops) == n
    && forall k :: 0 <= k < |ops| ==> Bypasses(qs[k], ops[k], qs[k + 1], reannounce, h)
  }

  /** Extends such a run by one operation. */
  lemma StarvesOn(qs: seq<Queue>, clocks: seq<int>, ops: seq<Op>, reannounce: int, h: Bitmap, n: nat, op: Op, q: Queue)
    requires Starves(qs, clocks, ops, reannounce, h, n)
    requires Enabled(qs[|ops|], op) && Forward(clocks[|ops|], op) && Bypasses(qs[|ops|], op, q, reannounce, h)
    requires Step(qs[|ops|], op, reannounce) == Returned(q)
    ensures Starves(qs + [q], clocks + [ClockAfter(clocks[|ops|], op)], ops + [op], reannounce, h,
                    if op.DoTick? then n + 1 else n)
  {
    var qs', clocks', ops' := qs + [q], clocks + [ClockAfter(clocks[|ops|], op)], ops + [op];
    assert ops'[..|ops|] == ops;
    forall k: nat | k < |ops'| ensures StepAt(qs', clocks', ops', reannounce, k) {
      if k < |ops| { assert StepAt(qs, clocks, ops, reannounce, k); }
    }
  }

  lemma StarveOnce(qs: seq<Queue>, clocks: seq<int>, ops: seq<Op>, reannounce: int, h: Bitmap, x: Bitmap, n: nat)
    returns (qs': seq<Queue>, clocks': seq<int>, ops': seq<Op>)
    requires Starves(qs, clocks, ops, reannounce, h, n) && qs[|ops|] == Alone(h) && clocks[|ops|] == 0 && x != h
    ensures Starves(qs', clocks', ops', reannounce, h, n + 1) && qs'[|ops'|] == Alone(h) && clocks'[|ops'|] == 0
  {
    var q1 := AddHash(Alone(h), x);
    var q2 := Tick(q1, 0, 0, reannounce);
    Detour(h, x, reannounce);
    StarvesOn(qs, clocks, ops, reannounce, h, n, DoAdd(x), q1);
    qs', clocks', ops' := qs + [q1], clocks + [0], ops + [DoAdd(x)];
    StarvesOn(qs', clocks', ops', reannounce, h, n, DoTick(0, 0), q2);
    qs', clocks', ops' := qs' + [q2], clocks' + [0], ops' + [DoTick(0, 0)];
    StarvesOn(qs', clocks', ops', reannounce, h, n + 1, DoRemove(x), Alone(h));
    qs', clocks', ops' := qs' + [Alone(h)], clocks' + [0], ops' + [DoRemove(x)];
  }

  /** However many announcements are made, a due hash may get none of them. */
  lemma {:induction false} AddsCanStarve(reannounce: int, h: Bitmap, x: Bitmap, n: nat)
    returns (qs: seq<Queue>, clocks: seq<int>, ops: seq<Op>)
    requires x != h
    ensures Starves(qs, clocks, ops, reannounce, h, n) && qs[|ops|] == Alone(h) && clocks[|ops|] == 0
  {
    if n == 0 {
      qs, clocks, ops := [Queue([], Never), Alone(h)], [0, 0], [DoAdd(h)];
      assert AddHash(qs[0], h) == Alone(h);
    } else {
      qs, clocks, ops := AddsCanStarve(reannounce, h, x, n - 1);
      qs, clocks, ops := StarveOnce(qs, clocks, ops, reannounce, h, x, n - 1);
    }
  }
}
