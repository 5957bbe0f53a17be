/** The announcer's queue as the linked ring and map the program keeps (dht/dht_announce.go, container/ring). */
module Ring {
  import opened Bits
  import opened Results
  import A = Announcer

  class Node {
    var next: Node?
    var prev: Node?
    const hash: Bitmap
    var last: Option<int>

    /** `ring.New(1)`: a ring of one. */
    constructor (hash: Bitmap)
      ensures next == this && prev == this && this.hash == hash && last == None
    {
      this.hash := hash;
      last := None;
      new;
      next, prev := this, this;
    }

    function View(): A.Entry
      reads this`last
    {
      A.Entry(hash, last)
    }

    /**
      `Link`: puts s right after this node, and what came before s in front of what came after this; neighbours
      stay as they are.
    */
    method Link(s: Node)
      requires next != null && s.prev != null
      modifies this`next, s`prev, next`prev, s.prev`next
      ensures next == if old(s.prev) == this then old(next) else s
      ensures s.prev == if old(next) == s then old(s.prev) else this
      ensures old(next).prev == old(s.prev) && old(s.prev).next == old(next)
    {
      var n, p := next, s.prev;
      next := s;
      s.prev := this;
      n.prev := p;
      p.next := n;
    }
  }

  ghost predicate Joined(a: Node, b: Node)
    reads a`next, b`prev
  {
    a.next == b && b.prev == a
  }

  ghost predicate Distinct(nodes: seq<Node>) { forall i, j :: 0 <= i < j < |nodes| ==> nodes[i] != nodes[j] }

  /** A circular doubly linked list: consecutive nodes are joined, and so are the last and the first. */
  ghost predicate Linked(nodes: seq<Node>)
    reads NodeSet(nodes)`next, NodeSet(nodes)`prev
  {
    && Distinct(nodes)
    && (forall i, j :: 0 <= i && j == i + 1 && j < |nodes| ==> Joined(nodes[i], nodes[j]))
    && (nodes != [] ==> Joined(nodes[|nodes| - 1], nodes[0]))
  }

  lemma LinkedRotates(nodes: seq<Node>)
    requires Linked(nodes) && nodes != []
    ensures Linked(nodes[1..] + [nodes[0]])
  {
  }

  lemma LinkedInFront(r: Node, nodes: seq<Node>)
    requires Distinct(nodes) && r !in nodes
    requires forall i, j :: 0 <= i && j == i + 1 && j < |nodes| ==> Joined(nodes[i], nodes[j])
    requires if nodes == [] then Joined(r, r) else Joined(r, nodes[0]) && Joined(nodes[|nodes| - 1], r)
    ensures Linked([r] + nodes)
  {
  }

  /** What is left of a ring when the neighbours of node k have been joined. */
  lemma LinkedWithout(nodes: seq<Node>, k: nat)
    requires Distinct(nodes) && |nodes| >= 2 && k < |nodes|
    requires forall i, j :: 0 <= i && j == i + 1 && j < |nodes| && i != k && j != k ==> Joined(nodes[i], nodes[j])
    requires var n := |nodes|;
             if k == 0 then Joined(nodes[n - 1], nodes[1])
             else if k == n - 1 then Joined(nodes[n - 2], nodes[0])
             else Joined(nodes[k - 1], nodes[k + 1]) && Joined(nodes[n - 1], nodes[0])
    ensures Linked(nodes[..k] + nodes[k + 1..])
  {
    var s := nodes[..k] + nodes[k + 1..];
    forall i, j | 0 <= i && j == i + 1 && j < |s| ensures Joined(s[i], s[j]) {
      if k <= i { assert s[i] == nodes[i + 1] && s[j] == nodes[j + 1]; }
    }
  }

  function NodeSet(nodes: seq<Node>): set<Node> { set x | x in nodes }

  /** `queue.Prev().Link(r)` */
  method PutInFront(r: Node, queue: Node, ghost nodes: seq<Node>)
    requires Linked(nodes) && nodes != [] && queue == nodes[0] && r !in nodes && Joined(r, r)
    modifies r`next, r`prev, NodeSet(nodes)`next, NodeSet(nodes)`prev
    ensures Linked([r] + nodes) && Views([r] + nodes) == [r.View()] + old(Views(nodes))
  {
    assert queue.prev == nodes[|nodes| - 1];
    queue.prev.Link(r);
    LinkedInFront(r, nodes);
  }

  /** `r.Prev().Link(r.Next())` */
  method Unlink(r: Node, ghost nodes: seq<Node>, ghost k: nat)
    requires Linked(nodes) && |nodes| >= 2 && k < |nodes| && r == nodes[k]
    modifies NodeSet(nodes)`next, NodeSet(nodes)`prev
    ensures var left := nodes[..k] + nodes[k + 1..];
            Linked(left) && Views(left) == old(Views(nodes))[..k] + old(Views(nodes))[k + 1..]
  {
    ghost var n := |nodes|;
    ghost var a, b := if k == 0 then n - 1 else k - 1, if k == n - 1 then 0 else k + 1;
    assert Joined(nodes[a], r) && Joined(r, nodes[b]);
    r.prev.Link(r.next);
    assert Joined(nodes[a], nodes[b]);
    LinkedWithout(nodes, k);
  }

  /** The map names, for each hash, the one node that carries it. */
  ghost predicate Indexed(hashes: map<Bitmap, Node>, nodes: seq<Node>) {
    && (forall i :: 0 <= i < |nodes| ==> nodes[i].hash in hashes && hashes[nodes[i].hash] == nodes[i])
    && (forall h :: h in hashes ==> hashes[h] in nodes && hashes[h].hash == h)
  }

  lemma IndexedKeys(hashes: map<Bitmap, Node>, nodes: seq<Node>, entries: seq<A.Entry>)
    requires Indexed(hashes, nodes) && |entries| == |nodes|
    requires forall i :: 0 <= i < |nodes| ==> entries[i].hash == nodes[i].hash
    ensures hashes.Keys == A.Hashes(entries)
  {
    forall h | h in hashes ensures h in A.Hashes(entries) {
      var i :| 0 <= i < |nodes| && nodes[i] == hashes[h];
      assert entries[i] in entries;
    }
    forall e | e in entries ensures e.hash in hashes {
      var i :| 0 <= i < |entries| && entries[i] == e;
    }
  }

  lemma IndexedWithout(hashes: map<Bitmap, Node>, nodes: seq<Node>, k: nat)
    requires Indexed(hashes, nodes) && Distinct(nodes) && k < |nodes|
    ensures Indexed(hashes - {nodes[k].hash}, nodes[..k] + nodes[k + 1..])
  {
    var s, m := nodes[..k] + nodes[k + 1..], hashes - {nodes[k].hash};
    forall i | 0 <= i < |s| ensures s[i].hash in m && m[s[i].hash] == s[i] {
      assert s[i] == nodes[if i < k then i else i + 1];
    }
    forall h | h in m ensures m[h] in s {
      var i :| 0 <= i < |nodes| && nodes[i] == hashes[h];
      assert s[if i < k then i else i - 1] == nodes[i];
    }
  }

  lemma IndexedRotates(hashes: map<Bitmap, Node>, nodes: seq<Node>)
    requires Indexed(hashes, nodes) && nodes != []
    ensures Indexed(hashes, nodes[1..] + [nodes[0]])
  {
    var s := nodes[1..] + [nodes[0]];
    forall h | h in hashes ensures hashes[h] in s {
      var i :| 0 <= i < |nodes| && nodes[i] == hashes[h];
      assert s[if i == 0 then |s| - 1 else i - 1] == nodes[i];
    }
  }

  function Views(nodes: seq<Node>): (r: seq<A.Entry>)
    reads nodes
    ensures |r| == |nodes|
  {
    seq(|nodes|, i requires 0 <= i < |nodes| reads nodes => nodes[i].View())
  }

  class Announcer {
    const reannounce: int
    var queue: Node?
    var hashes: map<Bitmap, Node>
    var wake: A.Wake
    ghost var nodes: seq<Node>

    /** The ring reachable from queue holds each key of hashes exactly once, at the node the map names. */
    ghost predicate Valid()
      reads this, nodes
    {
      && Linked(nodes)
      && queue == (if nodes == [] then null else nodes[0])
      && Indexed(hashes, nodes)
      && A.Sound(View())
    }

    ghost function View(): A.Queue
      reads this, nodes
    {
      A.Queue(Views(nodes), wake)
    }

    constructor (reannounce: int)
      ensures Valid() && nodes == [] && this.reannounce == reannounce && View() == A.Queue([], A.Never)
    {
      this.reannounce := reannounce;
      queue, hashes, wake, nodes := null, map[], A.Never, [];
    }

    /** The map's keys are the queue's hashes. */
    lemma KeysAreHashes()
      requires Valid()
      ensures hashes.Keys == A.Hashes(View().entries) && |hashes| == |nodes|
    {
      IndexedKeys(hashes, nodes, View().entries);
      HashesCount(View().entries);
      assert |hashes| == |hashes.Keys|;
    }

    /** Assigns the loop's variables. */
    method Become(queue: Node?, hashes: map<Bitmap, Node>, wake: A.Wake, ghost nodes: seq<Node>, ghost view: A.Queue)
      requires Linked(nodes) && Indexed(hashes, nodes) && queue == (if nodes == [] then null else nodes[0])
      requires A.Sound(view) && view == A.Queue(Views(nodes), wake)
      modifies this
      ensures Valid() && this.nodes == nodes && View() == view
    {
      this.queue, this.hashes, this.wake, this.nodes := queue, hashes, wake, nodes;
      assert Views(this.nodes) == view.entries;
      assert Linked(this.nodes);
    }

    method Insert(h: Bitmap)
      requires Valid() && h !in hashes && A.Sound(A.Queue([A.Entry(h, None)] + View().entries, A.Limiter))
      modifies this, NodeSet(nodes)`next, NodeSet(nodes)`prev
      ensures Valid() && View() == A.Queue([A.Entry(h, None)] + old(View().entries), A.Limiter)
      ensures nodes != [] && fresh(nodes[0]) && nodes[1..] == old(nodes)
    {
      ghost var entries := View().entries;
      var r := new Node(h);
      if queue != null {
        PutInFront(r, queue, nodes);
      }
      IndexedInFront(hashes, nodes, r);
      Become(r, hashes[h := r], A.Limiter, [r] + nodes, A.Queue([A.Entry(h, None)] + entries, A.Limiter));
    }

    /** The add branch of the announcer's loop. */
    method Add(h: Bitmap)
      requires Valid()
      modifies this, NodeSet(nodes)`next, NodeSet(nodes)`prev
      ensures Valid() && View() == A.AddHash(old(View()), h)
      ensures h in old(hashes) ==> nodes == old(nodes)
      ensures h !in old(hashes) ==> nodes != [] && fresh(nodes[0]) && nodes[1..] == old(nodes)
    {
      KeysAreHashes();
      A.AddSound(View(), h);
      if h !in hashes { Insert(h); }
    }

    ghost predicate SoundWithout(k: nat)
      reads this, nodes
    {
      var q := View();
      && k < |q.entries|
      && A.Sound(A.Queue(q.entries[..k] + q.entries[k + 1..], if |q.entries| == 1 then A.Never else q.wake))
    }

    method Drop(r: Node, ghost k: nat)
      requires Valid() && k < |nodes| && nodes[k] == r && SoundWithout(k) && |hashes| == |nodes|
      modifies this, NodeSet(nodes)`next, NodeSet(nodes)`prev
      ensures Valid() && nodes == old(nodes[..k] + nodes[k + 1..])
      ensures View() == A.Queue(old(View().entries[..k] + View().entries[k + 1..]),
                                if |old(nodes)| == 1 then A.Never else old(wake))
    {
      ghost var q := View();
      ghost var left, entries := nodes[..k] + nodes[k + 1..], q.entries[..k] + q.entries[k + 1..];
      IndexedWithout(hashes, nodes, k);
      var rest := hashes - {r.hash};
      assert |rest| == |nodes| - 1;
      var front, newWake := null, A.Never;
      if |rest| != 0 {
        front, newWake := if r == queue then queue.next else queue, wake;
        assert front == left[0];
        Unlink(r, nodes, k);
      }
      Become(front, rest, newWake, left, A.Queue(entries, newWake));
    }

    /** The remove branch. */
    method Remove(h: Bitmap)
      requires Valid()
      modifies this, NodeSet(nodes)`next, NodeSet(nodes)`prev
      ensures Valid() && View() == A.RemoveHash(old(View()), h)
      ensures forall n :: n in nodes ==> n in old(nodes)
    {
      KeysAreHashes();
      A.RemoveSound(View(), h);
      if h in hashes {
        var r := hashes[h];
        ghost var k := A.IndexOf(View().entries, h);
        assert nodes[k] == r;
        Drop(r, k);
      }
    }

    method Rotate(later: int)
      requires Valid() && nodes != []
      requires A.Sound(A.Queue(View().entries[1..] + [A.Entry(nodes[0].hash, Some(later))], A.Limiter))
      modifies this, NodeSet(nodes)`last
      ensures Valid() && nodes == old(nodes[1..] + [nodes[0]])
      ensures View() == A.Queue(old(View().entries[1..]) + [A.Entry(old(nodes)[0].hash, Some(later))], A.Limiter)
    {
      ghost var entries := View().entries;
      queue.last := Some(later);
      LinkedRotates(nodes);
      IndexedRotates(hashes, nodes);
      ViewsRotated(nodes, entries, later);
      Become(queue.next, hashes, A.Limiter, nodes[1..] + [nodes[0]],
             A.Queue(entries[1..] + [A.Entry(nodes[0].hash, Some(later))], A.Limiter));
    }

    /** The wake-up branch: the hash announced, if any. */
    method Tick(now: int, later: int) returns (announced: Option<Bitmap>)
      requires Valid() && wake != A.Never
      modifies this, NodeSet(nodes)`last
      ensures Valid() && View() == A.Tick(old(View()), now, later, reannounce)
      ensures forall n :: n in nodes ==> n in old(nodes)
      ensures var e := old(View()).entries[0];
              announced == if A.Due(e, now, reannounce) then Some(e.hash) else None
    {
      A.TickSound(View(), now, later, reannounce);
      if queue.last.Some? && queue.last.value + reannounce > now {
        wake := A.Timer(queue.last.value + reannounce);
        return None;
      }
      announced := Some(queue.hash);
      Rotate(later);
    }

    /** One turn of the loop, on whichever channel is ready. */
    method Do(op: A.Op) returns (announced: Option<Bitmap>)
      requires Valid() && A.Enabled(View(), op)
      modifies this, nodes
      ensures Valid() && A.Step(old(View()), op, reannounce) == Returned(View())
      ensures forall n :: n in nodes ==> n in old(nodes) || fresh(n)
      ensures announced == AnnouncedBy(old(View()), op, reannounce)
    {
      announced := None;
      match op
      case DoAdd(h) => Add(h);
      case DoRemove(h) => Remove(h);
      case DoTick(now, later) => announced := Tick(now, later);
    }
  }

  /** What an operation announces from this queue, if anything. */
  function AnnouncedBy(q: A.Queue, op: A.Op, reannounce: int): Option<Bitmap> {
    if op.DoTick? && q.entries != [] && A.Due(q.entries[0], op.now, reannounce) then Some(q.entries[0].hash) else None
  }

  /** `runAnnouncer` on any history: the linked ring goes through its queues and announces its hashes. */
  method RunAnnouncer(reannounce: int, ops: seq<A.Op>, ghost qs: seq<A.Queue>, ghost clocks: seq<int>)
    returns (a: Announcer, announced: seq<Option<Bitmap>>)
    requires A.IsRun(qs, clocks, ops, reannounce)
    ensures fresh(a) && a.Valid() && a.View() == qs[|ops|]
    ensures |announced| == |ops|
    ensures forall k :: 0 <= k < |ops| ==> announced[k] == AnnouncedBy(qs[k], ops[k], reannounce)
  {
    a := new Announcer(reannounce);
    announced := [];
    for i := 0 to |ops|
      invariant fresh(a) && a.Valid() && a.reannounce == reannounce && a.View() == qs[i]
      invariant forall n :: n in a.nodes ==> fresh(n)
      invariant |announced| == i && forall k :: 0 <= k < i ==> announced[k] == AnnouncedBy(qs[k], ops[k], reannounce)
    {
      assert A.StepAt(qs, clocks, ops, reannounce, i);
      var now := a.Do(ops[i]);
      announced := announced + [now];
    }
  }

  lemma IndexedInFront(hashes: map<Bitmap, Node>, nodes: seq<Node>, r: Node)
    requires Indexed(hashes, nodes) && r.hash !in hashes
    ensures Indexed(hashes[r.hash := r], [r] + nodes)
  {
  }

  lemma ViewsRotated(nodes: seq<Node>, before: seq<A.Entry>, later: int)
    requires Distinct(nodes) && nodes != [] && |before| == |nodes|
    requires nodes[0].last == Some(later) && before[0].hash == nodes[0].hash
    requires forall i :: 0 < i < |nodes| ==> nodes[i].View() == before[i]
    ensures Views(nodes[1..] + [nodes[0]]) == before[1..] + [A.Entry(before[0].hash, Some(later))]
  {
  }

  lemma {:induction false} HashesCount(entries: seq<A.Entry>)
    requires A.DistinctHashes(entries)
    ensures |A.Hashes(entries)| == |entries|
  {
    if entries != [] {
      var n := |entries| - 1;
      HashesCount(entries[..n]);
      assert entries == entries[..n] + [entries[n]];
      assert A.Hashes(entries) == A.Hashes(entries[..n]) + {entries[n].hash};
      assert entries[n].hash !in A.Hashes(entries[..n]);
    }
  }
}
