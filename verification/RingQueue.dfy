/**
 The circular list of sdk/log/ring.go and the record queue of sdk/log/batch.go that lives on it.

 `Contents` below is the abstract value of a queue: the records it holds, oldest first.  The functions of
 module QueueSpec say what each queue operation does to that value; class Queue refines them on a heap-allocated
 ring of nodes.
 */
module QueueSpec {
  import opened Prelude

  const TWO_TO_64: nat := 0x1_0000_0000_0000_0000

  /** The last `n` elements of `s`, or all of it when it is shorter. */
  function LastN<T>(s: seq<T>, n: nat): seq<T> {
    if |s| <= n then s else s[|s| - n..]
  }

  /** Contents after enqueueing: the oldest record makes room when the queue is full. */
  function Enqueued<T>(items: seq<T>, cap: nat, r: T): (out: seq<T>) {
    LastN(items + [r], cap)
  }

  /** The records a dequeue into a buffer of `room` places is about to take. */
  function Batch<T>(items: seq<T>, room: nat): seq<T> {
    items[..Min(room, |items|)]
  }

  /** Contents after a dequeue whose batch was (or was not) accepted. */
  function Dequeued<T>(items: seq<T>, room: nat, accepted: bool): seq<T> {
    if accepted then items[Min(room, |items|)..] else items
  }

  // ----- whole runs of queue operations -----

  /** One queue operation.  `DequeueOp` carries the answer of the `write` callback. */
  datatype Op<T> = EnqueueOp(record: T) | DequeueOp(room: nat, accepted: bool) | FlushOp | DroppedOp

  /** A queue with the history of what happened to it. */
  datatype History<T> = History(
    items: seq<T>,       // the queue's contents
    all: seq<T>,         // everything ever enqueued
    removed: nat,        // records handed to a batch or a flush
    overwritten: nat,    // records lost to overflow
    dropped: nat,        // the queue's own counter, modulo 2^64
    reported: nat,       // sum of the values returned by Dropped
    wraps: nat)          // how often the counter passed 2^64

  function Empty<T>(): History<T> {
    History([], [], 0, 0, 0, 0, 0)
  }

  function Apply<T>(h: History<T>, cap: nat, op: Op<T>): History<T> {
    match op
    case EnqueueOp(r) =>
      var lost := |h.items| == cap;
      h.(items := Enqueued(h.items, cap, r),
         all := h.all + [r],
         overwritten := if lost then h.overwritten + 1 else h.overwritten,
         dropped := if lost then (h.dropped + 1) % TWO_TO_64 else h.dropped,
         wraps := if lost && h.dropped == TWO_TO_64 - 1 then h.wraps + 1 else h.wraps)
    case DequeueOp(room, accepted) =>
      var items := Dequeued(h.items, room, accepted);
      h.(items := items, removed := h.removed + |h.items| - |items|)
    case FlushOp => h.(items := [], removed := h.removed + |h.items|)
    case DroppedOp => h.(dropped := 0, reported := h.reported + h.dropped)
  }

  function Run<T>(h: History<T>, cap: nat, ops: seq<Op<T>>): History<T>
    decreases |ops|
  {
    if ops == [] then h else Run(Apply(h, cap, ops[0]), cap, ops[1..])
  }

  /** The overwritten records are those reported and those counted since, but for the overflows of the counter. */
  predicate Counted<T>(h: History<T>) {
    h.dropped < TWO_TO_64 && h.overwritten == h.reported + h.dropped + TWO_TO_64 * h.wraps
  }

  ghost predicate Consistent<T>(h: History<T>, cap: nat) {
    && |h.items| <= cap
    && |h.items| <= |h.all|
    && h.items == h.all[|h.all| - |h.items|..]
    && |h.all| == h.removed + h.overwritten + |h.items|
    && Counted(h)
  }

  lemma ApplyConsistent<T>(h: History<T>, cap: nat, op: Op<T>)
    requires cap >= 1 && Consistent(h, cap)
    ensures Consistent(Apply(h, cap, op), cap)
  {
    match op
    case EnqueueOp(r) =>
    case DequeueOp(room, accepted) =>
    case FlushOp =>
    case DroppedOp =>
  }

  /**
   Over any run the queue holds exactly the most recent records, every enqueued record is removed, overwritten or
   still held, and the `Dropped` reports account for every overwritten record (modulo the counter's 64 bits).
   */
  lemma {:induction false} RunKeepsLatest<T>(h: History<T>, cap: nat, ops: seq<Op<T>>)
    requires cap >= 1 && Consistent(h, cap)
    ensures Consistent(Run(h, cap, ops), cap)
    decreases |ops|
  {
    if ops != [] {
      ApplyConsistent(h, cap, ops[0]);
      RunKeepsLatest(Apply(h, cap, ops[0]), cap, ops[1..]);
    }
  }

  /** Any run that starts with an empty queue does. */
  lemma RunFromEmpty<T>(cap: nat, ops: seq<Op<T>>)
    requires cap >= 1
    ensures Consistent(Run(Empty(), cap, ops), cap)
  {
    RunKeepsLatest(Empty(), cap, ops);
  }
}

module RingQueue {
  import opened Prelude
  import opened QueueSpec

  /** A log record; the queue only ever copies it. */
  datatype Record = Record(body: int)

  /** A node of a circular list; a node just allocated is a ring of one that is not linked yet. */
  class Ring {
    var next: Ring?
    var prev: Ring?
    var value: Record

    constructor ()
      ensures next == null && prev == null
    {
      next, prev, value := null, null, Record(0);
    }

    method Init() returns (r: Ring)
      modifies this`next, this`prev
      ensures r == this && next == this && prev == this
      ensures IsCycle([this])
    {
      next := this;
      prev := this;
      r := this;
    }

    /** What Next returns on a linked node, where it changes nothing. */
    function Following(): Ring
      requires next != null
      reads this
    {
      next
    }

    method Next() returns (r: Ring)
      modifies if next == null then {this} else {}
      ensures old(next) != null ==> r == Following()
      ensures old(next) == null ==> r == this && value == old(value) && IsCycle([this])
    {
      if next == null {
        r := Init();
      } else {
        r := next;
      }
    }

    method Prev() returns (r: Ring?)
      modifies if next == null then {this} else {}
      ensures old(next) != null ==> r == old(prev)
      ensures old(next) == null ==> r == this && value == old(value) && IsCycle([this])
    {
      if next == null {
        r := Init();
      } else {
        r := prev;
      }
    }
  }

  /** Index `i` of a ring of `n` nodes, for an `i` that has gone round at most once. */
  function Wrap(i: nat, n: nat): nat {
    if i < n then i else i - n
  }

  /** `nodes` lists all nodes of one ring in forward order; `next` and `prev` are inverse to each other. */
  ghost predicate IsCycle(nodes: seq<Ring>)
    reads nodes
  {
    && |nodes| >= 1
    && (forall i, j :: 0 <= i < j < |nodes| ==> Distinct(nodes, i, j))
    && (forall i :: 0 <= i < |nodes| ==> Linked(nodes, i))
  }

  ghost predicate Distinct(nodes: seq<Ring>, i: nat, j: nat)
    requires i < |nodes| && j < |nodes|
  {
    nodes[i] != nodes[j]
  }

  /** Node `i` points to its neighbours, the last node's successor being the first node. */
  ghost predicate Linked(nodes: seq<Ring>, i: nat)
    requires i < |nodes|
    reads nodes[i]
  {
    && nodes[i].next == nodes[Wrap(i + 1, |nodes|)]
    && nodes[i].prev == nodes[Wrap(i + |nodes| - 1, |nodes|)]
  }

  /** On a ring, following `next` and then `prev` (or the other way round) comes back to the same node. */
  lemma NextPrevInverse(nodes: seq<Ring>, i: nat)
    requires IsCycle(nodes) && i < |nodes|
    ensures nodes[i].next != null && nodes[i].next.prev == nodes[i]
    ensures nodes[i].prev != null && nodes[i].prev.next == nodes[i]
  {
    var n := |nodes|;
    assert Linked(nodes, i) && Linked(nodes, Wrap(i + 1, n)) && Linked(nodes, Wrap(i + n - 1, n));
    assert Wrap(Wrap(i + 1, n) + n - 1, n) == i;
    assert Wrap(Wrap(i + n - 1, n) + 1, n) == i;
  }

  /** Allocates a ring of `n` nodes; there is none for n <= 0. */
  method NewRing(n: int) returns (r: Ring?, ghost nodes: seq<Ring>)
    ensures n <= 0 ==> r == null
    ensures n > 0 ==> |nodes| == n && r == nodes[0] && IsCycle(nodes) && fresh(nodes)
  {
    if n <= 0 {
      return null, [];
    }
    var first := new Ring();
    var p := first;
    nodes := [first];
    for i := 1 to n
      invariant |nodes| == i && nodes[0] == first && nodes[i - 1] == p
      invariant fresh(nodes)
      invariant forall a, b :: 0 <= a < b < i ==> nodes[a] != nodes[b]
      invariant forall a :: 0 <= a < i - 1 ==> nodes[a].next == nodes[a + 1]
      invariant forall a :: 1 <= a < i ==> nodes[a].prev == nodes[a - 1]
    {
      var node := new Ring();
      node.prev := p;
      p.next := node;
      p := node;
      nodes := nodes + [node];
    }
    p.next := first;
    first.prev := p;
    r := first;
    assert forall a, b :: 0 <= a < b < n ==> Distinct(nodes, a, b);
  }

  /** Counts the nodes of the ring `r` belongs to: none for nil, one for an unlinked node, all of them for a ring. */
  method Len(r: Ring?, ghost nodes: seq<Ring>, ghost start: nat) returns (n: nat)
    requires r != null && r.next != null ==> IsCycle(nodes) && start < |nodes| && r == nodes[start]
    modifies if r == null || r.next != null then {} else {r}
    ensures r == null ==> n == 0
    ensures r != null && old(r.next) == null ==> n == 1 && IsCycle([r])
    ensures r != null && old(r.next) != null ==> n == |nodes| && IsCycle(nodes)
  {
    n := 0;
    if r != null {
      ghost var ring := if r.next == null then [r] else nodes;
      ghost var at: nat := if r.next == null then 0 else start;
      n := 1;
      var p := r.Next();
      assert IsCycle(ring);
      assert Linked(ring, at);
      while p != r
        invariant 1 <= n <= |ring| && IsCycle(ring)
        invariant p == ring[Wrap(at + n, |ring|)]
        decreases |ring| - n
      {
        assert Linked(ring, Wrap(at + n, |ring|));
        n := n + 1;
        p := p.next;
      }
      assert n < |ring| ==> Distinct(ring, Min(at, Wrap(at + n, |ring|)), Max(at, Wrap(at + n, |ring|)));
    }
  }

  /** Node `i` of the ring holds value `i` of `vals`. */
  ghost predicate Holds(nodes: seq<Ring>, vals: seq<Record>, i: nat)
    requires i < |nodes| && i < |vals|
    reads nodes[i]
  {
    nodes[i].value == vals[i]
  }

  /** The ring holds the values `vals`. */
  ghost predicate RingHolds(nodes: seq<Ring>, vals: seq<Record>)
    reads nodes
  {
    IsCycle(nodes) && |vals| == |nodes| && forall i :: 0 <= i < |nodes| ==> Holds(nodes, vals, i)
  }

  /** The `len` values found from place `start` on, going round the ring of values `vals`. */
  ghost function Window<T>(vals: seq<T>, start: nat, len: nat): (w: seq<T>)
    requires start < |vals| && len <= |vals|
    ensures |w| == len
    ensures forall i :: 0 <= i < len ==> w[i] == vals[Wrap(start + i, |vals|)]
  {
    seq(len, i requires 0 <= i < len => vals[Wrap(start + i, |vals|)])
  }

  /** Writing at the end of the window appends to it, or replaces its oldest value when it spans the ring. */
  lemma WindowPut<T>(vals: seq<T>, start: nat, len: nat, r: T)
    requires start < |vals| && len <= |vals|
    ensures var vals' := vals[Wrap(start + len, |vals|) := r];
            Enqueued(Window(vals, start, len), |vals|, r) ==
            if len < |vals| then Window(vals', start, len + 1) else Window(vals', Wrap(start + 1, |vals|), len)
  {
  }

  /** The place behind the one behind the window, when the window grows or, spanning the ring, moves on. */
  lemma WrapNext(start: nat, len: nat, n: nat)
    requires start < n && len <= n
    ensures Wrap(Wrap(start + len, n) + 1, n)
         == if len < n then Wrap(start + len + 1, n) else Wrap(Wrap(start + 1, n) + len, n)
  {
  }

  /** Moving the start of the window forward drops its oldest values. */
  lemma WindowSkip<T>(vals: seq<T>, start: nat, len: nat, n: nat)
    requires start < |vals| && n <= len <= |vals|
    ensures Wrap(start + n, |vals|) < |vals|
    ensures Window(vals, Wrap(start + n, |vals|), len - n) == Window(vals, start, len)[n..]
  {
  }

  /** The queue of log records: a ring, the oldest node `read`, the next node to write and the number held. */
  class Queue {
    var dropped: nat
    var cap: nat
    var len: nat
    var read: Ring
    var write: Ring
    ghost var nodes: seq<Ring>   // the ring
    ghost var vals: seq<Record>  // the values its nodes hold
    ghost var start: nat         // the place of `read`

    ghost predicate Valid()
      reads this, nodes
    {
      && RingHolds(nodes, vals)
      && cap == |nodes|
      && len <= cap
      && start < cap
      && read == nodes[start]
      && write == nodes[Wrap(start + len, cap)]
      && dropped < TWO_TO_64
    }

    /** The records held, oldest first. */
    ghost function Contents(): (s: seq<Record>)
      requires start < |vals| && len <= |vals|
      reads this
    {
      Window(vals, start, len)
    }

    constructor (size: nat)
      requires size >= 1
      ensures Valid() && fresh(nodes)
      ensures Contents() == [] && cap == size && dropped == 0
    {
      var r, ring := NewRing(size);
      dropped, cap, len := 0, size, 0;
      read, write := r, r;
      nodes, start := ring, 0;
      vals := seq(size, i requires 0 <= i < size reads ring => ring[i].value);
    }

    /** Returns the number of records dropped since the last call, and resets the count. */
    method Dropped() returns (n: nat)
      requires Valid()
      modifies this`dropped
      ensures Valid() && n == old(dropped) && dropped == 0
    {
      n := dropped;
      dropped := 0;
    }

    method Enqueue(r: Record) returns (n: nat)
      requires Valid()
      modifies this, write`value
      ensures Valid() && nodes == old(nodes) && cap == old(cap)
      ensures Contents() == Enqueued(old(Contents()), cap, r)
      ensures n == |Contents()|
      ensures dropped == if old(len) == cap then (old(dropped) + 1) % TWO_TO_64 else old(dropped)
    {
      ghost var items := Contents();
      WindowPut(vals, start, len, r);
      Write(r);
      n := Lengthen();
      assert Window(vals, start, len) == Enqueued(items, cap, r);
    }

    /** The end of Enqueue, when the record has been written behind the window. */
    method Lengthen() returns (n: nat)
      requires RingHolds(nodes, vals) && cap == |nodes| && len <= cap && start < cap && dropped < TWO_TO_64
      requires read == nodes[start] && write == nodes[Wrap(Wrap(start + len, cap) + 1, cap)]
      modifies this`len, this`read, this`start, this`dropped
      ensures Valid() && n == len
      ensures len == if old(len) < cap then old(len) + 1 else cap
      ensures start == if old(len) < cap then old(start) else Wrap(old(start) + 1, cap)
      ensures dropped == if old(len) == cap then (old(dropped) + 1) % TWO_TO_64 else old(dropped)
    {
      WrapNext(start, len, cap);
      len := len + 1;
      if len > cap {
        DropOldest();
      }
      n := len;
    }

    /** The overflow branch of Enqueue: the oldest record has just been overwritten, so `read` moves past it. */
    method DropOldest()
      requires RingHolds(nodes, vals) && cap == |nodes| && start < cap && read == nodes[start]
      modifies this`len, this`read, this`start, this`dropped
      ensures RingHolds(nodes, vals)
      ensures len == cap && start == Wrap(old(start) + 1, cap) && start < cap && read == nodes[start]
      ensures dropped == (old(dropped) + 1) % TWO_TO_64
    {
      len := cap;
      assert Linked(nodes, start);
      read := read.Following();
      start := Wrap(start + 1, cap);
      dropped := (dropped + 1) % TWO_TO_64;
    }

    /** Stores `r` in the node `write` and moves on to the next node. */
    method Write(r: Record)
      requires Valid()
      modifies this`write, this`vals, write`value
      ensures RingHolds(nodes, vals)
      ensures vals == old(vals)[Wrap(start + len, cap) := r]
      ensures write == nodes[Wrap(Wrap(start + len, cap) + 1, cap)]
    {
      ghost var at, ring, n := Wrap(start + len, cap), nodes, cap;
      assert |ring| == n && forall i :: 0 <= i < n ==> Linked(ring, i) && Holds(ring, vals, i);
      assert Linked(ring, at);
      write.value := r;
      vals := vals[at := r];
      write := write.Following();
      forall i | 0 <= i < n
        ensures Linked(ring, i) && Holds(ring, vals, i)
      {
        assert old(Linked(ring, i)) && old(Holds(ring, vals, i));
        assert i < at ==> Distinct(ring, i, at);
        assert at < i ==> Distinct(ring, at, i);
      }
    }

    /**
     Copies up to buf.Length of the oldest records into `buf` and offers them to `accept`, the answer of the
     caller's `write` function.  Only an accepted batch leaves the queue.
     */
    method TryDequeue(buf: array<Record>, accept: seq<Record> -> bool) returns (left: nat)
      requires Valid()
      modifies this`read, this`start, this`len, buf
      ensures Valid()
      ensures buf[..Min(buf.Length, old(len))] == Batch(old(Contents()), buf.Length)
      ensures buf[Min(buf.Length, old(len))..] == old(buf[Min(buf.Length, len)..])
      ensures Contents() == Dequeued(old(Contents()), buf.Length, accept(Batch(old(Contents()), buf.Length)))
      ensures left == |Contents()|
    {
      var origRead := read;
      ghost var origStart := start;
      var n := Min(buf.Length, len);
      WindowSkip(vals, start, len, n);
      CopyOut(buf, n);
      if accept(buf[..n]) {
        len := len - n;
      } else {
        read := origRead;
        start := origStart;
      }
      left := len;
    }

    /** Returns all records held and empties the queue. */
    method Flush() returns (out: array<Record>)
      requires Valid()
      modifies this`read, this`start, this`len
      ensures Valid()
      ensures fresh(out) && out[..] == old(Contents()) && Contents() == []
    {
      out := new Record[len];
      CopyOut(out, len);
      len := 0;
    }

    /** The copying loop of TryDequeue and Flush: fills `buf` with the `n` oldest records and moves `read` past them. */
    method CopyOut(buf: array<Record>, n: nat)
      requires Valid() && n <= len && n <= buf.Length
      modifies this`read, this`start, buf
      ensures RingHolds(nodes, vals)
      ensures start == Wrap(old(start) + n, cap) && start < cap && read == nodes[start]
      ensures buf[..n] == old(Contents())[..n] && buf[n..] == old(buf[n..])
    {
      ghost var before := Contents();
      for i := 0 to n
        invariant RingHolds(nodes, vals)
        invariant start == Wrap(old(start) + i, cap) && start < cap && read == nodes[start]
        invariant forall k :: 0 <= k < i ==> buf[k] == before[k]
        invariant forall k :: i <= k < buf.Length ==> buf[k] == old(buf[k])
      {
        assert Holds(nodes, vals, start);
        buf[i] := read.value;
        assert Linked(nodes, start);
        read := read.Following();
        start := Wrap(start + 1, cap);
      }
    }
  }
}
