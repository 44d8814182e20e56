/**
 The singly linked list with a tail pointer of compiled-tools/bmx/bmxd/list-batman.c, and the
 queue of tasks that schedule.c keeps sorted by time in such a list (144-236). The list of OGMs
 to be sent (799-817, 1512-1530) is kept in the same way; Aggregate has it as a sequence.
 */
module TaskList {
  import opened Seqs

  /** An entry with its list_head; `time` is when it is due. */
  class Node {
    const time: nat
    const id: nat
    var next: Node?

    constructor (t: nat, i: nat)
      ensures time == t && id == i && next == null
    {
      time, id, next := t, i, null;
    }
  }

  // ----- the list as a snapshot of the memory -----

  type Nexts = map<Node, Node?>

  ghost predicate Distinct(s: seq<Node>) { forall i, j :: 0 <= i < j < |s| ==> s[i] != s[j] }

  /** What follows in the ring: the next node, or after the last one the head. */
  function Succ(ring: seq<Node>, k: nat): Node
    requires k < |ring|
  {
    if k + 1 < |ring| then ring[k + 1] else ring[0]
  }

  /** The pointers lead once around the ring, which begins with the head of the list. */
  ghost predicate Linked(nexts: Nexts, ring: seq<Node>)
  {
    && ring != [] && Distinct(ring)
    && forall k :: 0 <= k < |ring| ==> ring[k] in nexts && nexts[ring[k]] == Succ(ring, k)
  }

  lemma LinkedInserted(nexts: Nexts, ring: seq<Node>, i: nat, n: Node)
    requires Linked(nexts, ring) && 0 < i <= |ring| && n !in nexts
    ensures var later := nexts[n := Succ(ring, i - 1)][ring[i - 1] := n]; Linked(later, InsertedAt(ring, i, n))
  {
    var later, b := nexts[n := Succ(ring, i - 1)][ring[i - 1] := n], InsertedAt(ring, i, n);
    assert forall k :: 0 <= k < |ring| ==> ring[k] != n;
    forall k | 0 <= k < |b| ensures b[k] in later && later[b[k]] == Succ(b, k) {
      assert b[0] == ring[0];
      assert k + 1 < |b| ==> b[k + 1] == if k + 1 < i then ring[k + 1] else if k + 1 == i then n else ring[k];
      if k < i {
        assert b[k] == ring[k] && nexts[ring[k]] == Succ(ring, k);
      } else if k == i {
        assert b[k] == n;
      } else {
        assert b[k] == ring[k - 1] && nexts[ring[k - 1]] == Succ(ring, k - 1);
      }
    }
    DistinctInserted(ring, i, n);
  }

  lemma DistinctInserted(s: seq<Node>, i: nat, n: Node)
    requires Distinct(s) && i <= |s| && forall k :: 0 <= k < |s| ==> s[k] != n
    ensures Distinct(InsertedAt(s, i, n))
  {
    var b := InsertedAt(s, i, n);
    forall j, k | 0 <= j < k < |b| ensures b[j] != b[k] {
      assert b[j] == if j < i then s[j] else if j == i then n else s[j - 1];
      assert b[k] == if k < i then s[k] else if k == i then n else s[k - 1];
    }
  }

  lemma LinkedDeleted(nexts: Nexts, ring: seq<Node>, i: nat)
    requires Linked(nexts, ring) && 0 < i < |ring|
    ensures ring[i - 1] in nexts && ring[i] in nexts && nexts[ring[i]] == Succ(ring, i)
    ensures Linked(nexts[ring[i - 1] := nexts[ring[i]]] - {ring[i]}, DeletedAt(ring, i))
  {
    var later, b := nexts[ring[i - 1] := nexts[ring[i]]] - {ring[i]}, DeletedAt(ring, i);
    hide DeletedAt;
    forall k | 0 <= k < |b| ensures b[k] in later && later[b[k]] == Succ(b, k) {
      if k < i - 1 { assert nexts[ring[k]] == ring[k + 1]; }
      if k >= i { assert nexts[ring[k + 1]] == Succ(ring, k + 1); }
    }
  }

  /** The entries are the ring without its head. */
  lemma TailInserted(ring: seq<Node>, i: nat, n: Node)
    requires 0 < i <= |ring|
    ensures InsertedAt(ring, i, n)[1..] == InsertedAt(ring[1..], i - 1, n)
    ensures i == |ring| ==> InsertedAt(ring[1..], i - 1, n) == ring[1..] + [n]
    ensures InsertedAt(ring[1..], 0, n) == [n] + ring[1..]
  {
  }

  // ----- the list functions -----

  class List {
    /** The head, a node of the ring that stands for no entry. */
    const head: Node
    /** head->prev: the last entry, the head itself if there is none. */
    var tail: Node
    ghost var ring: seq<Node>
    ghost var nexts: Nexts

    ghost predicate Valid()
      reads this, nexts.Keys
    {
      && Linked(nexts, ring) && ring[0] == head && tail == ring[|ring| - 1]
      && forall n :: n in nexts ==> n.next == nexts[n]
    }

    ghost function Entries(): seq<Node>
      reads this
      requires ring != []
    {
      ring[1..]
    }

    constructor ()
      ensures Valid() && Entries() == [] && fresh(nexts.Keys)
    {
      var h := new Node(0, 0);
      head, tail, ring, nexts := h, h, [h], map[h := h];
      new;
      h.next := h;
    }

    lemma NextOf(k: nat)
      requires Valid() && k < |ring|
      ensures ring[k] in nexts && ring[k].next == Succ(ring, k) && nexts[ring[k]] == Succ(ring, k)
    {
    }

    lemma IsRing()
      requires Valid()
      ensures ring != [] && ring[0] == head && tail == ring[|ring| - 1] && Distinct(ring)
    {
    }

    /** list_add */
    method Add(n: Node)
      requires Valid() && n !in nexts
      modifies this`tail, this`ring, this`nexts, nexts.Keys, n
      ensures Valid() && Entries() == [n] + old(Entries()) && nexts.Keys == old(nexts.Keys) + {n}
    {
      hide Linked;
      IsRing();
      NextOf(0);
      LinkedInserted(nexts, ring, 1, n);
      ghost var first := Succ(ring, 0);
      n.next := head.next;
      head.next := n;
      if tail == head { tail := n; }
      nexts := nexts[n := first][head := n];
      TailInserted(ring, 1, n);
      ring := InsertedAt(ring, 1, n);
    }

    /** list_add_tail */
    method AddTail(n: Node)
      requires Valid() && n !in nexts
      modifies this`tail, this`ring, this`nexts, nexts.Keys, n
      ensures Valid() && Entries() == old(Entries()) + [n] && nexts.Keys == old(nexts.Keys) + {n}
    {
      hide Linked;
      IsRing();
      NextOf(|ring| - 1);
      LinkedInserted(nexts, ring, |ring|, n);
      n.next := head;
      tail.next := n;
      nexts := nexts[n := head][tail := n];
      tail := n;
      TailInserted(ring, |ring|, n);
      ring := InsertedAt(ring, |ring|, n);
    }

    /** list_add_before: `prev` and `next` are neighbours in the list. */
    method AddBefore(prev: Node, next: Node, n: Node, ghost i: nat)
      requires Valid() && n !in nexts && 0 < i < |ring| && next == ring[i] && prev == ring[i - 1]
      modifies this`ring, this`nexts, nexts.Keys, n
      ensures Valid() && ring == InsertedAt(old(ring), i, n) && nexts.Keys == old(nexts.Keys) + {n}
      ensures Entries() == InsertedAt(old(Entries()), i - 1, n)
    {
      hide Linked;
      IsRing();
      NextOf(i - 1);
      LinkedInserted(nexts, ring, i, n);
      prev.next := n;
      n.next := next;
      nexts := nexts[n := next][prev := n];
      TailInserted(ring, i, n);
      ring := InsertedAt(ring, i, n);
    }

    /** list_del */
    method Del(prev: Node, entry: Node, ghost i: nat)
      requires Valid() && 0 < i < |ring| && entry == ring[i] && prev == ring[i - 1]
      modifies this`tail, this`ring, this`nexts, nexts.Keys
      ensures Valid() && Entries() == DeletedAt(old(Entries()), i - 1) && ring == DeletedAt(old(ring), i)
      ensures nexts.Keys == old(nexts.Keys) - {entry} && entry.next == null
    {
      hide Linked;
      IsRing();
      NextOf(i);
      LinkedDeleted(nexts, ring, i);
      if tail == entry { tail := prev; }
      prev.next := entry.next;
      entry.next := null;
      nexts := nexts[prev := nexts[entry]] - {entry};
      ring := DeletedAt(ring, i);
    }

    // ----- queues sorted by time -----

    /**
     register_task, and the insertion at the end of schedule_rcvd_ogm and schedule_own_ogm: the
     new entry comes before the first one that is due later, or at the end.
     */
    method Register(n: Node)
      requires Valid() && n !in nexts
      modifies this`tail, this`ring, this`nexts, nexts.Keys, n
      ensures Valid() && nexts.Keys == old(nexts.Keys) + {n}
      ensures Entries() == InsertedAt(old(Entries()), FirstLater(old(Entries()), n.time), n)
    {
      hide Linked, FirstLater;
      IsRing();
      var prev, i: nat := head, 1;
      NextOf(0);
      var pos := head.next;
      while pos != head && pos.time <= n.time
        invariant 0 < i <= |ring| && prev == ring[i - 1] && pos == Succ(ring, i - 1)
        invariant forall j :: 0 < j < i ==> ring[j].time <= n.time
        modifies {}
        decreases |ring| - i
      {
        IsRing();
        prev := pos;
        NextOf(i);
        pos := pos.next;
        i := i + 1;
      }
      IsRing();
      FirstLaterAt(Entries(), n.time, i - 1);
      if pos != head {
        AddBefore(prev, pos, n, i);
      } else {
        assert InsertedAt(Entries(), |Entries()|, n) == Entries() + [n];
        AddTail(n);
      }
    }

    /** remove_task: every entry for this task is taken out, and the others keep their order. */
    method RemoveTask(id: nat)
      requires Valid()
      modifies this`tail, this`ring, this`nexts, nexts.Keys
      ensures Valid() && nexts.Keys <= old(nexts.Keys) && Entries() == Except(old(Entries()), id)
    {
      hide Linked, Except, Removing, DeletedAt, InsertedAt, Distinct, Valid, Succ;
      IsRing();
      NextOf(0);
      ghost var es, i := Entries(), 0;
      ghost var k := 1;
      var prev, pos := head, head.next;
      RemovingStart(ring, id);
      while pos != head
        invariant Valid() && nexts.Keys <= old(nexts.Keys) && Removing(ring, es, i, k, id)
        invariant 0 < k <= |ring| && prev == ring[k - 1] && pos == Succ(ring, k - 1)
        decreases |es| - i
      {
        IsRing();
        NextIn(ring, k - 1);
        RemovingMore(ring, es, i, k, id);
        NextOf(k);
        var tmp := pos.next;
        if pos.id == id {
          Del(prev, pos, k);
        } else {
          prev, k := pos, k + 1;
        }
        pos, i := tmp, i + 1;
      }
      IsRing();
      NextIn(ring, k - 1);
      RemovingEnd(ring, es, i, k, id);
    }

    /** whats_next: runs the first task if it is due, otherwise says how long to wait for it. */
    method WhatsNext(now: nat, maxWait: nat) returns (wait: nat, ran: Node?)
      requires Valid()
      modifies this`tail, this`ring, this`nexts, nexts.Keys
      ensures Valid() && nexts.Keys == old(nexts.Keys) - (if ran == null then {} else {ran})
      ensures var es := old(Entries());
        if es == [] then ran == null && wait == maxWait && Entries() == es
        else if es[0].time <= now then ran == es[0] && wait == 0 && Entries() == es[1..]
        else ran == null && wait == es[0].time - now && Entries() == es
    {
      hide Linked;
      IsRing();
      NextOf(0);
      var pos := head.next;
      if pos != head {
        if pos.time <= now {
          Del(head, pos, 1);
          return 0, pos;
        }
        return pos.time - now, null;
      }
      return maxWait, null;
    }
  }

  // ----- order -----

  /** The place of the first entry that is due later. */
  function FirstLater(s: seq<Node>, t: nat): (i: nat)
    ensures i <= |s| && (forall j :: 0 <= j < i ==> s[j].time <= t) && (i < |s| ==> s[i].time > t)
  {
    if s == [] || s[0].time > t then 0 else 1 + FirstLater(s[1..], t)
  }

  lemma {:induction false} FirstLaterAt(s: seq<Node>, t: nat, i: nat)
    requires i <= |s| && (forall j :: 0 <= j < i ==> s[j].time <= t) && (i < |s| ==> s[i].time > t)
    ensures FirstLater(s, t) == i
  {
    if i > 0 { FirstLaterAt(s[1..], t, i - 1); }
  }

  ghost predicate Sorted(s: seq<Node>) { forall i, j :: 0 <= i < j < |s| ==> s[i].time <= s[j].time }

  /**
   A new entry keeps the queue sorted and comes after all that are due at the same time: among
   equal times the order is first in, first out.
   */
  lemma RegisterOrder(s: seq<Node>, n: Node)
    requires Sorted(s)
    ensures var i := FirstLater(s, n.time);
      && Sorted(InsertedAt(s, i, n))
      && (forall j :: 0 <= j < |s| ==> (j < i <==> s[j].time <= n.time))
  {
    hide FirstLater, InsertedAt;
    var i := FirstLater(s, n.time);
    SplitByTime(s, n.time, i);
    InsertedSorted(s, i, n);
  }

  lemma SplitByTime(s: seq<Node>, t: nat, i: nat)
    requires Sorted(s) && i <= |s| && (forall j :: 0 <= j < i ==> s[j].time <= t) && (i < |s| ==> s[i].time > t)
    ensures forall j :: 0 <= j < |s| ==> (j < i <==> s[j].time <= t)
  {
    forall j | 0 <= j < |s| ensures j < i <==> s[j].time <= t {
      assert j > i ==> s[i].time <= s[j].time;
    }
  }

  lemma InsertedSorted(s: seq<Node>, i: nat, n: Node)
    requires Sorted(s) && i <= |s| && forall j :: 0 <= j < |s| ==> (j < i <==> s[j].time <= n.time)
    ensures Sorted(InsertedAt(s, i, n))
  {
    var r := InsertedAt(s, i, n);
    forall j, k | 0 <= j < k < |r| ensures r[j].time <= r[k].time {
      assert r[j] == if j < i then s[j] else if j == i then n else s[j - 1];
      assert r[k] == if k < i then s[k] else if k == i then n else s[k - 1];
    }
  }

  /** No task runs early or before one that is due earlier, and while whats_next asks to wait nothing is due. */
  lemma WaitIsSafe(s: seq<Node>, now: nat)
    requires Sorted(s) && s != []
    ensures s[0].time <= now ==> Sorted(s[1..]) && forall j :: 0 <= j < |s| ==> s[0].time <= s[j].time
    ensures s[0].time > now ==> forall j :: 0 <= j < |s| ==> s[j].time >= now + (s[0].time - now)
  {
  }

  /** What is left without the entries of one task. */
  function Except(s: seq<Node>, id: nat): seq<Node>
  {
    if s == [] then [] else
      var e := s[|s| - 1];
      Except(s[..|s| - 1], id) + if e.id == id then [] else [e]
  }

  /** remove_task is at place k of the ring and has looked at the first i of the entries. */
  ghost predicate Removing(ring: seq<Node>, es: seq<Node>, i: nat, k: nat, id: nat)
  {
    i <= |es| && k == 1 + |Except(es[..i], id)| <= |ring| && ring[1..] == Except(es[..i], id) + es[i..]
  }

  lemma RemovingStart(ring: seq<Node>, id: nat)
    requires ring != []
    ensures Removing(ring, ring[1..], 0, 1, id)
  {
  }

  lemma RemovingMore(ring: seq<Node>, es: seq<Node>, i: nat, k: nat, id: nat)
    requires Removing(ring, es, i, k, id) && k < |ring|
    ensures 0 < k && i < |es|
    ensures if ring[k].id != id then Removing(ring, es, i + 1, k + 1, id)
      else
        && Removing(DeletedAt(ring, k), es, i + 1, k, id) && k <= |DeletedAt(ring, k)|
        && DeletedAt(ring, k)[k - 1] == ring[k - 1] && Succ(DeletedAt(ring, k), k - 1) == Succ(ring, k)
  {
    var b := Except(es[..i], id);
    assert ring[1..][k - 1] == ring[k] == es[i];
    assert es[..i + 1][..i] == es[..i];
    hide Except;
    var rest := es[i + 1..];
    assert es[i..] == [es[i]] + rest;
    if ring[k].id != id {
      assert ring[1..] == b + [es[i]] + rest;
    } else {
      assert DeletedAt(ring, k)[1..] == ring[1..][..k - 1] + ring[1..][k..] == b + rest;
    }
  }

  lemma RemovingEnd(ring: seq<Node>, es: seq<Node>, i: nat, k: nat, id: nat)
    requires Removing(ring, es, i, k, id) && k == |ring|
    ensures ring[1..] == Except(es, id)
  {
    assert i == |es| && es[..i] == es;
    hide Except;
  }

  /** The last node of the ring is the one that the head follows. */
  lemma NextIn(ring: seq<Node>, j: nat)
    requires Distinct(ring) && j < |ring|
    ensures Succ(ring, j) == ring[0] <==> j == |ring| - 1
    ensures j < |ring| - 1 ==> Succ(ring, j) == ring[j + 1]
  {
  }

  /** Exactly the entries of the other tasks are left. */
  lemma {:induction false} ExceptHolds(s: seq<Node>, id: nat, n: Node)
    ensures n in Except(s, id) <==> n in s && n.id != id
  {
    if s != [] {
      var front, e := s[..|s| - 1], s[|s| - 1];
      ExceptHolds(front, id, n);
      assert s == front + [e];
    }
  }

  lemma {:induction false} ExceptSorted(s: seq<Node>, id: nat)
    requires Sorted(s)
    ensures Sorted(Except(s, id))
  {
    if s != [] {
      var front, e := s[..|s| - 1], s[|s| - 1];
      ExceptSorted(front, id);
      var r := Except(front, id);
      forall j | 0 <= j < |r| ensures r[j].time <= e.time {
        ExceptHolds(front, id, r[j]);
        assert r[j] in r;
      }
    }
  }

  // ----- runs of the queue -----

  datatype Op = Insert(node: Node) | Remove(id: nat) | Ask(now: nat)

  function Next(s: seq<Node>, op: Op): seq<Node>
  {
    match op
    case Insert(n) => InsertedAt(s, FirstLater(s, n.time), n)
    case Remove(id) => Except(s, id)
    case Ask(now) => if s != [] && s[0].time <= now then s[1..] else s
  }

  function Queue(s: seq<Node>, ops: seq<Op>): seq<Node>
    decreases |ops|
  {
    if ops == [] then s else Queue(Next(s, ops[0]), ops[1..])
  }

  /** Whatever is registered, removed and run, the queue is sorted at any time. */
  lemma {:induction false} QueueSorted(s: seq<Node>, ops: seq<Op>)
    requires Sorted(s)
    ensures Sorted(Queue(s, ops))
    decreases |ops|
  {
    if ops != [] {
      match ops[0]
      case Insert(n) => RegisterOrder(s, n);
        QueueSorted(Next(s, ops[0]), ops[1..]);
      case Remove(id) => ExceptSorted(s, id);
        QueueSorted(Next(s, ops[0]), ops[1..]);
      case Ask(now) => QueueSorted(Next(s, ops[0]), ops[1..]);
    }
  }
}
