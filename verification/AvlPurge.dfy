/** The loop of `purge_orig`: it walks the tree by key with avl_next while it removes
    the element it has just been given. Whether an originator goes may depend on which ones
    have gone before it in the same loop, as the counters that decide it do. */
module AvlPurge {
  import opened AvlShape
  import opened AvlMemory
  import opened AvlContents
  import opened Avl
  import opened AvlIterate

  /** get_orig_node never stores one address twice. */
  ghost predicate Unique(s: seq<Entry>)
  {
    forall i, j :: 0 <= i < j < |s| ==> s[i].key < s[j].key
  }

  ghost function Survivors(s: seq<Entry>, dead: set<nat>): seq<Entry>
  {
    if s == [] then [] else
      var e := s[|s| - 1];
      if e.key in dead then Survivors(s[..|s| - 1], dead) else Survivors(s[..|s| - 1], dead) + [e]
  }

  /** Exactly the entries whose key is not in `dead` survive. */
  lemma {:induction false} SurvivorsAre(s: seq<Entry>, dead: set<nat>)
    ensures forall e :: e in Survivors(s, dead) <==> e in s && e.key !in dead
  {
    if s != [] {
      SurvivorsAre(s[..|s| - 1], dead);
      assert s == s[..|s| - 1] + [s[|s| - 1]];
    }
  }

  /** What the loop visits: it starts behind the key 0, so an entry with that key is passed over. */
  function Visited(all: seq<Entry>): seq<Entry> { if all != [] && all[0].key == 0 then all[1..] else all }

  /** An entry is visited if and only if its key is not 0. */
  lemma VisitedAre(all: seq<Entry>, e: Entry)
    requires Unique(all)
    ensures e in Visited(all) <==> e in all && e.key > 0
  {
    var v := Visited(all);
    assert forall j :: 0 <= j < |v| ==> v[j] == all[if v == all then j else j + 1] && v[j].key > 0;
    if e in all && e.key > 0 {
      var j :| 0 <= j < |all| && all[j] == e;
      assert v == all || v[j - 1] == e;
    }
  }

  /** The keys removed when the loop has passed the first i; `goes` decides each in view of those gone before. */
  function Gone(all: seq<Entry>, i: nat, goes: (set<nat>, Entry) -> bool): set<nat>
    requires i <= |all|
  {
    if i == 0 then {}
    else
      var dead := Gone(all, i - 1, goes);
      if all[i - 1].key > 0 && goes(dead, all[i - 1]) then dead + {all[i - 1].key} else dead
  }

  lemma {:induction false} GoneBelow(all: seq<Entry>, i: nat, goes: (set<nat>, Entry) -> bool, key: nat)
    requires i <= |all| && forall j :: 0 <= j < i ==> all[j].key != key
    ensures key !in Gone(all, i, goes)
  {
    if i > 0 { GoneBelow(all, i - 1, goes, key); }
  }

  lemma NotYetGone(all: seq<Entry>, i: nat, goes: (set<nat>, Entry) -> bool)
    requires Unique(all) && i < |all|
    ensures all[i].key !in Gone(all, i, goes)
    ensures var dead := Gone(all, i, goes);
      Gone(all, i + 1, goes) == if all[i].key > 0 && goes(dead, all[i]) then dead + {all[i].key} else dead
  {
    GoneBelow(all, i, goes, all[i].key);
  }

  /** Each entry is gone at the end if and only if it was visited and to go then. */
  lemma {:induction false} GoneAt(all: seq<Entry>, i: nat, goes: (set<nat>, Entry) -> bool, j: nat)
    requires Unique(all) && j < i <= |all|
    ensures all[j].key in Gone(all, i, goes) <==> all[j].key > 0 && goes(Gone(all, j, goes), all[j])
  {
    hide Gone;
    NotYetGone(all, i - 1, goes);
    if j < i - 1 { GoneAt(all, i - 1, goes, j); }
  }

  /** Where the loop stands: the first `i` of the originators `all` have been passed. */
  ghost predicate Standing(all: seq<Entry>, i: nat, ip: nat, dead: set<nat>, contents: seq<Entry>)
  {
    && i <= |all| && contents == Survivors(all[..i], dead) + all[i..]
    && AllAtMost(all[..i], ip) && (i < |all| ==> ip < all[i].key)
  }

  lemma NextIs(all: seq<Entry>, i: nat, ip: nat, dead: set<nat>, contents: seq<Entry>, at: nat)
    requires Unique(all) && Standing(all, i, ip, dead, contents)
    requires at <= |contents| && AllAtMost(contents[..at], ip) && AllAbove(contents[at..], ip)
    ensures at == |Survivors(all[..i], dead)|
    ensures at < |contents| <==> i < |all|
    ensures i < |all| ==> contents[at] == all[i]
    ensures i <= |all|
  {
    SurvivorsAre(all[..i], dead);
    assert contents[..|Survivors(all[..i], dead)|] == Survivors(all[..i], dead);
    assert contents[|Survivors(all[..i], dead)|..] == all[i..];
    assert forall j :: i <= j < |all| ==> all[j].key > ip;
    SplitUnique(contents, at, |Survivors(all[..i], dead)|, ip);
  }

  /** A sequence splits at only one place into keys up to and keys above a bound. */
  lemma SplitUnique(s: seq<Entry>, x: nat, y: nat, key: nat)
    requires x <= |s| && AllAtMost(s[..x], key) && AllAbove(s[x..], key)
    requires y <= |s| && AllAtMost(s[..y], key) && AllAbove(s[y..], key)
    ensures x == y
  {
    assert x < |s| ==> s[x].key > key;
    assert y < |s| ==> s[y].key > key;
  }

  lemma VisitedKept(all: seq<Entry>, i: nat, ip: nat, dead: set<nat>, contents: seq<Entry>)
    requires Unique(all) && Standing(all, i, ip, dead, contents) && i < |all| && all[i].key !in dead
    ensures Standing(all, i + 1, all[i].key, dead, contents)
  {
    HeadTail(all, i);
    assert contents == Survivors(all[..i], dead) + [all[i]] + all[i + 1..];
    BelowAtMost(all, i);
  }

  lemma BelowAtMost(all: seq<Entry>, i: nat)
    requires Unique(all) && i < |all|
    ensures AllAtMost(all[..i + 1], all[i].key)
    ensures all[..i + 1] == all[..i] + [all[i]]
  {
  }

  lemma {:induction false} SurvivorsSame(s: seq<Entry>, dead: set<nat>, key: nat)
    requires forall j :: 0 <= j < |s| ==> s[j].key != key
    ensures Survivors(s, dead + {key}) == Survivors(s, dead)
  {
    if s != [] { SurvivorsSame(s[..|s| - 1], dead, key); }
  }

  /** The decision to remove the entry at hand changes nothing about those before it. */
  lemma Condemned(all: seq<Entry>, i: nat, ip: nat, dead: set<nat>, contents: seq<Entry>)
    requires Unique(all) && Standing(all, i, ip, dead, contents) && i < |all|
    ensures Standing(all, i, ip, dead + {all[i].key}, contents)
  {
    SurvivorsSame(all[..i], dead, all[i].key);
    hide Survivors;
  }

  lemma SurvivorsNext(all: seq<Entry>, i: nat, dead: set<nat>)
    requires i < |all|
    ensures Survivors(all[..i + 1], dead) == Survivors(all[..i], dead) + if all[i].key in dead then [] else [all[i]]
  {
    assert all[..i + 1][..i] == all[..i];
  }

  lemma VisitedRemoved(all: seq<Entry>, i: nat, ip: nat, dead: set<nat>, contents: seq<Entry>, k: int, c: seq<Entry>)
    requires Unique(all) && Standing(all, i, ip, dead, contents) && i < |all| && all[i].key in dead
    requires RemovedAt(contents, k, c) && contents[k].key == all[i].key
    ensures Standing(all, i + 1, all[i].key, dead, c)
    ensures |c| < |contents|
  {
    hide Survivors;
    var b := Survivors(all[..i], dead);
    SurvivorsAre(all[..i], dead);
    SurvivorsNext(all, i, dead);
    BelowAtMost(all, i);
    assert forall x :: x in b ==> x.key <= ip;
    assert forall j :: 0 <= j < |b| ==> contents[j] == b[j];
    assert forall j :: |b| <= j < |contents| ==> contents[j] == all[i + j - |b|];
    assert k == |b|;
    HeadTail(all, i);
  }

  lemma HeadTail(s: seq<Entry>, i: nat)
    requires i < |s|
    ensures s[i..] == [s[i]] + s[i + 1..] && s[..i + 1][..i] == s[..i]
  {
  }

  /** Every originator whose address is not 0 is visited exactly once, in ascending order, and
      those that were to go when they were visited are gone afterwards. */
  method PurgeLoop(tree: AvlTree, goes: (set<nat>, Entry) -> bool) returns (visited: seq<Entry>)
    requires tree.Valid() && |tree.Contents()| < MAX_NODES
    requires Unique(tree.Contents())
    modifies tree, tree.mem.Keys
    ensures tree.Valid() && visited == Visited(old(tree.Contents()))
    ensures var all := old(tree.Contents()); tree.Contents() == Survivors(all, Gone(all, |all|, goes))
  {
    hide Standing, Unique, Split, Sorted, Linked, Distinct, Balanced, Absent, RemovedAt, LeastAbove, Gone, Survivors,
         Passed, Visited;
    ghost var all := tree.Contents();
    ghost var i, first := Passed(all), Passed(all);
    var ip, dead := 0, {};
    visited := [];
    Start(all, dead, goes);
    var an := Advance(tree, all, i, ip, dead);
    while an != null
      invariant tree.Valid() && tree.mem.Keys <= old(tree.mem.Keys) && i <= |all| < MAX_NODES
      invariant |tree.Contents()| <= |all| && Standing(all, i, ip, dead, tree.Contents())
      invariant first <= i && visited == all[first..i]
      invariant dead == Gone(all, i, goes)
      invariant an != null <==> i < |all|
      invariant an != null ==> an in tree.mem && an.entry == all[i]
      decreases |all| - i
    {
      visited := visited + [an.entry];
      BelowAtMost(all, i);
      assert all[first..i + 1] == all[first..i] + [all[i]];
      assert all[i].key > 0 by { KeyAbove(all, i, ip, dead, tree.Contents()); }
      ghost var last := ip;
      ip := an.entry.key;
      NotYetGone(all, i, goes);
      if goes(dead, an.entry) {
        RemoveCurrent(tree, ip, all, i, last, dead);
        dead := dead + {ip};
      } else {
        VisitedKept(all, i, last, dead, tree.Contents());
      }
      i := i + 1;
      an := Advance(tree, all, i, ip, dead);
    }
    Finish(all, ip, dead, tree.Contents());
  }

  /** avl_remove of the element just visited. */
  method RemoveCurrent(tree: AvlTree, key: nat, ghost all: seq<Entry>, ghost i: nat, ghost ip: nat,
                       ghost dead: set<nat>)
    requires tree.Valid() && |tree.Contents()| < MAX_NODES
    requires Unique(all) && Standing(all, i, ip, dead, tree.Contents()) && i < |all| && key == all[i].key
    modifies tree, tree.mem.Keys
    ensures tree.Valid() && tree.mem.Keys <= old(tree.mem.Keys) && |tree.Contents()| < old(|tree.Contents()|)
    ensures Standing(all, i + 1, key, dead + {key}, tree.Contents())
  {
    hide Standing, Unique, Sorted, Linked, Distinct, Balanced, Absent, RemovedAt, Survivors;
    Condemned(all, i, ip, dead, tree.Contents());
    NotAbsent(tree.Contents(), all, i, ip, dead);
    var r, k := tree.Remove(key);
    VisitedRemoved(all, i, ip, dead + {key}, old(tree.Contents()), k, tree.Contents());
  }

  /** How many entries have the key 0. */
  function Passed(all: seq<Entry>): (n: nat)
    ensures n <= |all|
  {
    if all != [] && all[0].key == 0 then 1 else 0
  }

  lemma Start(all: seq<Entry>, dead: set<nat>, goes: (set<nat>, Entry) -> bool)
    requires Unique(all) && dead == {}
    ensures Standing(all, Passed(all), 0, dead, all) && all[Passed(all)..Passed(all)] == []
    ensures dead == Gone(all, Passed(all), goes)
  {
    var n := Passed(all);
    assert Gone(all, 0, goes) == {};
    assert all[..n] == if n == 0 then [] else [all[0]];
    assert Survivors(all[..n], dead) == all[..n] by { assert all[..n][..0] == []; }
    assert all == all[..n] + all[n..];
  }

  lemma KeyAbove(all: seq<Entry>, i: nat, ip: nat, dead: set<nat>, contents: seq<Entry>)
    requires Standing(all, i, ip, dead, contents) && i < |all|
    ensures all[i].key > ip
  {
  }

  lemma Finish(all: seq<Entry>, ip: nat, dead: set<nat>, contents: seq<Entry>)
    requires Standing(all, |all|, ip, dead, contents)
    ensures contents == Survivors(all, dead) && all[Passed(all)..|all|] == Visited(all)
  {
    assert all[..|all|] == all && all[|all|..] == [];
  }

  lemma NotAbsent(contents: seq<Entry>, all: seq<Entry>, i: nat, ip: nat, dead: set<nat>)
    requires i < |all| && Standing(all, i, ip, dead, contents)
    ensures !Absent(contents, all[i].key) && contents != []
  {
    assert contents[|Survivors(all[..i], dead)|] == all[i];
  }

  /** avl_next with the address visited last. */
  method Advance(tree: AvlTree, ghost all: seq<Entry>, ghost i: nat, ip: nat, ghost dead: set<nat>) returns (an: Node?)
    requires tree.Valid() && Unique(all) && Standing(all, i, ip, dead, tree.Contents())
    ensures i <= |all| && (an != null <==> i < |all|)
    ensures an != null ==> an in tree.mem && an.entry == all[i]
  {
    hide Standing, Unique, Sorted, Linked, Distinct, Balanced, LeastAbove;
    ghost var at;
    an, at := Next(tree, ip);
    NextIs(all, i, ip, dead, tree.Contents(), at);
    assert an != null ==> Holds(an, tree.mem[an]);
    assert an == null <==> tree.Contents()[at..] == [];
  }
}
