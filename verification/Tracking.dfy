/**
 The list of tracked routes or rules and the kernel table it stands for
 (compiled-tools/bmx/bmxd/linux/route.c:215-308, 459-515, 1305-1500). Routes and rules are
 handled by two copies of the same code, which differ in the fields of the key.
 */
module Tracking {
  import opened Wrappers
  import opened Seqs

  /** Track type 0 is TRACK_NO: not tracked. */
  const TRACK_NO: nat := 0

  datatype Entry<K> = Entry(key: K, track: nat)

  predicate Matches<K(==)>(e: Entry<K>, key: K, track: nat) { e.key == key && (e.track == track || track == TRACK_NO) }

  function CountOf<K(==)>(es: seq<Entry<K>>, key: K): nat
  {
    if es == [] then 0 else (if es[0].key == key then 1 else 0) + CountOf(es[1..], key)
  }

  function FirstMatch<K(==)>(es: seq<Entry<K>>, key: K, track: nat): (i: nat)
    ensures i <= |es| && (forall j :: 0 <= j < i ==> !Matches(es[j], key, track))
    ensures i < |es| ==> Matches(es[i], key, track)
  {
    if es == [] || Matches(es[0], key, track) then 0 else 1 + FirstMatch(es[1..], key, track)
  }

  /** The list after a tracked operation, and whether the kernel has to be told. */
  function Tracked<K(==)>(es: seq<Entry<K>>, key: K, track: nat, del: bool): (seq<Entry<K>>, bool)
  {
    if track == TRACK_NO then (es, true)
    else if !del then (es + [Entry(key, track)], CountOf(es, key) == 0)
    else
      var i := FirstMatch(es, key, track);
      if i == |es| then (es, false) else (DeletedAt(es, i), CountOf(es, key) == 1)
  }

  function KeysOf<K(==)>(es: seq<Entry<K>>): set<K> { set i | 0 <= i < |es| :: es[i].key }

  /** The kernel has a key exactly when it is tracked at least once. */
  ghost predicate Mirrors<K(!new)>(es: seq<Entry<K>>, kernel: map<K, nat>) { kernel.Keys == KeysOf(es) }

  // ----- counting -----

  lemma {:induction false} CountAppend<K>(es: seq<Entry<K>>, fs: seq<Entry<K>>, key: K)
    ensures CountOf(es + fs, key) == CountOf(es, key) + CountOf(fs, key)
    decreases |es|
  {
    if es == [] {
      assert es + fs == fs;
    } else {
      assert (es + fs)[1..] == es[1..] + fs;
      CountAppend(es[1..], fs, key);
    }
  }

  lemma {:induction false} CountPositive<K>(es: seq<Entry<K>>, key: K)
    ensures CountOf(es, key) > 0 <==> key in KeysOf(es)
    decreases |es|
  {
    if es != [] {
      var rest := es[1..];
      CountPositive(rest, key);
      if key in KeysOf(rest) {
        var i :| 0 <= i < |rest| && rest[i].key == key;
        assert es[i + 1].key == key;
      }
      if key in KeysOf(es) && es[0].key != key {
        var i :| 0 <= i < |es| && es[i].key == key;
        assert rest[i - 1].key == key;
      }
    }
  }

  lemma CountOne<K>(e: Entry<K>, key: K)
    ensures CountOf([e], key) == if e.key == key then 1 else 0
  {
    assert [e][1..] == [];
  }

  lemma CountRemoved<K>(es: seq<Entry<K>>, i: nat, key: K)
    requires i < |es|
    ensures CountOf(DeletedAt(es, i), key) == CountOf(es, key) - if es[i].key == key then 1 else 0
  {
    var a, x, b := es[..i], [es[i]], es[i + 1..];
    assert es == a + (x + b);
    CountOne(es[i], key);
    hide CountOf;
    CountAppend(a, x + b, key);
    CountAppend(x, b, key);
    CountAppend(a, b, key);
  }

  /** What the kernel is told keeps it in step with the list. */
  function Applied<K>(kernel: map<K, nat>, key: K, hop: nat, del: bool): map<K, nat>
  {
    if del then kernel - {key} else if key in kernel then kernel else kernel[key := hop]
  }

  lemma TrackedMirrors<K(!new)>(es: seq<Entry<K>>, kernel: map<K, nat>, key: K, hop: nat, track: nat, del: bool)
    requires Mirrors(es, kernel) && track != TRACK_NO
    ensures var (fs, tell) := Tracked(es, key, track, del);
      var k := if tell then Applied(kernel, key, hop, del) else kernel;
      && Mirrors(fs, k)
      && (forall x :: x != key ==> (x in k <==> x in kernel) && (x in k ==> k[x] == kernel[x]))
      && (!del && CountOf(es, key) == 0 ==> key in k && k[key] == hop)
  {
    var (fs, tell) := Tracked(es, key, track, del);
    var k := if tell then Applied(kernel, key, hop, del) else kernel;
    forall x ensures x in k <==> x in KeysOf(fs) {
      CountPositive(es, x);
      CountPositive(fs, x);
      CountPositive(es, key);
      if del {
        var i := FirstMatch(es, key, track);
        if i < |es| { CountRemoved(es, i, x); CountRemoved(es, i, key); }
      } else {
        CountAppend(es, [Entry(key, track)], x);
      }
    }
    CountPositive(es, key);
    hide KeysOf, CountOf;
  }

  /**
   An entry more with each addition, and with each deletion one less of the same type, if there
   is one; the kernel is told of the first that comes and of the last that goes.
   */
  lemma TrackedCounts<K>(es: seq<Entry<K>>, key: K, track: nat, del: bool)
    requires track != TRACK_NO
    ensures var (fs, tell) := Tracked(es, key, track, del);
      var e := Entry(key, track);
      && (!del ==> fs == es + [e] && (tell <==> key !in KeysOf(es)))
      && (del && e in es ==> multiset(fs) == multiset(es) - multiset{e} && (tell <==> key !in KeysOf(fs)))
      && (del && e !in es ==> fs == es && !tell)
  {
    CountPositive(es, key);
    var i := FirstMatch(es, key, track);
    if del && i < |es| {
      assert es[i] == Entry(key, track);
      assert es == es[..i] + [es[i]] + es[i + 1..];
      CountRemoved(es, i, key);
      CountPositive(DeletedAt(es, i), key);
    }
    hide KeysOf, CountOf;
  }

  // ----- flushing -----

  /** Routes that are left lead where they led. */
  ghost predicate Shrunk<K(!new)>(k: map<K, nat>, from: map<K, nat>)
  {
    forall x :: x in k ==> x in from && k[x] == from[x]
  }

  lemma ShrunkSame<K(!new)>(k: map<K, nat>)
    ensures Shrunk(k, k)
  {
  }

  lemma ShrunkMore<K(!new)>(k: map<K, nat>, from: map<K, nat>, key: K)
    requires Shrunk(k, from)
    ensures Shrunk(Applied(k, key, 0, true), from)
  {
  }

  /** The entries a flush of `track` takes out: all of that type, or all; an ignored key stays. */
  predicate Flushed<K(==)>(e: Entry<K>, track: nat, ignored: set<K>)
  {
    (e.track == track || track == TRACK_NO) && e.key !in ignored
  }

  function Survivors<K(==)>(es: seq<Entry<K>>, track: nat, ignored: set<K>): seq<Entry<K>>
  {
    if es == [] then []
    else
      var e := es[|es| - 1];
      Survivors(es[..|es| - 1], track, ignored) + if Flushed(e, track, ignored) then [] else [e]
  }

  lemma {:induction false} NoneLeft<K>(es: seq<Entry<K>>, track: nat, ignored: set<K>)
    ensures forall i :: 0 <= i < |Survivors(es, track, ignored)| ==>
      !Flushed(Survivors(es, track, ignored)[i], track, ignored)
    decreases |es|
  {
    if es != [] { NoneLeft(es[..|es| - 1], track, ignored); }
  }

  /** None of the entries to be flushed is left, and all others are, as often as before. */
  lemma {:induction false} SurvivorsAre<K>(es: seq<Entry<K>>, track: nat, ignored: set<K>)
    ensures forall e ::
      multiset(Survivors(es, track, ignored))[e] == (if Flushed(e, track, ignored) then 0 else multiset(es)[e])
    decreases |es|
  {
    if es != [] {
      SurvivorsAre(es[..|es| - 1], track, ignored);
      assert es == es[..|es| - 1] + [es[|es| - 1]];
    }
  }

  class Tracker<K(==, !new)> {
    var entries: seq<Entry<K>>
    /** The kernel's table: where each key leads. */
    var kernel: map<K, nat>
    /** Keys that are neither tracked nor passed on: throw routes while throw rules are off. */
    var ignored: set<K>

    constructor (skip: set<K>)
      ensures entries == [] && kernel == map[] && ignored == skip
    {
      entries, kernel, ignored := [], map[], skip;
    }

    /** track_route_and_proceed and track_rule_and_proceed */
    method TrackAndProceed(key: K, track: nat, del: bool) returns (proceed: bool)
      requires !del ==> track != TRACK_NO
      modifies this`entries
      ensures (entries, proceed) == Tracked(old(entries), key, track, del)
    {
      var found, firstFound := 0, |entries|;
      var i := 0;
      while i < |entries|
        invariant 0 <= i <= |entries| && entries == old(entries)
        invariant found + CountOf(entries[i..], key) == CountOf(entries, key)
        invariant 0 <= firstFound < i || firstFound == |entries|
        invariant firstFound == |entries| ==> forall j :: 0 <= j < i ==> !Matches(entries[j], key, track)
        invariant firstFound < |entries| ==>
          && Matches(entries[firstFound], key, track)
          && forall j :: 0 <= j < firstFound ==> !Matches(entries[j], key, track)
      {
        assert entries[i..][1..] == entries[i + 1..];
        if entries[i].key == key {
          if firstFound == |entries| && (entries[i].track == track || track == TRACK_NO) {
            firstFound := i;
          }
          found := found + 1;
        }
        i := i + 1;
      }
      FirstMatchAt(entries, key, track, firstFound);
      if track == TRACK_NO { return true; }
      if del && firstFound == |entries| {
        return false;
      } else if del {
        entries := entries[..firstFound] + entries[firstFound + 1..];
        if found > 1 { return false; }
        CountPositive(old(entries), key);
        assert old(entries)[firstFound].key in KeysOf(old(entries));
      } else {
        entries := entries + [Entry(key, track)];
        if found > 0 { return false; }
      }
      return true;
    }

    /** add_del_route and add_del_rule: the kernel is told if the tracking says so. */
    method AddDel(key: K, hop: nat, track: nat, del: bool)
      requires !del ==> track != TRACK_NO
      modifies this`entries, this`kernel
      ensures key in ignored ==> entries == old(entries) && kernel == old(kernel)
      ensures key !in ignored ==>
        var (fs, tell) := Tracked(old(entries), key, track, del);
        entries == fs && kernel == if tell then Applied(old(kernel), key, hop, del) else old(kernel)
      ensures track != TRACK_NO && Mirrors(old(entries), old(kernel)) ==> Mirrors(entries, kernel)
    {
      hide Mirrors, KeysOf, CountOf;
      if track != TRACK_NO && Mirrors(entries, kernel) { TrackedMirrors(entries, kernel, key, hop, track, del); }
      if key in ignored { return; }
      var proceed := TrackAndProceed(key, track, del);
      if proceed {
        if del {
          kernel := kernel - {key};
        } else if key !in kernel {
          kernel := kernel[key := hop];
        }
      }
    }

    /** The deletion of entry `e`, number n - 1 of all, which the loop has passed. */
    method DeleteDelayed(e: Entry<K>, track: nat, ghost all: seq<Entry<K>>, ghost n: nat, ghost from: map<K, nat>)
      requires 0 < n <= |all| && e == all[n - 1] && (track == e.track || track == TRACK_NO) && e.track != TRACK_NO
      requires entries == Pending(all, n, Some(e), track, ignored) + all[n..]
      requires Mirrors(entries, kernel) && Shrunk(kernel, from)
      modifies this`entries, this`kernel
      ensures entries == Survivors(all[..n], track, ignored) + all[n..]
      ensures Mirrors(entries, kernel) && Shrunk(kernel, from)
    {
      hide Survivors, Mirrors, Tracked, Applied, Shrunk, Pending, KeysOf, CountOf, FirstMatch, DeletedAt, Flushed,
           Matches;
      FlushDelete(all, n, e, track, ignored, kernel);
      ShrunkMore(kernel, from, e.key);
      AddDel(e.key, 0, e.track, true);
    }

    /**
     flush_tracked_routes and flush_tracked_rules: an entry is deleted when the loop has
     moved on to the next one. `rest` is the list from the current entry on.
     */
    method FlushTracked(track: nat)
      requires Mirrors(entries, kernel)
      requires forall i :: 0 <= i < |entries| ==> entries[i].track != TRACK_NO
      modifies this`entries, this`kernel
      ensures entries == Survivors(old(entries), track, ignored)
      ensures Mirrors(entries, kernel)
      ensures Shrunk(kernel, old(kernel))
    {
      hide Survivors, Mirrors, Tracked, Applied, Shrunk, Pending, KeysOf, CountOf, FirstMatch, DeletedAt, Flushed,
           Matches;
      ShrunkSame(kernel);
      ghost var all, n := entries, 0;
      var p: Option<Entry<K>> := None;
      var rest := entries;
      FlushBegins(all, track, ignored);
      while rest != []
        invariant 0 <= n <= |all| && rest == all[n..]
        invariant entries == Pending(all, n, p, track, ignored) + rest
        invariant p.Some? ==> 0 < n && p.value == all[n - 1] && (track == p.value.track || track == TRACK_NO)
        invariant Mirrors(entries, kernel) && ignored == old(ignored)
        invariant Shrunk(kernel, old(kernel))
        decreases |rest|
      {
        var rn := rest[0];
        if p.Some? {
          DeleteDelayed(p.value, track, all, n, old(kernel));
        }
        PendingNone(all, n, track, ignored);
        FlushMove(all, n, track, ignored);
        p := if track == rn.track || track == TRACK_NO then Some(rn) else None;
        rest, n := rest[1..], n + 1;
      }
      if p.Some? {
        DeleteDelayed(p.value, track, all, |all|, old(kernel));
      }
      PendingNone(all, |all|, track, ignored);
      assert all[..|all|] == all;
    }
  }

  lemma PendingNone<K>(all: seq<Entry<K>>, n: nat, track: nat, ignored: set<K>)
    requires n <= |all|
    ensures Pending(all, n, None, track, ignored) == Survivors(all[..n], track, ignored)
  {
  }

  lemma {:induction false} FirstMatchAt<K>(es: seq<Entry<K>>, key: K, track: nat, i: nat)
    requires i <= |es| && (forall j :: 0 <= j < i ==> !Matches(es[j], key, track))
    requires i < |es| ==> Matches(es[i], key, track)
    ensures FirstMatch(es, key, track) == i
  {
  }

  /** The part of the list that the flush has passed: the survivors, and the entry still to be deleted. */
  function Pending<K(==)>(all: seq<Entry<K>>, n: nat, p: Option<Entry<K>>, track: nat, ignored: set<K>): seq<Entry<K>>
    requires n <= |all|
  {
    if p.Some? && n > 0 && p.value.key !in ignored then Survivors(all[..n - 1], track, ignored) + [p.value]
    else Survivors(all[..n], track, ignored)
  }

  lemma FlushBegins<K>(all: seq<Entry<K>>, track: nat, ignored: set<K>)
    ensures all == Pending(all, 0, None, track, ignored) + all[0..]
  {
  }

  lemma SurvivorsNext<K>(all: seq<Entry<K>>, n: nat, track: nat, ignored: set<K>)
    requires n < |all|
    ensures Survivors(all[..n + 1], track, ignored)
         == Survivors(all[..n], track, ignored) + if Flushed(all[n], track, ignored) then [] else [all[n]]
  {
    assert all[..n + 1][..n] == all[..n];
  }

  /** The entry that a delayed deletion takes out is the one it is meant for: no earlier one is left. */
  lemma FlushDelete<K(!new)>(all: seq<Entry<K>>, n: nat, e: Entry<K>, track: nat, ignored: set<K>, kernel: map<K, nat>)
    requires 0 < n <= |all| && e == all[n - 1] && (track == e.track || track == TRACK_NO) && e.track != TRACK_NO
    requires Mirrors(Pending(all, n, Some(e), track, ignored) + all[n..], kernel)
    ensures var es := Pending(all, n, Some(e), track, ignored) + all[n..];
      var (fs, tell) := Tracked(es, e.key, e.track, true);
      var left := Survivors(all[..n], track, ignored) + all[n..];
      && (e.key in ignored ==> es == left)
      && (e.key !in ignored ==> fs == left && Mirrors(fs, if tell then Applied(kernel, e.key, 0, true) else kernel))
  {
    var es := Pending(all, n, Some(e), track, ignored) + all[n..];
    SurvivorsNext(all, n - 1, track, ignored);
    if e.key !in ignored {
      var done := Survivors(all[..n - 1], track, ignored);
      NoneLeft(all[..n - 1], track, ignored);
      forall j | 0 <= j < |done| ensures !Matches(es[j], e.key, e.track) {
        assert !Flushed(done[j], track, ignored);
      }
      FirstMatchAt(es, e.key, e.track, |done|);
      assert DeletedAt(es, |done|) == done + all[n..];
      TrackedMirrors(es, kernel, e.key, 0, e.track, true);
    }
  }

  lemma FlushMove<K>(all: seq<Entry<K>>, n: nat, track: nat, ignored: set<K>)
    requires n < |all|
    ensures var rn := all[n];
      var p := if track == rn.track || track == TRACK_NO then Some(rn) else None;
      Pending(all, n + 1, p, track, ignored) + all[n + 1..] == Survivors(all[..n], track, ignored) + all[n..]
  {
    SurvivorsNext(all, n, track, ignored);
    assert all[n..] == [all[n]] + all[n + 1..];
  }

  // ----- the host route of an originator -----

  const TRACK_OTHER_HOST: nat := 4

  /**
   The route to an originator's address: tracked once and leading to its router, if it has
   one; not tracked at all otherwise.
   */
  ghost predicate HostRoute<K(!new)>(es: seq<Entry<K>>, kernel: map<K, nat>, key: K, router: Option<nat>)
  {
    && Mirrors(es, kernel)
    && CountOf(es, key) == (if router.Some? then 1 else 0)
    && (router.Some? ==> FirstMatch(es, key, TRACK_OTHER_HOST) < |es| && key in kernel && kernel[key] == router.value)
  }

  lemma {:induction false} AppendedFirst<K>(es: seq<Entry<K>>, key: K, track: nat)
    ensures FirstMatch(es + [Entry(key, track)], key, track) < |es| + 1
  {
    assert Matches((es + [Entry(key, track)])[|es|], key, track);
  }

  lemma RouteDeleted<K(!new)>(es: seq<Entry<K>>, kernel: map<K, nat>, key: K, router: Option<nat>)
    requires HostRoute(es, kernel, key, router) && router.Some?
    ensures var (fs, tell) := Tracked(es, key, TRACK_OTHER_HOST, true);
      tell && HostRoute(fs, Applied(kernel, key, 0, true), key, None)
  {
    TrackedMirrors(es, kernel, key, 0, TRACK_OTHER_HOST, true);
    CountRemoved(es, FirstMatch(es, key, TRACK_OTHER_HOST), key);
  }

  lemma RouteAdded<K(!new)>(es: seq<Entry<K>>, kernel: map<K, nat>, key: K, hop: nat)
    requires HostRoute(es, kernel, key, None)
    ensures var (fs, tell) := Tracked(es, key, TRACK_OTHER_HOST, false);
      tell && HostRoute(fs, Applied(kernel, key, hop, false), key, Some(hop))
  {
    TrackedMirrors(es, kernel, key, hop, TRACK_OTHER_HOST, false);
    CountAppend(es, [Entry(key, TRACK_OTHER_HOST)], key);
    AppendedFirst(es, key, TRACK_OTHER_HOST);
  }

  class OrigNode<K(==, !new)> {
    const key: K
    var router: Option<nat>

    constructor (k: K)
      ensures key == k && router == None
    {
      key, router := k, None;
    }

    /** update_routes: the host route follows the router, and no other route changes. */
    method UpdateRoutes(t: Tracker<K>, newRouter: Option<nat>)
      requires key !in t.ignored && HostRoute(t.entries, t.kernel, key, router)
      modifies this`router, t`entries, t`kernel
      ensures router == newRouter && HostRoute(t.entries, t.kernel, key, router)
      ensures forall k :: k != key ==> (k in t.kernel <==> k in old(t.kernel))
      ensures forall k :: k != key && k in t.kernel ==> t.kernel[k] == old(t.kernel)[k]
    {
      hide HostRoute, Tracked, Mirrors;
      if router != newRouter {
        if router.Some? {
          RouteDeleted(t.entries, t.kernel, key, router);
          t.AddDel(key, router.value, TRACK_OTHER_HOST, true);
        }
        if newRouter.Some? {
          RouteAdded(t.entries, t.kernel, key, newRouter.value);
          t.AddDel(key, newRouter.value, TRACK_OTHER_HOST, false);
        }
        router := newRouter;
      }
    }
  }
}
