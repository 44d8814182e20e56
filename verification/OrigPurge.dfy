/**
 The loop of purge_orig (compiled-tools/bmx/bmxd/originator.c:1033-1193) over the tree of
 originators: the walk by address, as it is shown of the tree in AvlPurge, with the turn that is
 shown of the table in OrigSteps.
 */
module OrigPurge {
  import opened Sets
  import opened OrigSpec
  import opened OrigSteps
  import AvlShape
  import AvlPurge

  type Entry = AvlShape.Entry

  /** The contents of the tree: every originator of the table once, by address. */
  ghost predicate Lists(all: seq<Entry>, t: Table)
  {
    && AvlPurge.Unique(all)
    && (forall e :: e in all ==> e.key in t.origs)
    && (forall a :: a in t.origs ==> exists i :: 0 <= i < |all| && all[i].key == a)
  }

  /** Whether an originator is removed in its turn, told from the table at the start and what has gone since. */
  function Goes(t: Table, bif: nat, limit: nat, now: nat): (set<nat>, Entry) -> bool
  {
    (dead: set<nat>, e: Entry) =>
      bif == 0 && e.key in t.origs && Expired(t.origs[e.key], limit, now) && Namers(t.origs, e.key) <= dead
  }

  /** A valid table that is left of t when these originators have gone. */
  ghost predicate Follows(t: Table, r: Table, dead: set<nat>)
  {
    Valid(r) && OthersKept(t, r) && r.origs.Keys == t.origs.Keys - dead
  }

  lemma FollowsItself(t: Table)
    requires Valid(t)
    ensures Follows(t, t, {})
  {
  }

  /** The table when the loop has passed the first i entries; TurnsFollow shows that each is there in its turn. */
  ghost function Turns(t: Table, all: seq<Entry>, i: nat, bif: nat, limit: nat, now: nat): Table
    requires i <= |all|
  {
    if i == 0 then t
    else
      var u, a := Turns(t, all, i - 1, bif, limit, now), all[i - 1].key;
      if a > 0 && Valid(u) && a in u.origs then PurgeOne(u, a, bif, limit, now) else u
  }

  lemma {:induction false} TurnsFollow(t: Table, all: seq<Entry>, i: nat, bif: nat, limit: nat, now: nat)
    requires Valid(t) && Lists(all, t) && i <= |all|
    ensures Follows(t, Turns(t, all, i, bif, limit, now), AvlPurge.Gone(all, i, Goes(t, bif, limit, now)))
  {
    hide *;
    TurnsUnfold(t, all, i, bif, limit, now);
    if i == 0 {
      FollowsItself(t);
      NoneGone(all, Goes(t, bif, limit, now));
    } else {
      TurnsFollow(t, all, i - 1, bif, limit, now);
      TurnIs(t, Turns(t, all, i - 1, bif, limit, now), all, i - 1, bif, limit, now);
    }
  }

  lemma NoneGone(all: seq<Entry>, goes: (set<nat>, Entry) -> bool)
    ensures AvlPurge.Gone(all, 0, goes) == {}
  {
  }

  lemma TurnsUnfold(t: Table, all: seq<Entry>, i: nat, bif: nat, limit: nat, now: nat)
    requires i <= |all|
    ensures i == 0 ==> Turns(t, all, i, bif, limit, now) == t
    ensures i > 0 ==>
      var u, a := Turns(t, all, i - 1, bif, limit, now), all[i - 1].key;
      Valid(u) && a in u.origs ==>
        Turns(t, all, i, bif, limit, now) == if a == 0 then u else PurgeOne(u, a, bif, limit, now)
  {
    hide Valid, PurgeOne;
  }

  /** The counters tell in each turn whether all who named the originator have gone. */
  lemma TurnIs(t: Table, u: Table, all: seq<Entry>, i: nat, bif: nat, limit: nat, now: nat)
    requires Valid(t) && Lists(all, t) && i < |all| && Follows(t, u, AvlPurge.Gone(all, i, Goes(t, bif, limit, now)))
    ensures Valid(u) && all[i].key in u.origs
    ensures var r := if all[i].key == 0 then u else PurgeOne(u, all[i].key, bif, limit, now);
      Follows(t, r, AvlPurge.Gone(all, i + 1, Goes(t, bif, limit, now)))
  {
    hide Valid, PurgeOne, AvlPurge.Gone, Expired, OthersKept;
    var a, goes := all[i].key, Goes(t, bif, limit, now);
    AvlPurge.NotYetGone(all, i, goes);
    assert all[i] in all;
    if a > 0 {
      PurgeOneValid(u, a, bif, limit, now);
      KeptTrans(t, u, PurgeOne(u, a, bif, limit, now));
      NamersLeft(t, u, a, AvlPurge.Gone(all, i, goes));
      SameAware(t, u, a, limit, now);
    }
  }

  lemma SameAware(t: Table, u: Table, a: nat, limit: nat, now: nat)
    requires OthersKept(t, u) && a in u.origs
    ensures a in t.origs && (Expired(u.origs[a], limit, now) <==> Expired(t.origs[a], limit, now))
  {
  }

  lemma NamersLeft(t: Table, u: Table, a: nat, dead: set<nat>)
    requires Valid(u) && OthersKept(t, u) && u.origs.Keys == t.origs.Keys - dead && a in u.origs
    ensures u.origs[a].refs == 0 <==> Namers(t.origs, a) <= dead
  {
    NeighbourlyAt(u, a);
    assert Namers(u.origs, a) == Namers(t.origs, a) - dead;
    hide Valid, Namers;
    if Namers(t.origs, a) <= dead {
      assert Namers(t.origs, a) - dead == {};
    } else {
      var p :| p in Namers(t.origs, a) && p !in dead;
      assert p in Namers(u.origs, a);
    }
  }

  // ----- the two walks are the same -----

  /** The address from which the loop looks for the next one. */
  function Last(all: seq<Entry>, i: nat): nat
    requires i <= |all|
  {
    if i == 0 then 0 else all[i - 1].key
  }

  lemma AboveRest(t: Table, all: seq<Entry>, i: nat, bif: nat, limit: nat, now: nat)
    requires Valid(t) && Lists(all, t) && i <= |all|
    ensures var s := Above(Turns(t, all, i, bif, limit, now).origs.Keys, Last(all, i));
      && (i == |all| ==> s == {})
      && (i < |all| && all[i].key > 0 ==> all[i].key in s && Least(s) == all[i].key)
  {
    hide Valid, PurgeOne;
    TurnsFollow(t, all, i, bif, limit, now);
    var s := Above(Turns(t, all, i, bif, limit, now).origs.Keys, Last(all, i));
    forall a | a in s ensures i < |all| && all[i].key <= a {
      var j :| 0 <= j < |all| && all[j].key == a;
      if i > 0 { assert all[i - 1].key < a; }
      if i < j { assert all[i].key < all[j].key; }
    }
    if i < |all| && all[i].key > 0 {
      AvlPurge.NotYetGone(all, i, Goes(t, bif, limit, now));
      assert all[i] in all;
      assert i > 0 ==> all[i - 1].key < all[i].key;
    }
  }

  /** purge_orig, turn by turn: the loop over the tree leads to the table that PurgeFrom describes. */
  lemma {:induction false} TurnsArePurge(t: Table, all: seq<Entry>, i: nat, bif: nat, limit: nat, now: nat)
    requires Valid(t) && Lists(all, t) && i <= |all|
    ensures Valid(Turns(t, all, i, bif, limit, now))
    ensures PurgeFrom(Turns(t, all, i, bif, limit, now), Last(all, i), bif, limit, now)
         == Turns(t, all, |all|, bif, limit, now)
    decreases |all| - i
  {
    hide Valid, PurgeOne, Above, Lists, AvlPurge.Gone, Goes;
    TurnsFollow(t, all, i, bif, limit, now);
    AboveRest(t, all, i, bif, limit, now);
    var u := Turns(t, all, i, bif, limit, now);
    if i < |all| {
      TurnIs(t, u, all, i, bif, limit, now);
      TurnsArePurge(t, all, i + 1, bif, limit, now);
      if all[i].key > 0 {
        PurgeUnfold(u, Last(all, i), bif, limit, now);
      } else {
        FirstIsZero(t, all, i);
      }
    }
  }

  lemma FirstIsZero(t: Table, all: seq<Entry>, i: nat)
    requires Lists(all, t) && i < |all| && all[i].key == 0
    ensures i == 0
  {
    var least := all[0].key;
  }

  /**
   The purge of the table is the loop over the tree, in which each turn is PurgeOne and an
   originator goes if it has expired and all who named it have gone before: what is left in the
   tree is what is left in the table.
   */
  lemma PurgeIsLoop(t: Table, all: seq<Entry>, bif: nat, limit: nat, now: nat)
    requires Valid(t) && Lists(all, t)
    ensures var left := AvlPurge.Survivors(all, AvlPurge.Gone(all, |all|, Goes(t, bif, limit, now)));
      forall e :: e in all ==> (e in left <==> e.key in PurgeFrom(t, 0, bif, limit, now).origs)
  {
    hide Valid, PurgeOne, PurgeFrom;
    TurnsArePurge(t, all, 0, bif, limit, now);
    TurnsFollow(t, all, |all|, bif, limit, now);
    AvlPurge.SurvivorsAre(all, AvlPurge.Gone(all, |all|, Goes(t, bif, limit, now)));
  }
}
