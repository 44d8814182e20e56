/**
 The functions of compiled-tools/bmx/bmxd/originator.c that keep the originator table, with
 the table as state that they change step by step.
 */
module Originators {
  import opened Wrappers
  import opened OrigSpec
  import opened OrigSteps

  class Originators {
    /** orig_avl: the originators by address. */
    var origs: map<nat, Orig>
    /** pifnb_list: the originators that have a number. */
    var pifnb: seq<nat>

    constructor ()
      ensures Current() == Table(map[], []) && Valid(Current())
    {
      origs, pifnb := map[], [];
    }

    function Current(): Table
      reads this
    {
      Table(origs, pifnb)
    }

    method GetOrigNode(a: nat, now: nat)
      modifies this
      ensures Current() == Got(old(Current()), a, now)
    {
      if a in origs {
        origs := origs[a := origs[a].(aware := now)];
        return;
      }
      origs := origs[a := Orig([], {}, None, None, 0, 0, now, 0)];
    }

    method FreePifnbNode(a: nat)
      requires Valid(Current()) && a in origs && origs[a].id4him != 0
      modifies this
      ensures Current() == Free(old(Current()), a) && Valid(Current())
      ensures origs == old(origs)[a := old(origs[a]).(id4him := 0)]
    {
      hide Valid, Numbered;
      FreeValid(Current(), a);
      var i := 0;
      while i < |pifnb|
        invariant 0 <= i <= |pifnb| && Current() == old(Current())
        invariant forall j :: 0 <= j < i ==> pifnb[j] != a
      {
        if pifnb[i] == a {
          pifnb := pifnb[..i] + pifnb[i + 1..];
          origs := origs[a := origs[a].(id4him := 0)];
          return;
        }
        i := i + 1;
      }
    }

    /** The least free number is searched along the list, which ascends. */
    method InitPifnbNode(a: nat) returns (ok: bool)
      requires Valid(Current()) && a in origs && origs[a].id4him == 0
      modifies this
      ensures (Current(), ok) == Init(old(Current()), a) && Valid(Current())
      ensures ok ==> LeastFree(old(Current()), origs[a].id4him) && origs[a].id4him < MAX_ID4HIM
      ensures !ok <==> forall k :: 0 < k < MAX_ID4HIM ==> InUse(old(Current()), k)
    {
      hide Valid, Numbered, Counted, Neighbourly, LeastFree, InUse;
      InitValid(Current(), a);
      NumberedIn(Current());
      InitSpec(Current(), a);
      var id4him, i := 1, 0;
      while i < |pifnb|
        invariant 0 <= i <= |pifnb| && id4him == i + 1 && id4him < MAX_ID4HIM && Current() == old(Current())
        invariant Gap(Current(), 0) == Gap(Current(), i)
      {
        if origs[pifnb[i]].id4him > id4him { break; }
        id4him := id4him + 1;
        if id4him >= MAX_ID4HIM { return false; }
        i := i + 1;
      }
      origs := origs[a := origs[a].(id4him := id4him)];
      pifnb := pifnb[..i] + [a] + pifnb[i..];
      ok := true;
    }

    method SetPrimaryOrig(o: nat, a: nat, now: nat)
      requires Valid(Current()) && o in origs
      modifies this
      ensures PrimaryListed(old(Current()), o) && Current() == SetPrimary(old(Current()), o, a, now) && Valid(Current())
      ensures o in origs && (a != 0 ==> a in origs) && origs[o].primary == if a == 0 then None else Some(a)
    {
      hide Valid;
      SetPrimaryValid(Current(), o, a, now);
      if origs[o].primary.Some? && (a == 0 || origs[o].primary.value != a) {
        var p := origs[o].primary.value;
        if p != o { origs := origs[p := origs[p].(refs := origs[p].refs - 1)]; }
        origs := origs[o := origs[o].(primary := None)];
      }
      if a != 0 && origs[o].primary != Some(a) {
        if o != a {
          GetOrigNode(a, now);
          origs := origs[a := origs[a].(refs := origs[a].refs + 1)];
          origs := origs[o := origs[o].(primary := Some(a))];
        } else {
          origs := origs[o := origs[o].(primary := Some(o))];
        }
      }
    }

    method ValidatePrimaryOrig(o: nat, pip: Option<nat>, seqOk: bool, direct: bool, now: nat) returns (v: Verdict)
      requires Valid(Current()) && o in origs
      modifies this
      ensures (Current(), v) == ValidatePrimary(old(Current()), o, pip, seqOk, direct, now)
      ensures Valid(Current()) && o in origs && (v == Crashed <==> Standing(o, pip) == 0)
    {
      hide Valid, Free, SetPrimary, Init, LeastFree, InUse;
      PrimaryOf(Current(), o);
      NamePrimaryValid(Current(), o, pip, now);
      ValidatePrimaryValid(Current(), o, pip, seqOk, direct, now);
      ghost var t := Current();
      var a := if pip.Some? then pip.value else o;
      if origs[o].primary.Some? {
        if origs[o].primary.value != a {
          var p := origs[o].primary.value;
          if origs[p].id4him != 0 { FreePifnbNode(p); }
          SetPrimaryOrig(o, a, now);
        }
      } else {
        SetPrimaryOrig(o, a, now);
      }
      assert Current() == NamePrimary(t, o, pip, now);
      if origs[o].primary.None? { return Crashed; }
      if pip.Some? && !seqOk {
        SetPrimaryOrig(o, 0, now);
        return Refused;
      }
      AwareValid(Current(), a, now);
      origs := origs[a := origs[a].(aware := now)];
      if direct && origs[a].id4him == 0 {
        var ok := InitPifnbNode(a);
        return if ok then Passed else Refused;
      }
      v := Passed;
    }

    /** update_rq_link, as far as the primary originator goes. */
    method NoteLink(o: nat, direct: bool, now: nat)
      requires PrimaryListed(Current(), o)
      modifies this
      ensures Current() == LinkNoted(old(Current()), o, direct, now) && origs.Keys == old(origs.Keys)
    {
      if !direct || origs[o].primary.None? { return; }
      var p := origs[o].primary.value;
      origs := origs[p := origs[p].(linked := now)];
    }

    /** process_ogm, from the neighbour's entry to the choice of the router. */
    method ProcessOgm(ev: Event) returns (crashed: bool)
      requires ev.Ogm? && Valid(Current())
      modifies this
      ensures Current() == Process(old(Current()), ev).0 && Valid(Current())
      ensures crashed <==> Crashes(ev)
    {
      hide Valid, Heard, Got, ValidatePrimary, Routed, Unrouted, LinkNoted, PrimaryListed;
      ProcessValid(Current(), ev);
      GotValid(Current(), ev.neigh, ev.now);
      GotHas(Current(), ev.neigh, ev.now);
      GetOrigNode(ev.neigh, ev.now);
      if ev.stop == AtNeighbour { return false; }
      GotValid(Current(), ev.orig, ev.now);
      GotHas(Current(), ev.orig, ev.now);
      if ev.neigh != ev.orig { GetOrigNode(ev.orig, ev.now); }
      if ev.stop == AtSeqno { return false; }
      var v := ValidatePrimaryOrig(ev.orig, ev.pip, ev.seqOk, ev.neigh == ev.orig, ev.now);
      if v != Passed { return v == Crashed; }
      var l := Link(ev.neigh, ev.iif);
      HeardValid(Current(), ev.orig, l, ev.now);
      origs := origs[ev.orig := Heard(origs[ev.orig], l, ev.now)];
      if ev.stop == AtOrder { return false; }
      NoteLink(ev.orig, ev.neigh == ev.orig, ev.now);
      origs := origs[ev.orig := Routed(origs[ev.orig], l, ev.choice)];
      if ev.rejected {
        origs := origs[ev.orig := Unrouted(origs[ev.orig], 0)];
      }
      crashed := false;
    }

    /**
     The loops over the neighbours of an originator, of one that goes or of one that stays: a
     neighbour is taken out of the list and out of the tree, and the others keep their order.
     */
    method DropNeighbours(a: nat, goes: bool, bif: nat, limit: nat, now: nat)
      requires a in origs && Neighbourly(origs[a])
      modifies this
      ensures pifnb == old(pifnb)
      ensures var o := old(origs[a]);
        origs == old(origs)[a := Restricted(o, if goes then Elsewhere(o, bif) else Lately(o, limit, now))]
    {
      hide *;
      ghost var o := origs[a];
      ghost var links := if goes then Elsewhere(o, bif) else Lately(o, limit, now);
      ghost var i := 0;
      var k := 0;
      PrunedNone(o, links);
      while k < |origs[a].neighs|
        invariant i <= |o.neighs| && k == Place(o, links, i)
        invariant a in origs && origs == old(origs)[a := origs[a]] && origs[a] == Pruned(o, links, i)
        invariant pifnb == old(pifnb)
        decreases |o.neighs| - i
      {
        var n := origs[a].neighs[k];
        PrunedMore(o, links, i);
        StaysIn(o, i, goes, bif, limit, now);
        var outdated := n.aware + 1000 * limit < now && origs[a].router != Some(n.link);
        var drop := if goes then bif == 0 || n.link.iif == bif else outdated;
        if drop {
          origs := origs[a := Without(origs[a], k)];
        } else {
          k := k + 1;
        }
        i := i + 1;
      }
      PrunedAll(o, links, i);
    }

    /** The body of the loop of purge_orig. */
    method PurgeOneOrig(a: nat, bif: nat, limit: nat, now: nat)
      requires Valid(Current()) && a in origs
      modifies this
      ensures Current() == PurgeOne(old(Current()), a, bif, limit, now) && Valid(Current())
    {
      hide Valid, Free, SetPrimary, Restricted, Elsewhere, Lately, Unrouted, OthersKept, Neighbourly;
      PurgeOneValid(Current(), a, bif, limit, now);
      NeighbourlyAt(Current(), a);
      var o := origs[a];
      if bif != 0 || o.aware + 1000 * limit < now {
        StrippedValid(Current(), a, bif);
        RestrictedSame(Unrouted(o, bif), Elsewhere(o, bif));
        origs := origs[a := Unrouted(o, bif)];
        UnroutedNeighbourly(o, bif);
        DropNeighbours(a, true, bif, limit, now);
        assert origs == old(origs)[a := Restricted(Unrouted(o, bif), Elsewhere(o, bif))];
        if bif == 0 && o.refs == 0 {
          if origs[a].id4him != 0 { FreePifnbNode(a); }
          SetPrimaryOrig(a, 0, 0);
          origs := origs - {a};
        }
      } else {
        if o.id4him != 0 && o.linked + 1000 * limit < now { FreePifnbNode(a); }
        SameNeighbourly(o, origs[a]);
        LatelySame(o, origs[a], limit, now);
        DropNeighbours(a, false, bif, limit, now);
      }
    }

    /** purge_orig, timed if bif is 0, for one interface otherwise. */
    method PurgeOrig(bif: nat, limit: nat, now: nat)
      requires Valid(Current())
      modifies this
      ensures Current() == PurgeFrom(old(Current()), 0, bif, limit, now) && Valid(Current())
    {
      hide Valid, PurgeFrom, PurgeOne, Above;
      var k := 0;
      while Above(origs.Keys, k) != {}
        invariant Valid(Current())
        invariant PurgeFrom(Current(), k, bif, limit, now) == PurgeFrom(old(Current()), 0, bif, limit, now)
        decreases |Above(origs.Keys, k)|
      {
        PurgeUnfold(Current(), k, bif, limit, now);
        var a := Least(Above(origs.Keys, k));
        PurgeOneOrig(a, bif, limit, now);
        k := a;
      }
      PurgeDone(Current(), k, bif, limit, now);
    }
  }

  // ----- the loops over the neighbours -----

  /** list_del and avl_remove for the neighbour at place k. */
  function Without(o: Orig, k: nat): Orig
    requires k < |o.neighs|
  {
    o.(neighs := o.neighs[..k] + o.neighs[k + 1..], index := o.index - {o.neighs[k].link})
  }

  /** The originator when the first i of its neighbours have been looked at. */
  function Pruned(o: Orig, links: set<Link>, i: nat): Orig
    requires i <= |o.neighs|
  {
    var rest := o.neighs[i..];
    o.(neighs := Kept(o.neighs[..i], links) + rest, index := set l | l in o.index && (l in links || l in LinksOf(rest)))
  }

  function Place(o: Orig, links: set<Link>, i: nat): nat
    requires i <= |o.neighs|
  {
    |Kept(o.neighs[..i], links)|
  }

  lemma PrunedNone(o: Orig, links: set<Link>)
    requires Neighbourly(o)
    ensures Pruned(o, links, 0) == o && Place(o, links, 0) == 0
  {
    assert o.neighs[0..] == o.neighs;
  }

  lemma PrunedMore(o: Orig, links: set<Link>, i: nat)
    requires Neighbourly(o) && i <= |o.neighs| && Place(o, links, i) < |Pruned(o, links, i).neighs|
    ensures i < |o.neighs| && Pruned(o, links, i).router == o.router
    ensures var p, k, n := Pruned(o, links, i), Place(o, links, i), o.neighs[i];
      && p.neighs[k] == n
      && Place(o, links, i + 1) == (if n.link in links then k + 1 else k)
      && Pruned(o, links, i + 1) == (if n.link in links then p else Without(p, k))
  {
    hide *;
    PrunedIs(o, links, i);
    var p, k, n := Pruned(o, links, i), Place(o, links, i), o.neighs[i];
    PrunedIs(o, links, i + 1);
    KeptMore(o.neighs, links, i);
    RestLinks(o, i);
    var done, rest := Kept(o.neighs[..i], links), o.neighs[i + 1..];
    assert o.neighs[i..] == [n] + rest;
    assert p.neighs == done + ([n] + rest);
    assert p.neighs[k + 1..] == rest && p.neighs[..k] == done;
    WithoutIs(p, k);
    assert n.link !in links ==> Pruned(o, links, i + 1).index == p.index - {n.link};
    assert n.link in links ==> Pruned(o, links, i + 1).index == p.index;
    assert done + [n] + rest == done + ([n] + rest);
    assert done + [] == done;
  }

  lemma WithoutIs(o: Orig, k: nat)
    requires k < |o.neighs|
    ensures Without(o, k) == o.(neighs := o.neighs[..k] + o.neighs[k + 1..], index := o.index - {o.neighs[k].link})
  {
  }

  lemma PrunedIs(o: Orig, links: set<Link>, i: nat)
    requires i <= |o.neighs|
    ensures Place(o, links, i) == |Kept(o.neighs[..i], links)|
    ensures Pruned(o, links, i) == o.(neighs := Kept(o.neighs[..i], links) + o.neighs[i..],
                                      index := Pruned(o, links, i).index)
    ensures forall l :: l in Pruned(o, links, i).index <==> l in o.index && (l in links || l in LinksOf(o.neighs[i..]))
  {
    hide Kept, LinksOf;
  }

  lemma KeptMore(ns: seq<Neigh>, links: set<Link>, i: nat)
    requires i < |ns|
    ensures Kept(ns[..i + 1], links) == Kept(ns[..i], links) + if ns[i].link in links then [ns[i]] else []
  {
    assert ns[..i + 1][..i] == ns[..i];
  }

  lemma RestLinks(o: Orig, i: nat)
    requires Neighbourly(o) && i < |o.neighs|
    ensures LinksOf(o.neighs[i..]) == LinksOf(o.neighs[i + 1..]) + {o.neighs[i].link}
    ensures o.neighs[i].link !in LinksOf(o.neighs[i + 1..])
  {
    var all, rest := o.neighs[i..], o.neighs[i + 1..];
    forall l | l in LinksOf(all) ensures l in LinksOf(rest) + {o.neighs[i].link} {
      var j :| 0 <= j < |all| && all[j].link == l;
      assert j == 0 || rest[j - 1].link == l;
    }
    assert all[0] == o.neighs[i];
    assert forall j :: 0 <= j < |rest| ==> rest[j] == all[j + 1];
  }

  lemma PrunedAll(o: Orig, links: set<Link>, i: nat)
    requires Neighbourly(o) && i <= |o.neighs| && Place(o, links, i) >= |Pruned(o, links, i).neighs|
    ensures Pruned(o, links, i) == Restricted(o, links)
  {
    assert i == |o.neighs| && o.neighs[..i] == o.neighs;
    hide Kept;
  }

  /** The tests of the two loops say which links stay. */
  lemma StaysIn(o: Orig, i: nat, goes: bool, bif: nat, limit: nat, now: nat)
    requires Neighbourly(o) && i < |o.neighs|
    ensures var n := o.neighs[i];
      if goes then n.link in Elsewhere(o, bif) <==> bif != 0 && n.link.iif != bif
      else n.link in Lately(o, limit, now) <==> n.aware + 1000 * limit >= now || o.router == Some(n.link)
  {
  }

  lemma UnroutedNeighbourly(o: Orig, bif: nat)
    requires Neighbourly(o)
    ensures Neighbourly(Unrouted(o, bif)) && Elsewhere(Unrouted(o, bif), bif) == Elsewhere(o, bif)
  {
  }

  lemma NumberedIn(t: Table)
    requires Valid(t)
    ensures Numbered(t)
  {
  }

  lemma PurgeDone(t: Table, k: nat, bif: nat, limit: nat, now: nat)
    requires Valid(t) && Above(t.origs.Keys, k) == {}
    ensures PurgeFrom(t, k, bif, limit, now) == t
  {
  }
}
