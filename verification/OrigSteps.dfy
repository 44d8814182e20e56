/**
 What one OGM and one purge do to the originator table (compiled-tools/bmx/bmxd/originator.c:
 155-223, 659-770, 937-973, 1033-1193 and 1327-1500), and what every step keeps.
 */
module OrigSteps {
  import opened Sets
  import opened Wrappers
  import opened OrigSpec

  // ----- an OGM -----

  /** The address that is to stand for o: the one the extension names, if there is one, or its own. */
  function Standing(o: nat, pip: Option<nat>): nat { if pip.Some? then pip.value else o }

  /** How a check ends; Crashed if a pointer to the primary originator is followed that is NULL. */
  datatype Verdict = Passed | Refused | Crashed

  /** The first part of validate_primary_orig; pip is the primary address the OGM names, if it names one. */
  function NamePrimary(t: Table, o: nat, pip: Option<nat>, now: nat): Table
    requires PrimaryListed(t, o)
  {
    var a := Standing(o, pip);
    var p := t.origs[o].primary;
    if p == Some(a) then t
    else
      var f := if p.Some? && t.origs[p.value].id4him != 0 then Free(t, p.value) else t;
      SetPrimary(f, o, a, now)
  }

  /** The last part: the primary originator is noted, and gets a number if o is a direct neighbour. */
  function NotePrimary(t: Table, p: nat, direct: bool, now: nat): (Table, Verdict)
    requires p in t.origs
  {
    var n := t.(origs := t.origs[p := t.origs[p].(aware := now)]);
    if direct && n.origs[p].id4him == 0 then
      var (i, ok) := Init(n, p);
      (i, if ok then Passed else Refused)
    else (n, Passed)
  }

  /** validate_primary_orig, which follows the pointer to the primary originator in any case. */
  function ValidatePrimary(t: Table, o: nat, pip: Option<nat>, seqOk: bool, direct: bool, now: nat): (Table, Verdict)
    requires Valid(t) && o in t.origs
  {
    PrimaryOf(t, o);
    NamePrimaryValid(t, o, pip, now);
    var n := NamePrimary(t, o, pip, now);
    if n.origs[o].primary.None? then (n, Crashed)
    else if pip.Some? && !seqOk then (SetPrimary(n, o, 0, now), Refused)
    else NotePrimary(n, n.origs[o].primary.value, direct, now)
  }

  function Aware(ns: seq<Neigh>, l: Link, now: nat): (r: seq<Neigh>)
    ensures |r| == |ns| && forall i :: 0 <= i < |ns| ==> r[i].link == ns[i].link
  {
    seq(|ns|, i requires 0 <= i < |ns| => if ns[i].link == l then Neigh(l, now) else ns[i])
  }

  /** validate_considered_order: the neighbour is looked up in the tree, and made if it is not there. */
  function Heard(o: Orig, l: Link, now: nat): Orig
  {
    if l in o.index then o.(neighs := Aware(o.neighs, l, now))
    else o.(neighs := o.neighs + [Neigh(l, now)], index := o.index + {l})
  }

  function WithOrig(t: Table, a: nat, o: Orig): Table { t.(origs := t.origs[a := o]) }

  /** update_rq_link, as far as the primary originator goes: when it was last heard as a direct neighbour. */
  function LinkNoted(t: Table, o: nat, direct: bool, now: nat): Table
    requires PrimaryListed(t, o)
  {
    var p := t.origs[o].primary;
    if direct && p.Some? then WithOrig(t, p.value, t.origs[p.value].(linked := now)) else t
  }

  /** flush_orig, as far as the router goes; interface 0 stands for all. */
  function Unrouted(o: Orig, bif: nat): Orig
  {
    if bif == 0 || (o.router.Some? && o.router.value.iif == bif) then o.(router := None) else o
  }

  /** How far process_ogm gets with an OGM, and which way update_orig decides. */
  datatype Stop = AtNeighbour | AtSeqno | AtOrder | AtEnd
  datatype Choice = Keep | Take | Drop

  datatype Event =
    | Ogm(neigh: nat, orig: nat, iif: nat, pip: Option<nat>, seqOk: bool, stop: Stop, choice: Choice, rejected: bool,
          now: nat)
    | Timeout(now: nat, limit: nat)
    | LostInterface(iif: nat)

  function Routed(o: Orig, l: Link, c: Choice): Orig
  {
    match c case Keep => o case Take => o.(router := Some(l)) case Drop => o.(router := None)
  }

  /** process_ogm; the flag says that it crashes. */
  function Process(t: Table, ev: Event): (Table, bool)
    requires ev.Ogm? && Valid(t)
  {
    GotValid(t, ev.neigh, ev.now);
    var t1 := Got(t, ev.neigh, ev.now);
    if ev.stop == AtNeighbour then (t1, false)
    else
      GotValid(t1, ev.orig, ev.now);
      var t2 := if ev.neigh == ev.orig then t1 else Got(t1, ev.orig, ev.now);
      if ev.stop == AtSeqno then (t2, false)
      else
        ValidatePrimaryValid(t2, ev.orig, ev.pip, ev.seqOk, ev.neigh == ev.orig, ev.now);
        var (t3, v) := ValidatePrimary(t2, ev.orig, ev.pip, ev.seqOk, ev.neigh == ev.orig, ev.now);
        if v != Passed then (t3, v == Crashed) else (Finish(t3, ev), false)
  }

  /** process_ogm from the order of the numbers on: the neighbour is noted, its link, and the router. */
  function Finish(t: Table, ev: Event): Table
    requires ev.Ogm? && Valid(t) && ev.orig in t.origs
  {
    var l := Link(ev.neigh, ev.iif);
    var t4 := WithOrig(t, ev.orig, Heard(t.origs[ev.orig], l, ev.now));
    HeardValid(t, ev.orig, l, ev.now);
    if ev.stop == AtOrder then t4
    else
      var t5 := LinkNoted(t4, ev.orig, ev.neigh == ev.orig, ev.now);
      var r := Routed(t5.origs[ev.orig], l, ev.choice);
      WithOrig(t5, ev.orig, if ev.rejected then Unrouted(r, 0) else r)
  }

  /**
   What brings process_ogm to a NULL pointer: an OGM that passes the checks on its neighbour and
   its number, and whose primary address is 0.
   */
  predicate Crashes(ev: Event)
  {
    ev.Ogm? && ev.stop != AtNeighbour && ev.stop != AtSeqno && Standing(ev.orig, ev.pip) == 0
  }

  // ----- a purge -----

  function Kept(ns: seq<Neigh>, links: set<Link>): seq<Neigh>
  {
    if ns == [] then [] else Kept(ns[..|ns| - 1], links) + if ns[|ns| - 1].link in links then [ns[|ns| - 1]] else []
  }

  function Restricted(o: Orig, links: set<Link>): Orig
  {
    o.(neighs := Kept(o.neighs, links), index := o.index * links)
  }

  /** The neighbours on other interfaces than bif; none if bif is 0. */
  function Elsewhere(o: Orig, bif: nat): set<Link> { if bif == 0 then {} else set l | l in o.index && l.iif != bif }

  /** The neighbours heard of in time, and the router. */
  function Lately(o: Orig, limit: nat, now: nat): set<Link>
  {
    set i |
      0 <= i < |o.neighs| && (o.neighs[i].aware + 1000 * limit >= now || o.router == Some(o.neighs[i].link))
      :: o.neighs[i].link
  }

  predicate Expired(o: Orig, limit: nat, now: nat) { o.aware + 1000 * limit < now }

  /** The originator itself goes: its number, the primary one it names, and its entry. */
  function Destroyed(t: Table, a: nat): Table
    requires PrimaryListed(t, a)
  {
    var f := if t.origs[a].id4him != 0 then Free(t, a) else t;
    var u := SetPrimary(f, a, 0, 0);
    u.(origs := u.origs - {a})
  }

  /** purge_orig for one originator. */
  function PurgeOne(t: Table, a: nat, bif: nat, limit: nat, now: nat): Table
    requires Valid(t) && a in t.origs
  {
    PrimaryOf(t, a);
    var o := t.origs[a];
    if bif != 0 || Expired(o, limit, now) then
      var u := WithOrig(t, a, Restricted(Unrouted(o, bif), Elsewhere(o, bif)));
      if bif == 0 && o.refs == 0 then Destroyed(u, a) else u
    else
      var f := if o.id4him != 0 && o.linked + 1000 * limit < now then Free(t, a) else t;
      WithOrig(f, a, Restricted(f.origs[a], Lately(o, limit, now)))
  }

  // ----- what the steps keep -----

  /** Only awareness, names and counters of the originators differ; new ones are blank. */
  ghost predicate SameNeighbours(s: Table, t: Table)
  {
    && t.pifnb == s.pifnb
    && (forall p :: p in s.origs ==> p in t.origs && SameLinks(s.origs[p], t.origs[p]))
    && (forall p :: p in t.origs && p !in s.origs ==> Blank(t.origs[p]))
  }

  predicate SameLinks(o: Orig, p: Orig)
  {
    o.neighs == p.neighs && o.index == p.index && o.router == p.router && o.id4him == p.id4him
  }

  predicate Blank(o: Orig) { o.neighs == [] && o.index == {} && o.router == None && o.id4him == 0 }

  lemma ValidKept(s: Table, t: Table)
    requires Valid(s) && SameNeighbours(s, t) && Counted(t.origs) && NoneNamesZero(t.origs)
    ensures Valid(t)
  {
    hide Counted;
    assert Numbered(t) by {
      assert forall i :: 0 <= i < |t.pifnb| ==> SameLinks(s.origs[t.pifnb[i]], t.origs[t.pifnb[i]]);
    }
    forall o | o in t.origs ensures Neighbourly(t.origs[o]) {
      if o in s.origs { assert Neighbourly(s.origs[o]) && SameLinks(s.origs[o], t.origs[o]); }
    }
  }

  lemma GotValid(t: Table, a: nat, now: nat)
    requires Valid(t)
    ensures Valid(Got(t, a, now))
  {
    hide Counted, Numbered, Neighbourly;
    GotCounted(t, a, now);
    ValidKept(t, Got(t, a, now));
  }

  lemma SameTrans(s: Table, t: Table, u: Table)
    requires SameNeighbours(s, t) && SameNeighbours(t, u)
    ensures SameNeighbours(s, u)
  {
  }

  lemma OneSame(t: Table, p: nat, o: Orig)
    requires p in t.origs && SameLinks(t.origs[p], o)
    ensures SameNeighbours(t, WithOrig(t, p, o))
  {
  }

  lemma GotSame(t: Table, a: nat, now: nat)
    ensures SameNeighbours(t, Got(t, a, now))
  {
  }

  lemma UnsetSame(t: Table, o: nat, a: nat)
    requires PrimaryListed(t, o)
    ensures SameNeighbours(t, Unset(t, o, a)) && o in Unset(t, o, a).origs
  {
    hide SameNeighbours;
    var p := t.origs[o].primary;
    if p.Some? && (a == 0 || p.value != a) {
      var r := if p.value != o then Referred(t, p.value, -1) else t;
      if p.value != o {
        OneSame(t, p.value, r.origs[p.value]);
      } else {
        OneSame(t, o, t.origs[o]);
        assert WithOrig(t, o, t.origs[o]) == t;
      }
      OneSame(r, o, r.origs[o].(primary := None));
      SameTrans(t, r, WithPrimary(r, o, None));
    } else {
      OneSame(t, o, t.origs[o]);
      assert WithOrig(t, o, t.origs[o]) == t;
    }
  }

  lemma SetPrimarySame(t: Table, o: nat, a: nat, now: nat)
    requires PrimaryListed(t, o)
    ensures SameNeighbours(t, SetPrimary(t, o, a, now))
  {
    hide SameNeighbours, Unset, Got;
    UnsetSame(t, o, a);
    var u := Unset(t, o, a);
    if a != 0 && u.origs[o].primary != Some(a) {
      if o != a {
        GotSame(u, a, now);
        GotHas(u, a, now);
        var g := Got(u, a, now);
        SameTrans(t, u, g);
        OneSame(g, a, g.origs[a].(refs := g.origs[a].refs + 1));
        var h := Referred(g, a, 1);
        SameTrans(t, g, h);
        OneSame(h, o, h.origs[o].(primary := Some(a)));
        SameTrans(t, h, WithPrimary(h, o, Some(a)));
      } else {
        OneSame(u, o, u.origs[o].(primary := Some(o)));
        SameTrans(t, u, WithPrimary(u, o, Some(o)));
      }
    }
  }

  lemma GotHas(t: Table, a: nat, now: nat)
    ensures Got(t, a, now).origs.Keys == t.origs.Keys + {a}
  {
  }

  lemma SetPrimaryValid(t: Table, o: nat, a: nat, now: nat)
    requires Valid(t) && o in t.origs
    ensures PrimaryListed(t, o)
    ensures var r := SetPrimary(t, o, a, now);
      Valid(r) && o in r.origs && (a != 0 ==> a in r.origs) && r.origs[o].primary == if a == 0 then None else Some(a)
  {
    hide Counted, Numbered, Neighbourly, SetPrimary, SameNeighbours;
    PrimaryIn(t.origs, o);
    SetPrimaryCounted(t, o, a, now);
    SetPrimaryNonZero(t, o, a, now);
    SetPrimarySame(t, o, a, now);
    ValidKept(t, SetPrimary(t, o, a, now));
  }

  lemma FreeValid(t: Table, a: nat)
    requires Valid(t) && a in t.origs && t.origs[a].id4him != 0
    ensures Valid(Free(t, a)) && Free(t, a).origs == t.origs[a := t.origs[a].(id4him := 0)] && a !in Free(t, a).pifnb
  {
    hide Numbered, Counted, Free, Neighbourly;
    FreeSpec(t, a);
    CountedKept(t.origs, Free(t, a).origs);
    SameNeighbourly(t.origs[a], t.origs[a].(id4him := 0));
  }

  lemma SameNeighbourly(o: Orig, p: Orig)
    requires Neighbourly(o) && o.neighs == p.neighs && o.index == p.index && (p.router == o.router || p.router == None)
    ensures Neighbourly(p)
  {
  }

  lemma InitValid(t: Table, a: nat)
    requires Valid(t) && a in t.origs && t.origs[a].id4him == 0
    ensures Valid(Init(t, a).0) && Init(t, a).0.origs.Keys == t.origs.Keys
  {
    hide Numbered, Counted, Gap, Neighbourly;
    InitSpec(t, a);
    CountedKept(t.origs, Init(t, a).0.origs);
    SameNeighbourly(t.origs[a], Init(t, a).0.origs[a]);
  }

  lemma SameIds(t: Table, a: nat, o: Orig)
    requires Numbered(t) && a in t.origs && o.id4him == t.origs[a].id4him
    ensures Numbered(WithOrig(t, a, o))
  {
  }

  /** Replacing one originator's neighbours and router keeps the table valid. */
  lemma WithOrigValid(t: Table, a: nat, o: Orig)
    requires Valid(t) && a in t.origs && Neighbourly(o)
    requires o.primary == t.origs[a].primary && o.refs == t.origs[a].refs && o.id4him == t.origs[a].id4him
    ensures Valid(WithOrig(t, a, o))
  {
    hide Counted, Neighbourly, Numbered;
    CountedKept(t.origs, WithOrig(t, a, o).origs);
    SameIds(t, a, o);
  }

  lemma PrimaryOf(t: Table, o: nat)
    requires Valid(t) && o in t.origs
    ensures PrimaryListed(t, o) && t.origs[o].primary != Some(0)
  {
    PrimaryIn(t.origs, o);
  }

  // ----- an OGM keeps the table valid -----

  lemma NamePrimaryValid(t: Table, o: nat, pip: Option<nat>, now: nat)
    requires Valid(t) && o in t.origs && PrimaryListed(t, o)
    ensures var n, a := NamePrimary(t, o, pip, now), Standing(o, pip);
      && Valid(n) && o in n.origs && (a != 0 ==> a in n.origs)
      && n.origs[o].primary == if a == 0 then None else Some(a)
  {
    hide Valid, SetPrimary, Free;
    PrimaryOf(t, o);
    var a, p := Standing(o, pip), t.origs[o].primary;
    if p != Some(a) {
      if p.Some? && t.origs[p.value].id4him != 0 { FreeValid(t, p.value); }
      var f := if p.Some? && t.origs[p.value].id4him != 0 then Free(t, p.value) else t;
      SetPrimaryValid(f, o, a, now);
    }
  }

  /** The counters and numbers stay exact, and a NULL pointer is followed exactly for the address 0. */
  lemma ValidatePrimaryValid(t: Table, o: nat, pip: Option<nat>, seqOk: bool, direct: bool, now: nat)
    requires Valid(t) && o in t.origs
    ensures var r := ValidatePrimary(t, o, pip, seqOk, direct, now);
      Valid(r.0) && o in r.0.origs && (r.1 == Crashed <==> Standing(o, pip) == 0)
  {
    hide Valid, NamePrimary, SetPrimary, Init;
    PrimaryOf(t, o);
    NamePrimaryValid(t, o, pip, now);
    var n, p := NamePrimary(t, o, pip, now), Standing(o, pip);
    if p == 0 {
    } else if pip.Some? && !seqOk {
      SetPrimaryValid(n, o, 0, now);
    } else {
      var m := n.(origs := n.origs[p := n.origs[p].(aware := now)]);
      AwareValid(n, p, now);
      if direct && m.origs[p].id4him == 0 { InitValid(m, p); }
    }
  }

  lemma AwareValid(t: Table, p: nat, now: nat)
    requires Valid(t) && p in t.origs
    ensures Valid(t.(origs := t.origs[p := t.origs[p].(aware := now)]))
  {
    hide Counted, Numbered, Neighbourly;
    SameNeighbourly(t.origs[p], t.origs[p].(aware := now));
    WithOrigValid(t, p, t.origs[p].(aware := now));
  }

  lemma HeardNeighbourly(o: Orig, l: Link, now: nat)
    requires Neighbourly(o)
    ensures Neighbourly(Heard(o, l, now)) && l in Heard(o, l, now).index
  {
    var r := Heard(o, l, now);
    if l in o.index {
      assert LinksOf(r.neighs) == LinksOf(o.neighs);
    } else {
      assert forall i :: 0 <= i < |r.neighs| ==> r.neighs[i] == if i < |o.neighs| then o.neighs[i] else Neigh(l, now);
      assert LinksOf(r.neighs) == LinksOf(o.neighs) + {l} by {
        assert r.neighs[|o.neighs|].link == l;
        assert forall i :: 0 <= i < |o.neighs| ==> r.neighs[i].link == o.neighs[i].link;
      }
      assert forall i :: 0 <= i < |o.neighs| ==> o.neighs[i].link in LinksOf(o.neighs);
    }
  }

  /** Whatever becomes of an OGM, it leaves the table valid, and which OGMs crash the daemon. */
  lemma ProcessValid(t: Table, ev: Event)
    requires ev.Ogm? && Valid(t)
    ensures Valid(Process(t, ev).0) && (Process(t, ev).1 <==> Crashes(ev))
  {
    hide Valid, Got, ValidatePrimary, Neighbourly, Heard, Routed, Unrouted;
    var t1 := Got(t, ev.neigh, ev.now);
    GotValid(t, ev.neigh, ev.now);
    GotHas(t, ev.neigh, ev.now);
    if ev.stop != AtNeighbour {
      var t2 := if ev.neigh == ev.orig then t1 else Got(t1, ev.orig, ev.now);
      if ev.neigh != ev.orig { GotValid(t1, ev.orig, ev.now); GotHas(t1, ev.orig, ev.now); }
      if ev.stop != AtSeqno {
        PrimaryOf(t2, ev.orig);
        ValidatePrimaryValid(t2, ev.orig, ev.pip, ev.seqOk, ev.neigh == ev.orig, ev.now);
        var t3 := ValidatePrimary(t2, ev.orig, ev.pip, ev.seqOk, ev.neigh == ev.orig, ev.now).0;
        var l := Link(ev.neigh, ev.iif);
        HeardValid(t3, ev.orig, l, ev.now);
        var t4 := WithOrig(t3, ev.orig, Heard(t3.origs[ev.orig], l, ev.now));
        LinkNotedValid(t4, ev.orig, l, ev.neigh == ev.orig, ev.now);
        RoutedValid(LinkNoted(t4, ev.orig, ev.neigh == ev.orig, ev.now), ev.orig, l, ev.choice);
      }
    }
  }

  lemma HeardValid(t: Table, a: nat, l: Link, now: nat)
    requires Valid(t) && a in t.origs
    ensures var r := WithOrig(t, a, Heard(t.origs[a], l, now));
      Valid(r) && PrimaryListed(r, a) && l in r.origs[a].index
  {
    assert Neighbourly(t.origs[a]);
    HeardNeighbourly(t.origs[a], l, now);
    hide Valid, Neighbourly;
    WithOrigValid(t, a, Heard(t.origs[a], l, now));
    PrimaryOf(WithOrig(t, a, Heard(t.origs[a], l, now)), a);
  }

  lemma LinkNotedValid(t: Table, a: nat, l: Link, direct: bool, now: nat)
    requires Valid(t) && PrimaryListed(t, a) && l in t.origs[a].index
    ensures var r := LinkNoted(t, a, direct, now);
      Valid(r) && a in r.origs && l in r.origs[a].index
  {
    var p := t.origs[a].primary;
    if direct && p.Some? {
      assert Neighbourly(t.origs[p.value]);
      hide Valid;
      SameNeighbourly(t.origs[p.value], t.origs[p.value].(linked := now));
      WithOrigValid(t, p.value, t.origs[p.value].(linked := now));
    }
  }

  lemma RoutedValid(t: Table, a: nat, l: Link, c: Choice)
    requires Valid(t) && a in t.origs && l in t.origs[a].index
    ensures var r := Routed(t.origs[a], l, c);
      Valid(WithOrig(t, a, r)) && Valid(WithOrig(t, a, Unrouted(r, 0)))
  {
    var r := Routed(t.origs[a], l, c);
    assert Neighbourly(t.origs[a]);
    hide Valid;
    WithOrigValid(t, a, r);
    WithOrigValid(t, a, Unrouted(r, 0));
  }

  // ----- a purge keeps the table valid -----

  lemma {:induction false} KeptLinks(ns: seq<Neigh>, links: set<Link>)
    requires NoTwins(ns)
    ensures NoTwins(Kept(ns, links)) && LinksOf(Kept(ns, links)) == LinksOf(ns) * links
    decreases |ns|
  {
    if ns != [] {
      var front, last := ns[..|ns| - 1], ns[|ns| - 1];
      assert front + [last] == ns;
      KeptLinks(front, links);
      LinksMore(front, last);
      assert Kept(front, links) + [] == Kept(front, links);
      assert last.link !in LinksOf(front);
      if last.link in links {
        LinksMore(Kept(front, links), last);
        assert forall i :: 0 <= i < |Kept(front, links)| ==> Kept(front, links)[i].link in LinksOf(Kept(front, links));
      }
    }
  }

  lemma LinksMore(ns: seq<Neigh>, n: Neigh)
    ensures LinksOf(ns + [n]) == LinksOf(ns) + {n.link}
  {
    assert forall i :: 0 <= i < |ns| ==> (ns + [n])[i].link == ns[i].link;
    assert (ns + [n])[|ns|].link == n.link;
  }

  lemma RestrictedNeighbourly(o: Orig, links: set<Link>)
    requires Neighbourly(o) && (o.router.Some? ==> o.router.value in links)
    ensures Neighbourly(Restricted(o, links))
  {
    KeptLinks(o.neighs, links);
    hide NoTwins, LinksOf, Kept;
  }

  lemma ElsewhereNeighbourly(o: Orig, bif: nat)
    requires Neighbourly(o)
    ensures Neighbourly(Restricted(Unrouted(o, bif), Elsewhere(o, bif)))
  {
    hide Restricted, LinksOf, NoTwins;
    RestrictedNeighbourly(Unrouted(o, bif), Elsewhere(o, bif));
  }

  lemma LatelyNeighbourly(o: Orig, limit: nat, now: nat)
    requires Neighbourly(o)
    ensures Neighbourly(Restricted(o, Lately(o, limit, now)))
  {
    if o.router.Some? {
      var i :| 0 <= i < |o.neighs| && o.neighs[i].link == o.router.value;
      assert o.router == Some(o.neighs[i].link);
    }
    hide Restricted, NoTwins;
    RestrictedNeighbourly(o, Lately(o, limit, now));
  }

  /** An originator that nobody names can go without leaving a dangling name or number. */
  lemma DestroyedValid(t: Table, a: nat)
    requires Valid(t) && a in t.origs && t.origs[a].refs == 0
    ensures PrimaryListed(t, a) && Valid(Destroyed(t, a))
    ensures Destroyed(t, a).origs.Keys == t.origs.Keys - {a}
    ensures OthersKept(t, Destroyed(t, a))
  {
    hide Valid, Free, SetPrimary;
    PrimaryOf(t, a);
    if t.origs[a].id4him != 0 { FreeValid(t, a); }
    var f := if t.origs[a].id4him != 0 then Free(t, a) else t;
    SetPrimaryValid(f, a, 0, 0);
    UnsetOthers(f, a);
    RemovedValid(SetPrimary(f, a, 0, 0), a);
  }

  lemma UnsetOthers(t: Table, a: nat)
    requires PrimaryListed(t, a)
    ensures var u := SetPrimary(t, a, 0, 0);
      && u.origs.Keys == t.origs.Keys
      && u.origs[a].refs == t.origs[a].refs && u.origs[a].id4him == t.origs[a].id4him
      && forall p :: p in t.origs && p != a ==>
        u.origs[p].primary == t.origs[p].primary && u.origs[p].aware == t.origs[p].aware
  {
  }

  lemma RemovedCounted(s: map<nat, Orig>, a: nat)
    requires Counted(s) && a in s && s[a].refs == 0 && s[a].primary == None
    ensures Counted(s - {a})
  {
    hide Namers;
    var r := s - {a};
    assert Namers(s, a) == {};
    forall o | o in r ensures r[o].refs == |Namers(r, o)| && (r[o].primary.Some? ==> r[o].primary.value in r) {
      NamersRemoved(s, a, o);
    }
  }

  /** An originator that names none and is named by none can go without changing who names whom. */
  lemma NamersRemoved(s: map<nat, Orig>, a: nat, o: nat)
    requires a in s && s[a].primary == None && Namers(s, a) == {} && o in s && o != a
    ensures Namers(s - {a}, o) == Namers(s, o) && s[o].primary != Some(a)
  {
    assert s[o].primary == Some(a) ==> o in Namers(s, a);
  }

  lemma RemovedNumbered(t: Table, a: nat)
    requires Numbered(t) && a in t.origs && t.origs[a].id4him == 0
    ensures Numbered(t.(origs := t.origs - {a}))
  {
    assert forall i :: 0 <= i < |t.pifnb| ==> t.pifnb[i] != a;
  }

  lemma RemovedValid(t: Table, a: nat)
    requires Valid(t) && a in t.origs && t.origs[a].refs == 0 && t.origs[a].id4him == 0 && t.origs[a].primary == None
    ensures Valid(t.(origs := t.origs - {a}))
  {
    hide Counted, Numbered, Neighbourly;
    RemovedCounted(t.origs, a);
    RemovedNumbered(t, a);
  }

  lemma NeighbourlyAt(t: Table, a: nat)
    requires Valid(t) && a in t.origs
    ensures Neighbourly(t.origs[a]) && t.origs[a].refs == |Namers(t.origs, a)|
  {
    hide Neighbourly, Namers;
  }

  /** What a purge leaves of the others: the primary they name and when they were heard of. */
  ghost predicate OthersKept(t: Table, r: Table)
  {
    forall p :: p in r.origs ==>
      p in t.origs && r.origs[p].primary == t.origs[p].primary && r.origs[p].aware == t.origs[p].aware
  }

  lemma WithOrigKept(t: Table, a: nat, o: Orig)
    requires a in t.origs && o.primary == t.origs[a].primary && o.aware == t.origs[a].aware
    ensures OthersKept(t, WithOrig(t, a, o)) && WithOrig(t, a, o).origs.Keys == t.origs.Keys
  {
  }

  lemma KeptTrans(t: Table, u: Table, r: Table)
    requires OthersKept(t, u) && OthersKept(u, r)
    ensures OthersKept(t, r)
  {
  }

  lemma StrippedValid(t: Table, a: nat, bif: nat)
    requires Valid(t) && a in t.origs
    ensures var o := t.origs[a];
      var u := WithOrig(t, a, Restricted(Unrouted(o, bif), Elsewhere(o, bif)));
      && Valid(u) && OthersKept(t, u) && u.origs.Keys == t.origs.Keys && u.origs[a].refs == o.refs
  {
    hide Valid, Neighbourly, Restricted, Elsewhere, OthersKept, Namers;
    var o := t.origs[a];
    NeighbourlyAt(t, a);
    ElsewhereNeighbourly(o, bif);
    RestrictedSame(Unrouted(o, bif), Elsewhere(o, bif));
    WithOrigValid(t, a, Restricted(Unrouted(o, bif), Elsewhere(o, bif)));
    WithOrigKept(t, a, Restricted(Unrouted(o, bif), Elsewhere(o, bif)));
  }

  lemma TrimmedValid(t: Table, a: nat, free: bool, limit: nat, now: nat)
    requires Valid(t) && a in t.origs && (free ==> t.origs[a].id4him != 0)
    ensures var f := if free then Free(t, a) else t;
      && a in f.origs
      && var r := WithOrig(f, a, Restricted(f.origs[a], Lately(t.origs[a], limit, now)));
      && Valid(r) && OthersKept(t, r) && r.origs.Keys == t.origs.Keys
  {
    hide Valid, Neighbourly, Restricted, Lately, OthersKept, Free, Namers;
    var o, f := t.origs[a], if free then Free(t, a) else t;
    NeighbourlyAt(t, a);
    if free { FreeValid(t, a); WithOrigKept(t, a, f.origs[a]); } else { WithOrigKept(t, a, o); }
    SameNeighbourly(o, f.origs[a]);
    LatelyNeighbourly(f.origs[a], limit, now);
    LatelySame(o, f.origs[a], limit, now);
    RestrictedSame(f.origs[a], Lately(o, limit, now));
    WithOrigValid(f, a, Restricted(f.origs[a], Lately(o, limit, now)));
    WithOrigKept(f, a, Restricted(f.origs[a], Lately(o, limit, now)));
    assert WithOrig(t, a, f.origs[a]).origs == f.origs;
    SameOthers(WithOrig(t, a, f.origs[a]), f, WithOrig(f, a, Restricted(f.origs[a], Lately(o, limit, now))), t);
  }

  lemma SameOthers(u: Table, f: Table, r: Table, t: Table)
    requires u.origs == f.origs && OthersKept(t, u) && OthersKept(f, r)
    ensures OthersKept(t, r)
  {
  }

  lemma PurgeOneValid(t: Table, a: nat, bif: nat, limit: nat, now: nat)
    requires Valid(t) && a in t.origs
    ensures var r, o := PurgeOne(t, a, bif, limit, now), t.origs[a];
      && Valid(r) && OthersKept(t, r)
      && r.origs.Keys == if bif == 0 && Expired(o, limit, now) && o.refs == 0 then t.origs.Keys - {a} else t.origs.Keys
  {
    hide Valid, Free, Restricted, Elsewhere, Lately, Destroyed, OthersKept, Unrouted, WithOrig;
    var o := t.origs[a];
    PrimaryOf(t, a);
    if bif != 0 || Expired(o, limit, now) {
      StrippedValid(t, a, bif);
      var u := WithOrig(t, a, Restricted(Unrouted(o, bif), Elsewhere(o, bif)));
      if bif == 0 && o.refs == 0 {
        DestroyedValid(u, a);
        KeptTrans(t, u, Destroyed(u, a));
      }
    } else {
      TrimmedValid(t, a, o.id4him != 0 && o.linked + 1000 * limit < now, limit, now);
    }
  }

  lemma LatelySame(o: Orig, p: Orig, limit: nat, now: nat)
    requires o.neighs == p.neighs && o.router == p.router
    ensures Lately(o, limit, now) == Lately(p, limit, now)
  {
  }

  lemma RestrictedSame(o: Orig, links: set<Link>)
    ensures var r := Restricted(o, links);
      r.primary == o.primary && r.refs == o.refs && r.id4him == o.id4him && r.aware == o.aware && r.linked == o.linked
  {
  }

  // ----- the whole purge -----

  function Above(s: set<nat>, k: nat): set<nat> { set x | x in s && x > k }

  /** avl_next: the least element above k. */
  function Least(s: set<nat>): (x: nat)
    requires s != {}
    ensures x in s && forall y :: y in s ==> x <= y
  {
    LeastExists(s, (x: nat) => x);
    assert exists x :: x in s && forall y :: y in s ==> x <= y by {
      var x :| IsLeast(s, (x: nat) => x, x);
      assert forall y :: y in s ==> x <= y;
    }
    var x :| x in s && forall y :: y in s ==> x <= y;
    x
  }

  /** purge_orig from the originator after k on; each turn looks for the next address anew. */
  function PurgeFrom(t: Table, k: nat, bif: nat, limit: nat, now: nat): Table
    requires Valid(t)
    decreases |Above(t.origs.Keys, k)|
  {
    if Above(t.origs.Keys, k) == {} then t
    else
      var a := Least(Above(t.origs.Keys, k));
      PurgeOneValid(t, a, bif, limit, now);
      var u := PurgeOne(t, a, bif, limit, now);
      AboveLess(t.origs.Keys, u.origs.Keys, k, a);
      PurgeFrom(u, a, bif, limit, now)
  }

  lemma AboveLess(s: set<nat>, r: set<nat>, k: nat, a: nat)
    requires a in Above(s, k) && r <= s
    ensures |Above(r, a)| < |Above(s, k)|
  {
    assert Above(r, a) <= Above(s, k) - {a};
    SubsetSize(Above(r, a), Above(s, k) - {a});
  }

  lemma {:induction false} PurgeValid(t: Table, k: nat, bif: nat, limit: nat, now: nat)
    requires Valid(t)
    ensures Valid(PurgeFrom(t, k, bif, limit, now))
    decreases |Above(t.origs.Keys, k)|
  {
    if Above(t.origs.Keys, k) != {} {
      var a := Least(Above(t.origs.Keys, k));
      PurgeOneValid(t, a, bif, limit, now);
      var u := PurgeOne(t, a, bif, limit, now);
      AboveLess(t.origs.Keys, u.origs.Keys, k, a);
      hide Valid, PurgeOne, Above;
      PurgeValid(u, a, bif, limit, now);
    }
  }

  /**
   Which originators a timed purge removes: those that have expired and are named only by
   originators that the same purge has removed before, that is, by lower addresses.
   */
  lemma {:induction false} PurgeOutcome(t: Table, k: nat, limit: nat, now: nat)
    requires Valid(t)
    ensures var r := PurgeFrom(t, k, 0, limit, now).origs.Keys;
      && r <= t.origs.Keys
      && forall o :: o in t.origs ==> Outcome(t, k, o, limit, now, r)
    decreases |Above(t.origs.Keys, k)|, 1
  {
    if Above(t.origs.Keys, k) != {} {
      OutcomeMore(t, k, limit, now);
    } else {
      hide Valid, PurgeOne, Namers, Expired;
      assert forall o :: o in t.origs ==> o in Above(t.origs.Keys, k) || o <= k;
    }
  }

  lemma PurgeUnfold(t: Table, k: nat, bif: nat, limit: nat, now: nat)
    requires Valid(t) && Above(t.origs.Keys, k) != {}
    ensures var a := Least(Above(t.origs.Keys, k));
      && a in t.origs && a > k && (forall x :: x in t.origs && x > k ==> a <= x)
      && var u := PurgeOne(t, a, bif, limit, now);
      && Valid(u) && PurgeFrom(t, k, bif, limit, now) == PurgeFrom(u, a, bif, limit, now)
      && |Above(u.origs.Keys, a)| < |Above(t.origs.Keys, k)|
  {
    var a := Least(Above(t.origs.Keys, k));
    PurgeOneValid(t, a, bif, limit, now);
    AboveLess(t.origs.Keys, PurgeOne(t, a, bif, limit, now).origs.Keys, k, a);
    assert forall x :: x in t.origs && x > k ==> x in Above(t.origs.Keys, k);
    hide Valid, PurgeOne;
  }

  lemma OutcomeMore(t: Table, k: nat, limit: nat, now: nat)
    requires Valid(t) && Above(t.origs.Keys, k) != {}
    ensures var r := PurgeFrom(t, k, 0, limit, now).origs.Keys;
      && r <= t.origs.Keys
      && forall o :: o in t.origs ==> Outcome(t, k, o, limit, now, r)
    decreases |Above(t.origs.Keys, k)|, 0
  {
    hide *;
    var r, a := PurgeFrom(t, k, 0, limit, now).origs.Keys, Least(Above(t.origs.Keys, k));
    PurgeUnfold(t, k, 0, limit, now);
    PurgeOneValid(t, a, 0, limit, now);
    var u := PurgeOne(t, a, 0, limit, now);
    PurgeOutcome(u, a, limit, now);
    NeighbourlyAt(t, a);
    forall o | o in t.origs ensures Outcome(t, k, o, limit, now, r) {
      OutcomeStep(t, u, k, a, o, limit, now, r);
    }
  }

  /** An originator has been removed exactly if it had expired and only removed ones with lower addresses named it. */
  ghost predicate Outcome(t: Table, k: nat, o: nat, limit: nat, now: nat, r: set<nat>)
    requires o in t.origs
  {
    o !in r <==>
      o > k && t.origs[o].aware + 1000 * limit < now && forall p :: p in Namers(t.origs, o) ==> k < p < o && p !in r
  }

  lemma OutcomeStep(t: Table, u: Table, k: nat, a: nat, o: nat, limit: nat, now: nat, r: set<nat>)
    requires o in t.origs && a in t.origs && a > k && forall x :: x in t.origs && x > k ==> a <= x
    requires t.origs[a].refs == |Namers(t.origs, a)|
    requires u.origs.Keys ==
      if Expired(t.origs[a], limit, now) && t.origs[a].refs == 0 then t.origs.Keys - {a} else t.origs.Keys
    requires OthersKept(t, u) && r <= u.origs.Keys
    requires forall o :: o in u.origs ==> Outcome(u, a, o, limit, now, r)
    ensures Outcome(t, k, o, limit, now, r)
  {
    if o == a {
      assert forall p :: p in Namers(t.origs, a) ==> !(k < p < a);
      if Namers(t.origs, a) != {} {
        var p :| p in Namers(t.origs, a);
      }
    } else if o > k {
      assert forall p :: p in Namers(u.origs, o) <==> p in Namers(t.origs, o) && p in u.origs;
      assert a !in u.origs ==> a !in r;
      assert a in u.origs ==> a in r;
    }
  }

  /** What one turn of a timed purge does to the numbers: only the one at hand can lose its number. */
  lemma PurgeOneNumber(t: Table, a: nat, p: nat, limit: nat, now: nat)
    requires Valid(t) && a in t.origs && p in t.origs && !Expired(t.origs[p], limit, now)
    ensures var o, r := t.origs[p], PurgeOne(t, a, 0, limit, now).origs;
      && p in r && r[p].aware == o.aware && r[p].linked == o.linked
      && r[p].id4him == if p == a && o.linked + 1000 * limit < now then 0 else o.id4him
  {
    hide Valid, Free, Restricted, Elsewhere, Lately, Unrouted;
    PrimaryOf(t, a);
    var o := t.origs[a];
    if Expired(o, limit, now) {
      StrippedValid(t, a, 0);
      RestrictedSame(Unrouted(o, 0), Elsewhere(o, 0));
      var u := WithOrig(t, a, Restricted(Unrouted(o, 0), Elsewhere(o, 0)));
      if o.refs == 0 && u.origs[a].id4him != 0 { FreeValid(u, a); }
    } else {
      if o.id4him != 0 && o.linked + 1000 * limit < now { FreeValid(t, a); }
      RestrictedSame(o, Lately(o, limit, now));
      RestrictedSame(o.(id4him := 0), Lately(o, limit, now));
    }
  }

  /**
   Which numbers a timed purge takes back from originators that stay: those of neighbours that
   were not heard as direct neighbours within the purge time.
   */
  lemma {:induction false} NumberOutcome(t: Table, k: nat, p: nat, limit: nat, now: nat)
    requires Valid(t) && p in t.origs && t.origs[p].aware + 1000 * limit >= now
    ensures var o, r := t.origs[p], PurgeFrom(t, k, 0, limit, now).origs;
      p in r && r[p].id4him == if p > k && o.linked + 1000 * limit < now then 0 else o.id4him
    decreases |Above(t.origs.Keys, k)|
  {
    if Above(t.origs.Keys, k) != {} {
      hide Valid, PurgeOne, PurgeFrom, Above;
      PurgeUnfold(t, k, 0, limit, now);
      var a := Least(Above(t.origs.Keys, k));
      PurgeOneNumber(t, a, p, limit, now);
      NumberOutcome(PurgeOne(t, a, 0, limit, now), a, p, limit, now);
    } else {
      assert p > k ==> p in Above(t.origs.Keys, k);
      hide Valid, PurgeOne;
    }
  }

  /** A direct neighbour whose OGM gets to the end has its primary originator numbered and noted as heard. */
  lemma DirectNumbered(t: Table, ev: Event)
    requires Valid(t) && Proper(ev) && ev.Ogm? && ev.stop == AtEnd && ev.neigh == ev.orig
    requires Valid(Got(t, ev.orig, ev.now))
    requires ValidatePrimary(Got(t, ev.orig, ev.now), ev.orig, ev.pip, ev.seqOk, true, ev.now).1 == Passed
    ensures var p, r := Standing(ev.orig, ev.pip), Process(t, ev).0.origs;
      p in r && r[p].id4him != 0 && r[p].linked == ev.now && r[p].aware == ev.now
  {
    hide Valid, NamePrimary, Got, Heard, SetPrimary, Gap;
    var g, p := Got(t, ev.orig, ev.now), Standing(ev.orig, ev.pip);
    GotHas(t, ev.orig, ev.now);
    PrimaryOf(g, ev.orig);
    NamePrimaryValid(g, ev.orig, ev.pip, ev.now);
    var n := ValidatePrimary(g, ev.orig, ev.pip, ev.seqOk, true, ev.now).0;
    assert p in n.origs && n.origs[p].id4him != 0 && n.origs[p].aware == ev.now && n.origs[ev.orig].primary == Some(p);
    HeardSame(n.origs[ev.orig], Link(ev.neigh, ev.iif), ev.now);
  }

  lemma HeardSame(o: Orig, l: Link, now: nat)
    ensures var r := Heard(o, l, now);
      r.primary == o.primary && r.id4him == o.id4him && r.aware == o.aware && r.refs == o.refs
  {
  }

  // ----- runs -----

  /** One event; the flag says that the daemon crashes on it. */
  function Step(t: Table, ev: Event): (Table, bool)
    requires Valid(t) && Proper(ev)
  {
    match ev
    case Ogm(_, _, _, _, _, _, _, _, _) => Process(t, ev)
    case Timeout(now, limit) => (PurgeFrom(t, 0, 0, limit, now), false)
    case LostInterface(iif) => (PurgeFrom(t, 0, iif, 0, 0), false)
  }

  lemma StepValid(t: Table, ev: Event)
    requires Valid(t) && Proper(ev)
    ensures Valid(Step(t, ev).0) && (Step(t, ev).1 <==> Crashes(ev))
  {
    hide Valid, Process, PurgeFrom;
    match ev
    case Ogm(_, _, _, _, _, _, _, _, _) => ProcessValid(t, ev);
    case Timeout(now, limit) => PurgeValid(t, 0, 0, limit, now);
    case LostInterface(iif) => PurgeValid(t, 0, iif, 0, 0);
  }

  /** Interfaces are numbered from 1; 0 stands for all of them. */
  predicate Proper(ev: Event) { ev.LostInterface? ==> ev.iif != 0 }

  /** A run of OGMs, timed purges and purges of a lost interface, which ends early if the daemon crashes. */
  function Runs(t: Table, evs: seq<Event>): (Table, bool)
    requires Valid(t) && forall ev :: ev in evs ==> Proper(ev)
    decreases |evs|
  {
    if evs == [] then (t, false)
    else
      StepValid(t, evs[0]);
      var r := Step(t, evs[0]);
      if r.1 then r else Runs(r.0, evs[1..])
  }

  /** The bookkeeping holds after any such run, and the daemon crashes exactly if some event of it makes it crash. */
  lemma {:induction false} RunsValid(t: Table, evs: seq<Event>)
    requires Valid(t) && forall ev :: ev in evs ==> Proper(ev)
    ensures Valid(Runs(t, evs).0)
    ensures Runs(t, evs).1 <==> exists ev :: ev in evs && Crashes(ev)
    decreases |evs|
  {
    hide Valid, Step, Crashes;
    if evs != [] {
      StepValid(t, evs[0]);
      assert evs == [evs[0]] + evs[1..];
      if !Step(t, evs[0]).1 { RunsValid(Step(t, evs[0]).0, evs[1..]); }
    }
  }
}
