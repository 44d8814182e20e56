/**
 The originator table (compiled-tools/bmx/bmxd/originator.c): neighbours and routers, the
 originator that stands for a node with several interfaces and how often it is named, and
 the numbers given to neighbours. Nodes are identified by their addresses, so a pointer to
 a node that has been freed is an address that is no longer in the table.
 */
module OrigSpec {
  import opened Wrappers

  const MAX_ID4HIM: nat := 1024

  /** A neighbour is told by its address and the interface it is heard on. */
  datatype Link = Link(addr: nat, iif: nat)

  datatype Neigh = Neigh(link: Link, aware: nat)

  /** neighs is neigh_list, index is neigh_avl, primary is primary_orig_node, refs is pog_refcnt. */
  datatype Orig = Orig(neighs: seq<Neigh>, index: set<Link>, router: Option<Link>, primary: Option<nat>,
                       refs: int, id4him: nat, aware: nat, linked: nat)

  /** pifnb is pifnb_list: the originators that have a number. */
  datatype Table = Table(origs: map<nat, Orig>, pifnb: seq<nat>)

  // ----- the invariant -----

  function LinksOf(ns: seq<Neigh>): set<Link> { set i | 0 <= i < |ns| :: ns[i].link }

  ghost predicate NoTwins(ns: seq<Neigh>)
  {
    forall i, j :: 0 <= i < j < |ns| ==> ns[i].link != ns[j].link
  }

  /** The list and the tree of neighbours agree, and the router is one of them. */
  ghost predicate Neighbourly(o: Orig)
  {
    && NoTwins(o.neighs) && o.index == LinksOf(o.neighs)
    && (o.router.Some? ==> o.router.value in o.index)
  }

  /** The other originators that name o as their primary one. */
  function Namers(origs: map<nat, Orig>, o: nat): set<nat>
  {
    set p | p in origs && p != o && origs[p].primary == Some(o)
  }

  ghost predicate Counted(origs: map<nat, Orig>)
  {
    && (forall o :: o in origs && origs[o].primary.Some? ==> origs[o].primary.value in origs)
    && (forall o :: o in origs ==> origs[o].refs == |Namers(origs, o)|)
  }

  /** The numbers in the list ascend, are positive and below the limit, and there are no others. */
  ghost predicate Numbered(t: Table)
  {
    && (forall i :: 0 <= i < |t.pifnb| ==> t.pifnb[i] in t.origs && 0 < t.origs[t.pifnb[i]].id4him < MAX_ID4HIM)
    && (forall i, j :: 0 <= i < j < |t.pifnb| ==> t.origs[t.pifnb[i]].id4him < t.origs[t.pifnb[j]].id4him)
    && (forall o :: o in t.origs && t.origs[o].id4him != 0 ==> o in t.pifnb)
  }

  /** The address 0 means none to set_primary_orig, so no originator has it for its primary one. */
  ghost predicate NoneNamesZero(origs: map<nat, Orig>)
  {
    forall o :: o in origs ==> origs[o].primary != Some(0)
  }

  /** Any address can be in the table, 0 as well. */
  ghost predicate Valid(t: Table)
  {
    && NoneNamesZero(t.origs) && Counted(t.origs) && Numbered(t)
    && forall o :: o in t.origs ==> Neighbourly(t.origs[o])
  }

  // ----- originators and the primary one -----

  /** get_orig_node with create */
  function Got(t: Table, a: nat, now: nat): Table
  {
    t.(origs := t.origs[a := if a in t.origs then t.origs[a].(aware := now)
                             else Orig([], {}, None, None, 0, 0, now, 0)])
  }

  /** The originator is in the table, and so is the primary one that it names. */
  predicate PrimaryListed(t: Table, o: nat)
  {
    o in t.origs && (t.origs[o].primary.Some? ==> t.origs[o].primary.value in t.origs)
  }

  function Referred(t: Table, a: nat, d: int): Table
    requires a in t.origs
  {
    t.(origs := t.origs[a := t.origs[a].(refs := t.origs[a].refs + d)])
  }

  function WithPrimary(t: Table, o: nat, p: Option<nat>): Table
    requires o in t.origs
  {
    t.(origs := t.origs[o := t.origs[o].(primary := p)])
  }

  /** The first half of set_primary_orig: let go of the old one. */
  function Unset(t: Table, o: nat, a: nat): Table
    requires PrimaryListed(t, o)
  {
    var p := t.origs[o].primary;
    if p.Some? && (a == 0 || p.value != a) then
      WithPrimary(if p.value != o then Referred(t, p.value, -1) else t, o, None)
    else t
  }

  /** set_primary_orig; a is 0 for none. */
  function SetPrimary(t: Table, o: nat, a: nat, now: nat): Table
    requires PrimaryListed(t, o)
  {
    var u := Unset(t, o, a);
    if a != 0 && u.origs[o].primary != Some(a) then
      if o != a then WithPrimary(Referred(Got(u, a, now), a, 1), o, Some(a)) else WithPrimary(u, o, Some(o))
    else u
  }

  lemma SamePrimaries(s: map<nat, Orig>, t: map<nat, Orig>, q: nat)
    requires forall p :: p in s ==> p in t && t[p].primary == s[p].primary
    requires forall p :: p in t && p !in s ==> t[p].primary == None
    ensures Namers(t, q) == Namers(s, q)
  {
  }

  lemma CountedKept(s: map<nat, Orig>, t: map<nat, Orig>)
    requires Counted(s)
    requires forall p :: p in s ==> p in t && t[p].primary == s[p].primary && t[p].refs == s[p].refs
    requires forall p :: p in t && p !in s ==> t[p].primary == None && t[p].refs == 0
    ensures Counted(t)
  {
    forall o | o in t ensures t[o].refs == |Namers(t, o)| {
      SamePrimaries(s, t, o);
      if o !in s { assert Namers(s, o) == {}; }
    }
  }

  function Names(p: Option<nat>, o: nat, q: nat): int { if q != o && p == Some(q) then 1 else 0 }

  lemma NamersMoved(s: map<nat, Orig>, t: map<nat, Orig>, o: nat, q: nat)
    requires o in s && t.Keys == s.Keys
    requires forall p :: p in s && p != o ==> t[p].primary == s[p].primary
    ensures |Namers(t, q)| == |Namers(s, q)| - Names(s[o].primary, o, q) + Names(t[o].primary, o, q)
  {
    hide Namers, Names;
    NamersBut(s, t, o, q);
    NamersOf(s, o, q);
    NamersOf(t, o, q);
    Apart(Namers(s, q), o);
    Apart(Namers(t, q), o);
  }

  lemma NamersBut(s: map<nat, Orig>, t: map<nat, Orig>, o: nat, q: nat)
    requires t.Keys == s.Keys
    requires forall p :: p in s && p != o ==> t[p].primary == s[p].primary
    ensures Namers(t, q) - {o} == Namers(s, q) - {o}
  {
  }

  lemma NamersOf(s: map<nat, Orig>, o: nat, q: nat)
    requires o in s
    ensures Names(s[o].primary, o, q) == if o in Namers(s, q) then 1 else 0
  {
  }

  lemma Apart(a: set<nat>, x: nat)
    ensures |a| == |a - {x}| + if x in a then 1 else 0
  {
    if x in a { assert a == (a - {x}) + {x}; } else { assert a == a - {x}; }
  }

  /** One originator names another primary one, and the counters follow. */
  lemma PrimaryMoved(s: map<nat, Orig>, t: map<nat, Orig>, o: nat)
    requires Counted(s) && o in s && t.Keys == s.Keys
    requires forall p :: p in s && p != o ==> t[p].primary == s[p].primary
    requires forall q :: q in s ==> t[q].refs == s[q].refs - Names(s[o].primary, o, q) + Names(t[o].primary, o, q)
    requires t[o].primary.Some? ==> t[o].primary.value in t
    ensures Counted(t)
  {
    hide Namers, Names;
    forall q | q in t ensures t[q].refs == |Namers(t, q)| {
      NamersMoved(s, t, o, q);
    }
  }

  lemma UnsetCounted(t: Table, o: nat, a: nat)
    requires Counted(t.origs) && o in t.origs
    ensures var u := Unset(t, o, a);
      && Counted(u.origs)
      && u.origs.Keys == t.origs.Keys
      && u.origs[o].primary == (if a == 0 || t.origs[o].primary != Some(a) then None else Some(a))
  {
    hide Counted, Namers;
    var p := t.origs[o].primary;
    if p.Some? && (a == 0 || p.value != a) {
      PrimaryIn(t.origs, o);
      PrimaryMoved(t.origs, Unset(t, o, a).origs, o);
    }
  }

  lemma PrimaryIn(origs: map<nat, Orig>, o: nat)
    requires Counted(origs) && o in origs
    ensures origs[o].primary.Some? ==> origs[o].primary.value in origs
  {
  }

  lemma GotCounted(t: Table, a: nat, now: nat)
    requires Counted(t.origs)
    ensures Counted(Got(t, a, now).origs)
  {
    CountedKept(t.origs, Got(t, a, now).origs);
  }

  lemma SetPrimaryCounted(t: Table, o: nat, a: nat, now: nat)
    requires Counted(t.origs) && o in t.origs
    ensures var r := SetPrimary(t, o, a, now);
      && Counted(r.origs)
      && r.origs.Keys == t.origs.Keys + (if a == 0 then {} else {a})
      && r.origs[o].primary == if a == 0 then None else Some(a)
  {
    hide Counted, Namers, Unset;
    PrimaryIn(t.origs, o);
    UnsetCounted(t, o, a);
    var u := Unset(t, o, a);
    PrimaryIn(u.origs, o);
    if a != 0 && u.origs[o].primary != Some(a) {
      GotCounted(u, a, now);
      var g := if o != a then Got(u, a, now) else u;
      assert g.origs[o].primary == None;
      PrimaryMoved(g.origs, SetPrimary(t, o, a, now).origs, o);
    }
  }

  lemma SetPrimaryNonZero(t: Table, o: nat, a: nat, now: nat)
    requires NoneNamesZero(t.origs) && PrimaryListed(t, o)
    ensures NoneNamesZero(SetPrimary(t, o, a, now).origs)
  {
  }

  // ----- the numbers of the neighbours -----

  function IdAt(t: Table, i: nat): nat
    requires i < |t.pifnb|
  {
    if t.pifnb[i] in t.origs then t.origs[t.pifnb[i]].id4him else 0
  }

  /** The first place of the list whose number is not the place itself. */
  function Gap(t: Table, i: nat): (g: nat)
    requires i <= |t.pifnb|
    ensures i <= g <= |t.pifnb| && (forall j :: i <= j < g ==> IdAt(t, j) <= j + 1)
    ensures g < |t.pifnb| ==> IdAt(t, g) > g + 1
    decreases |t.pifnb| - i
  {
    if i == |t.pifnb| || IdAt(t, i) > i + 1 then i else Gap(t, i + 1)
  }

  function WithId(t: Table, o: nat, id: nat, list: seq<nat>): Table
    requires o in t.origs
  {
    Table(t.origs[o := t.origs[o].(id4him := id)], list)
  }

  /** init_pifnb_node */
  function Init(t: Table, o: nat): (Table, bool)
    requires o in t.origs
  {
    var g := Gap(t, 0);
    if g + 1 >= MAX_ID4HIM then (t, false)
    else (WithId(t, o, g + 1, t.pifnb[..g] + [o] + t.pifnb[g..]), true)
  }

  function Find(list: seq<nat>, o: nat): (i: nat)
    ensures i <= |list| && (forall j :: 0 <= j < i ==> list[j] != o) && (i < |list| ==> list[i] == o)
  {
    if list == [] || list[0] == o then 0 else 1 + Find(list[1..], o)
  }

  /** free_pifnb_node */
  function Free(t: Table, o: nat): Table
    requires o in t.origs
  {
    var i := Find(t.pifnb, o);
    if i == |t.pifnb| then t else WithId(t, o, 0, t.pifnb[..i] + t.pifnb[i + 1..])
  }

  /** The number that is given is the least one that is not in use. */
  ghost predicate LeastFree(t: Table, id: nat)
  {
    && id > 0 && (forall o :: o in t.origs ==> t.origs[o].id4him != id)
    && forall k :: 0 < k < id ==> InUse(t, k)
  }

  ghost predicate InUse(t: Table, k: nat) { exists o :: o in t.origs && t.origs[o].id4him == k }

  lemma {:induction false} IdsFromBelow(t: Table, i: nat)
    requires Numbered(t) && i < |t.pifnb|
    ensures IdAt(t, i) >= i + 1
  {
    if i > 0 {
      IdsFromBelow(t, i - 1);
      assert t.origs[t.pifnb[i - 1]].id4him < t.origs[t.pifnb[i]].id4him;
    }
  }

  lemma GapFree(t: Table)
    requires Numbered(t)
    ensures LeastFree(t, Gap(t, 0) + 1)
    ensures forall i :: 0 <= i < |t.pifnb| ==> if i < Gap(t, 0) then IdAt(t, i) == i + 1 else IdAt(t, i) > Gap(t, 0) + 1
  {
    var g := Gap(t, 0);
    forall i | 0 <= i < |t.pifnb| ensures if i < g then IdAt(t, i) == i + 1 else IdAt(t, i) > g + 1 {
      IdsFromBelow(t, i);
      if i > g { assert t.origs[t.pifnb[g]].id4him < t.origs[t.pifnb[i]].id4him; }
    }
    forall k | 0 < k < g + 1 ensures InUse(t, k) {
      assert IdAt(t, k - 1) == k;
    }
    forall o | o in t.origs ensures t.origs[o].id4him != g + 1 {
      if t.origs[o].id4him != 0 {
        var i :| 0 <= i < |t.pifnb| && t.pifnb[i] == o;
        assert IdAt(t, i) == t.origs[o].id4him;
      }
    }
  }

  /** init_pifnb_node gives the least free number, and fails exactly when it would not be below the limit. */
  lemma InitSpec(t: Table, o: nat)
    requires Numbered(t) && o in t.origs && t.origs[o].id4him == 0
    ensures var r := Init(t, o);
      && Numbered(r.0)
      && (r.1 ==> LeastFree(t, r.0.origs[o].id4him) && r.0.origs[o].id4him < MAX_ID4HIM)
      && (!r.1 <==> forall k :: 0 < k < MAX_ID4HIM ==> InUse(t, k))
  {
    var g, r := Gap(t, 0), Init(t, o);
    GapFree(t);
    assert o !in t.pifnb;
    if g + 1 < MAX_ID4HIM {
      InsertedNumbered(t, o);
      assert !InUse(t, g + 1);
    }
  }

  lemma InsertedAt(t: Table, o: nat, i: nat)
    requires Numbered(t) && o in t.origs && t.origs[o].id4him == 0 && Gap(t, 0) + 1 < MAX_ID4HIM && i <= |t.pifnb|
    ensures var g, r := Gap(t, 0), Init(t, o).0;
      && |r.pifnb| == |t.pifnb| + 1
      && r.pifnb[i] == (if i < g then t.pifnb[i] else if i == g then o else t.pifnb[i - 1])
      && r.pifnb[i] in r.origs && IdAt(r, i) == if i <= g then i + 1 else IdAt(t, i - 1)
  {
    hide Gap, LeastFree;
    GapFree(t);
    var g, r := Gap(t, 0), Init(t, o).0;
    assert forall j :: 0 <= j < |t.pifnb| ==> t.pifnb[j] != o;
    if i < g { assert IdAt(t, i) == i + 1; }
  }

  lemma InsertedNumbered(t: Table, o: nat)
    requires Numbered(t) && o in t.origs && t.origs[o].id4him == 0 && Gap(t, 0) + 1 < MAX_ID4HIM
    ensures Numbered(Init(t, o).0)
  {
    hide Gap, LeastFree, Init;
    var g, r := Gap(t, 0), Init(t, o).0;
    InsertedAt(t, o, 0);
    GapFree(t);
    forall i | 0 <= i < |r.pifnb| ensures r.pifnb[i] in r.origs && 0 < r.origs[r.pifnb[i]].id4him < MAX_ID4HIM {
      InsertedAt(t, o, i);
    }
    forall i, j | 0 <= i < j < |r.pifnb| ensures r.origs[r.pifnb[i]].id4him < r.origs[r.pifnb[j]].id4him {
      InsertedAt(t, o, i);
      InsertedAt(t, o, j);
      if i > g { assert t.origs[t.pifnb[i - 1]].id4him < t.origs[t.pifnb[j - 1]].id4him; }
    }
    InsertedComplete(t, o);
  }

  lemma InsertedComplete(t: Table, o: nat)
    requires Numbered(t) && o in t.origs && t.origs[o].id4him == 0 && Gap(t, 0) + 1 < MAX_ID4HIM
    ensures var r := Init(t, o).0; forall p :: p in r.origs && r.origs[p].id4him != 0 ==> p in r.pifnb
  {
    var r := Init(t, o).0;
    forall p | p in r.origs && r.origs[p].id4him != 0 ensures p in r.pifnb {
      InsertedHolds(t, o, p);
    }
  }

  lemma InsertedHolds(t: Table, o: nat, p: nat)
    requires Numbered(t) && o in t.origs && t.origs[o].id4him == 0 && Gap(t, 0) + 1 < MAX_ID4HIM
    requires p in Init(t, o).0.origs && Init(t, o).0.origs[p].id4him != 0
    ensures p in Init(t, o).0.pifnb
  {
    hide Gap, LeastFree, Init;
    var g, r := Gap(t, 0), Init(t, o).0;
    GapFree(t);
    if p == o {
      InsertedAt(t, o, g);
      assert r.pifnb[g] == o;
    } else {
      HeldBefore(t, o, p);
      var i :| 0 <= i < |t.pifnb| && t.pifnb[i] == p;
      InsertedAt(t, o, if i < g then i else i + 1);
      assert r.pifnb[if i < g then i else i + 1] == p;
    }
  }

  lemma HeldBefore(t: Table, o: nat, p: nat)
    requires Numbered(t) && o in t.origs && t.origs[o].id4him == 0 && Gap(t, 0) + 1 < MAX_ID4HIM && p != o
    requires p in Init(t, o).0.origs && Init(t, o).0.origs[p].id4him != 0
    ensures p in t.pifnb
  {
    hide Gap, LeastFree;
  }

  /** free_pifnb_node takes the number back and leaves the others as they are. */
  lemma FreeSpec(t: Table, o: nat)
    requires Numbered(t) && o in t.origs && t.origs[o].id4him != 0
    ensures Numbered(Free(t, o)) && Free(t, o).origs == t.origs[o := t.origs[o].(id4him := 0)]
    ensures o !in Free(t, o).pifnb
  {
    hide Free, Find;
    FreedAt(t, o);
    FreedComplete(t, o);
    var r := Free(t, o);
    forall i, j | 0 <= i < j < |r.pifnb| ensures r.origs[r.pifnb[i]].id4him < r.origs[r.pifnb[j]].id4him {
      var n := Find(t.pifnb, o);
      assert t.origs[t.pifnb[if i < n then i else i + 1]].id4him < t.origs[t.pifnb[if j < n then j else j + 1]].id4him;
    }
  }

  lemma FreedAt(t: Table, o: nat)
    requires Numbered(t) && o in t.origs && t.origs[o].id4him != 0
    ensures var n, r := Find(t.pifnb, o), Free(t, o);
      && r.origs == t.origs[o := t.origs[o].(id4him := 0)] && |r.pifnb| == |t.pifnb| - 1
      && forall i :: 0 <= i < |r.pifnb| ==> r.pifnb[i] == t.pifnb[if i < n then i else i + 1] && r.pifnb[i] != o
  {
    var n, r := Find(t.pifnb, o), Free(t, o);
    assert n < |t.pifnb|;
    forall i | 0 <= i < |r.pifnb| ensures r.pifnb[i] == t.pifnb[if i < n then i else i + 1] && r.pifnb[i] != o {
      var k := if i < n then i else i + 1;
      assert if k < n then t.origs[t.pifnb[k]].id4him < t.origs[t.pifnb[n]].id4him
             else t.origs[t.pifnb[n]].id4him < t.origs[t.pifnb[k]].id4him;
    }
    hide Find;
  }

  lemma FreedComplete(t: Table, o: nat)
    requires Numbered(t) && o in t.origs && t.origs[o].id4him != 0
    ensures var r := Free(t, o); forall p :: p in r.origs && r.origs[p].id4him != 0 ==> p in r.pifnb
  {
    FreedAt(t, o);
    hide Free, Find;
    var n, r := Find(t.pifnb, o), Free(t, o);
    forall p | p in r.origs && r.origs[p].id4him != 0 ensures p in r.pifnb {
      var i :| 0 <= i < |t.pifnb| && t.pifnb[i] == p;
      assert i != n;
      assert r.pifnb[if i < n then i else i - 1] == p;
    }
  }
}
