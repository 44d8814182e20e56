/**
 The address 0 in the originator table. The code means none by it when it sets a primary
 originator (compiled-tools/bmx/bmxd/originator.c:659-689) and starts below it when it walks the
 tree (1047-1051), yet it stores an originator of that address like any other (976-1031).
 */
module OrigZero {
  import opened Wrappers
  import opened OrigSpec
  import opened OrigSteps

  function Empty(): Table { Table(map[], []) }

  lemma EmptyValid()
    ensures Valid(Empty())
  {
  }

  /** An OGM of a direct neighbour that is accepted, with this primary address. */
  function Direct(a: nat, pip: Option<nat>, now: nat): Event { Ogm(a, a, 1, pip, true, AtEnd, Take, false, now) }

  /** An OGM of originator o, relayed by neighbour a, that is accepted. */
  function Relayed(a: nat, o: nat, pip: Option<nat>, now: nat): Event
  {
    Ogm(a, o, 1, pip, true, AtEnd, Take, false, now)
  }

  /** The first OGM a node hears crashes it if its extension names the address 0. */
  lemma ZeroPrimary(a: nat, now: nat)
    ensures Valid(Empty()) && Runs(Empty(), [Direct(a, Some(0), now)]).1
  {
    EmptyValid();
    hide Valid, Process;
    var evs := [Direct(a, Some(0), now)];
    assert evs[0] in evs && Crashes(evs[0]);
    RunsValid(Empty(), evs);
  }

  /** So does an OGM of originator 0 without an extension, relayed by a neighbour that is known. */
  lemma ZeroOriginator(a: nat, now: nat, later: nat)
    requires a != 0
    ensures Valid(Empty())
    ensures !Runs(Empty(), [Direct(a, None, now)]).1
    ensures Runs(Empty(), [Direct(a, None, now), Relayed(a, 0, None, later)]).1
  {
    EmptyValid();
    hide Valid, Process;
    var evs := [Direct(a, None, now), Relayed(a, 0, None, later)];
    assert evs[1] in evs && Crashes(evs[1]);
    RunsValid(Empty(), evs);
    RunsValid(Empty(), [evs[0]]);
  }

  /**
   An originator with the address 0 is never visited by a purge, so nothing of it changes: it
   does not time out, keeps its neighbours on lost interfaces, and what it names stays named.
   */
  lemma {:induction false} ZeroUnpurged(t: Table, k: nat, bif: nat, limit: nat, now: nat)
    requires Valid(t) && 0 in t.origs
    ensures var r := PurgeFrom(t, k, bif, limit, now).origs; 0 in r && r[0] == t.origs[0]
    decreases |Above(t.origs.Keys, k)|
  {
    if Above(t.origs.Keys, k) != {} {
      hide Valid, PurgeOne, PurgeFrom, Above;
      PurgeUnfold(t, k, bif, limit, now);
      var a := Least(Above(t.origs.Keys, k));
      PurgeOneZero(t, a, bif, limit, now);
      ZeroUnpurged(PurgeOne(t, a, bif, limit, now), a, bif, limit, now);
    } else {
      hide Valid, PurgeOne;
    }
  }

  lemma PurgeOneZero(t: Table, a: nat, bif: nat, limit: nat, now: nat)
    requires Valid(t) && a in t.origs && a != 0 && 0 in t.origs
    ensures var r := PurgeOne(t, a, bif, limit, now).origs; 0 in r && r[0] == t.origs[0]
  {
    hide Valid, Free, Restricted, Elsewhere, Lately, Unrouted;
    PrimaryOf(t, a);
    var o := t.origs[a];
    if bif != 0 || Expired(o, limit, now) {
      StrippedValid(t, a, bif);
      RestrictedSame(Unrouted(o, bif), Elsewhere(o, bif));
      var u := WithOrig(t, a, Restricted(Unrouted(o, bif), Elsewhere(o, bif)));
      if bif == 0 && o.refs == 0 && u.origs[a].id4him != 0 { FreeValid(u, a); }
    } else {
      if o.id4him != 0 && o.linked + 1000 * limit < now { FreeValid(t, a); }
    }
  }

  function Neighbour(a: nat, primary: nat, id4him: nat, linked: nat, now: nat): Orig
  {
    Orig([Neigh(Link(a, 1), now)], {Link(a, 1)}, Some(Link(a, 1)), Some(primary), 0, id4him, now, linked)
  }

  /** The table when neighbour a has been heard of. */
  function WithNeighbour(a: nat, now: nat): Table { Table(map[a := Neighbour(a, a, 1, now, now)], [a]) }

  /** The table when it has relayed an OGM of originator 0 that names p as the primary one. */
  function WithZero(a: nat, p: nat, now: nat): Table
  {
    Table(map[a := Neighbour(a, a, 1, now, now), 0 := Neighbour(a, p, 0, 0, now),
              p := Orig([], {}, None, None, 1, 0, now, 0)], [a])
  }

  lemma FirstHeard(o: Orig, l: Link, now: nat)
    requires o.neighs == [] && o.index == {}
    ensures Heard(o, l, now) == o.(neighs := [Neigh(l, now)], index := {l})
  {
    assert [] + [Neigh(l, now)] == [Neigh(l, now)];
    assert {} + {l} == {l};
  }

  /** The last steps of process_ogm for an OGM that passes all checks and is taken. */
  lemma Accepted(t: Table, t3: Table, ev: Event)
    requires Valid(t) && ev.Ogm? && ev.stop == AtEnd && ev.choice == Take && !ev.rejected
    requires var t1 := Got(t, ev.neigh, ev.now);
      var t2 := if ev.neigh == ev.orig then t1 else Got(t1, ev.orig, ev.now);
      && Valid(t2) && ev.orig in t2.origs
      && ValidatePrimary(t2, ev.orig, ev.pip, ev.seqOk, ev.neigh == ev.orig, ev.now) == (t3, Passed)
    ensures ev.orig in t3.origs
    ensures var l := Link(ev.neigh, ev.iif);
      var t4 := WithOrig(t3, ev.orig, Heard(t3.origs[ev.orig], l, ev.now));
      && PrimaryListed(t4, ev.orig)
      && var t5 := LinkNoted(t4, ev.orig, ev.neigh == ev.orig, ev.now);
      && ev.orig in t5.origs
      && Process(t, ev) == (WithOrig(t5, ev.orig, t5.origs[ev.orig].(router := Some(l))), false)
  {
    hide Valid, Heard, Got, ValidatePrimary;
    var t1 := Got(t, ev.neigh, ev.now);
    var t2 := if ev.neigh == ev.orig then t1 else Got(t1, ev.orig, ev.now);
    GotValid(t, ev.neigh, ev.now);
    ValidatePrimaryValid(t2, ev.orig, ev.pip, ev.seqOk, ev.neigh == ev.orig, ev.now);
    HeardValid(t3, ev.orig, Link(ev.neigh, ev.iif), ev.now);
  }

  lemma NeighbourHeard(a: nat, now: nat)
    requires a != 0
    ensures Valid(Empty()) && Process(Empty(), Direct(a, None, now)) == (WithNeighbour(a, now), false)
  {
    EmptyValid();
    GotValid(Empty(), a, now);
    var t, o := Got(Empty(), a, now), Orig([], {}, None, Some(a), 0, 1, now, 0);
    FirstNamed(a, now);
    hide Valid, ValidatePrimary, Process, Heard, PrimaryListed;
    Accepted(Empty(), Table(map[a := o], [a]), Direct(a, None, now));
    FirstHeard(o, Link(a, 1), now);
    assert Process(Empty(), Direct(a, None, now)).0.origs == map[a := Neighbour(a, a, 1, now, now)];
  }

  lemma FirstNamed(a: nat, now: nat)
    requires a != 0 && Valid(Got(Empty(), a, now))
    ensures var o := Orig([], {}, None, Some(a), 0, 1, now, 0);
      ValidatePrimary(Got(Empty(), a, now), a, None, true, true, now) == (Table(map[a := o], [a]), Passed)
  {
    var t := Got(Empty(), a, now);
    var n := NamePrimary(t, a, None, now);
    assert n.origs == map[a := Orig([], {}, None, Some(a), 0, 0, now, 0)] && n.pifnb == [];
    assert Gap(n, 0) == 0;
    var r := ValidatePrimary(t, a, None, true, true, now).0;
    assert r.pifnb == [a];
    assert r.origs == map[a := Orig([], {}, None, Some(a), 0, 1, now, 0)];
  }

  lemma ZeroNamed(a: nat, p: nat, now: nat)
    requires a != 0 && p != 0 && a != p
    requires Valid(Got(Got(WithNeighbour(a, now), a, now), 0, now))
    ensures var t := Got(Got(WithNeighbour(a, now), a, now), 0, now);
      ValidatePrimary(t, 0, Some(p), true, false, now)
      == (Table(map[a := Neighbour(a, a, 1, now, now), 0 := Orig([], {}, None, Some(p), 0, 0, now, 0),
                    p := Orig([], {}, None, None, 1, 0, now, 0)], [a]), Passed)
  {
    var t, o := Got(Got(WithNeighbour(a, now), a, now), 0, now), Neighbour(a, a, 1, now, now);
    assert t.origs == map[a := o, 0 := Orig([], {}, None, None, 0, 0, now, 0)];
    var n, q := NamePrimary(t, 0, Some(p), now), Orig([], {}, None, None, 1, 0, now, 0);
    assert n.origs == map[a := o, 0 := Orig([], {}, None, Some(p), 0, 0, now, 0), p := q];
    hide Valid, NamePrimary, Got;
    assert ValidatePrimary(t, 0, Some(p), true, false, now).0.origs == n.origs;
  }

  lemma ZeroHeard(a: nat, p: nat, now: nat)
    requires a != 0 && p != 0 && a != p && Valid(WithNeighbour(a, now))
    ensures Process(WithNeighbour(a, now), Relayed(a, 0, Some(p), now)) == (WithZero(a, p, now), false)
  {
    hide Valid, ValidatePrimary, Got, Process, Heard, PrimaryListed, WithNeighbour;
    var s, o := WithNeighbour(a, now), Neighbour(a, a, 1, now, now);
    var z, q := Orig([], {}, None, Some(p), 0, 0, now, 0), Orig([], {}, None, None, 1, 0, now, 0);
    GotValid(s, a, now);
    GotValid(Got(s, a, now), 0, now);
    ZeroNamed(a, p, now);
    GotHas(Got(s, a, now), 0, now);
    var t3 := Table(map[a := o, 0 := z, p := q], [a]);
    Accepted(s, t3, Relayed(a, 0, Some(p), now));
    FirstHeard(z, Link(a, 1), now);
    ZeroRouted(t3, z, Link(a, 1), now);
    assert t3.origs[0 := Neighbour(a, p, 0, 0, now)] == WithZero(a, p, now).origs;
  }

  lemma ZeroRouted(t: Table, z: Orig, l: Link, now: nat)
    requires 0 in t.origs && t.origs[0] == z && z.neighs == [] && z.index == {}
    ensures var u := WithOrig(t, 0, Heard(z, l, now));
      && 0 in u.origs
      && WithOrig(u, 0, u.origs[0].(router := Some(l)))
         == WithOrig(t, 0, z.(neighs := [Neigh(l, now)], index := {l}, router := Some(l)))
  {
    FirstHeard(z, l, now);
  }

  lemma ZeroNames(a: nat, p: nat, now: nat)
    requires a != 0 && p != 0 && a != p
    ensures var t := WithZero(a, p, now); 0 in t.origs && t.origs[0].primary == Some(p)
  {
  }

  lemma StepOgm(t: Table, ev: Event)
    requires Valid(t) && ev.Ogm?
    ensures Proper(ev) && Step(t, ev) == Process(t, ev)
  {
  }

  lemma RunsTwo(t: Table, ev: Event, next: Event)
    requires Valid(t) && Proper(ev) && Proper(next) && Valid(Step(t, ev).0) && !Step(t, ev).1
    ensures Runs(t, [ev, next]) == Step(Step(t, ev).0, next)
  {
    hide Valid, Step;
    var u, evs := Step(t, ev).0, [ev, next];
    assert evs[1..] == [next];
    StepValid(u, next);
    assert [next][1..] == [];
    assert Runs(u, [next]) == Step(u, next);
  }

  /**
   A run that stores the originator 0. From then on no purge, timed or for a lost interface, ever
   takes it away or its neighbour or its router, nor the originator that it names.
   */
  lemma ZeroStored(a: nat, p: nat, now: nat)
    requires a != 0 && p != 0 && a != p
    ensures Valid(Empty())
    ensures var t := WithZero(a, p, now);
      && Runs(Empty(), [Direct(a, None, now), Relayed(a, 0, Some(p), now)]) == (t, false) && Valid(t)
      && forall bif: nat, limit: nat, later: nat ::
        var r := PurgeFrom(t, 0, bif, limit, later).origs; 0 in r && r[0] == t.origs[0] && p in r
  {
    hide Valid, Process, PurgeFrom, Crashes, Runs, Step, WithZero, WithNeighbour, PrimaryListed;
    NeighbourHeard(a, now);
    StepOgm(Empty(), Direct(a, None, now));
    ProcessValid(Empty(), Direct(a, None, now));
    ZeroHeard(a, p, now);
    StepOgm(WithNeighbour(a, now), Relayed(a, 0, Some(p), now));
    ProcessValid(WithNeighbour(a, now), Relayed(a, 0, Some(p), now));
    RunsTwo(Empty(), Direct(a, None, now), Relayed(a, 0, Some(p), now));
    var t := WithZero(a, p, now);
    ZeroNames(a, p, now);
    forall bif: nat, limit: nat, later: nat
      ensures var r := PurgeFrom(t, 0, bif, limit, later).origs; 0 in r && r[0] == t.origs[0] && p in r
    {
      ZeroUnpurged(t, 0, bif, limit, later);
      PurgeValid(t, 0, bif, limit, later);
      PrimaryOf(PurgeFrom(t, 0, bif, limit, later), 0);
    }
  }

  // ----- for good -----

  lemma NamePrimaryKeeps(t: Table, o: nat, pip: Option<nat>, now: nat)
    requires Valid(t) && o in t.origs && PrimaryListed(t, o)
    ensures t.origs.Keys <= NamePrimary(t, o, pip, now).origs.Keys
  {
    hide Valid, SetPrimary, Free;
    var p := t.origs[o].primary;
    if p.Some? && t.origs[p.value].id4him != 0 { FreeValid(t, p.value); }
    var f := if p.Some? && t.origs[p.value].id4him != 0 then Free(t, p.value) else t;
    SetPrimaryKeeps(f, o, Standing(o, pip), now);
  }

  lemma SetPrimaryKeeps(t: Table, o: nat, a: nat, now: nat)
    requires Valid(t) && PrimaryListed(t, o)
    ensures t.origs.Keys <= SetPrimary(t, o, a, now).origs.Keys
  {
    hide Counted, Numbered, Neighbourly, SetPrimary;
    SetPrimaryCounted(t, o, a, now);
  }

  lemma ValidatePrimaryKeeps(t: Table, o: nat, pip: Option<nat>, seqOk: bool, direct: bool, now: nat)
    requires Valid(t) && o in t.origs
    ensures t.origs.Keys <= ValidatePrimary(t, o, pip, seqOk, direct, now).0.origs.Keys
  {
    hide Valid, NamePrimary, SetPrimary;
    PrimaryOf(t, o);
    NamePrimaryValid(t, o, pip, now);
    NamePrimaryKeeps(t, o, pip, now);
    var n := NamePrimary(t, o, pip, now);
    PrimaryOf(n, o);
    SetPrimaryKeeps(n, o, 0, now);
  }

  lemma ProcessKeeps(t: Table, ev: Event)
    requires ev.Ogm? && Valid(t)
    ensures t.origs.Keys <= Process(t, ev).0.origs.Keys
  {
    hide Valid, Got, ValidatePrimary, Heard, Routed, Unrouted;
    var t1 := Got(t, ev.neigh, ev.now);
    GotValid(t, ev.neigh, ev.now);
    GotHas(t, ev.neigh, ev.now);
    if ev.stop != AtNeighbour {
      var t2 := if ev.neigh == ev.orig then t1 else Got(t1, ev.orig, ev.now);
      GotValid(t1, ev.orig, ev.now);
      GotHas(t1, ev.orig, ev.now);
      if ev.stop != AtSeqno {
        ValidatePrimaryValid(t2, ev.orig, ev.pip, ev.seqOk, ev.neigh == ev.orig, ev.now);
        ValidatePrimaryKeeps(t2, ev.orig, ev.pip, ev.seqOk, ev.neigh == ev.orig, ev.now);
        HeardValid(ValidatePrimary(t2, ev.orig, ev.pip, ev.seqOk, ev.neigh == ev.orig, ev.now).0,
                   ev.orig, Link(ev.neigh, ev.iif), ev.now);
      }
    }
  }

  /** Once it is in the table, an originator 0 is there after any run. */
  lemma {:induction false} ZeroForever(t: Table, evs: seq<Event>)
    requires Valid(t) && 0 in t.origs && forall ev :: ev in evs ==> Proper(ev)
    ensures 0 in Runs(t, evs).0.origs
    decreases |evs|
  {
    if evs != [] {
      hide Valid, Process, PurgeFrom;
      StepValid(t, evs[0]);
      match evs[0] {
        case Ogm(_, _, _, _, _, _, _, _, _) => ProcessKeeps(t, evs[0]);
        case Timeout(now, limit) => ZeroUnpurged(t, 0, 0, limit, now);
        case LostInterface(iif) => ZeroUnpurged(t, 0, iif, 0, 0);
      }
      if !Step(t, evs[0]).1 { ZeroForever(Step(t, evs[0]).0, evs[1..]); }
    }
  }
}
