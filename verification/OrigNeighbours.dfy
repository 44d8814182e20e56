/**
 Which neighbours and routers a purge leaves (compiled-tools/bmx/bmxd/originator.c:1033-1193),
 told entry by entry and in order.
 */
module OrigNeighbours {
  import opened Wrappers
  import opened OrigSpec
  import opened OrigSteps

  /** r holds entries of ns, in the order of ns. */
  ghost predicate InOrder(r: seq<Neigh>, ns: seq<Neigh>)
  {
    forall i, j :: 0 <= i < j < |r| ==> Ordered(ns, r[i], r[j])
  }

  ghost predicate Ordered(ns: seq<Neigh>, x: Neigh, y: Neigh)
  {
    exists p, q :: 0 <= p < q < |ns| && ns[p] == x && ns[q] == y
  }

  lemma {:induction false} KeptInOrder(ns: seq<Neigh>, links: set<Link>)
    ensures InOrder(Kept(ns, links), ns)
    ensures forall n :: n in Kept(ns, links) <==> n in ns && n.link in links
    decreases |ns|
  {
    if ns != [] {
      var m := |ns| - 1;
      var front, last, r := ns[..m], ns[m], Kept(ns, links);
      var k := Kept(front, links);
      KeptInOrder(front, links);
      assert ns == front + [last];
      assert r == k + if last.link in links then [last] else [];
      forall i, j | 0 <= i < j < |r| ensures Ordered(ns, r[i], r[j]) {
        if j < |k| {
          assert Ordered(front, k[i], k[j]);
          var p, q :| 0 <= p < q < |front| && front[p] == k[i] && front[q] == k[j];
          assert ns[p] == r[i] && ns[q] == r[j];
        } else {
          assert k[i] in k;
          var p :| 0 <= p < |front| && front[p] == k[i];
          assert ns[p] == r[i] && ns[m] == r[j];
        }
      }
    }
  }

  // ----- what is left -----

  /** After the loss of interface bif: nothing on it, everything else in order. */
  ghost predicate OffInterface(o: Orig, p: Orig, bif: nat)
  {
    && (forall n :: n in p.neighs <==> n in o.neighs && n.link.iif != bif) && InOrder(p.neighs, o.neighs)
    && (forall l :: l in p.index <==> l in o.index && l.iif != bif)
    && p.router == (if o.router.Some? && o.router.value.iif == bif then None else o.router)
    && p.id4him == o.id4him && p.linked == o.linked && p.aware == o.aware
  }

  /** After a timed purge: the neighbours heard in time and the router. */
  ghost predicate Trimmed(o: Orig, p: Orig, limit: nat, now: nat)
  {
    && (forall n :: n in p.neighs <==> n in o.neighs && (n.aware + 1000 * limit >= now || o.router == Some(n.link)))
    && InOrder(p.neighs, o.neighs)
    && (forall l :: l in p.index <==> exists n :: n in p.neighs && n.link == l)
    && p.router == o.router && p.aware == o.aware
  }

  predicate Bare(p: Orig) { p.neighs == [] && p.index == {} && p.router == None }

  ghost predicate Left(o: Orig, p: Orig, bif: nat, limit: nat, now: nat)
  {
    if bif != 0 then OffInterface(o, p, bif)
    else if o.aware + 1000 * limit < now then Bare(p)
    else Trimmed(o, p, limit, now)
  }

  predicate SameOfOrig(o: Orig, p: Orig)
  {
    && p.neighs == o.neighs && p.index == o.index && p.router == o.router
    && p.id4him == o.id4him && p.linked == o.linked && p.aware == o.aware
  }

  // ----- one turn -----

  lemma ElsewhereLeft(o: Orig, bif: nat)
    requires Neighbourly(o)
    ensures var p := Restricted(Unrouted(o, bif), Elsewhere(o, bif));
      if bif != 0 then OffInterface(o, p, bif) else Bare(p)
  {
    hide Kept, InOrder, Ordered, Neighbourly;
    var links := Elsewhere(o, bif);
    KeptInOrder(o.neighs, links);
    forall n | n in o.neighs ensures n.link in o.index { LinkListed(o, n); }
    KeptNothing(o.neighs);
  }

  lemma {:induction false} KeptNothing(ns: seq<Neigh>)
    ensures Kept(ns, {}) == []
  {
    if ns != [] { KeptNothing(ns[..|ns| - 1]); }
  }

  lemma LinkListed(o: Orig, n: Neigh)
    requires Neighbourly(o) && n in o.neighs
    ensures n.link in o.index
  {
    var i :| 0 <= i < |o.neighs| && o.neighs[i] == n;
  }

  lemma LatelyLeft(o: Orig, p: Orig, limit: nat, now: nat)
    requires Neighbourly(o) && p.neighs == o.neighs && p.index == o.index && p.router == o.router && p.aware == o.aware
    ensures Trimmed(o, Restricted(p, Lately(o, limit, now)), limit, now)
  {
    hide Kept, InOrder, Ordered, Lately, Neighbourly;
    var links := Lately(o, limit, now);
    var r := Restricted(p, links);
    KeptInOrder(o.neighs, links);
    forall n | n in o.neighs
      ensures n.link in links <==> n.aware + 1000 * limit >= now || o.router == Some(n.link)
    {
      LatelyIs(o, n, limit, now);
    }
    forall l ensures l in r.index <==> exists n :: n in r.neighs && n.link == l {
      if l in r.index {
        var n := ListedLink(o, l);
        assert n in r.neighs;
      }
      if n :| n in r.neighs && n.link == l { LinkListed(o, n); }
    }
  }

  lemma LatelyIs(o: Orig, n: Neigh, limit: nat, now: nat)
    requires Neighbourly(o) && n in o.neighs
    ensures n.link in Lately(o, limit, now) <==> n.aware + 1000 * limit >= now || o.router == Some(n.link)
  {
    var i :| 0 <= i < |o.neighs| && o.neighs[i] == n;
  }

  lemma ListedLink(o: Orig, l: Link) returns (n: Neigh)
    requires Neighbourly(o) && l in o.index
    ensures n in o.neighs && n.link == l
  {
    var i :| 0 <= i < |o.neighs| && o.neighs[i].link == l;
    n := o.neighs[i];
  }

  lemma PurgeOneLeft(t: Table, a: nat, bif: nat, limit: nat, now: nat)
    requires Valid(t) && a in t.origs
    ensures var r := PurgeOne(t, a, bif, limit, now).origs;
      a in r ==> Left(t.origs[a], r[a], bif, limit, now)
  {
    hide Valid, Free, Restricted, Elsewhere, Lately, Neighbourly, OffInterface, Trimmed, Bare, Unrouted;
    PrimaryOf(t, a);
    NeighbourlyAt(t, a);
    var o := t.origs[a];
    ElsewhereLeft(o, bif);
    if bif == 0 && !Expired(o, limit, now) {
      var free := o.id4him != 0 && o.linked + 1000 * limit < now;
      if free { FreeValid(t, a); }
      LatelyLeft(o, if free then o.(id4him := 0) else o, limit, now);
    }
  }

  lemma PurgeOneOthers(t: Table, a: nat, x: nat, bif: nat, limit: nat, now: nat)
    requires Valid(t) && a in t.origs && x in t.origs && x != a
    ensures var r := PurgeOne(t, a, bif, limit, now).origs; x in r && SameOfOrig(t.origs[x], r[x])
  {
    hide Valid, Free, Restricted, Elsewhere, Lately, Unrouted;
    PrimaryOf(t, a);
    var o := t.origs[a];
    if bif != 0 || Expired(o, limit, now) {
      StrippedValid(t, a, bif);
      RestrictedSame(Unrouted(o, bif), Elsewhere(o, bif));
      var u := WithOrig(t, a, Restricted(Unrouted(o, bif), Elsewhere(o, bif)));
      if bif == 0 && o.refs == 0 && u.origs[a].id4him != 0 { FreeValid(u, a); }
    } else {
      if o.id4him != 0 && o.linked + 1000 * limit < now { FreeValid(t, a); }
    }
  }

  // ----- the whole purge -----

  lemma LeftOfSame(o: Orig, u: Orig, p: Orig, bif: nat, limit: nat, now: nat)
    requires SameOfOrig(o, u) && Left(u, p, bif, limit, now)
    ensures Left(o, p, bif, limit, now)
  {
    hide InOrder;
  }

  lemma {:induction false} PurgeLeaves(t: Table, k: nat, x: nat, bif: nat, limit: nat, now: nat)
    requires Valid(t) && x in t.origs
    ensures var r := PurgeFrom(t, k, bif, limit, now).origs;
      && (x > k && x in r ==> Left(t.origs[x], r[x], bif, limit, now))
      && (x <= k ==> x in r && SameOfOrig(t.origs[x], r[x]))
    decreases |Above(t.origs.Keys, k)|
  {
    hide Valid, PurgeOne, PurgeFrom, Left, SameOfOrig, Above;
    if Above(t.origs.Keys, k) != {} {
      PurgeUnfold(t, k, bif, limit, now);
      var a := Least(Above(t.origs.Keys, k));
      var u := PurgeOne(t, a, bif, limit, now);
      PurgeOneLeft(t, a, bif, limit, now);
      if x != a { PurgeOneOthers(t, a, x, bif, limit, now); }
      if x in u.origs {
        PurgeLeaves(u, a, x, bif, limit, now);
        var r := PurgeFrom(u, a, bif, limit, now).origs;
        SameOrLeft(t.origs[x], u.origs[x], if x in r then r[x] else u.origs[x], bif, limit, now);
      } else {
        GoneFor(u, a, x, bif, limit, now);
      }
    } else {
      NoneAbove(t, k, x, bif, limit, now);
    }
  }

  lemma SameOrLeft(o: Orig, u: Orig, p: Orig, bif: nat, limit: nat, now: nat)
    ensures SameOfOrig(o, u) && Left(u, p, bif, limit, now) ==> Left(o, p, bif, limit, now)
    ensures SameOfOrig(o, u) && SameOfOrig(u, p) ==> SameOfOrig(o, p)
    ensures Left(o, u, bif, limit, now) && SameOfOrig(u, p) ==> Left(o, p, bif, limit, now)
  {
    hide InOrder;
    if SameOfOrig(o, u) && Left(u, p, bif, limit, now) { LeftOfSame(o, u, p, bif, limit, now); }
  }

  lemma NoneAbove(t: Table, k: nat, x: nat, bif: nat, limit: nat, now: nat)
    requires Valid(t) && x in t.origs && Above(t.origs.Keys, k) == {}
    ensures x <= k && PurgeFrom(t, k, bif, limit, now) == t && SameOfOrig(t.origs[x], t.origs[x])
  {
    assert x > k ==> x in Above(t.origs.Keys, k);
    hide Valid;
  }

  /** What has gone does not come back. */
  lemma {:induction false} GoneFor(t: Table, k: nat, x: nat, bif: nat, limit: nat, now: nat)
    requires Valid(t) && x !in t.origs
    ensures x !in PurgeFrom(t, k, bif, limit, now).origs
    decreases |Above(t.origs.Keys, k)|
  {
    hide Valid, PurgeOne, PurgeFrom, Above, OthersKept;
    if Above(t.origs.Keys, k) != {} {
      PurgeUnfold(t, k, bif, limit, now);
      var a := Least(Above(t.origs.Keys, k));
      PurgeOneValid(t, a, bif, limit, now);
      GoneFor(PurgeOne(t, a, bif, limit, now), a, x, bif, limit, now);
    } else {
      NothingPurged(t, k, bif, limit, now);
    }
  }

  lemma NothingPurged(t: Table, k: nat, bif: nat, limit: nat, now: nat)
    requires Valid(t) && Above(t.origs.Keys, k) == {}
    ensures PurgeFrom(t, k, bif, limit, now) == t
  {
  }

  /**
   The loss of an interface: no originator with an address above 0 has a neighbour or a router on
   it afterwards, all its other neighbours are there in order, and no originator is gone.
   */
  lemma InterfaceLost(t: Table, x: nat, bif: nat, limit: nat, now: nat)
    requires Valid(t) && x in t.origs && x > 0 && bif != 0
    ensures var r := PurgeFrom(t, 0, bif, limit, now).origs; x in r && OffInterface(t.origs[x], r[x], bif)
  {
    hide Valid, OffInterface, Trimmed, Bare, PurgeFrom;
    PurgeLeaves(t, 0, x, bif, limit, now);
    StaysForInterface(t, 0, x, bif, limit, now);
  }

  lemma {:induction false} StaysForInterface(t: Table, k: nat, x: nat, bif: nat, limit: nat, now: nat)
    requires Valid(t) && x in t.origs && bif != 0
    ensures x in PurgeFrom(t, k, bif, limit, now).origs
    decreases |Above(t.origs.Keys, k)|
  {
    hide Valid, PurgeOne, PurgeFrom, Above, OthersKept;
    if Above(t.origs.Keys, k) != {} {
      PurgeUnfold(t, k, bif, limit, now);
      var a := Least(Above(t.origs.Keys, k));
      PurgeOneValid(t, a, bif, limit, now);
      StaysForInterface(PurgeOne(t, a, bif, limit, now), a, x, bif, limit, now);
    } else {
      NothingPurged(t, k, bif, limit, now);
    }
  }

  /**
   A timed purge: an originator with an address above 0 that is left has neither neighbour nor
   router if it has expired; otherwise a neighbour stays, in order, if and only if it was heard
   in time or is the router, and the router stays.
   */
  lemma TimePassed(t: Table, x: nat, limit: nat, now: nat)
    requires Valid(t) && x in t.origs && x > 0
    ensures var r, o := PurgeFrom(t, 0, 0, limit, now).origs, t.origs[x];
      && (o.aware + 1000 * limit >= now ==> x in r && Trimmed(o, r[x], limit, now))
      && (o.aware + 1000 * limit < now && x in r ==> Bare(r[x]))
  {
    PurgeOutcome(t, 0, limit, now);
    hide Valid, OffInterface, Trimmed, Bare, PurgeFrom, Namers;
    PurgeLeaves(t, 0, x, 0, limit, now);
  }

  // ----- an OGM -----

  /** What is known of the ways to originator x; nothing if it is not in the table. */
  function Ways(t: Table, x: nat): (seq<Neigh>, set<Link>, Option<Link>)
  {
    if x in t.origs then (t.origs[x].neighs, t.origs[x].index, t.origs[x].router) else ([], {}, None)
  }

  ghost predicate SameWays(s: Table, t: Table) { forall x :: Ways(t, x) == Ways(s, x) }

  lemma SameNeighboursWays(s: Table, t: Table)
    requires SameNeighbours(s, t)
    ensures SameWays(s, t)
  {
  }

  lemma NamePrimaryWays(t: Table, o: nat, pip: Option<nat>, now: nat)
    requires Valid(t) && PrimaryListed(t, o)
    ensures SameWays(t, NamePrimary(t, o, pip, now))
  {
    hide Valid, SetPrimary, Free, SameNeighbours;
    var p := t.origs[o].primary;
    if p.Some? && t.origs[p.value].id4him != 0 { FreeValid(t, p.value); }
    var f := if p.Some? && t.origs[p.value].id4him != 0 then Free(t, p.value) else t;
    SetPrimarySame(f, o, Standing(o, pip), now);
    SameNeighboursWays(f, SetPrimary(f, o, Standing(o, pip), now));
  }

  lemma NotePrimaryWays(t: Table, p: nat, direct: bool, now: nat)
    requires p in t.origs
    ensures var r := NotePrimary(t, p, direct, now).0;
      && SameWays(t, r) && r.origs.Keys == t.origs.Keys
      && forall x :: x in t.origs ==> r.origs[x].primary == t.origs[x].primary
    ensures NotePrimary(t, p, direct, now).1 != Crashed
  {
    hide Gap;
  }

  lemma ValidatePrimaryWays(t: Table, o: nat, pip: Option<nat>, seqOk: bool, direct: bool, now: nat)
    requires Valid(t) && o in t.origs
    ensures var r := ValidatePrimary(t, o, pip, seqOk, direct, now);
      && SameWays(t, r.0) && o in r.0.origs
      && (r.1 == Passed ==> r.0.origs[o].primary == Some(Standing(o, pip)))
      && (r.1 == Refused && pip.Some? && !seqOk ==> r.0.origs[o].primary == None)
  {
    hide Valid, NamePrimary, SetPrimary, SameNeighbours, NotePrimary, SameWays;
    PrimaryOf(t, o);
    NamePrimaryValid(t, o, pip, now);
    NamePrimaryWays(t, o, pip, now);
    var n := NamePrimary(t, o, pip, now);
    if n.origs[o].primary.Some? && pip.Some? && !seqOk {
      SetPrimaryValid(n, o, 0, now);
      SetPrimarySame(n, o, 0, now);
      SameNeighboursWays(n, SetPrimary(n, o, 0, now));
      WaysTrans(t, n, SetPrimary(n, o, 0, now));
    } else if n.origs[o].primary.Some? {
      NotePrimaryWays(n, n.origs[o].primary.value, direct, now);
      WaysTrans(t, n, NotePrimary(n, n.origs[o].primary.value, direct, now).0);
    }
  }

  lemma WaysTrans(s: Table, t: Table, u: Table)
    requires SameWays(s, t) && SameWays(t, u)
    ensures SameWays(s, u)
  {
    hide Ways;
  }

  /** The neighbour l has been heard of now, and nothing else in the list has changed. */
  ghost predicate HeardVia(ns: seq<Neigh>, index: set<Link>, r: Orig, l: Link, now: nat)
  {
    && Neigh(l, now) in r.neighs && (forall n :: n in r.neighs && n.link == l ==> n == Neigh(l, now))
    && (forall n: Neigh :: n.link != l ==> (n in r.neighs <==> n in ns))
    && r.index == index + {l}
  }

  lemma HeardIs(o: Orig, l: Link, now: nat)
    requires Neighbourly(o)
    ensures HeardVia(o.neighs, o.index, Heard(o, l, now), l, now) && Heard(o, l, now).router == o.router
  {
    var r := Heard(o, l, now);
    if l in o.index {
      var i :| 0 <= i < |o.neighs| && o.neighs[i].link == l;
      assert r.neighs[i] == Neigh(l, now);
      forall n | n in o.neighs && n.link != l ensures n in r.neighs {
        var j :| 0 <= j < |o.neighs| && o.neighs[j] == n;
        assert r.neighs[j] == n;
      }
    } else {
      forall n | n in o.neighs ensures n.link != l { LinkListed(o, n); }
      assert r.neighs[|o.neighs|] == Neigh(l, now);
    }
  }

  /** Which way the router goes when an OGM of neighbour l has got to the end. */
  function RouterAfter(was: Option<Link>, l: Link, ev: Event): Option<Link>
    requires ev.Ogm?
  {
    if ev.stop == AtOrder then was
    else if ev.rejected || ev.choice == Drop then None
    else if ev.choice == Take then Some(l)
    else was
  }

  lemma FinishWays(t: Table, ev: Event)
    requires ev.Ogm? && Valid(t) && ev.orig in t.origs
    ensures var r, o, l := Finish(t, ev), t.origs[ev.orig], Link(ev.neigh, ev.iif);
      && (forall x :: x != ev.orig ==> Ways(r, x) == Ways(t, x))
      && ev.orig in r.origs && r.origs[ev.orig].primary == o.primary
      && r.origs[ev.orig].neighs == Heard(o, l, ev.now).neighs && r.origs[ev.orig].index == Heard(o, l, ev.now).index
      && r.origs[ev.orig].router == RouterAfter(Heard(o, l, ev.now).router, l, ev)
  {
    hide Valid;
    HeardValid(t, ev.orig, Link(ev.neigh, ev.iif), ev.now);
    HeardPrimary(t.origs[ev.orig], Link(ev.neigh, ev.iif), ev.now);
    hide Heard;
  }

  lemma HeardPrimary(o: Orig, l: Link, now: nat)
    ensures Heard(o, l, now).primary == o.primary
  {
  }

  lemma HeardViaSame(ns: seq<Neigh>, index: set<Link>, p: Orig, q: Orig, l: Link, now: nat)
    requires HeardVia(ns, index, p, l, now) && q.neighs == p.neighs && q.index == p.index
    ensures HeardVia(ns, index, q, l, now)
  {
  }

  lemma GotWays(t: Table, a: nat, now: nat)
    ensures SameWays(t, Got(t, a, now)) && a in Got(t, a, now).origs
  {
  }

  /**
   What an OGM does to the ways that are known: nothing to those of other originators, and to
   those of its own only if it passes the checks on the primary originator. Then the neighbour
   it came from is listed as heard now, and it becomes the router if it has been chosen.
   */
  lemma ProcessRecords(t: Table, ev: Event)
    requires ev.Ogm? && Valid(t)
    ensures var t1 := Got(t, ev.neigh, ev.now);
      var t2 := if ev.neigh == ev.orig then t1 else Got(t1, ev.orig, ev.now);
      && Valid(t2) && ev.orig in t2.origs
      && var (r, l) := (Process(t, ev).0, Link(ev.neigh, ev.iif));
      var passed := ev.stop != AtNeighbour && ev.stop != AtSeqno
        && ValidatePrimary(t2, ev.orig, ev.pip, ev.seqOk, ev.neigh == ev.orig, ev.now).1 == Passed;
      && (forall x :: x != ev.orig || !passed ==> Ways(r, x) == Ways(t, x))
      && (passed ==>
            && ev.orig in r.origs && r.origs[ev.orig].primary == Some(Standing(ev.orig, ev.pip))
            && HeardVia(Ways(t, ev.orig).0, Ways(t, ev.orig).1, r.origs[ev.orig], l, ev.now)
            && r.origs[ev.orig].router == RouterAfter(Ways(t, ev.orig).2, l, ev))
  {
    hide Valid, Got, ValidatePrimary, Neighbourly, Heard, HeardVia, Finish, SameWays, RouterAfter;
    var t1, l := Got(t, ev.neigh, ev.now), Link(ev.neigh, ev.iif);
    GotValid(t, ev.neigh, ev.now);
    GotWays(t, ev.neigh, ev.now);
    var t2 := if ev.neigh == ev.orig then t1 else Got(t1, ev.orig, ev.now);
    GotValid(t1, ev.orig, ev.now);
    GotWays(t1, ev.orig, ev.now);
    SameItself(t1);
    WaysTrans(t, t1, t2);
    ValidatePrimaryValid(t2, ev.orig, ev.pip, ev.seqOk, ev.neigh == ev.orig, ev.now);
    ValidatePrimaryWays(t2, ev.orig, ev.pip, ev.seqOk, ev.neigh == ev.orig, ev.now);
    var (t3, v) := ValidatePrimary(t2, ev.orig, ev.pip, ev.seqOk, ev.neigh == ev.orig, ev.now);
    WaysTrans(t, t2, t3);
    SameAre(t, t1);
    SameAre(t, t2);
    SameAre(t, t3);
    if ev.stop != AtNeighbour && ev.stop != AtSeqno && v == Passed {
      NeighbourlyAt(t3, ev.orig);
      var o := t3.origs[ev.orig];
      HeardIs(o, l, ev.now);
      FinishWays(t3, ev);
      HeardViaSame(o.neighs, o.index, Heard(o, l, ev.now), Finish(t3, ev).origs[ev.orig], l, ev.now);
    }
  }

  lemma SameItself(t: Table)
    ensures SameWays(t, t)
  {
  }

  lemma SameAre(s: Table, t: Table)
    requires SameWays(s, t)
    ensures forall x :: Ways(t, x) == Ways(s, x)
  {
  }

  // ----- when an originator was heard of -----

  /** Whoever was in the table is still there, and the time is the one before or now. */
  ghost predicate Awake(s: Table, t: Table, now: nat)
  {
    forall x :: x in s.origs ==> x in t.origs && (t.origs[x].aware == s.origs[x].aware || t.origs[x].aware == now)
  }

  predicate HeardNow(t: Table, a: nat, now: nat) { a in t.origs && t.origs[a].aware == now }

  lemma AwakeTrans(s: Table, t: Table, u: Table, now: nat)
    requires Awake(s, t, now) && Awake(t, u, now)
    ensures Awake(s, u, now)
  {
  }

  lemma SetPrimaryAwake(t: Table, o: nat, a: nat, now: nat)
    requires PrimaryListed(t, o)
    ensures Awake(t, SetPrimary(t, o, a, now), now)
  {
  }

  lemma NamePrimaryAwake(t: Table, o: nat, pip: Option<nat>, now: nat)
    requires Valid(t) && PrimaryListed(t, o)
    ensures Awake(t, NamePrimary(t, o, pip, now), now)
  {
    hide Valid, SetPrimary, Free;
    var p := t.origs[o].primary;
    if p.Some? && t.origs[p.value].id4him != 0 { FreeValid(t, p.value); }
    var f := if p.Some? && t.origs[p.value].id4him != 0 then Free(t, p.value) else t;
    SetPrimaryAwake(f, o, Standing(o, pip), now);
  }

  lemma NotePrimaryAwake(t: Table, p: nat, direct: bool, now: nat)
    requires p in t.origs
    ensures Awake(t, NotePrimary(t, p, direct, now).0, now) && HeardNow(NotePrimary(t, p, direct, now).0, p, now)
  {
    hide Gap;
  }

  lemma ValidatePrimaryAwake(t: Table, o: nat, pip: Option<nat>, seqOk: bool, direct: bool, now: nat)
    requires Valid(t) && o in t.origs
    ensures var r := ValidatePrimary(t, o, pip, seqOk, direct, now);
      Awake(t, r.0, now) && (r.1 == Passed ==> HeardNow(r.0, Standing(o, pip), now))
  {
    hide Valid, NamePrimary, SetPrimary, NotePrimary, Awake, HeardNow;
    PrimaryOf(t, o);
    NamePrimaryValid(t, o, pip, now);
    NamePrimaryAwake(t, o, pip, now);
    var n := NamePrimary(t, o, pip, now);
    PrimaryOf(n, o);
    if n.origs[o].primary.Some? && pip.Some? && !seqOk {
      SetPrimaryAwake(n, o, 0, now);
      AwakeTrans(t, n, SetPrimary(n, o, 0, now), now);
    } else if n.origs[o].primary.Some? {
      NotePrimaryAwake(n, n.origs[o].primary.value, direct, now);
      AwakeTrans(t, n, NotePrimary(n, n.origs[o].primary.value, direct, now).0, now);
    }
  }

  lemma FinishAwake(t: Table, ev: Event)
    requires ev.Ogm? && Valid(t) && ev.orig in t.origs
    ensures Awake(t, Finish(t, ev), ev.now)
  {
    hide Valid;
    HeardValid(t, ev.orig, Link(ev.neigh, ev.iif), ev.now);
    HeardAware(t.origs[ev.orig], Link(ev.neigh, ev.iif), ev.now);
    hide Heard;
  }

  lemma HeardAware(o: Orig, l: Link, now: nat)
    ensures Heard(o, l, now).aware == o.aware
  {
  }

  lemma GotAwake(t: Table, a: nat, now: nat)
    ensures Awake(t, Got(t, a, now), now) && HeardNow(Got(t, a, now), a, now)
  {
  }

  lemma AwakeKeeps(s: Table, t: Table, a: nat, now: nat)
    requires Awake(s, t, now) && HeardNow(s, a, now)
    ensures HeardNow(t, a, now)
  {
  }

  /**
   An OGM keeps all originators, notes the neighbour that it came from as heard of now, and its
   originator as well once the checks on the neighbour are passed.
   */
  lemma ProcessNotes(t: Table, ev: Event)
    requires ev.Ogm? && Valid(t)
    ensures var r := Process(t, ev).0;
      && Awake(t, r, ev.now) && HeardNow(r, ev.neigh, ev.now)
      && (ev.stop != AtNeighbour ==> HeardNow(r, ev.orig, ev.now))
  {
    hide Valid, Got, ValidatePrimary, Finish, Crashes, Awake, HeardNow;
    var t1 := Got(t, ev.neigh, ev.now);
    GotValid(t, ev.neigh, ev.now);
    GotAwake(t, ev.neigh, ev.now);
    if ev.stop != AtNeighbour {
      var t2 := if ev.neigh == ev.orig then t1 else Got(t1, ev.orig, ev.now);
      if ev.neigh != ev.orig {
        GotValid(t1, ev.orig, ev.now);
        GotAwake(t1, ev.orig, ev.now);
        NotesKept(t, t1, t2, ev.neigh, ev.now);
      }
      if ev.stop != AtSeqno {
        GotWays(t1, ev.orig, ev.now);
        GotWays(t, ev.neigh, ev.now);
        ValidatePrimaryValid(t2, ev.orig, ev.pip, ev.seqOk, ev.neigh == ev.orig, ev.now);
        ValidatePrimaryAwake(t2, ev.orig, ev.pip, ev.seqOk, ev.neigh == ev.orig, ev.now);
        var t3 := ValidatePrimary(t2, ev.orig, ev.pip, ev.seqOk, ev.neigh == ev.orig, ev.now).0;
        NotesKept(t, t2, t3, ev.neigh, ev.now);
        AwakeKeeps(t2, t3, ev.orig, ev.now);
        FinishAwake(t3, ev);
        NotesKept(t, t3, Finish(t3, ev), ev.neigh, ev.now);
        AwakeKeeps(t3, Finish(t3, ev), ev.orig, ev.now);
      }
    }
  }

  lemma NotesKept(s: Table, t: Table, u: Table, a: nat, now: nat)
    requires Awake(s, t, now) && Awake(t, u, now) && HeardNow(t, a, now)
    ensures Awake(s, u, now) && HeardNow(u, a, now)
  {
    AwakeTrans(s, t, u, now);
    AwakeKeeps(t, u, a, now);
  }

  // ----- numbers -----

  /** An originator that names another primary one takes the number of the one before back, and nobody else's. */
  lemma PrimaryChanged(t: Table, o: nat, pip: Option<nat>, now: nat, x: nat)
    requires Valid(t) && o in t.origs && x in t.origs
    ensures PrimaryListed(t, o)
    ensures var n, p := NamePrimary(t, o, pip, now), t.origs[o].primary;
      && x in n.origs
      && n.origs[x].id4him == if p == Some(x) && x != Standing(o, pip) then 0 else t.origs[x].id4him
  {
    hide Valid, Free, SetPrimary, SameNeighbours;
    PrimaryOf(t, o);
    var p := t.origs[o].primary;
    if p.Some? && t.origs[p.value].id4him != 0 { FreeValid(t, p.value); }
    var f := if p.Some? && t.origs[p.value].id4him != 0 then Free(t, p.value) else t;
    SetPrimarySame(f, o, Standing(o, pip), now);
    SameIdOf(f, SetPrimary(f, o, Standing(o, pip), now), x);
  }

  lemma SameIdOf(s: Table, t: Table, x: nat)
    requires SameNeighbours(s, t) && x in s.origs
    ensures x in t.origs && t.origs[x].id4him == s.origs[x].id4him
  {
  }

  /** Only an OGM of a direct neighbour gives a number, and only to its primary originator. */
  lemma NumbersForDirect(t: Table, o: nat, pip: Option<nat>, seqOk: bool, direct: bool, now: nat, x: nat)
    requires Valid(t) && o in t.origs
    ensures var r := ValidatePrimary(t, o, pip, seqOk, direct, now).0.origs;
      x in r && r[x].id4him != 0 && (x in t.origs ==> t.origs[x].id4him == 0) ==> direct && x == Standing(o, pip)
  {
    hide Valid, NamePrimary, SetPrimary, NotePrimary, SameNeighbours;
    PrimaryOf(t, o);
    NamePrimaryValid(t, o, pip, now);
    var n := NamePrimary(t, o, pip, now);
    NamePrimaryNumbers(t, o, pip, now, x);
    if n.origs[o].primary.Some? && pip.Some? && !seqOk {
      PrimaryOf(n, o);
      SetPrimarySame(n, o, 0, now);
      NewIsBlank(n, SetPrimary(n, o, 0, now), x);
    } else if n.origs[o].primary.Some? {
      NotedNumbers(n, n.origs[o].primary.value, direct, now, x);
    }
  }

  lemma NewIsBlank(s: Table, t: Table, x: nat)
    requires SameNeighbours(s, t)
    ensures x in t.origs && t.origs[x].id4him != 0 ==> x in s.origs && s.origs[x].id4him == t.origs[x].id4him
  {
  }

  lemma NamePrimaryNumbers(t: Table, o: nat, pip: Option<nat>, now: nat, x: nat)
    requires Valid(t) && PrimaryListed(t, o)
    ensures var n := NamePrimary(t, o, pip, now).origs;
      x in n && n[x].id4him != 0 ==> x in t.origs && t.origs[x].id4him != 0
  {
    hide Valid, SetPrimary, Free, SameNeighbours;
    var p := t.origs[o].primary;
    if p.Some? && t.origs[p.value].id4him != 0 { FreeValid(t, p.value); }
    var f := if p.Some? && t.origs[p.value].id4him != 0 then Free(t, p.value) else t;
    SetPrimarySame(f, o, Standing(o, pip), now);
    NewIsBlank(f, SetPrimary(f, o, Standing(o, pip), now), x);
  }

  lemma NotedNumbers(t: Table, p: nat, direct: bool, now: nat, x: nat)
    requires p in t.origs
    ensures var n := NotePrimary(t, p, direct, now).0.origs;
      x in n && n[x].id4him != 0 && !(direct && x == p) ==> x in t.origs && t.origs[x].id4him != 0
  {
    hide Gap;
  }
}
