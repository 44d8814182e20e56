/**
 What the copies of an OGM say (compiled-tools/bmx/bmxd/schedule.c:430-585): from the packets
 sent and the packet being filled, in the order in which they were made.
 */
module CopyFlags {
  import opened Aggregate

  function OfId(cs: seq<Copy>, id: nat): seq<Copy>
  {
    if cs == [] then [] else OfId(cs[..|cs| - 1], id) + if cs[|cs| - 1].id == id then [cs[|cs| - 1]] else []
  }

  function OfPackets(ps: seq<seq<Copy>>, id: nat): seq<Copy>
  {
    if ps == [] then [] else OfPackets(ps[..|ps| - 1], id) + OfId(ps[|ps| - 1], id)
  }

  /** All copies of an OGM that an interface has got, sent or in the buffer. */
  function Said(f: Iface, id: nat): seq<Copy> { OfPackets(f.sent, id) + OfId(f.buffer, id) }

  /**
   What interface i gets of an OGM in one turn. Sent back to a neighbour for link detection, it
   goes unchanged to the interface it came from; in a broadcast it is marked direct only on that
   interface, and cloned from the turn on that lies behind the interface's diversity.
   */
  function Made(o: Ogm, fs: seq<Iface>, i: nat): seq<Copy>
    requires o.via < |fs| && i < |fs|
  {
    var out, f := fs[o.via], fs[i];
    if out.active && o.iteration <= out.diversity && o.directlink && !o.cloned && (o.uni || o.ttl == 0) then
      if i == o.via then [Copy(o.id, o.len, false, true)] else []
    else if !o.uni && o.ttl > 0 && f.active && (o.own && out.singlehomed ==> o.via == i) && o.bucket < f.clones then
      [Copy(o.id, o.len, o.cloned || o.iteration > f.diversity, o.directlink && o.via == i)]
    else []
  }

  // ----- one turn -----

  lemma PutSaid(f: Iface, c: Copy, id: nat)
    ensures Said(Put(f, c), id) == Said(f, id) + if c.id == id then [c] else []
  {
    assert (f.buffer + [c])[..|f.buffer|] == f.buffer;
  }

  lemma FlushSaid(f: Iface, id: nat)
    requires f.len == HEADER ==> f.buffer == []
    ensures Said(Flushed(f), id) == Said(f, id)
  {
    assert (f.sent + [f.buffer])[..|f.sent|] == f.sent;
  }

  lemma CopiedSaid(fs: seq<Iface>, o: Ogm, i: nat, id: nat)
    requires o.via < |fs| && i < |fs|
    ensures Said(Copied(fs, o)[i], id) == Said(fs[i], id) + if o.id == id then Made(o, fs, i) else []
  {
    PutSaid(fs[i], Copy(o.id, o.len, o.cloned, o.directlink), id);
    PutSaid(fs[i], CopyFor(o, i, fs[i]), id);
    hide Said;
    assert Said(fs[i], id) + [] == Said(fs[i], id);
  }

  lemma SameMade(fs: seq<Iface>, gs: seq<Iface>, o: Ogm, i: nat)
    requires SameConfig(fs, gs) && o.via < |fs| && i < |fs|
    ensures Made(o, fs, i) == Made(o, gs, i)
  {
  }

  /** The OGM as it stays in the list after a turn. */
  function Turned(o: Ogm, random: nat): Ogm { Begun(o, random).(bucket := Begun(o, random).bucket + 100) }

  /** It has had its last turn now, or is dropped. */
  predicate Ends(o: Ogm, random: nat, fs: seq<Iface>, pref: nat)
    requires o.via < |fs|
  {
    TooLarge(HEADER, o, pref) || Finished(fs, Begun(o, random))
  }

  function MadeIn(o: Ogm, random: nat, fs: seq<Iface>, i: nat, pref: nat): seq<Copy>
    requires o.via < |fs| && i < |fs|
  {
    if TooLarge(HEADER, o, pref) then [] else Made(Begun(o, random), fs, i)
  }

  lemma HandledSaid(st: Stage, fs0: seq<Iface>, o: Ogm, pref: nat, random: nat, i: nat, id: nat)
    requires Ready(st, fs0) && i < |fs0| && o.via < |fs0| && pref <= MAX_UDPD_SIZE
    ensures var r := Handled(st, o, pref, random);
      && Said(r.fs[i], id) == Said(st.fs[i], id) + (if o.id == id then MadeIn(o, random, fs0, i, pref) else [])
      && r.kept == st.kept + if Ends(o, random, fs0, pref) then [] else [Turned(o, random)]
  {
    hide Said, Made, Copied, Finished, Size;
    var b := Begun(o, random);
    var full := Full(st.size, o, pref);
    var size, fs := if full then HEADER else st.size, if full then FlushedAll(st.fs) else st.fs;
    DroppedOnlyIfAlone(st.size, o, pref);
    FlushSaid(st.fs[i], id);
    assert SameConfig(fs, fs0);
    assert st.kept + [] == st.kept && Said(st.fs[i], id) + [] == Said(st.fs[i], id);
    if !TooLarge(size, o, pref) {
      CopiedSaid(fs, b, i, id);
      SameMade(fs, fs0, b, i);
      SameDecisions(fs, fs0, b, i);
    }
  }

  // ----- one tick -----

  ghost predicate NoneOf(os: seq<Ogm>, id: nat) { forall o :: o in os ==> o.id != id }

  ghost predicate Listed(os: seq<Ogm>, fs: seq<Iface>)
  {
    forall o :: o in os ==> o.via < |fs| && o.len > 0 && Blocks(o.len)
  }

  lemma ReadyAll(st: Stage, fs0: seq<Iface>, os: seq<Ogm>, pref: nat, random: seq<nat>)
    requires Ready(st, fs0) && |fs0| > 0 && pref <= MAX_UDPD_SIZE && |random| == |os| && Listed(os, fs0)
    ensures |st.fs| == |fs0| && Ready(HandledAll(st, os, pref, random), fs0)
  {
    hide Copies, Future;
    AllConserves(st, fs0, os, pref, random, 0, 0);
  }

  /** OGMs of another identity leave what has been said of this one. */
  lemma {:induction false} OthersSay(st: Stage, fs0: seq<Iface>, os: seq<Ogm>, pref: nat, random: seq<nat>,
                                     i: nat, id: nat)
    requires Ready(st, fs0) && i < |fs0| && pref <= MAX_UDPD_SIZE && |random| == |os| && Listed(os, fs0)
    requires NoneOf(os, id)
    ensures |st.fs| == |fs0| && Ready(HandledAll(st, os, pref, random), fs0)
    ensures var r := HandledAll(st, os, pref, random);
      Said(r.fs[i], id) == Said(st.fs[i], id) && exists more :: r.kept == st.kept + more && NoneOf(more, id)
    decreases |os|
  {
    hide Said, Handled, Ready, MadeIn, Ends;
    ReadyAll(st, fs0, os, pref, random);
    if os == [] {
      assert st.kept == st.kept + [] && NoneOf([], id);
    } else {
      var n := |os| - 1;
      OthersSay(st, fs0, os[..n], pref, random[..n], i, id);
      var m := HandledAll(st, os[..n], pref, random[..n]);
      HandledSaid(m, fs0, os[n], pref, random[n], i, id);
      var more :| m.kept == st.kept + more && NoneOf(more, id);
      var last := if Ends(os[n], random[n], fs0, pref) then [] else [Turned(os[n], random[n])];
      assert (st.kept + more) + last == st.kept + (more + last);
      assert NoneOf(more + last, id);
    }
  }

  /** The OGM with this identity is handled once, at its place. */
  lemma {:induction false} OneSays(st: Stage, fs0: seq<Iface>, os: seq<Ogm>, pref: nat, random: seq<nat>,
                                   i: nat, id: nat, k: nat)
    requires Ready(st, fs0) && i < |fs0| && pref <= MAX_UDPD_SIZE && |random| == |os| && Listed(os, fs0)
    requires OnlyAt(os, id, k) && NoneOf(st.kept, id)
    ensures |st.fs| == |fs0| && Ready(HandledAll(st, os, pref, random), fs0)
    ensures var r := HandledAll(st, os, pref, random);
      && Said(r.fs[i], id) == Said(st.fs[i], id) + MadeIn(os[k], random[k], fs0, i, pref)
      && if Ends(os[k], random[k], fs0, pref) then NoneOf(r.kept, id)
         else exists l :: OnlyAt(r.kept, id, l) && r.kept[l] == Turned(os[k], random[k])
    decreases |os|
  {
    hide Said, Handled, Ready, MadeIn, Ends;
    ReadyAll(st, fs0, os, pref, random);
    var n := |os| - 1;
    var m := HandledAll(st, os[..n], pref, random[..n]);
    if k == n {
      OthersSay(st, fs0, os[..n], pref, random[..n], i, id);
      HandledSaid(m, fs0, os[n], pref, random[n], i, id);
      var more :| m.kept == st.kept + more && NoneOf(more, id);
      assert NoneOf(m.kept, id);
      var r := HandledAll(st, os, pref, random);
      if !Ends(os[n], random[n], fs0, pref) {
        assert forall j :: 0 <= j < |m.kept| ==> r.kept[j] == m.kept[j] && m.kept[j] in m.kept;
        assert OnlyAt(r.kept, id, |m.kept|);
      }
    } else {
      assert OnlyAt(os[..n], id, k);
      OneSays(st, fs0, os[..n], pref, random[..n], i, id, k);
      HandledSaid(m, fs0, os[n], pref, random[n], i, id);
      var r := HandledAll(st, os, pref, random);
      if !Ends(os[k], random[k], fs0, pref) {
        var l :| OnlyAt(m.kept, id, l) && m.kept[l] == Turned(os[k], random[k]);
        assert OnlyAt(r.kept, id, l) && r.kept[l] == m.kept[l];
      }
    }
  }

  lemma FlushedSaid(st: Stage, fs0: seq<Iface>, i: nat, id: nat)
    requires Ready(st, fs0) && i < |fs0|
    ensures |st.fs| == |fs0|
    ensures Said((if st.size > HEADER then FlushedAll(st.fs) else st.fs)[i], id) == Said(st.fs[i], id)
  {
    FlushSaid(st.fs[i], id);
    hide Said;
  }

  lemma StartsReady(os: seq<Ogm>, fs: seq<Iface>)
    requires ValidList(os, fs)
    ensures Ready(Stage(HEADER, fs, []), fs) && Listed(os, fs)
  {
  }

  /** A tick in which the OGM is due: it gets its turn, and stays or goes. */
  lemma TickSays(os: seq<Ogm>, fs: seq<Iface>, now: nat, pref: nat, random: seq<nat>, i: nat, id: nat, k: nat)
    requires ValidList(os, fs) && |random| == |os| && i < |fs| && pref <= MAX_UDPD_SIZE
    requires OnlyAt(os, id, k) && k < Due(os, now)
    ensures var (ms, hs) := Tick(os, fs, now, pref, random);
      && |hs| == |fs| && Said(hs[i], id) == Said(fs[i], id) + MadeIn(os[k], random[k], fs, i, pref)
      && if Ends(os[k], random[k], fs, pref) then NoneOf(ms, id)
         else exists l :: OnlyAt(ms, id, l) && ms[l] == Turned(os[k], random[k])
  {
    hide Said, HandledAll, FlushedAll, Ready, MadeIn, Ends, Due;
    var n := Due(os, now);
    var st0 := Stage(HEADER, fs, []);
    StartsReady(os, fs);
    OneSays(st0, fs, os[..n], pref, random[..n], i, id, k);
    var r := HandledAll(st0, os[..n], pref, random[..n]);
    FlushedSaid(r, fs, i, id);
    var ms := r.kept + os[n..];
    assert NoneOf(os[n..], id);
    if !Ends(os[k], random[k], fs, pref) {
      var l :| OnlyAt(r.kept, id, l) && r.kept[l] == Turned(os[k], random[k]);
      assert forall j :: 0 <= j < |ms| ==> ms[j] == if j < |r.kept| then r.kept[j] else os[n + j - |r.kept|];
      assert OnlyAt(ms, id, l);
    }
  }

  /** A tick in which it is not due yet. */
  lemma TickWaits(os: seq<Ogm>, fs: seq<Iface>, now: nat, pref: nat, random: seq<nat>, i: nat, id: nat, k: nat)
    requires ValidList(os, fs) && |random| == |os| && i < |fs| && pref <= MAX_UDPD_SIZE
    requires OnlyAt(os, id, k) && Due(os, now) <= k
    ensures var (ms, hs) := Tick(os, fs, now, pref, random);
      && |hs| == |fs| && Said(hs[i], id) == Said(fs[i], id)
      && exists l :: OnlyAt(ms, id, l) && ms[l] == os[k]
  {
    hide Said, HandledAll, FlushedAll, Ready, Due, Copies;
    var n := Due(os, now);
    var st0 := Stage(HEADER, fs, []);
    StartsReady(os, fs);
    assert NoneOf(os[..n], id);
    OthersSay(st0, fs, os[..n], pref, random[..n], i, id);
    FlushedSaid(HandledAll(st0, os[..n], pref, random[..n]), fs, i, id);
    TurnBefore(os, fs, now, pref, random, i, id, k);
  }

  /** What has been said of an OGM that is not listed is not added to. */
  lemma TickOfOthers(os: seq<Ogm>, fs: seq<Iface>, now: nat, pref: nat, random: seq<nat>, i: nat, id: nat)
    requires ValidList(os, fs) && |random| == |os| && i < |fs| && pref <= MAX_UDPD_SIZE && NoneOf(os, id)
    ensures var (ms, hs) := Tick(os, fs, now, pref, random);
      |hs| == |fs| && Said(hs[i], id) == Said(fs[i], id) && NoneOf(ms, id)
  {
    hide Said, HandledAll, FlushedAll, Ready, Due;
    var n := Due(os, now);
    var st0 := Stage(HEADER, fs, []);
    StartsReady(os, fs);
    assert NoneOf(os[..n], id);
    OthersSay(st0, fs, os[..n], pref, random[..n], i, id);
    FlushedSaid(HandledAll(st0, os[..n], pref, random[..n]), fs, i, id);
  }

  // ----- the whole life of an OGM -----

  /** The copies from this turn on, for an OGM as it is looked at in the turn. */
  function LifeSaid(o: Ogm, fs: seq<Iface>, i: nat): seq<Copy>
    requires o.via < |fs| && i < |fs|
    decreases Most(fs) - o.bucket
  {
    Made(o, fs, i) + if Finished(fs, o) then [] else LifeSaid(NextTurn(o), fs, i)
  }

  lemma {:induction false} SameLifeSaid(o: Ogm, fs: seq<Iface>, gs: seq<Iface>, i: nat)
    requires SameConfig(fs, gs) && i < |fs| && o.via < |fs|
    ensures LifeSaid(o, fs, i) == LifeSaid(o, gs, i)
    decreases Most(fs) - o.bucket
  {
    hide Made, Copied, Sends;
    SameMade(fs, gs, o, i);
    SameDecisions(fs, gs, o, i);
    if !Finished(fs, o) { SameLifeSaid(NextTurn(o), fs, gs, i); }
  }

  /** The copies are made in turns in a row, from the first one on. */
  lemma {:induction false} MadeInARow(o: Ogm, fs: seq<Iface>, i: nat)
    requires o.via < |fs| && i < |fs| && Made(o, fs, i) == []
    ensures LifeSaid(o, fs, i) == []
    decreases Most(fs) - o.bucket
  {
    if !Finished(fs, o) { MadeInARow(NextTurn(o), fs, i); }
  }

  /**
   Each copy says what the OGM says: it is marked direct if and only if the OGM is and the
   interface is the one it came in on; copy number j is marked cloned if and only if the OGM came
   cloned or its turn lies behind the interface's diversity.
   */
  lemma {:induction false} LifeFlags(o: Ogm, fs: seq<Iface>, i: nat, j: nat)
    requires o.via < |fs| && i < |fs| && j < |LifeSaid(o, fs, i)|
    ensures LifeSaid(o, fs, i)[j]
         == Copy(o.id, o.len, o.cloned || o.iteration + j > fs[i].diversity, o.directlink && o.via == i)
    decreases Most(fs) - o.bucket
  {
    if Made(o, fs, i) == [] {
      MadeInARow(o, fs, i);
    } else if j > 0 {
      LifeFlags(NextTurn(o), fs, i, j - 1);
    }
  }

  function Least(a: int, b: int): int { if a < b then a else b }

  /** How many copies a broadcast OGM comes to on interface i, and one that is sent back for link detection. */
  lemma {:induction false} LifeLength(o: Ogm, fs: seq<Iface>, i: nat)
    requires o.via < |fs| && i < |fs|
    ensures var f, out, n := fs[i], fs[o.via], |LifeSaid(o, fs, i)|;
      if !o.uni && o.ttl > 0 then
        n == if f.active && (o.own && out.singlehomed ==> o.via == i) then CeilDiv(f.clones - o.bucket, 100) else 0
      else if f.active && i == o.via && o.directlink && !o.cloned && o.iteration <= f.diversity then
        n == Least(f.diversity - o.iteration + 1, if f.clones <= o.bucket then 1 else CeilDiv(f.clones - o.bucket, 100))
      else n == 0
    decreases Most(fs) - o.bucket
  {
    if Finished(fs, o) {
      assert Takes(o, fs[o.via], i, fs[i]) && Broadcasts(o, fs[o.via]) ==> o.bucket + 100 >= fs[i].clones;
    } else {
      LifeLength(NextTurn(o), fs, i);
    }
  }

  // ----- runs -----

  /**
   All copies of an OGM that is listed, with the first bucket that it is given in the run: none
   if it is larger than a packet, or is an own one and larger than a preferred packet.
   */
  ghost function LifeFrom(o: Ogm, draw: nat, fs: seq<Iface>, i: nat, pref: nat): seq<Copy>
    requires o.via < |fs| && i < |fs|
  {
    if HEADER + o.len > MAX_UDPD_SIZE || (o.own && HEADER + o.len > pref) then []
    else LifeSaid(o.(iteration := o.iteration + 1, bucket := if o.bucket == 0 then draw else o.bucket), fs, i)
  }

  lemma LifeTurns(o: Ogm, draw: nat, later: nat, fs: seq<Iface>, i: nat, pref: nat)
    requires o.via < |fs| && i < |fs|
    ensures LifeFrom(o, draw, fs, i, pref)
         == MadeIn(o, draw, fs, i, pref)
            + if Ends(o, draw, fs, pref) then [] else LifeFrom(Turned(o, draw), later, fs, i, pref)
  {
    hide Made, Finished;
    assert Begun(Turned(o, draw), later) == NextTurn(Begun(o, draw));
  }

  lemma SameLifeFrom(o: Ogm, draw: nat, fs: seq<Iface>, gs: seq<Iface>, i: nat, pref: nat)
    requires SameConfig(fs, gs) && i < |fs| && o.via < |fs|
    ensures LifeFrom(o, draw, fs, i, pref) == LifeFrom(o, draw, gs, i, pref)
  {
    SameLifeSaid(Begun(o, draw), fs, gs, i);
  }

  /** Since `before`, a beginning of the row of copies has been said, and all of it if the OGM is gone. */
  ghost predicate SaidSoFar(said: seq<Copy>, before: seq<Copy>, all: seq<Copy>, gone: bool)
  {
    && (exists n: nat :: n <= |all| && said == before + all[..n])
    && (gone ==> said == before + all)
  }

  lemma NothingSaid(before: seq<Copy>, all: seq<Copy>)
    ensures SaidSoFar(before, before, all, false)
  {
    assert before == before + all[..0];
  }

  lemma AllSaid(before: seq<Copy>, all: seq<Copy>, gone: bool)
    ensures SaidSoFar(before + all, before, all, gone)
  {
    assert all == all[..|all|];
  }

  lemma MoreSaid(said: seq<Copy>, before: seq<Copy>, made: seq<Copy>, rest: seq<Copy>, gone: bool)
    requires SaidSoFar(said, before + made, rest, gone)
    ensures SaidSoFar(said, before, made + rest, gone)
  {
    var n: nat :| n <= |rest| && said == before + made + rest[..n];
    assert (made + rest)[..|made| + n] == made + rest[..n];
    assert said == before + (made + rest[..n]);
    assert before + made + rest == before + (made + rest);
  }

  /** Nothing is said any more of an OGM that is not in the list and does not come in again. */
  lemma {:induction false} SilentOnceGone(os: seq<Ogm>, fs: seq<Iface>, pref: nat, acts: seq<Act>,
                                          ps: seq<Ogm>, gs: seq<Iface>, i: nat, id: nat)
    requires ValidList(os, fs) && i < |fs| && pref <= MAX_UDPD_SIZE && NoneOf(os, id)
    requires Acts(os, fs, pref, acts, ps, gs) && NoneArrives(acts, id)
    ensures |gs| == |fs| && Said(gs[i], id) == Said(fs[i], id) && NoneOf(ps, id)
    decreases |acts|
  {
    if acts != [] {
      hide Said, Tick, Inserted, Sized;
      assert acts[0] in acts;
      DoneKeeps(os, fs, pref, acts[0]);
      var (ms, hs) := Done(os, fs, pref, acts[0]);
      match acts[0] {
        case Turn(now, random) => TickOfOthers(os, fs, now, pref, random, i, id);
        case Arrive(o) => InsertedNone(os, o, id);
      }
      SilentOnceGone(ms, hs, pref, acts[1..], ps, gs, i, id);
    }
  }

  lemma InsertedNone(os: seq<Ogm>, o: Ogm, id: nat)
    requires NoneOf(os, id) && o.id != id
    ensures NoneOf(Inserted(os, o), id)
  {
    hide Place;
  }

  /**
   At any time of any run, what interface i has got of an OGM since it was listed is a beginning
   of the row of copies described by LifeFlags and LifeLength, and once it has left the list it is
   the whole row.
   */
  lemma {:induction false} SaidInRuns(os: seq<Ogm>, fs: seq<Iface>, pref: nat, acts: seq<Act>,
                                      ps: seq<Ogm>, gs: seq<Iface>, i: nat, id: nat, k: nat)
    requires ValidList(os, fs) && i < |fs| && pref <= MAX_UDPD_SIZE
    requires Acts(os, fs, pref, acts, ps, gs) && NoneArrives(acts, id) && OnlyAt(os, id, k)
    ensures |gs| == |fs| && os[k].via < |fs|
    ensures var all := LifeFrom(os[k], FirstDraw(os, fs, pref, acts, id), fs, i, pref);
      SaidSoFar(Said(gs[i], id), Said(fs[i], id), all, NoneOf(ps, id))
    decreases |acts|
  {
    hide Said, SaidSoFar, Tick, Inserted, Sized, LifeFrom, Due, MadeIn, Ends;
    assert os[k] in os;
    var all := LifeFrom(os[k], FirstDraw(os, fs, pref, acts, id), fs, i, pref);
    if acts == [] {
      assert os[k].id == id && !NoneOf(ps, id);
      NothingSaid(Said(fs[i], id), all);
    } else {
      assert acts[0] in acts;
      DoneKeeps(os, fs, pref, acts[0]);
      var (ms, hs) := Done(os, fs, pref, acts[0]);
      assert IndexOf(os, id) == k;
      if acts[0].Turn? && k < Due(os, acts[0].now) {
        SaidFromNow(os, fs, pref, acts, ps, gs, i, id, k);
      } else {
        if acts[0].Turn? {
          TickWaits(os, fs, acts[0].now, pref, acts[0].random, i, id, k);
        } else {
          InsertedOnly(os, acts[0].ogm, id, k);
        }
        var l :| OnlyAt(ms, id, l) && ms[l] == os[k];
        SaidInRuns(ms, hs, pref, acts[1..], ps, gs, i, id, l);
        SameLifeFrom(os[k], FirstDraw(os, fs, pref, acts, id), hs, fs, i, pref);
      }
    }
  }

  /** The run begins with the tick that gives the OGM its turn. */
  lemma {:induction false} SaidFromNow(os: seq<Ogm>, fs: seq<Iface>, pref: nat, acts: seq<Act>,
                                       ps: seq<Ogm>, gs: seq<Iface>, i: nat, id: nat, k: nat)
    requires ValidList(os, fs) && i < |fs| && pref <= MAX_UDPD_SIZE
    requires Acts(os, fs, pref, acts, ps, gs) && NoneArrives(acts, id) && OnlyAt(os, id, k)
    requires acts != [] && acts[0].Turn? && k < Due(os, acts[0].now) && k < |acts[0].random|
    ensures |gs| == |fs| && os[k].via < |fs|
    ensures var all := LifeFrom(os[k], acts[0].random[k], fs, i, pref);
      SaidSoFar(Said(gs[i], id), Said(fs[i], id), all, NoneOf(ps, id))
    decreases |acts|, 0
  {
    hide Said, SaidSoFar, Tick, Inserted, Sized, LifeFrom, Due, MadeIn, Ends;
    assert os[k] in os && acts[0] in acts;
    var draw, later := acts[0].random[k], acts[1..];
    DoneKeeps(os, fs, pref, acts[0]);
    var (ms, hs) := Done(os, fs, pref, acts[0]);
    TickSays(os, fs, acts[0].now, pref, acts[0].random, i, id, k);
    var made, before := MadeIn(os[k], draw, fs, i, pref), Said(fs[i], id);
    var next := FirstDraw(ms, hs, pref, later, id);
    LifeTurns(os[k], draw, next, fs, i, pref);
    if Ends(os[k], draw, fs, pref) {
      SilentOnceGone(ms, hs, pref, later, ps, gs, i, id);
      assert made + [] == made;
      AllSaid(before, made, true);
    } else {
      var l :| OnlyAt(ms, id, l) && ms[l] == Turned(os[k], draw);
      SaidInRuns(ms, hs, pref, later, ps, gs, i, id, l);
      var rest := LifeFrom(ms[l], next, fs, i, pref);
      SameLifeFrom(ms[l], next, hs, fs, i, pref);
      MoreSaid(Said(gs[i], id), before, made, rest, NoneOf(ps, id));
    }
  }

  // ----- the preferred size of packets -----

  /** A packet goes out before an OGM is handled if and only if the OGM would make it larger than preferred. */
  lemma PacketsFilled(st: Stage, o: Ogm, pref: nat, random: nat, i: nat)
    requires o.via < |st.fs| && i < |st.fs|
    ensures var f := st.fs[i];
      Handled(st, o, pref, random).fs[i].sent
      == f.sent + if st.size > HEADER && st.size + o.len > pref && f.len > HEADER then [f.buffer] else []
  {
    var b := Begun(o, random);
    PutOne(if Full(st.size, o, pref) then FlushedAll(st.fs) else st.fs, b, i);
    hide Copied, Finished;
    assert st.fs[i].sent + [] == st.fs[i].sent;
  }

  /** A packet is within the preferred size, or carries a single OGM. */
  predicate Small(p: seq<Copy>, pref: nat) { Size(p) <= pref || |p| <= 1 }

  ghost predicate WithinSize(st: Stage, pref: nat)
  {
    && AllSized(st)
    && (st.size == HEADER ==> forall i :: 0 <= i < |st.fs| ==> st.fs[i].buffer == [])
    && (st.size > pref ==> forall i :: 0 <= i < |st.fs| ==> |st.fs[i].buffer| <= 1)
    && forall i :: 0 <= i < |st.fs| ==> SentSmall(st.fs[i], pref)
  }

  ghost predicate SentSmall(f: Iface, pref: nat) { forall j :: 0 <= j < |f.sent| ==> Small(f.sent[j], pref) }

  lemma FlushedSmall(st: Stage, pref: nat)
    requires WithinSize(st, pref)
    ensures forall i :: 0 <= i < |st.fs| ==>
      var f := FlushedAll(st.fs)[i]; SentSmall(f, pref) && f.buffer == [] && Sized(f, HEADER)
  {
    forall i | 0 <= i < |st.fs|
      ensures var f := FlushedAll(st.fs)[i]; SentSmall(f, pref) && f.buffer == [] && Sized(f, HEADER)
    {
      FlushSized(st.fs[i], st.size);
      assert SentSmall(st.fs[i], pref);
      assert Small(st.fs[i].buffer, pref) by {
        assert Sized(st.fs[i], st.size);
      }
      hide Size;
    }
  }

  lemma PutOne(fs: seq<Iface>, o: Ogm, i: nat)
    requires o.via < |fs| && i < |fs|
    ensures Copied(fs, o)[i].sent == fs[i].sent && |Copied(fs, o)[i].buffer| <= |fs[i].buffer| + 1
  {
  }

  lemma HandledWithin(st: Stage, o: Ogm, pref: nat, random: nat)
    requires WithinSize(st, pref) && o.via < |st.fs| && o.len > 0 && Blocks(o.len)
    ensures WithinSize(Handled(st, o, pref, random), pref)
  {
    HandledSized(st, o, pref, random);
    FlushedSmall(st, pref);
    var b := Begun(o, random);
    var full := Full(st.size, o, pref);
    var fs := if full then FlushedAll(st.fs) else st.fs;
    forall i | 0 <= i < |fs|
      ensures Copied(fs, b)[i].sent == fs[i].sent && |Copied(fs, b)[i].buffer| <= |fs[i].buffer| + 1
    {
      PutOne(fs, b, i);
    }
    hide Copied, Finished, FlushedAll, Sized, Small;
  }

  lemma {:induction false} HandledAllWithin(st: Stage, os: seq<Ogm>, pref: nat, random: seq<nat>)
    requires WithinSize(st, pref) && |random| == |os| && Listed(os, st.fs)
    ensures WithinSize(HandledAll(st, os, pref, random), pref)
    decreases |os|
  {
    if os != [] {
      hide WithinSize, Handled;
      HandledAllWithin(st, os[..|os| - 1], pref, random[..|os| - 1]);
      HandledWithin(HandledAll(st, os[..|os| - 1], pref, random[..|os| - 1]), os[|os| - 1], pref, random[|os| - 1]);
    }
  }

  /** Packets keep to the preferred size: only one with a single OGM is larger. */
  lemma TickWithin(os: seq<Ogm>, fs: seq<Iface>, now: nat, pref: nat, random: seq<nat>)
    requires ValidList(os, fs) && |random| == |os| && forall i :: 0 <= i < |fs| ==> SentSmall(fs[i], pref)
    ensures forall i :: 0 <= i < |fs| ==> SentSmall(Tick(os, fs, now, pref, random).1[i], pref)
  {
    var st := Stage(HEADER, fs, []);
    var n := Due(os, now);
    HandledAllWithin(st, os[..n], pref, random[..n]);
    FlushedSmall(HandledAll(st, os[..n], pref, random[..n]), pref);
    hide HandledAll, FlushedAll, Due, SentSmall, Sized;
  }
}
