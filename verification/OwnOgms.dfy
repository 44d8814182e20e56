/**
 The OGMs of the node itself (compiled-tools/bmx/bmxd/schedule.c:600-605, 641-649 and 1415-1530):
 the first turn of one asks for the next, so that each interface goes on counting. And the order
 in which send_aggregated_ogms (239-291) puts the packets on the wire.
 */
module OwnOgms {
  import opened Aggregate

  /** An OGM of interface i that has not had its first turn. */
  predicate Waits(o: Ogm, i: nat) { o.own && o.via == i && o.iteration == 0 }

  /** It is the only one of interface i, at place k of the list. */
  ghost predicate WaitsAt(os: seq<Ogm>, i: nat, k: int)
  {
    0 <= k < |os| && forall j :: 0 <= j < |os| ==> (Waits(os[j], i) <==> j == k)
  }

  ghost predicate NoneWaits(os: seq<Ogm>, i: nat) { forall o :: o in os ==> !Waits(o, i) }

  /** One own OGM of each interface is waiting for its first turn, and it carries the current number. */
  ghost predicate Chain(os: seq<Ogm>, ws: seq<Own>)
  {
    && (forall o :: o in os ==> o.via < |ws|)
    && forall i :: 0 <= i < |ws| ==> Current(os, i, ws[i])
  }

  ghost predicate Current(os: seq<Ogm>, i: nat, w: Own)
  {
    !w.pending && exists k :: WaitsAt(os, i, k) && os[k].seqno == w.seqno
  }

  /** Interface i has its first turn with the current number now. */
  ghost predicate FirstTurn(os: seq<Ogm>, i: nat, now: nat) { exists k :: 0 <= k < Due(os, now) && Waits(os[k], i) }

  // ----- the tick -----

  /** What has been handled has had a turn, so it does not wait any more. */
  lemma {:induction false} KeptHadTurns(st: Stage, os: seq<Ogm>, pref: nat, random: seq<nat>, i: nat)
    requires |random| == |os| && (forall o :: o in os ==> o.via < |st.fs|) && NoneWaits(st.kept, i)
    requires forall o :: o in st.kept ==> o.via < |st.fs|
    ensures var kept := HandledAll(st, os, pref, random).kept;
      NoneWaits(kept, i) && forall o :: o in kept ==> o.via < |st.fs|
    decreases |os|
  {
    if os != [] {
      hide Copied, Finished, FlushedAll;
      KeptHadTurns(st, os[..|os| - 1], pref, random[..|os| - 1], i);
    }
  }

  lemma {:induction false} NotTriggered(ws: seq<Own>, os: seq<Ogm>, i: nat)
    requires (forall o :: o in os ==> o.via < |ws|) && i < |ws| && NoneWaits(os, i)
    ensures TriggeredAll(ws, os)[i] == ws[i]
    decreases |os|
  {
    if os != [] {
      NotTriggered(ws, os[..|os| - 1], i);
      assert os[|os| - 1] in os;
    }
  }

  lemma {:induction false} TriggeredOnce(ws: seq<Own>, os: seq<Ogm>, i: nat, k: nat)
    requires (forall o :: o in os ==> o.via < |ws|) && i < |ws| && WaitsAt(os, i, k)
    ensures TriggeredAll(ws, os)[i] == ws[i].(seqno := (ws[i].seqno + 1) % 0x1_0000, pending := true)
    decreases |os|
  {
    var n := |os| - 1;
    var front := os[..n];
    if k == n {
      assert forall j :: 0 <= j < n ==> front[j] == os[j] && !Waits(os[j], i);
      NotTriggered(ws, front, i);
    } else {
      assert !Waits(os[n], i);
      TriggeredOnce(ws, front, i, k);
    }
  }

  /** What interface i knows and what waits for it between the handling of the due OGMs and the end of the tick. */
  ghost predicate Between(os: seq<Ogm>, i: nat, w: Own)
  {
    if w.pending then NoneWaits(os, i) else Current(os, i, w)
  }

  lemma TickList(os: seq<Ogm>, fs: seq<Iface>, now: nat, pref: nat, random: seq<nat>) returns (n: nat, kept: seq<Ogm>)
    requires |random| == |os| && forall o :: o in os ==> o.via < |fs|
    ensures n == Due(os, now) && n <= |os| && Tick(os, fs, now, pref, random).0 == kept + os[n..]
    ensures forall o :: o in kept ==> o.via < |fs|
    ensures forall i :: NoneWaits(kept, i)
  {
    n := Due(os, now);
    kept := HandledAll(Stage(HEADER, fs, []), os[..n], pref, random[..n]).kept;
    forall i: nat ensures NoneWaits(kept, i) {
      KeptHadTurns(Stage(HEADER, fs, []), os[..n], pref, random[..n], i);
    }
    KeptHadTurns(Stage(HEADER, fs, []), os[..n], pref, random[..n], 0);
    hide HandledAll, Due, FlushedAll, NoneWaits;
  }

  /** Behind what has been handled, the rest of the list waits as before. */
  lemma RestWaits(os: seq<Ogm>, n: nat, kept: seq<Ogm>, i: nat, k: nat)
    requires n <= |os| && NoneWaits(kept, i) && WaitsAt(os, i, k)
    ensures k < n ==> WaitsAt(os[..n], i, k) && NoneWaits(kept + os[n..], i)
    ensures k >= n ==> NoneWaits(os[..n], i) && WaitsAt(kept + os[n..], i, |kept| + k - n)
    ensures k >= n ==> (kept + os[n..])[|kept| + k - n] == os[k]
  {
    var ps := kept + os[n..];
    assert forall j :: 0 <= j < |ps| ==> ps[j] == if j < |kept| then kept[j] else os[n + j - |kept|];
    assert forall j :: 0 <= j < |kept| ==> kept[j] in kept;
    assert forall j :: 0 <= j < n ==> os[..n][j] == os[j];
    hide Waits;
  }

  lemma FirstTurnIs(os: seq<Ogm>, i: nat, k: nat, now: nat)
    requires WaitsAt(os, i, k)
    ensures FirstTurn(os, i, now) <==> k < Due(os, now)
  {
    assert Waits(os[k], i);
  }

  lemma HandledBetween(os: seq<Ogm>, fs: seq<Iface>, ws: seq<Own>, now: nat, pref: nat, random: seq<nat>, i: nat)
    requires Chain(os, ws) && |random| == |os| && |ws| == |fs| && i < |ws|
    ensures forall o :: o in os[..Due(os, now)] ==> o.via < |ws|
    ensures var ps, w := Tick(os, fs, now, pref, random).0, TriggeredAll(ws, os[..Due(os, now)])[i];
      && Between(ps, i, w)
      && w.pending == FirstTurn(os, i, now)
      && w.seqno == if FirstTurn(os, i, now) then (ws[i].seqno + 1) % 0x1_0000 else ws[i].seqno
  {
    hide Tick, TriggeredAll, Due, FirstTurn;
    assert Current(os, i, ws[i]);
    var k :| WaitsAt(os, i, k) && os[k].seqno == ws[i].seqno;
    hide Waits, WaitsAt, NoneWaits;
    var n, kept := TickList(os, fs, now, pref, random);
    RestWaits(os, n, kept, i, k);
    FirstTurnIs(os, i, k, now);
    if k < n { TriggeredOnce(ws, os[..n], i, k); } else { NotTriggered(ws, os[..n], i); }
  }

  // ----- scheduling the next one -----

  lemma InsertedWaits(os: seq<Ogm>, o: Ogm, i: nat)
    ensures Waits(o, i) && NoneWaits(os, i) ==> WaitsAt(Inserted(os, o), i, Place(os, o.time))
    ensures !Waits(o, i) && NoneWaits(os, i) ==> NoneWaits(Inserted(os, o), i)
    ensures Inserted(os, o)[Place(os, o.time)] == o
  {
    var p, r := Place(os, o.time), Inserted(os, o);
    hide Place;
    assert forall j :: 0 <= j < |r| ==> r[j] == if j < p then os[j] else if j == p then o else os[j - 1];
    assert forall j :: 0 <= j < |os| ==> os[j] in os;
  }

  /** The first own OGM of an interface that is activated begins the chain; it has no flags and no turn yet. */
  lemma FirstScheduled(os: seq<Ogm>, w: Own, i: nat, made: Ogm, now: nat, ogi: nat)
    requires NoneWaits(os, i) && !w.pending
    ensures var o := OwnOgm(w, i, made, now, ogi);
      && Current(Inserted(os, o), i, w.(at := o.time)) && now <= o.time <= now + ogi
      && o == Ogm(made.id, made.len, true, made.ttl, false, false, false, i, w.seqno, o.time, 0, 0)
  {
    InsertedWaits(os, OwnOgm(w, i, made, now, ogi), i);
    hide Inserted, WaitsAt, NoneWaits;
  }

  /** An OGM of another interface, or one that has been relayed, leaves the one that waits alone. */
  lemma InsertedCurrent(os: seq<Ogm>, o: Ogm, i: nat, w: Own)
    requires !Waits(o, i) && Current(os, i, w)
    ensures Current(Inserted(os, o), i, w)
  {
    var k :| WaitsAt(os, i, k) && os[k].seqno == w.seqno;
    var p, r := Place(os, o.time), Inserted(os, o);
    hide Place;
    assert forall j :: 0 <= j < |r| ==> r[j] == if j < p then os[j] else if j == p then o else os[j - 1];
    assert WaitsAt(r, i, if k < p then k else k + 1);
  }

  lemma {:induction false} RescheduledChain(os: seq<Ogm>, ws: seq<Own>, made: seq<Ogm>, now: nat, ogi: nat,
                                            n: nat, i: nat)
    requires |made| == |ws| && n <= |ws| && i < |ws| && Between(os, i, ws[i])
    ensures var (ps, vs) := Rescheduled(os, ws, made, now, ogi, n);
      && vs[i].seqno == ws[i].seqno
      && if i < n then Current(ps, i, vs[i]) else Between(ps, i, vs[i])
  {
    if n > 0 {
      RescheduledChain(os, ws, made, now, ogi, n - 1, i);
      var (ps, vs) := Rescheduled(os, ws, made, now, ogi, n - 1);
      if ws[n - 1].pending {
        var o := OwnOgm(ws[n - 1], n - 1, made[n - 1], now, ogi);
        InsertedWaits(ps, o, i);
        hide Inserted, OwnOgm, WaitsAt, NoneWaits, Rescheduled;
        if i != n - 1 && (i < n - 1 || !vs[i].pending) { InsertedCurrent(ps, o, i, vs[i]); }
      }
    }
  }

  lemma {:induction false} RescheduledVia(os: seq<Ogm>, ws: seq<Own>, made: seq<Ogm>, now: nat, ogi: nat, n: nat)
    requires |made| == |ws| && n <= |ws| && forall o :: o in os ==> o.via < |ws|
    ensures forall o :: o in Rescheduled(os, ws, made, now, ogi, n).0 ==> o.via < |ws|
  {
    if n > 0 {
      RescheduledVia(os, ws, made, now, ogi, n - 1);
      hide Place;
    }
  }

  /** The send list and the interfaces' knowledge after a whole tick. */
  ghost function OwnTick(os: seq<Ogm>, fs: seq<Iface>, ws: seq<Own>, now: nat, pref: nat, random: seq<nat>,
                         made: seq<Ogm>, ogi: nat): (seq<Ogm>, seq<Own>)
    requires |random| == |os| && |made| == |ws| == |fs| && forall o :: o in os ==> o.via < |fs|
  {
    var n := Due(os, now);
    assert forall o :: o in os[..n] ==> o in os;
    Rescheduled(Tick(os, fs, now, pref, random).0, TriggeredAll(ws, os[..n]), made, now, ogi, |ws|)
  }

  /**
   After any tick there is again exactly one own OGM of each interface waiting, and its number is
   the next one if the one before has had its first turn, or the same.
   */
  lemma OwnTickChain(os: seq<Ogm>, fs: seq<Iface>, ws: seq<Own>, now: nat, pref: nat, random: seq<nat>,
                     made: seq<Ogm>, ogi: nat)
    requires Chain(os, ws) && |random| == |os| && |made| == |ws| == |fs|
    ensures var (ps, vs) := OwnTick(os, fs, ws, now, pref, random, made, ogi);
      && Chain(ps, vs) && |vs| == |ws|
      && forall i :: 0 <= i < |ws| ==>
        vs[i].seqno == if FirstTurn(os, i, now) then (ws[i].seqno + 1) % 0x1_0000 else ws[i].seqno
  {
    var (ps, vs) := OwnTick(os, fs, ws, now, pref, random, made, ogi);
    var n, kept := TickList(os, fs, now, pref, random);
    var qs := Tick(os, fs, now, pref, random).0;
    assert forall o :: o in qs ==> o.via < |ws| by { assert forall o :: o in os[n..] ==> o in os; }
    RescheduledVia(qs, TriggeredAll(ws, os[..n]), made, now, ogi, |ws|);
    hide Tick, TriggeredAll, Due, Between, Current, FirstTurn, Rescheduled;
    forall i | 0 <= i < |ws|
      ensures Current(ps, i, vs[i])
      ensures vs[i].seqno == if FirstTurn(os, i, now) then (ws[i].seqno + 1) % 0x1_0000 else ws[i].seqno
    {
      HandledBetween(os, fs, ws, now, pref, random, i);
      RescheduledChain(qs, TriggeredAll(ws, os[..n]), made, now, ogi, |ws|, i);
    }
  }

  // ----- runs -----

  /** A tick, with what the plugins have put into the own OGMs, or an OGM of another node to be relayed. */
  datatype Event = Turned(now: nat, random: seq<nat>, made: seq<Ogm>, ogi: nat) | Relayed(ogm: Ogm)

  ghost predicate Suits(os: seq<Ogm>, fs: seq<Iface>, t: Event)
  {
    match t
    case Turned(_, random, made, _) => |random| == |os| && |made| == |fs| && forall o :: o in os ==> o.via < |fs|
    case Relayed(o) => o.via < |fs| && !o.own
  }

  /** The first turns of interface i in a run. */
  ghost function FirstTurns(os: seq<Ogm>, fs: seq<Iface>, ws: seq<Own>, pref: nat, ts: seq<Event>, i: nat): nat
    requires |ws| == |fs|
    decreases |ts|
  {
    if ts == [] || !Suits(os, fs, ts[0]) then 0
    else
      var (ps, gs, vs) := After(os, fs, ws, pref, ts[0]);
      (if ts[0].Turned? && FirstTurn(os, i, ts[0].now) then 1 else 0) + FirstTurns(ps, gs, vs, pref, ts[1..], i)
  }

  ghost function After(os: seq<Ogm>, fs: seq<Iface>, ws: seq<Own>, pref: nat, t: Event)
    : (r: (seq<Ogm>, seq<Iface>, seq<Own>))
    requires Suits(os, fs, t) && |ws| == |fs|
    ensures |r.1| == |r.2| == |fs|
  {
    match t
    case Turned(now, random, made, ogi) =>
      var (ps, vs) := OwnTick(os, fs, ws, now, pref, random, made, ogi);
      (ps, Tick(os, fs, now, pref, random).1, vs)
    case Relayed(o) => (Inserted(os, o), fs, ws)
  }

  ghost predicate Runs(os: seq<Ogm>, fs: seq<Iface>, ws: seq<Own>, pref: nat, ts: seq<Event>,
                       ps: seq<Ogm>, vs: seq<Own>)
    requires |ws| == |fs|
    decreases |ts|
  {
    if ts == [] then ps == os && vs == ws
    else
      && Suits(os, fs, ts[0])
      && var (ms, hs, us) := After(os, fs, ws, pref, ts[0]);
      Runs(ms, hs, us, pref, ts[1..], ps, vs)
  }

  lemma RelayChain(os: seq<Ogm>, ws: seq<Own>, o: Ogm)
    requires Chain(os, ws) && !o.own && o.via < |ws|
    ensures Chain(Inserted(os, o), ws)
  {
    forall i | 0 <= i < |ws| ensures Current(Inserted(os, o), i, ws[i]) {
      InsertedCurrent(os, o, i, ws[i]);
    }
    hide Current, Place;
  }

  /**
   Over any run: one own OGM of each interface is waiting at any time, and the numbers of an
   interface go up by one, in 16 bits, with each first turn and not otherwise.
   */
  lemma {:induction false} OwnNumbersGoOn(os: seq<Ogm>, fs: seq<Iface>, ws: seq<Own>, pref: nat, ts: seq<Event>,
                                          ps: seq<Ogm>, vs: seq<Own>, i: nat)
    requires |ws| == |fs| && Chain(os, ws) && Runs(os, fs, ws, pref, ts, ps, vs) && i < |ws|
    requires ws[i].seqno < 0x1_0000
    ensures |vs| == |ws| && Chain(ps, vs)
    ensures vs[i].seqno == (ws[i].seqno + FirstTurns(os, fs, ws, pref, ts, i)) % 0x1_0000
    decreases |ts|
  {
    hide *;
    RunsFirst(os, fs, ws, pref, ts, ps, vs, i);
    if ts != [] {
      AfterChain(os, fs, ws, pref, ts[0], i);
      var (ms, hs, us) := After(os, fs, ws, pref, ts[0]);
      OwnNumbersGoOn(ms, hs, us, pref, ts[1..], ps, vs, i);
      Carried(ws[i].seqno, if ts[0].Turned? && FirstTurn(os, i, ts[0].now) then 1 else 0,
              FirstTurns(ms, hs, us, pref, ts[1..], i));
    }
  }

  lemma RunsFirst(os: seq<Ogm>, fs: seq<Iface>, ws: seq<Own>, pref: nat, ts: seq<Event>,
                  ps: seq<Ogm>, vs: seq<Own>, i: nat)
    requires |ws| == |fs| && Runs(os, fs, ws, pref, ts, ps, vs)
    ensures ts == [] ==> ps == os && vs == ws && FirstTurns(os, fs, ws, pref, ts, i) == 0
    ensures ts != [] ==>
      && Suits(os, fs, ts[0])
      && var (ms, hs, us) := After(os, fs, ws, pref, ts[0]);
      && Runs(ms, hs, us, pref, ts[1..], ps, vs)
      && FirstTurns(os, fs, ws, pref, ts, i)
         == (if ts[0].Turned? && FirstTurn(os, i, ts[0].now) then 1 else 0) + FirstTurns(ms, hs, us, pref, ts[1..], i)
  {
    hide FirstTurn, After, Suits;
  }

  lemma Carried(s: nat, one: nat, rest: nat)
    ensures ((s + one) % 0x1_0000 + rest) % 0x1_0000 == (s + (one + rest)) % 0x1_0000
  {
  }

  lemma AfterChain(os: seq<Ogm>, fs: seq<Iface>, ws: seq<Own>, pref: nat, t: Event, i: nat)
    requires |ws| == |fs| && Chain(os, ws) && Suits(os, fs, t) && i < |ws| && ws[i].seqno < 0x1_0000
    ensures var (ms, hs, us) := After(os, fs, ws, pref, t);
      && Chain(ms, us)
      && us[i].seqno == (ws[i].seqno + if t.Turned? && FirstTurn(os, i, t.now) then 1 else 0) % 0x1_0000
  {
    hide Chain, FirstTurn, OwnTick, Inserted, Tick;
    match t
    case Turned(now, random, made, ogi) => OwnTickChain(os, fs, ws, now, pref, random, made, ogi);
    case Relayed(o) => RelayChain(os, ws, o);
  }

  // ----- the order on the wire -----

  /** The packets that a wire carries for interface i. */
  function Of(w: seq<Frame>, i: nat): seq<seq<Copy>>
  {
    if w == [] then [] else Of(w[..|w| - 1], i) + if w[|w| - 1].via == i then [w[|w| - 1].packet] else []
  }

  lemma {:induction false} OfConcat(v: seq<Frame>, w: seq<Frame>, i: nat)
    ensures Of(v + w, i) == Of(v, i) + Of(w, i)
    decreases |w|
  {
    if w == [] {
      assert v + w == v;
    } else {
      var n := |w| - 1;
      assert (v + w)[..|v + w| - 1] == v + w[..n];
      OfConcat(v, w[..n], i);
    }
  }

  lemma {:induction false} FramesKind(fs: seq<Iface>, lan: bool, n: nat)
    requires n <= |fs|
    ensures forall x :: x in Frames(fs, lan, n) ==> x.via < n && fs[x.via].lan == lan
  {
    if n > 0 { FramesKind(fs, lan, n - 1); }
  }

  lemma {:induction false} OfFrames(fs: seq<Iface>, lan: bool, n: nat, i: nat)
    requires n <= |fs| && i < |fs|
    ensures Of(Frames(fs, lan, n), i) == if i < n && fs[i].lan == lan && fs[i].len > HEADER then [fs[i].buffer] else []
  {
    hide *;
    FramesNext(fs, lan, n);
    if n == 0 {
      OfNone(i);
    } else {
      OfFrames(fs, lan, n - 1, i);
      var f := fs[n - 1];
      var last := if f.lan == lan && f.len > HEADER then [Frame(n - 1, f.buffer)] else [];
      OfConcat(Frames(fs, lan, n - 1), last, i);
      OfOne(Frame(n - 1, f.buffer), i);
    }
  }

  lemma FramesNext(fs: seq<Iface>, lan: bool, n: nat)
    requires n <= |fs|
    ensures n == 0 ==> Frames(fs, lan, n) == []
    ensures n > 0 ==>
      var f := fs[n - 1];
      Frames(fs, lan, n)
      == Frames(fs, lan, n - 1) + if f.lan == lan && f.len > HEADER then [Frame(n - 1, f.buffer)] else []
  {
  }

  lemma OfOne(x: Frame, i: nat)
    ensures Of([x], i) == (if x.via == i then [x.packet] else []) && Of([], i) == []
  {
    assert [x][..0] == [];
  }

  predicate OnLan(fs: seq<Iface>, x: Frame) { x.via < |fs| && fs[x.via].lan }

  /** Every packet goes out once, and those of LAN interfaces before those of WLAN interfaces. */
  lemma LanFirst(fs: seq<Iface>)
    ensures var w := Wired(fs);
      && (forall i :: 0 <= i < |fs| ==> Of(w, i) == if fs[i].len > HEADER then [fs[i].buffer] else [])
      && (forall j, k :: 0 <= j < k < |w| && OnLan(fs, w[k]) ==> OnLan(fs, w[j]))
  {
    var v, w := Frames(fs, true, |fs|), Frames(fs, false, |fs|);
    forall i | 0 <= i < |fs| ensures Of(v + w, i) == if fs[i].len > HEADER then [fs[i].buffer] else [] {
      OfFrames(fs, true, |fs|, i);
      OfFrames(fs, false, |fs|, i);
      OfConcat(v, w, i);
    }
    hide Frames, Of;
    FramesKind(fs, true, |fs|);
    FramesKind(fs, false, |fs|);
    assert forall j :: 0 <= j < |v + w| ==> (v + w)[j] in if j < |v| then v else w;
  }

  /** What a turn of the loop sends on interface i is what it puts on the wire. */
  lemma HandledOneSent(st: Stage, o: Ogm, pref: nat, random: nat, i: nat)
    requires i < |st.fs| && o.via < |st.fs|
    ensures Handled(st, o, pref, random).fs[i].sent
         == st.fs[i].sent + if Full(st.size, o, pref) then Of(Wired(st.fs), i) else []
  {
    LanFirst(st.fs);
    hide Of, Wired, Finished;
    assert st.fs[i].sent + [] == st.fs[i].sent;
  }

  lemma {:induction false} HandledSent(st: Stage, os: seq<Ogm>, pref: nat, random: seq<nat>, i: nat)
    requires |random| == |os| && i < |st.fs| && forall o :: o in os ==> o.via < |st.fs|
    ensures HandledAll(st, os, pref, random).fs[i].sent == st.fs[i].sent + Of(WiredIn(st, os, pref, random), i)
    decreases |os|
  {
    hide *;
    OfNone(i);
    NoneHandled(st, [], os, pref, random);
    assert os[..|os|] == os && random[..|os|] == random;
    if os != [] {
      var n := |os| - 1;
      HandledNext(st, os, pref, random, n);
      HandledSent(st, os[..n], pref, random[..n], i);
      var before := HandledAll(st, os[..n], pref, random[..n]);
      HandledOneSent(before, os[n], pref, random[n], i);
      var w := WiredIn(st, os[..n], pref, random[..n]);
      var more := if Full(before.size, os[n], pref) then Wired(before.fs) else [];
      OfConcat(w, more, i);
      assert st.fs[i].sent + Of(w, i) + Of(more, i) == st.fs[i].sent + (Of(w, i) + Of(more, i));
    }
  }

  lemma OfNone(i: nat)
    ensures Of([], i) == []
  {
  }

  /** In a whole tick, what the interfaces have sent is what has gone over the wire, packet by packet. */
  lemma TickSends(os: seq<Ogm>, fs: seq<Iface>, now: nat, pref: nat, random: seq<nat>, i: nat)
    requires |random| == |os| && i < |fs| && forall o :: o in os ==> o.via < |fs|
    ensures Tick(os, fs, now, pref, random).1[i].sent == fs[i].sent + Of(TickWired(os, fs, now, pref, random), i)
  {
    hide *;
    var n := Due(os, now);
    var first := Stage(HEADER, fs, []);
    var st, w := HandledAll(first, os[..n], pref, random[..n]), WiredIn(first, os[..n], pref, random[..n]);
    TickEnds(os, fs, now, pref, random, i);
    HandledSent(first, os[..n], pref, random[..n], i);
    OfConcat(w, Wired(st.fs), i);
    assert w + [] == w;
    LanFirst(st.fs);
    assert fs[i].sent + Of(w, i) + Of(Wired(st.fs), i) == fs[i].sent + (Of(w, i) + Of(Wired(st.fs), i));
  }

  lemma TickEnds(os: seq<Ogm>, fs: seq<Iface>, now: nat, pref: nat, random: seq<nat>, i: nat)
    requires |random| == |os| && i < |fs| && forall o :: o in os ==> o.via < |fs|
    ensures var n, first := Due(os, now), Stage(HEADER, fs, []);
      var st, w := HandledAll(first, os[..n], pref, random[..n]), WiredIn(first, os[..n], pref, random[..n]);
      && TickWired(os, fs, now, pref, random) == w + (if st.size > HEADER then Wired(st.fs) else [])
      && Tick(os, fs, now, pref, random).1[i].sent
         == st.fs[i].sent + if st.size > HEADER && st.fs[i].len > HEADER then [st.fs[i].buffer] else []
  {
    hide HandledAll, WiredIn, Wired, Due;
  }
}
