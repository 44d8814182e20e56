/**
 Aggregation of due OGMs into one packet per interface (compiled-tools/bmx/bmxd/schedule.c:239-287
 and 393-657). One counter, the size the largest packet may have reached, protects the
 buffers of all interfaces.
 */
module Aggregate {
  import TaskList

  const HEADER: nat := 4
  /** 255 units of four bytes, what the size field of a packet header can say. */
  const MAX_UDPD_SIZE: nat := 1020

  /** An OGM waiting to be sent. `via` is the interface it came in on, or its own one. */
  datatype Ogm = Ogm(id: nat, len: nat, own: bool, ttl: nat, directlink: bool, uni: bool, cloned: bool,
                     via: nat, seqno: nat, time: nat, bucket: nat, iteration: nat)

  datatype Copy = Copy(id: nat, len: nat, cloned: bool, directlink: bool)

  /** An interface, LAN or WLAN: its settings, the packet being filled, and the packets that went out. */
  datatype Iface = Iface(lan: bool, active: bool, singlehomed: bool, clones: nat, diversity: nat,
                         len: nat, buffer: seq<Copy>, sent: seq<seq<Copy>>)

  /** What an interface knows of its own OGMs: if_seqno, send_own and if_seqno_schedule. */
  datatype Own = Own(seqno: nat, pending: bool, at: nat)

  /** A packet and the interface that it was sent on. */
  datatype Frame = Frame(via: nat, packet: seq<Copy>)

  function Size(cs: seq<Copy>): nat
  {
    if cs == [] then HEADER else Size(cs[..|cs| - 1]) + cs[|cs| - 1].len
  }

  // ----- one OGM -----

  /** Sent back only on the interface it came from, to show the neighbour that the link works. */
  predicate AnswersNeighbour(o: Ogm, f: Iface)
  {
    f.active && o.iteration <= f.diversity && o.directlink && !o.cloned && (o.uni || o.ttl == 0)
  }

  predicate Broadcasts(o: Ogm, f: Iface) { !AnswersNeighbour(o, f) && !o.uni && o.ttl > 0 }

  /** Interface i takes part in the broadcast of o, as far as its settings go. */
  predicate Serves(o: Ogm, out: Iface, i: nat, f: Iface) { f.active && !(o.own && out.singlehomed && o.via != i) }

  predicate Takes(o: Ogm, out: Iface, i: nat, f: Iface) { Serves(o, out, i, f) && o.bucket < f.clones }

  function Put(f: Iface, c: Copy): Iface { f.(len := f.len + c.len, buffer := f.buffer + [c]) }

  function CopyFor(o: Ogm, i: nat, f: Iface): Copy
  {
    Copy(o.id, o.len, o.cloned || o.iteration > f.diversity, o.directlink && o.via == i)
  }

  function PutAll(fs: seq<Iface>, o: Ogm): seq<Iface>
    requires o.via < |fs|
  {
    seq(|fs|, i requires 0 <= i < |fs| =>
      if Takes(o, fs[o.via], i, fs[i]) then Put(fs[i], CopyFor(o, i, fs[i])) else fs[i])
  }

  /** The interfaces after o has been copied to where it goes. */
  function Copied(fs: seq<Iface>, o: Ogm): (gs: seq<Iface>)
    requires o.via < |fs|
    ensures |gs| == |fs|
  {
    if AnswersNeighbour(o, fs[o.via]) then fs[o.via := Put(fs[o.via], Copy(o.id, o.len, o.cloned, o.directlink))]
    else if Broadcasts(o, fs[o.via]) then PutAll(fs, o)
    else fs
  }

  /** No interface wants the OGM another time. */
  predicate Finished(fs: seq<Iface>, o: Ogm)
    requires o.via < |fs|
  {
    if AnswersNeighbour(o, fs[o.via]) then o.bucket + 100 >= fs[o.via].clones
    else Broadcasts(o, fs[o.via]) ==>
      forall i :: 0 <= i < |fs| && Takes(o, fs[o.via], i, fs[i]) ==> o.bucket + 100 >= fs[i].clones
  }

  function Flushed(f: Iface): Iface
  {
    if f.len > HEADER then f.(len := HEADER, buffer := [], sent := f.sent + [f.buffer]) else f
  }

  function FlushedAll(fs: seq<Iface>): (gs: seq<Iface>)
    ensures |gs| == |fs|
  {
    seq(|fs|, i requires 0 <= i < |fs| => Flushed(fs[i]))
  }

  /** The packets of the first n interfaces, those of LAN interfaces or those of WLAN interfaces. */
  function Frames(fs: seq<Iface>, lan: bool, n: nat): seq<Frame>
    requires n <= |fs|
  {
    if n == 0 then []
    else
      var f := fs[n - 1];
      Frames(fs, lan, n - 1) + if f.lan == lan && f.len > HEADER then [Frame(n - 1, f.buffer)] else []
  }

  /** What send_aggregated_ogms puts on the wire: LAN interfaces come first. */
  function Wired(fs: seq<Iface>): seq<Frame> { Frames(fs, true, |fs|) + Frames(fs, false, |fs|) }

  /** The counter, the interfaces, and the OGMs that stay in the list. */
  datatype Stage = Stage(size: nat, fs: seq<Iface>, kept: seq<Ogm>)

  predicate Full(size: nat, o: Ogm, pref: nat) { size > HEADER && size + o.len > pref }

  predicate TooLarge(size: nat, o: Ogm, pref: nat)
  {
    size + o.len > MAX_UDPD_SIZE || (size + o.len > pref && o.own)
  }

  /** The OGM as it is looked at in this tick: counted, and with a first bucket if it had none. */
  function Begun(o: Ogm, random: nat): Ogm
  {
    o.(iteration := o.iteration + 1, bucket := if o.bucket == 0 then random else o.bucket)
  }

  /** One turn of the loop of aggregate_outstanding_ogms. */
  function Handled(st: Stage, o: Ogm, pref: nat, random: nat): (r: Stage)
    requires o.via < |st.fs|
    ensures |r.fs| == |st.fs|
  {
    var size := if Full(st.size, o, pref) then HEADER else st.size;
    var fs := if Full(st.size, o, pref) then FlushedAll(st.fs) else st.fs;
    if TooLarge(size, o, pref) then Stage(size, fs, st.kept)
    else
      var b := Begun(o, random);
      Stage(size + o.len, Copied(fs, b),
            if Finished(fs, b) then st.kept else st.kept + [b.(bucket := b.bucket + 100)])
  }

  function HandledAll(st: Stage, os: seq<Ogm>, pref: nat, random: seq<nat>): (r: Stage)
    requires |random| == |os| && forall o :: o in os ==> o.via < |st.fs|
    ensures |r.fs| == |st.fs|
  {
    if os == [] then st
    else Handled(HandledAll(st, os[..|os| - 1], pref, random[..|os| - 1]), os[|os| - 1], pref, random[|os| - 1])
  }

  /** The packets that go out while these OGMs are handled. */
  function WiredIn(st: Stage, os: seq<Ogm>, pref: nat, random: seq<nat>): seq<Frame>
    requires |random| == |os| && forall o :: o in os ==> o.via < |st.fs|
  {
    if os == [] then []
    else
      var n := |os| - 1;
      var before := HandledAll(st, os[..n], pref, random[..n]);
      WiredIn(st, os[..n], pref, random[..n]) + if Full(before.size, os[n], pref) then Wired(before.fs) else []
  }

  // ----- the OGMs of the node itself -----

  /** The first turn of an own OGM makes the next number current and asks for the next OGM. */
  function Triggered(ws: seq<Own>, o: Ogm): (vs: seq<Own>)
    requires o.via < |ws|
    ensures |vs| == |ws|
  {
    if o.own && o.iteration == 0 then
      ws[o.via := ws[o.via].(seqno := (ws[o.via].seqno + 1) % 0x1_0000, pending := true)]
    else ws
  }

  function TriggeredAll(ws: seq<Own>, os: seq<Ogm>): (vs: seq<Own>)
    requires forall o :: o in os ==> o.via < |ws|
    ensures |vs| == |ws|
  {
    if os == [] then ws else Triggered(TriggeredAll(ws, os[..|os| - 1]), os[|os| - 1])
  }

  /** When the next own OGM is due: one interval after the last one, unless that is not in the interval to come. */
  function NextOwn(at: nat, now: nat, ogi: nat): (t: nat)
    ensures now <= t <= now + ogi && (now <= at + ogi && at <= now ==> t == at + ogi)
  {
    if at + ogi < now || at + ogi > now + ogi then now + ogi else at + ogi
  }

  /** schedule_own_ogm for interface i; `made` is its identity, length and time to live. */
  function OwnOgm(w: Own, i: nat, made: Ogm, now: nat, ogi: nat): Ogm
  {
    made.(own := true, directlink := false, uni := false, cloned := false, via := i, seqno := w.seqno,
          time := NextOwn(w.at, now, ogi), bucket := 0, iteration := 0)
  }

  /** The end of the tick, when the first n interfaces have been looked at. */
  function Rescheduled(os: seq<Ogm>, ws: seq<Own>, made: seq<Ogm>, now: nat, ogi: nat, n: nat)
    : (r: (seq<Ogm>, seq<Own>))
    requires |made| == |ws| && n <= |ws|
    ensures |r.1| == |ws| && forall j :: n <= j < |ws| ==> r.1[j] == ws[j]
  {
    if n == 0 then (os, ws)
    else
      var (ps, vs) := Rescheduled(os, ws, made, now, ogi, n - 1);
      if ws[n - 1].pending then
        var o := OwnOgm(ws[n - 1], n - 1, made[n - 1], now, ogi);
        (Inserted(ps, o), vs[n - 1 := Own(ws[n - 1].seqno, false, o.time)])
      else (ps, vs)
  }

  /** How many OGMs at the front of the list are due. */
  function Due(os: seq<Ogm>, now: nat): (n: nat)
    ensures n <= |os| && (forall i :: 0 <= i < n ==> os[i].time <= now) && (n < |os| ==> os[n].time > now)
  {
    if os == [] || os[0].time > now then 0 else 1 + Due(os[1..], now)
  }

  /** The place of the first OGM that is to be sent later. */
  function Place(os: seq<Ogm>, t: nat): (i: nat)
    ensures i <= |os| && (forall j :: 0 <= j < i ==> os[j].time <= t) && (i < |os| ==> os[i].time > t)
  {
    if os == [] || os[0].time > t then 0 else 1 + Place(os[1..], t)
  }

  /** The end of schedule_rcvd_ogm and of schedule_own_ogm: before the first one that is to be sent later. */
  function Inserted(os: seq<Ogm>, o: Ogm): seq<Ogm>
  {
    var i := Place(os, o.time);
    os[..i] + [o] + os[i..]
  }

  /** A whole tick: the new send list and the interfaces. */
  function Tick(os: seq<Ogm>, fs: seq<Iface>, now: nat, pref: nat, random: seq<nat>): (seq<Ogm>, seq<Iface>)
    requires |random| == |os| && forall o :: o in os ==> o.via < |fs|
  {
    var n := Due(os, now);
    var st := HandledAll(Stage(HEADER, fs, []), os[..n], pref, random[..n]);
    (st.kept + os[n..], if st.size > HEADER then FlushedAll(st.fs) else st.fs)
  }

  function TickWired(os: seq<Ogm>, fs: seq<Iface>, now: nat, pref: nat, random: seq<nat>): seq<Frame>
    requires |random| == |os| && forall o :: o in os ==> o.via < |fs|
  {
    var n := Due(os, now);
    var st := HandledAll(Stage(HEADER, fs, []), os[..n], pref, random[..n]);
    WiredIn(Stage(HEADER, fs, []), os[..n], pref, random[..n]) + if st.size > HEADER then Wired(st.fs) else []
  }

  // ----- the imperative code -----

  class Sender {
    var sendList: seq<Ogm>
    var ifs: array<Iface>
    var owns: array<Own>
    /** All packets, in the order in which they were sent. */
    var wire: seq<Frame>

    constructor (fs: seq<Iface>, ws: seq<Own>)
      requires |ws| == |fs|
      ensures fresh(ifs) && ifs[..] == fs && fresh(owns) && owns[..] == ws && sendList == [] && wire == []
    {
      sendList, wire := [], [];
      ifs := new Iface[|fs|](i requires 0 <= i < |fs| => fs[i]);
      owns := new Own[|ws|](i requires 0 <= i < |ws| => ws[i]);
      new;
      assert ifs[..] == fs && owns[..] == ws;
    }

    /** schedule_rcvd_ogm and schedule_own_ogm: the OGM is put into the send list. */
    method Schedule(o: Ogm)
      modifies this`sendList
      ensures sendList == Inserted(old(sendList), o)
    {
      hide Place;
      var i := 0;
      while i < |sendList| && sendList[i].time <= o.time
        invariant 0 <= i <= |sendList| && forall j :: 0 <= j < i ==> sendList[j].time <= o.time
      {
        i := i + 1;
      }
      PlaceAt(sendList, o.time, i);
      sendList := sendList[..i] + [o] + sendList[i..];
    }

    /** The inner loop of send_aggregated_ogms: the interfaces of one kind. */
    method SendKind(lan: bool)
      modifies this`wire, ifs
      ensures ifs[..] == FlushedKind(old(ifs[..]), lan)
      ensures wire == old(wire) + Frames(old(ifs[..]), lan, ifs.Length)
    {
      ghost var fs := ifs[..];
      var i := 0;
      while i < ifs.Length
        invariant 0 <= i <= ifs.Length && wire == old(wire) + Frames(fs, lan, i)
        invariant forall j :: 0 <= j < i ==> ifs[j] == if fs[j].lan == lan then Flushed(fs[j]) else fs[j]
        invariant forall j :: i <= j < ifs.Length ==> ifs[j] == fs[j]
      {
        if ifs[i].lan == lan && ifs[i].len > HEADER {
          wire := wire + [Frame(i, ifs[i].buffer)];
          ifs[i] := ifs[i].(len := HEADER, buffer := [], sent := ifs[i].sent + [ifs[i].buffer]);
        }
        i := i + 1;
      }
    }

    /** send_aggregated_ogms */
    method SendAggregated()
      modifies this`wire, ifs
      ensures ifs[..] == FlushedAll(old(ifs[..])) && wire == old(wire) + Wired(old(ifs[..]))
    {
      KindsApart(ifs[..]);
      SendKind(true);
      SendKind(false);
    }

    /** The copying of one OGM to the buffers; the result says whether it is done. */
    method CopyOgm(o: Ogm) returns (done: bool)
      requires o.via < ifs.Length
      modifies ifs
      ensures ifs[..] == Copied(old(ifs[..]), o) && done == Finished(old(ifs[..]), o)
    {
      done := true;
      var out := ifs[o.via];
      if out.active && o.iteration <= out.diversity && o.directlink && !o.cloned && (o.uni || o.ttl == 0) {
        if o.bucket + 100 < out.clones { done := false; }
        ifs[o.via] := Put(out, Copy(o.id, o.len, o.cloned, o.directlink));
      } else if !o.uni && o.ttl > 0 {
        var i := 0;
        while i < ifs.Length
          invariant 0 <= i <= ifs.Length
          invariant forall j :: 0 <= j < i ==>
            var f := old(ifs[j]); ifs[j] == if Takes(o, out, j, f) then Put(f, CopyFor(o, j, f)) else f
          invariant forall j :: i <= j < ifs.Length ==> ifs[j] == old(ifs[j])
          invariant done <==> forall j ::
            0 <= j < i && Takes(o, out, j, old(ifs[j])) ==> o.bucket + 100 >= old(ifs[j]).clones
        {
          if !ifs[i].active {
          } else if o.bucket >= ifs[i].clones || (o.own && out.singlehomed && o.via != i) {
          } else {
            if o.bucket + 100 < ifs[i].clones { done := false; }
            ifs[i] := Put(ifs[i], CopyFor(o, i, ifs[i]));
          }
          i := i + 1;
        }
      }
    }

    /** The body of the loop for one due OGM. */
    method HandleOgm(before: nat, kept: seq<Ogm>, ogm: Ogm, pref: nat, random: nat) returns (size: nat, left: seq<Ogm>)
      requires ogm.via < ifs.Length == owns.Length
      modifies this`wire, ifs, owns
      ensures Stage(size, ifs[..], left) == Handled(Stage(before, old(ifs[..]), kept), ogm, pref, random)
      ensures owns[..] == Triggered(old(owns[..]), ogm)
      ensures wire == old(wire) + if Full(before, ogm, pref) then Wired(old(ifs[..])) else []
    {
      hide Copied, Finished, FlushedAll, Wired;
      size, left := before, kept;
      if size > HEADER && size + ogm.len > pref {
        SendAggregated();
        size := HEADER;
      }
      var o := ogm.(iteration := ogm.iteration + 1);
      var done := true;
      if size + o.len > MAX_UDPD_SIZE || (size + o.len > pref && o.own) {
      } else {
        if o.bucket == 0 { o := o.(bucket := random); }
        size := size + o.len;
        done := CopyOgm(o);
        o := o.(bucket := o.bucket + 100);
      }
      if o.own && o.iteration == 1 {
        owns[o.via] := owns[o.via].(seqno := (owns[o.via].seqno + 1) % 0x1_0000, pending := true);
      }
      if !done { left := left + [o]; }
    }

    /** schedule_own_ogm, as far as the send list goes. */
    method ScheduleOwn(i: nat, made: Ogm, now: nat, ogi: nat)
      requires i < owns.Length
      modifies this`sendList, owns
      ensures var w := old(owns[i]); var o := OwnOgm(w, i, made, now, ogi);
        sendList == Inserted(old(sendList), o) && owns[..] == old(owns[..])[i := w.(at := o.time)]
    {
      var w := owns[i];
      var time := w.at + ogi;
      if time < now || time > now + ogi { time := now + ogi; }
      owns[i] := w.(at := time);
      Schedule(made.(own := true, directlink := false, uni := false, cloned := false, via := i, seqno := w.seqno,
                     time := time, bucket := 0, iteration := 0));
    }

    /** The last loop of aggregate_outstanding_ogms: the next own OGMs are scheduled where they are asked for. */
    method ScheduleOwns(made: seq<Ogm>, now: nat, ogi: nat)
      requires |made| == owns.Length
      modifies this`sendList, owns
      ensures (sendList, owns[..]) == Rescheduled(old(sendList), old(owns[..]), made, now, ogi, |made|)
    {
      hide OwnOgm, Inserted;
      ghost var os, ws := sendList, owns[..];
      var i := 0;
      while i < owns.Length
        invariant 0 <= i <= owns.Length
        invariant sendList == Rescheduled(os, ws, made, now, ogi, i).0
        invariant owns[..] == Rescheduled(os, ws, made, now, ogi, i).1
      {
        assert owns[i] == owns[..][i] == ws[i];
        if owns[i].pending {
          ScheduleOwn(i, made[i], now, ogi);
          owns[i] := owns[i].(pending := false);
        }
        i := i + 1;
      }
    }

    /** aggregate_outstanding_ogms */
    method AggregateOutstandingOgms(now: nat, pref: nat, random: seq<nat>, made: seq<Ogm>, ogi: nat)
      requires |random| == |sendList| && |made| == owns.Length == ifs.Length
      requires forall o :: o in sendList ==> o.via < ifs.Length
      modifies this`sendList, this`wire, ifs, owns
      ensures ifs[..] == Tick(old(sendList), old(ifs[..]), now, pref, random).1
      ensures wire == old(wire) + TickWired(old(sendList), old(ifs[..]), now, pref, random)
      ensures forall o :: o in old(sendList)[..Due(old(sendList), now)] ==> o.via < |old(owns[..])|
      ensures (sendList, owns[..])
           == Rescheduled(Tick(old(sendList), old(ifs[..]), now, pref, random).0,
                          TriggeredAll(old(owns[..]), old(sendList)[..Due(old(sendList), now)]), made, now, ogi, |made|)
    {
      hide Handled, Copied, Finished, FlushedAll, Due, Wired, Triggered, OwnOgm, Inserted, HandledAll, WiredIn,
           TriggeredAll, Rescheduled;
      ghost var all, fs, ws := sendList, ifs[..], owns[..];
      var size: nat, kept: seq<Ogm> := HEADER, [];
      var n := 0;
      NoneHandled(Stage(HEADER, fs, []), ws, all, pref, random);
      while n < |sendList|
        invariant 0 <= n <= |sendList| && sendList == all
        invariant n <= Due(all, now)
        invariant Stage(size, ifs[..], kept) == HandledAll(Stage(HEADER, fs, []), all[..n], pref, random[..n])
        invariant owns[..] == TriggeredAll(ws, all[..n])
        invariant wire == old(wire) + WiredIn(Stage(HEADER, fs, []), all[..n], pref, random[..n])
      {
        if sendList[n].time > now { break; }
        HandledNext(Stage(HEADER, fs, []), all, pref, random, n);
        TriggeredNext(ws, all, n);
        size, kept := HandleOgm(size, kept, sendList[n], pref, random[n]);
        n := n + 1;
      }
      assert n == Due(all, now);
      sendList := kept + sendList[n..];
      if size > HEADER { SendAggregated(); }
      ScheduleOwns(made, now, ogi);
    }
  }

  // ----- the order on the wire -----

  function FlushedKind(fs: seq<Iface>, lan: bool): (gs: seq<Iface>)
    ensures |gs| == |fs|
  {
    seq(|fs|, i requires 0 <= i < |fs| => if fs[i].lan == lan then Flushed(fs[i]) else fs[i])
  }

  /** The LAN interfaces have been emptied when the WLAN interfaces are looked at, and nothing else has changed. */
  lemma KindsApart(fs: seq<Iface>)
    ensures FlushedKind(FlushedKind(fs, true), false) == FlushedAll(fs)
    ensures Frames(FlushedKind(fs, true), false, |fs|) == Frames(fs, false, |fs|)
  {
    SameFrames(FlushedKind(fs, true), fs, |fs|);
  }

  lemma {:induction false} SameFrames(fs: seq<Iface>, gs: seq<Iface>, n: nat)
    requires |gs| == |fs| && n <= |fs|
    requires forall j :: 0 <= j < |fs| ==> fs[j].lan == gs[j].lan && (fs[j].lan || fs[j] == gs[j])
    ensures Frames(fs, false, n) == Frames(gs, false, n)
  {
    if n > 0 { SameFrames(fs, gs, n - 1); }
  }

  lemma NoneHandled(st: Stage, ws: seq<Own>, os: seq<Ogm>, pref: nat, random: seq<nat>)
    requires |random| == |os|
    ensures HandledAll(st, os[..0], pref, random[..0]) == st && WiredIn(st, os[..0], pref, random[..0]) == []
    ensures TriggeredAll(ws, os[..0]) == ws
  {
  }

  lemma HandledNext(st: Stage, os: seq<Ogm>, pref: nat, random: seq<nat>, n: nat)
    requires n < |os| == |random| && forall o :: o in os ==> o.via < |st.fs|
    ensures HandledAll(st, os[..n + 1], pref, random[..n + 1])
         == Handled(HandledAll(st, os[..n], pref, random[..n]), os[n], pref, random[n])
    ensures var before := HandledAll(st, os[..n], pref, random[..n]);
      WiredIn(st, os[..n + 1], pref, random[..n + 1])
      == WiredIn(st, os[..n], pref, random[..n]) + if Full(before.size, os[n], pref) then Wired(before.fs) else []
  {
    assert os[..n + 1][..n] == os[..n] && random[..n + 1][..n] == random[..n];
  }

  lemma TriggeredNext(ws: seq<Own>, os: seq<Ogm>, n: nat)
    requires n < |os| && forall o :: o in os ==> o.via < |ws|
    ensures TriggeredAll(ws, os[..n + 1]) == Triggered(TriggeredAll(ws, os[..n]), os[n])
  {
    assert os[..n + 1][..n] == os[..n];
  }

  lemma {:induction false} PlaceAt(os: seq<Ogm>, t: nat, i: nat)
    requires i <= |os| && (forall j :: 0 <= j < i ==> os[j].time <= t) && (i < |os| ==> os[i].time > t)
    ensures Place(os, t) == i
  {
    if i > 0 { PlaceAt(os[1..], t, i - 1); }
  }

  /** The send list is a list like that of the tasks, in which `List.Register` finds the same place. */
  lemma PlaceInList(os: seq<Ogm>, ns: seq<TaskList.Node>, t: nat)
    requires |ns| == |os| && forall i :: 0 <= i < |os| ==> ns[i].time == os[i].time
    ensures Place(os, t) == TaskList.FirstLater(ns, t)
  {
    PlaceAt(os, t, TaskList.FirstLater(ns, t));
  }

  ghost predicate ByTime(os: seq<Ogm>) { forall i, j :: 0 <= i < j < |os| ==> os[i].time <= os[j].time }

  /** If the list is sorted by time, a tick handles every OGM that is due, and no other. */
  lemma TickHandlesDue(os: seq<Ogm>, now: nat)
    requires ByTime(os)
    ensures forall i :: 0 <= i < |os| ==> (i < Due(os, now) <==> os[i].time <= now)
  {
    forall i | Due(os, now) <= i < |os| ensures os[i].time > now {
      assert i > Due(os, now) ==> os[Due(os, now)].time <= os[i].time;
    }
  }

  // ----- sizes -----

  predicate Blocks(n: nat) { n % 4 == 0 }

  /** A buffer holds what its length says, within the counter. */
  predicate Sized(f: Iface, size: nat)
  {
    && f.len == Size(f.buffer) && HEADER <= f.len <= size && Blocks(f.len)
    && (f.len == HEADER ==> f.buffer == [])
    && forall i :: 0 <= i < |f.sent| ==> HEADER < Size(f.sent[i]) <= MAX_UDPD_SIZE && Blocks(Size(f.sent[i]))
  }

  ghost predicate AllSized(st: Stage)
  {
    && HEADER <= st.size <= MAX_UDPD_SIZE && Blocks(st.size)
    && forall i :: 0 <= i < |st.fs| ==> Sized(st.fs[i], st.size)
  }

  lemma PutSized(f: Iface, size: nat, c: Copy)
    requires Sized(f, size) && c.len > 0 && Blocks(c.len)
    ensures Sized(Put(f, c), size + c.len)
  {
    assert (f.buffer + [c])[..|f.buffer|] == f.buffer;
    assert |f.buffer + [c]| == |f.buffer| + 1;
  }

  lemma FlushSized(f: Iface, size: nat)
    requires Sized(f, size) && size <= MAX_UDPD_SIZE
    ensures Sized(Flushed(f), HEADER) && Flushed(f).buffer == []
  {
  }

  /** No buffer ever outgrows the counter, nor the counter a legal packet; every packet is made of 4-byte blocks. */
  lemma HandledSized(st: Stage, o: Ogm, pref: nat, random: nat)
    requires AllSized(st) && o.via < |st.fs| && o.len > 0 && Blocks(o.len)
    ensures AllSized(Handled(st, o, pref, random))
  {
    hide Sized;
    forall i | 0 <= i < |st.fs| ensures Sized(Flushed(st.fs[i]), HEADER) { FlushSized(st.fs[i], st.size); }
    var full := Full(st.size, o, pref);
    var size, fs := if full then HEADER else st.size, if full then FlushedAll(st.fs) else st.fs;
    assert forall i :: 0 <= i < |fs| ==> Sized(fs[i], size);
    var b := Begun(o, random);
    forall i | 0 <= i < |fs| ensures Sized(Copied(fs, b)[i], size + o.len) {
      CopiedSized(fs, b, i, size);
    }
    hide Copied, Finished, FlushedAll;
  }

  lemma CopiedSized(fs: seq<Iface>, o: Ogm, i: nat, size: nat)
    requires o.via < |fs| && i < |fs| && Sized(fs[i], size) && o.len > 0 && Blocks(o.len)
    ensures Sized(Copied(fs, o)[i], size + o.len)
  {
    PutSized(fs[i], size, Copy(o.id, o.len, o.cloned, o.directlink));
    PutSized(fs[i], size, CopyFor(o, i, fs[i]));
    hide Put;
  }

  lemma {:induction false} HandledAllSized(st: Stage, os: seq<Ogm>, pref: nat, random: seq<nat>)
    requires AllSized(st) && |random| == |os| && forall o :: o in os ==> o.via < |st.fs| && o.len > 0 && Blocks(o.len)
    ensures AllSized(HandledAll(st, os, pref, random))
    decreases |os|
  {
    if os != [] {
      hide AllSized, Handled;
      HandledAllSized(st, os[..|os| - 1], pref, random[..|os| - 1]);
      HandledSized(HandledAll(st, os[..|os| - 1], pref, random[..|os| - 1]), os[|os| - 1], pref, random[|os| - 1]);
    }
  }

  /** After a tick every buffer is empty, and every packet that went out had a legal size. */
  lemma TickSized(os: seq<Ogm>, fs: seq<Iface>, now: nat, pref: nat, random: seq<nat>)
    requires |random| == |os| && forall o :: o in os ==> o.via < |fs| && o.len > 0 && Blocks(o.len)
    requires forall i :: 0 <= i < |fs| ==> Sized(fs[i], HEADER)
    ensures forall i :: 0 <= i < |fs| ==> Sized(Tick(os, fs, now, pref, random).1[i], HEADER)
  {
    var n := Due(os, now);
    var st := HandledAll(Stage(HEADER, fs, []), os[..n], pref, random[..n]);
    HandledAllSized(Stage(HEADER, fs, []), os[..n], pref, random[..n]);
    forall i | 0 <= i < |st.fs| ensures Sized(Flushed(st.fs[i]), HEADER) { FlushSized(st.fs[i], st.size); }
    hide Sized;
  }

  /** An OGM is dropped exactly when it would not fit a packet of its own. */
  lemma DroppedOnlyIfAlone(size: nat, o: Ogm, pref: nat)
    requires HEADER <= size && pref <= MAX_UDPD_SIZE
    ensures TooLarge(if Full(size, o, pref) then HEADER else size, o, pref) <==> TooLarge(HEADER, o, pref)
  {
  }

  // ----- how often an OGM is sent -----

  /** 1 if o, as it is looked at in a tick, is copied to interface i. */
  function Sends(o: Ogm, fs: seq<Iface>, i: nat): nat
    requires o.via < |fs| && i < |fs|
  {
    if AnswersNeighbour(o, fs[o.via]) then if i == o.via then 1 else 0
    else if Broadcasts(o, fs[o.via]) && Takes(o, fs[o.via], i, fs[i]) then 1
    else 0
  }

  function Most(fs: seq<Iface>): (m: nat)
    ensures forall i :: 0 <= i < |fs| ==> fs[i].clones <= m
  {
    if fs == [] then 0
    else
      var m := Most(fs[..|fs| - 1]);
      if m < fs[|fs| - 1].clones then fs[|fs| - 1].clones else m
  }

  function NextTurn(o: Ogm): Ogm { o.(iteration := o.iteration + 1, bucket := o.bucket + 100) }

  /** How often o will be copied to interface i from this turn until it leaves the list. */
  function Life(o: Ogm, fs: seq<Iface>, i: nat): nat
    requires o.via < |fs| && i < |fs|
    decreases Most(fs) - o.bucket
  {
    Sends(o, fs, i) + if Finished(fs, o) then 0 else Life(NextTurn(o), fs, i)
  }

  function CeilDiv(a: int, b: nat): nat
    requires b > 0
  {
    if a <= 0 then 0 else (a + b - 1) / b
  }

  /**
   An OGM with first bucket b is broadcast exactly max(0, ceil((c - b) / 100)) times on an
   interface with clone setting c that serves it, and never on the others.
   */
  lemma {:induction false} BroadcastCount(o: Ogm, fs: seq<Iface>, i: nat)
    requires o.via < |fs| && i < |fs| && !o.uni && o.ttl > 0
    ensures Life(o, fs, i) == if fs[i].active && (o.own && fs[o.via].singlehomed ==> o.via == i)
      then CeilDiv(fs[i].clones - o.bucket, 100) else 0
    decreases Most(fs) - o.bucket
  {
    if Finished(fs, o) {
      assert Takes(o, fs[o.via], i, fs[i]) ==> o.bucket + 100 >= fs[i].clones;
    } else {
      BroadcastCount(NextTurn(o), fs, i);
    }
  }

  function CountId(cs: seq<Copy>, id: nat): nat
  {
    if cs == [] then 0 else CountId(cs[..|cs| - 1], id) + if cs[|cs| - 1].id == id then 1 else 0
  }

  function CountSent(ps: seq<seq<Copy>>, id: nat): nat
  {
    if ps == [] then 0 else CountSent(ps[..|ps| - 1], id) + CountId(ps[|ps| - 1], id)
  }

  /** The copies of an OGM on an interface, sent or in the buffer. */
  function Copies(f: Iface, id: nat): nat { CountSent(f.sent, id) + CountId(f.buffer, id) }

  predicate SameSettings(f: Iface, g: Iface)
  {
    f.active == g.active && f.singlehomed == g.singlehomed && f.clones == g.clones && f.diversity == g.diversity
  }

  predicate SameConfig(fs: seq<Iface>, gs: seq<Iface>)
  {
    |fs| == |gs| && forall i :: 0 <= i < |fs| ==> SameSettings(fs[i], gs[i])
  }

  lemma PutCopies(f: Iface, c: Copy, id: nat)
    ensures Copies(Put(f, c), id) == Copies(f, id) + if c.id == id then 1 else 0
  {
    assert (f.buffer + [c])[..|f.buffer|] == f.buffer;
  }

  lemma FlushCopies(f: Iface, id: nat)
    requires f.len == HEADER ==> f.buffer == []
    ensures Copies(Flushed(f), id) == Copies(f, id)
  {
    assert (f.sent + [f.buffer])[..|f.sent|] == f.sent;
  }

  lemma CopiedCopies(fs: seq<Iface>, o: Ogm, i: nat, id: nat)
    requires o.via < |fs| && i < |fs|
    ensures Copies(Copied(fs, o)[i], id) == Copies(fs[i], id) + if o.id == id then Sends(o, fs, i) else 0
    ensures SameConfig(Copied(fs, o), fs)
  {
    PutCopies(fs[i], Copy(o.id, o.len, o.cloned, o.directlink), id);
    PutCopies(fs[i], CopyFor(o, i, fs[i]), id);
    hide Copies;
  }

  /** What o does in this tick and later depends on the settings of the interfaces only. */
  lemma SameDecisions(fs: seq<Iface>, gs: seq<Iface>, o: Ogm, i: nat)
    requires SameConfig(fs, gs) && o.via < |fs| && i < |fs|
    ensures Sends(o, fs, i) == Sends(o, gs, i) && (Finished(fs, o) <==> Finished(gs, o))
  {
    assert forall j :: 0 <= j < |fs| ==> (Takes(o, fs[o.via], j, fs[j]) <==> Takes(o, gs[o.via], j, gs[j]));
  }

  /** The copies still to come on interface i of the OGMs with this id, once their bucket is drawn. */
  function Future(os: seq<Ogm>, random: seq<nat>, fs: seq<Iface>, i: nat, id: nat, pref: nat): nat
    requires |random| == |os| && i < |fs| && forall o :: o in os ==> o.via < |fs|
  {
    if os == [] then 0
    else
      var o, r := os[|os| - 1], random[|os| - 1];
      Future(os[..|os| - 1], random[..|os| - 1], fs, i, id, pref)
      + if o.id == id && !TooLarge(HEADER, o, pref) then Life(Begun(o, r), fs, i) else 0
  }

  function Zeros(n: nat): seq<nat> { seq(n, _ => 0) }

  function Term(o: Ogm, r: nat, fs: seq<Iface>, i: nat, id: nat, pref: nat): nat
    requires i < |fs| && o.via < |fs|
  {
    if o.id == id && !TooLarge(HEADER, o, pref) then Life(Begun(o, r), fs, i) else 0
  }

  lemma FutureMore(os: seq<Ogm>, rs: seq<nat>, o: Ogm, r: nat, fs: seq<Iface>, i: nat, id: nat, pref: nat)
    requires |rs| == |os| && i < |fs| && o.via < |fs| && forall x :: x in os ==> x.via < |fs|
    ensures Future(os + [o], rs + [r], fs, i, id, pref) == Future(os, rs, fs, i, id, pref) + Term(o, r, fs, i, id, pref)
  {
    assert (os + [o])[..|os|] == os && (rs + [r])[..|rs|] == rs;
    hide Life;
  }

  ghost predicate Ready(st: Stage, fs0: seq<Iface>)
  {
    AllSized(st) && SameConfig(st.fs, fs0) && forall o :: o in st.kept ==> o.via < |fs0| && o.bucket != 0
  }

  lemma HandledReady(st: Stage, fs0: seq<Iface>, o: Ogm, pref: nat, random: nat)
    requires Ready(st, fs0) && o.via < |fs0| && o.len > 0 && Blocks(o.len)
    ensures Ready(Handled(st, o, pref, random), fs0)
  {
    hide AllSized, Copied, Finished;
    HandledSized(st, o, pref, random);
    var fs := if Full(st.size, o, pref) then FlushedAll(st.fs) else st.fs;
    CopiedCopies(fs, Begun(o, random), 0, 0);
  }

  /** Handling an OGM turns what was to come of it into copies, and leaves the others alone. */
  lemma HandledConserves(st: Stage, fs0: seq<Iface>, o: Ogm, pref: nat, random: nat, i: nat, id: nat)
    requires Ready(st, fs0) && i < |fs0| && o.via < |fs0| && o.len > 0 && Blocks(o.len) && pref <= MAX_UDPD_SIZE
    requires Ready(Handled(st, o, pref, random), fs0)
    ensures var r := Handled(st, o, pref, random);
      Copies(r.fs[i], id) + Future(r.kept, Zeros(|r.kept|), fs0, i, id, pref)
      == Copies(st.fs[i], id) + Future(st.kept, Zeros(|st.kept|), fs0, i, id, pref) + Term(o, random, fs0, i, id, pref)
  {
    hide Copies, Future, Copied, Finished, Sends, Most, Size;
    var r, b := Handled(st, o, pref, random), Begun(o, random);
    var full := Full(st.size, o, pref);
    var size, fs := if full then HEADER else st.size, if full then FlushedAll(st.fs) else st.fs;
    DroppedOnlyIfAlone(st.size, o, pref);
    FlushCopies(st.fs[i], id);
    assert Copies(fs[i], id) == Copies(st.fs[i], id);
    assert SameConfig(fs, fs0);
    if !TooLarge(size, o, pref) {
      CopiedCopies(fs, b, i, id);
      SameDecisions(fs, fs0, b, i);
      if !Finished(fs, b) {
        var n := b.(bucket := b.bucket + 100);
        assert Begun(n, 0) == NextTurn(b);
        FutureMore(st.kept, Zeros(|st.kept|), n, 0, fs0, i, id, pref);
        assert Zeros(|st.kept| + 1) == Zeros(|st.kept|) + [0];
      }
    }
  }

  lemma {:induction false} AllConserves(st: Stage, fs0: seq<Iface>, os: seq<Ogm>, pref: nat, random: seq<nat>, i: nat,
                                        id: nat)
    requires Ready(st, fs0) && i < |fs0| && pref <= MAX_UDPD_SIZE && |random| == |os|
    requires forall o :: o in os ==> o.via < |fs0| && o.len > 0 && Blocks(o.len)
    ensures var r := HandledAll(st, os, pref, random);
      && Ready(r, fs0)
      && Copies(r.fs[i], id) + Future(r.kept, Zeros(|r.kept|), fs0, i, id, pref)
         == Copies(st.fs[i], id) + Future(st.kept, Zeros(|st.kept|), fs0, i, id, pref)
             + Future(os, random, fs0, i, id, pref)
    decreases |os|
  {
    hide Ready, Handled, Copies, Life;
    ReadyConfig(st, fs0);
    if os != [] {
      var n := |os| - 1;
      AllConserves(st, fs0, os[..n], pref, random[..n], i, id);
      var m := HandledAll(st, os[..n], pref, random[..n]);
      ReadyConfig(m, fs0);
      HandledReady(m, fs0, os[n], pref, random[n]);
      HandledConserves(m, fs0, os[n], pref, random[n], i, id);
    }
  }

  lemma ReadyConfig(st: Stage, fs0: seq<Iface>)
    requires Ready(st, fs0)
    ensures |st.fs| == |fs0| && forall o :: o in st.kept ==> o.via < |fs0|
  {
  }

  /** Every OGM with this id has got its first bucket. */
  predicate Drawn(os: seq<Ogm>, id: nat) { forall o :: o in os && o.id == id ==> o.bucket != 0 }

  lemma {:induction false} FutureDrawn(os: seq<Ogm>, rs: seq<nat>, fs: seq<Iface>, i: nat, id: nat, pref: nat)
    requires |rs| == |os| && i < |fs| && Drawn(os, id) && forall o :: o in os ==> o.via < |fs|
    ensures Future(os, rs, fs, i, id, pref) == Future(os, Zeros(|os|), fs, i, id, pref)
    decreases |os|
  {
    if os != [] {
      hide Life;
      FutureDrawn(os[..|os| - 1], rs[..|os| - 1], fs, i, id, pref);
      assert Zeros(|os|)[..|os| - 1] == Zeros(|os| - 1);
    }
  }

  lemma {:induction false} FutureConcat(os: seq<Ogm>, ps: seq<Ogm>, fs: seq<Iface>, i: nat, id: nat, pref: nat)
    requires i < |fs| && forall o :: o in os + ps ==> o.via < |fs|
    ensures Future(os + ps, Zeros(|os + ps|), fs, i, id, pref)
         == Future(os, Zeros(|os|), fs, i, id, pref) + Future(ps, Zeros(|ps|), fs, i, id, pref)
    decreases |ps|
  {
    if ps == [] {
      assert os + ps == os;
    } else {
      hide Life;
      var n := |ps| - 1;
      FutureConcat(os, ps[..n], fs, i, id, pref);
      assert (os + ps)[..|os| + n] == os + ps[..n];
      assert Zeros(|os + ps|)[..|os| + n] == Zeros(|os| + n) && Zeros(|ps|)[..n] == Zeros(n);
    }
  }

  /** What is still to come of an OGM on an interface. */
  function Pending(os: seq<Ogm>, fs: seq<Iface>, i: nat, id: nat, pref: nat): nat
    requires i < |fs| && forall o :: o in os ==> o.via < |fs|
  {
    Future(os, Zeros(|os|), fs, i, id, pref)
  }

  ghost predicate ValidList(os: seq<Ogm>, fs: seq<Iface>)
  {
    && (forall o :: o in os ==> o.via < |fs| && o.len > 0 && Blocks(o.len))
    && forall i :: 0 <= i < |fs| ==> Sized(fs[i], HEADER)
  }

  lemma {:induction false} KeptLens(st: Stage, os: seq<Ogm>, pref: nat, random: seq<nat>)
    requires |random| == |os| && forall o :: o in os + st.kept ==> o.via < |st.fs| && o.len > 0 && Blocks(o.len)
    ensures forall o :: o in HandledAll(st, os, pref, random).kept ==> o.via < |st.fs| && o.len > 0 && Blocks(o.len)
    decreases |os|
  {
    if os != [] {
      hide Copied, Finished, FlushedAll;
      KeptLens(st, os[..|os| - 1], pref, random[..|os| - 1]);
    }
  }

  function TickStage(os: seq<Ogm>, fs: seq<Iface>, now: nat, pref: nat, random: seq<nat>): (r: Stage)
    requires |random| == |os| && forall o :: o in os ==> o.via < |fs|
    ensures |r.fs| == |fs|
  {
    var n := Due(os, now);
    HandledAll(Stage(HEADER, fs, []), os[..n], pref, random[..n])
  }

  lemma TickKeeps(os: seq<Ogm>, fs: seq<Iface>, now: nat, pref: nat, random: seq<nat>)
    requires ValidList(os, fs) && |random| == |os| && pref <= MAX_UDPD_SIZE && |fs| > 0
    ensures var (ps, gs) := Tick(os, fs, now, pref, random);
      ValidList(ps, gs) && SameConfig(gs, fs) && (forall id :: Drawn(os, id) ==> Drawn(ps, id))
    ensures Ready(TickStage(os, fs, now, pref, random), fs)
  {
    hide HandledAll, Sized, Flushed, FlushedAll;
    var n := Due(os, now);
    AllConserves(Stage(HEADER, fs, []), fs, os[..n], pref, random[..n], 0, 0);
    KeptLens(Stage(HEADER, fs, []), os[..n], pref, random[..n]);
    TickSized(os, fs, now, pref, random);
    FlushConfig(TickStage(os, fs, now, pref, random).fs, fs);
  }

  lemma FlushConfig(gs: seq<Iface>, fs: seq<Iface>)
    requires SameConfig(gs, fs)
    ensures SameConfig(FlushedAll(gs), fs)
  {
  }

  lemma FlushedCopies(st: Stage, i: nat, id: nat)
    requires AllSized(st) && i < |st.fs|
    ensures Copies(FlushedAll(st.fs)[i], id) == Copies(st.fs[i], id)
  {
    FlushCopies(st.fs[i], id);
    hide Copies;
  }

  /** In a tick, the copies made of an OGM and those still to come add up to those that were to come. */
  lemma TickConserves(os: seq<Ogm>, fs: seq<Iface>, now: nat, pref: nat, random: seq<nat>, i: nat, id: nat)
    requires ValidList(os, fs) && |random| == |os| && i < |fs| && pref <= MAX_UDPD_SIZE && Drawn(os, id)
    requires forall o :: o in Tick(os, fs, now, pref, random).0 ==> o.via < |fs|
    ensures var (ps, gs) := Tick(os, fs, now, pref, random);
      Copies(gs[i], id) + Pending(ps, fs, i, id, pref) == Copies(fs[i], id) + Pending(os, fs, i, id, pref)
  {
    hide HandledAll, Sized, FlushedAll, Future, Copies, AllSized, SameConfig;
    var n, r := Due(os, now), TickStage(os, fs, now, pref, random);
    TickKeeps(os, fs, now, pref, random);
    StartReady(fs, i, id, pref);
    AllConserves(Stage(HEADER, fs, []), fs, os[..n], pref, random[..n], i, id);
    FlushedCopies(r, i, id);
    FutureDrawn(os[..n], random[..n], fs, i, id, pref);
    assert os == os[..n] + os[n..];
    FutureConcat(os[..n], os[n..], fs, i, id, pref);
    FutureConcat(r.kept, os[n..], fs, i, id, pref);
  }

  lemma StartReady(fs: seq<Iface>, i: nat, id: nat, pref: nat)
    requires i < |fs| && forall j :: 0 <= j < |fs| ==> Sized(fs[j], HEADER)
    ensures Ready(Stage(HEADER, fs, []), fs) && Future([], Zeros(0), fs, i, id, pref) == 0
  {
  }

  lemma {:induction false} SamePending(os: seq<Ogm>, rs: seq<nat>, fs: seq<Iface>, gs: seq<Iface>, i: nat, id: nat,
                                       pref: nat)
    requires SameConfig(fs, gs) && i < |fs| && |rs| == |os| && forall o :: o in os ==> o.via < |fs|
    ensures Future(os, rs, fs, i, id, pref) == Future(os, rs, gs, i, id, pref)
    decreases |os|
  {
    if os != [] {
      hide Life, SameConfig;
      SamePending(os[..|os| - 1], rs[..|os| - 1], fs, gs, i, id, pref);
      SameLife(Begun(os[|os| - 1], rs[|os| - 1]), fs, gs, i);
    }
  }

  lemma {:induction false} SameLife(o: Ogm, fs: seq<Iface>, gs: seq<Iface>, i: nat)
    requires SameConfig(fs, gs) && i < |fs| && o.via < |fs|
    ensures Life(o, fs, i) == Life(o, gs, i)
    decreases Most(fs) - o.bucket
  {
    hide Sends, Copied;
    SameDecisions(fs, gs, o, i);
    if !Finished(fs, o) { SameLife(NextTurn(o), fs, gs, i); }
  }

  // ----- runs -----

  /** A tick, or an OGM that is put into the send list. */
  datatype Act = Turn(now: nat, random: seq<nat>) | Arrive(ogm: Ogm)

  ghost predicate Fits(os: seq<Ogm>, fs: seq<Iface>, act: Act)
  {
    match act
    case Turn(_, random) => |random| == |os| && forall o :: o in os ==> o.via < |fs|
    case Arrive(o) => o.via < |fs| && o.len > 0 && Blocks(o.len)
  }

  ghost function Done(os: seq<Ogm>, fs: seq<Iface>, pref: nat, act: Act): (seq<Ogm>, seq<Iface>)
    requires Fits(os, fs, act)
  {
    match act
    case Turn(now, random) => Tick(os, fs, now, pref, random)
    case Arrive(o) => (Inserted(os, o), fs)
  }

  /** Any number of ticks, with OGMs coming in between. */
  ghost predicate Acts(os: seq<Ogm>, fs: seq<Iface>, pref: nat, acts: seq<Act>, ps: seq<Ogm>, gs: seq<Iface>)
    decreases |acts|
  {
    if acts == [] then ps == os && gs == fs
    else
      && Fits(os, fs, acts[0])
      && var (ms, hs) := Done(os, fs, pref, acts[0]);
      Acts(ms, hs, pref, acts[1..], ps, gs)
  }

  ghost predicate NoneArrives(acts: seq<Act>, id: nat)
  {
    forall a :: a in acts && a.Arrive? ==> a.ogm.id != id
  }

  // ----- the list stays sorted -----

  lemma InsertedByTime(os: seq<Ogm>, o: Ogm)
    requires ByTime(os)
    ensures ByTime(Inserted(os, o))
  {
    hide Place;
    var i, ps := Place(os, o.time), Inserted(os, o);
    forall j, k | 0 <= j < k < |ps| ensures ps[j].time <= ps[k].time {
      assert ps[j] == if j < i then os[j] else if j == i then o else os[j - 1];
      assert ps[k] == if k < i then os[k] else if k == i then o else os[k - 1];
    }
  }

  lemma {:induction false} KeptByTime(st: Stage, os: seq<Ogm>, pref: nat, random: seq<nat>)
    requires |random| == |os| && ByTime(os) && st.kept == [] && forall o :: o in os ==> o.via < |st.fs|
    ensures var kept := HandledAll(st, os, pref, random).kept;
      ByTime(kept) && forall o :: o in kept ==> os != [] && o.time <= os[|os| - 1].time
    decreases |os|
  {
    if os != [] {
      hide Copied, Finished, FlushedAll;
      var n := |os| - 1;
      KeptByTime(st, os[..n], pref, random[..n]);
      assert n > 0 ==> os[..n][n - 1].time <= os[n].time;
    }
  }

  /** A tick removes OGMs from anywhere among those that are due and leaves the list sorted. */
  lemma TickByTime(os: seq<Ogm>, fs: seq<Iface>, now: nat, pref: nat, random: seq<nat>)
    requires ByTime(os) && |random| == |os| && forall o :: o in os ==> o.via < |fs|
    ensures ByTime(Tick(os, fs, now, pref, random).0)
  {
    var n, st := Due(os, now), TickStage(os, fs, now, pref, random);
    KeptByTime(Stage(HEADER, fs, []), os[..n], pref, random[..n]);
    hide HandledAll, Due, FlushedAll;
    var ps := st.kept + os[n..];
    forall j, k | 0 <= j < k < |ps| ensures ps[j].time <= ps[k].time {
      if j < |st.kept| <= k {
        assert st.kept[j] in st.kept && os[..n][n - 1].time <= os[n + k - |st.kept|].time;
      }
    }
  }

  /** In every list that ticks and arrivals lead to, each tick handles exactly the OGMs that are due. */
  lemma {:induction false} DueHandledInRuns(os: seq<Ogm>, fs: seq<Iface>, pref: nat, acts: seq<Act>,
                                            ps: seq<Ogm>, gs: seq<Iface>, now: nat)
    requires ByTime(os) && Acts(os, fs, pref, acts, ps, gs)
    ensures ByTime(ps) && forall i :: 0 <= i < |ps| ==> (i < Due(ps, now) <==> ps[i].time <= now)
    decreases |acts|
  {
    hide Tick, Inserted, ByTime;
    if acts == [] {
      TickHandlesDue(os, now);
    } else {
      match acts[0]
      case Turn(t, random) => TickByTime(os, fs, t, pref, random);
        DueHandledInRuns(Done(os, fs, pref, acts[0]).0, Done(os, fs, pref, acts[0]).1, pref, acts[1..], ps, gs, now);
      case Arrive(o) => InsertedByTime(os, o);
        DueHandledInRuns(Inserted(os, o), fs, pref, acts[1..], ps, gs, now);
    }
  }

  // ----- how often an OGM is sent in a run -----

  /** No OGM with this id, nothing to come of it. */
  lemma {:induction false} FutureNone(os: seq<Ogm>, rs: seq<nat>, fs: seq<Iface>, i: nat, id: nat, pref: nat)
    requires |rs| == |os| && i < |fs| && forall o :: o in os ==> o.via < |fs| && o.id != id
    ensures Future(os, rs, fs, i, id, pref) == 0
    decreases |os|
  {
    if os != [] { FutureNone(os[..|os| - 1], rs[..|os| - 1], fs, i, id, pref); }
  }

  /** Only the OGM at k has this id. */
  ghost predicate OnlyAt(os: seq<Ogm>, id: nat, k: int)
  {
    0 <= k < |os| && forall j :: 0 <= j < |os| ==> (os[j].id == id <==> j == k)
  }

  lemma {:induction false} FutureOne(os: seq<Ogm>, rs: seq<nat>, fs: seq<Iface>, i: nat, id: nat, pref: nat, k: nat)
    requires |rs| == |os| && i < |fs| && OnlyAt(os, id, k) && forall o :: o in os ==> o.via < |fs|
    ensures Future(os, rs, fs, i, id, pref) == Term(os[k], rs[k], fs, i, id, pref)
    decreases |os|
  {
    hide Life;
    var n := |os| - 1;
    if k == n {
      FutureNone(os[..n], rs[..n], fs, i, id, pref);
    } else {
      FutureOne(os[..n], rs[..n], fs, i, id, pref, k);
    }
  }

  lemma InsertedPending(os: seq<Ogm>, o: Ogm, fs: seq<Iface>, i: nat, id: nat, pref: nat)
    requires i < |fs| && o.via < |fs| && o.id != id && forall x :: x in os ==> x.via < |fs|
    ensures (forall x :: x in Inserted(os, o) ==> x in os || x == o)
    ensures Pending(Inserted(os, o), fs, i, id, pref) == Pending(os, fs, i, id, pref)
  {
    hide Place, Life;
    var k := Place(os, o.time);
    assert os == os[..k] + os[k..] && Inserted(os, o) == os[..k] + ([o] + os[k..]);
    FutureConcat(os[..k], os[k..], fs, i, id, pref);
    FutureConcat(os[..k], [o] + os[k..], fs, i, id, pref);
    FutureConcat([o], os[k..], fs, i, id, pref);
    FutureNone([o], Zeros(1), fs, i, id, pref);
  }

  lemma InsertedValid(os: seq<Ogm>, o: Ogm, fs: seq<Iface>)
    requires ValidList(os, fs) && o.via < |fs| && o.len > 0 && Blocks(o.len)
    ensures ValidList(Inserted(os, o), fs)
  {
  }

  /** An act keeps the list valid and the settings of the interfaces. */
  lemma DoneKeeps(os: seq<Ogm>, fs: seq<Iface>, pref: nat, act: Act)
    requires ValidList(os, fs) && |fs| > 0 && pref <= MAX_UDPD_SIZE && Fits(os, fs, act)
    ensures var (ms, hs) := Done(os, fs, pref, act);
      && ValidList(ms, hs) && SameConfig(hs, fs)
      && forall id :: Drawn(os, id) && NoneArrives([act], id) ==> Drawn(ms, id)
  {
    hide Tick, Sized;
    match act
    case Turn(now, random) => TickKeeps(os, fs, now, pref, random);
    case Arrive(o) => InsertedValid(os, o, fs);
      forall id | Drawn(os, id) && NoneArrives([act], id) ensures Drawn(Inserted(os, o), id) {
        assert act in [act];
      }
  }

  /**
   Over any run: the copies that interface i has got of an OGM with its bucket drawn, and
   those it will still get, stay the same in sum.
   */
  lemma {:induction false} RunConserves(os: seq<Ogm>, fs: seq<Iface>, pref: nat, acts: seq<Act>,
                                        ps: seq<Ogm>, gs: seq<Iface>, i: nat, id: nat)
    requires ValidList(os, fs) && i < |fs| && pref <= MAX_UDPD_SIZE && Drawn(os, id)
    requires Acts(os, fs, pref, acts, ps, gs) && NoneArrives(acts, id)
    ensures ValidList(ps, gs) && SameConfig(gs, fs)
    ensures Copies(gs[i], id) + Pending(ps, gs, i, id, pref) == Copies(fs[i], id) + Pending(os, fs, i, id, pref)
    decreases |acts|
  {
    if acts != [] {
      hide Copies, Tick, Inserted, SameSettings, Sized, Future, Drawn;
      var (ms, hs) := Done(os, fs, pref, acts[0]);
      assert acts[0] in acts;
      DoneKeeps(os, fs, pref, acts[0]);
      match acts[0] {
        case Turn(now, random) => TickConserves(os, fs, now, pref, random, i, id);
        case Arrive(o) => InsertedPending(os, o, fs, i, id, pref);
      }
      RunConserves(ms, hs, pref, acts[1..], ps, gs, i, id);
      SamePending(ms, Zeros(|ms|), hs, fs, i, id, pref);
    }
  }

  function IndexOf(os: seq<Ogm>, id: nat): (k: nat)
    ensures k <= |os| && (forall j :: 0 <= j < k ==> os[j].id != id) && (k < |os| ==> os[k].id == id)
  {
    if os == [] || os[0].id == id then 0 else 1 + IndexOf(os[1..], id)
  }

  /** The random number that the OGM with this id is given when it is handled first in the run. */
  ghost function FirstDraw(os: seq<Ogm>, fs: seq<Iface>, pref: nat, acts: seq<Act>, id: nat): nat
    decreases |acts|
  {
    if acts == [] || !Fits(os, fs, acts[0]) then 0
    else
      var (ms, hs) := Done(os, fs, pref, acts[0]);
      if acts[0].Turn? && IndexOf(os, id) < Due(os, acts[0].now) then acts[0].random[IndexOf(os, id)]
      else FirstDraw(ms, hs, pref, acts[1..], id)
  }

  lemma {:induction false} KeptIds(st: Stage, os: seq<Ogm>, pref: nat, random: seq<nat>, id: nat)
    requires |random| == |os| && forall o :: o in os ==> o.via < |st.fs| && o.id != id
    requires forall o :: o in st.kept ==> o.id != id
    ensures forall o :: o in HandledAll(st, os, pref, random).kept ==> o.id != id
    decreases |os|
  {
    if os != [] {
      hide Copied, Finished, FlushedAll;
      KeptIds(st, os[..|os| - 1], pref, random[..|os| - 1], id);
    }
  }

  /** A tick in which the OGM with this id is not due yet leaves it alone and sends none of it. */
  lemma TurnBefore(os: seq<Ogm>, fs: seq<Iface>, now: nat, pref: nat, random: seq<nat>, i: nat, id: nat, k: nat)
    requires ValidList(os, fs) && |random| == |os| && i < |fs| && pref <= MAX_UDPD_SIZE
    requires OnlyAt(os, id, k) && Due(os, now) <= k
    ensures var (ms, hs) := Tick(os, fs, now, pref, random);
      && |hs| == |fs| && Copies(hs[i], id) == Copies(fs[i], id)
      && exists l :: OnlyAt(ms, id, l) && ms[l] == os[k]
  {
    hide HandledAll, Sized, FlushedAll, Future, Copies, AllSized, SameConfig, Due;
    var n, r := Due(os, now), TickStage(os, fs, now, pref, random);
    TickKeeps(os, fs, now, pref, random);
    StartReady(fs, i, id, pref);
    AllConserves(Stage(HEADER, fs, []), fs, os[..n], pref, random[..n], i, id);
    FlushedCopies(r, i, id);
    FutureNone(os[..n], random[..n], fs, i, id, pref);
    KeptIds(Stage(HEADER, fs, []), os[..n], pref, random[..n], id);
    FutureNone(r.kept, Zeros(|r.kept|), fs, i, id, pref);
    var ms := r.kept + os[n..];
    assert forall j :: 0 <= j < |ms| ==> ms[j] == if j < |r.kept| then r.kept[j] else os[n + j - |r.kept|];
    assert OnlyAt(ms, id, |r.kept| + k - n);
  }

  /** The tick that handles it first: the copies made and those to come are those of its whole life. */
  lemma TurnAt(os: seq<Ogm>, fs: seq<Iface>, now: nat, pref: nat, random: seq<nat>, i: nat, id: nat, k: nat)
    requires ValidList(os, fs) && |random| == |os| && i < |fs| && pref <= MAX_UDPD_SIZE
    requires OnlyAt(os, id, k) && k < Due(os, now)
    ensures var (ms, hs) := Tick(os, fs, now, pref, random);
      && Drawn(ms, id) && (forall o :: o in ms ==> o.via < |fs|) && |hs| == |fs|
      && Copies(hs[i], id) + Pending(ms, fs, i, id, pref) == Copies(fs[i], id) + Term(os[k], random[k], fs, i, id, pref)
  {
    hide HandledAll, Sized, FlushedAll, Future, Copies, AllSized, SameConfig, Due, Life;
    var n, r := Due(os, now), TickStage(os, fs, now, pref, random);
    TickKeeps(os, fs, now, pref, random);
    StartReady(fs, i, id, pref);
    AllConserves(Stage(HEADER, fs, []), fs, os[..n], pref, random[..n], i, id);
    FlushedCopies(r, i, id);
    FutureOne(os[..n], random[..n], fs, i, id, pref, k);
    FutureConcat(r.kept, os[n..], fs, i, id, pref);
    FutureNone(os[n..], Zeros(|os[n..]|), fs, i, id, pref);
  }

  lemma InsertedOnly(os: seq<Ogm>, o: Ogm, id: nat, k: nat)
    requires OnlyAt(os, id, k) && o.id != id
    ensures exists l :: OnlyAt(Inserted(os, o), id, l) && Inserted(os, o)[l] == os[k]
  {
    hide Place;
    var i, ps := Place(os, o.time), Inserted(os, o);
    assert forall j :: 0 <= j < |ps| ==> ps[j] == if j < i then os[j] else if j == i then o else os[j - 1];
    assert OnlyAt(ps, id, if k < i then k else k + 1);
  }

  /** The run begins with the tick that handles the OGM first. */
  lemma SentFromNow(os: seq<Ogm>, fs: seq<Iface>, pref: nat, acts: seq<Act>,
                    ps: seq<Ogm>, gs: seq<Iface>, i: nat, id: nat, k: nat)
    requires ValidList(os, fs) && i < |fs| && pref <= MAX_UDPD_SIZE
    requires Acts(os, fs, pref, acts, ps, gs) && NoneArrives(acts, id)
    requires OnlyAt(os, id, k) && forall p :: p in ps ==> p.id != id
    requires acts != [] && acts[0].Turn? && k < Due(os, acts[0].now) && k < |acts[0].random|
    ensures |gs| == |fs|
    ensures Copies(gs[i], id) == Copies(fs[i], id) + Term(os[k], acts[0].random[k], fs, i, id, pref)
  {
    hide Copies, Tick, Sized, Life, Due, Future, Drawn, Term;
    assert acts[0] in acts;
    DoneKeeps(os, fs, pref, acts[0]);
    var (ms, hs) := Done(os, fs, pref, acts[0]);
    TurnAt(os, fs, acts[0].now, pref, acts[0].random, i, id, k);
    RunConserves(ms, hs, pref, acts[1..], ps, gs, i, id);
    SamePending(ms, Zeros(|ms|), hs, fs, i, id, pref);
    FutureNone(ps, Zeros(|ps|), gs, i, id, pref);
  }

  /**
   From the time an OGM is in the send list until it has left it, whatever else is sent and
   comes in: interface i gets exactly max(0, ceil((c - b) / 100)) copies of it if it serves
   it, and none otherwise, where c is its clone setting and b the OGM's first bucket.
   */
  lemma {:induction false} SentExactly(os: seq<Ogm>, fs: seq<Iface>, pref: nat, acts: seq<Act>,
                                       ps: seq<Ogm>, gs: seq<Iface>, i: nat, id: nat, k: nat)
    requires ValidList(os, fs) && i < |fs| && pref <= MAX_UDPD_SIZE
    requires Acts(os, fs, pref, acts, ps, gs) && NoneArrives(acts, id)
    requires OnlyAt(os, id, k) && forall p :: p in ps ==> p.id != id
    requires !os[k].uni && os[k].ttl > 0 && !TooLarge(HEADER, os[k], pref)
    ensures |gs| == |fs|
    ensures var o := os[k];
      var b := if o.bucket != 0 then o.bucket else FirstDraw(os, fs, pref, acts, id);
      Copies(gs[i], id) == Copies(fs[i], id)
        + if fs[i].active && (o.own && fs[o.via].singlehomed ==> o.via == i) then CeilDiv(fs[i].clones - b, 100) else 0
    decreases |acts|
  {
    hide Copies, Tick, Inserted, Sized, Life, Due, Future, CeilDiv;
    assert os[k] in os;
    if acts != [] {
      assert acts[0] in acts;
      DoneKeeps(os, fs, pref, acts[0]);
      var (ms, hs) := Done(os, fs, pref, acts[0]);
      assert IndexOf(os, id) == k;
      if acts[0].Turn? && k < Due(os, acts[0].now) {
        SentFromNow(os, fs, pref, acts, ps, gs, i, id, k);
        BroadcastCount(Begun(os[k], acts[0].random[k]), fs, i);
      } else {
        if acts[0].Turn? {
          TurnBefore(os, fs, acts[0].now, pref, acts[0].random, i, id, k);
        } else {
          InsertedOnly(os, acts[0].ogm, id, k);
        }
        var l :| OnlyAt(ms, id, l) && ms[l] == os[k];
        SentExactly(ms, hs, pref, acts[1..], ps, gs, i, id, l);
      }
    }
  }
}
