/**
 Which OGMs are relayed, told from what comes in (compiled-tools/bmx/bmxd/schedule.c:665-788,
 originator.c:1245-1527), and that flooding gets to the end of a line of nodes.
 */
module FloodReach {
  import opened Wrappers
  import opened Wrap16
  import opened Seqno
  import opened Flood

  /**
   A copy is relayed if and only if it is neither the node's own nor marked unidirectional, has
   time to live, passes the checks, and is either chosen (heard over a bidirectional link,
   accepted, and decided on now) or an original of a direct neighbour; an asocial node relays
   direct neighbours only. It is marked direct if and only if it came from the originator, and
   unidirectional if and only if it is only to be sent back.
   */
  lemma RelayedExactly(h: History, d: Delivery, mine: bool, v: Env)
    requires Faithful(h) && Admissible(h, Ogm(d.via, d.copy.seqno, v.ctx))
    ensures var o := Receive(h.view, d.via, W16(d.copy.seqno), v.ctx).1;
      var chosen := o.Processed? && o.relayed && v.bidirect && v.lucky;
      var r := Process(h, d, mine, v).1;
      && (r.Some? <==>
          && !mine && !d.copy.uni && v.known && o.Processed? && v.hooks && v.idKnown
          && (if d.direct then d.copy.ttl > 0 && (chosen || !d.copy.cloned)
              else d.copy.ttl > 1 && chosen && !v.asocial))
      && (r.Some? ==>
          && r.value.directlink == d.direct && r.value.uni == (d.direct && (!chosen || v.asocial))
          && r.value.cloned == d.copy.cloned && r.value.seqno == d.copy.seqno && r.value.ttl == d.copy.ttl - 1)
  {
    var e := Ogm(d.via, d.copy.seqno, v.ctx);
    StepVerdicts(h, e);
    hide Faithful, Admissible, W16, Receive;
  }

  // ----- a line of nodes -----

  /** A node that hears well and puts up no obstacle. */
  predicate Willing(v: Env)
  {
    v.bidirect && v.lucky && !v.asocial && v.known && v.hooks && v.idKnown && v.ctx.best && v.ctx.primaryOk
  }

  /**
   The number is new to the node, in the reach of 16 bits, and raises no alarm: the node knows
   nothing yet, or has heard of the originator, measured its interval and decided before.
   */
  ghost predicate Open(h: History, via: nat, s: int, c: Ctx)
  {
    && Faithful(h) && Admissible(h, Ogm(via, s, c))
    && (Log(h, via) == [] || !SeemsOld(s, Log(h, via)[|Log(h, via)| - 1], c.myPws))
    && W16(s - LastDecided(h) - 1) < TP16 - h.view.pws
    && (Known(h.view) ==>
        var avg := Metrics.Wavg(h.view.wavg, OGI_WAVG_EXP);
        var divisor := if avg < MIN_OGI then avg else MIN_OGI;
        s > h.valid && divisor > 0 && s <= h.valid + 1000 * c.dadTo / divisor)
  }

  /** A node that has just been started is open to every number that is not just below a multiple of 65536. */
  lemma FreshOpen(myPws: nat, via: nat, s: int, c: Ctx)
    requires 0 < c.now && c.lounge < myPws && c.lounge <= c.myPws <= MAX_SEQNO && 0 < c.ogmPws <= MAX_SEQNO
    requires myPws <= MAX_SEQNO && 0 < W16(s) <= TP16 - myPws
    ensures Open(Begin(myPws), via, s, c)
  {
    BeginFaithful(myPws);
    assert W16(s - 1) == W16(s) - 1;
    hide Metrics.NextWavg, Metrics.Wavg, Faithful;
  }

  lemma OpenDecides(h: History, d: Delivery, v: Env)
    requires Open(h, d.via, d.copy.seqno, v.ctx) && Willing(v) && !d.copy.uni && d.copy.ttl > 0
    ensures var (h', r) := Process(h, d, false, v);
      && DecidedAt(h', d.copy.seqno)
      && (d.direct || d.copy.ttl > 1 ==>
            r == Some(d.copy.(ttl := d.copy.ttl - 1, directlink := d.direct)))
  {
    var e := Ogm(d.via, d.copy.seqno, v.ctx);
    StepVerdicts(h, e);
    RelayedExactly(h, d, false, v);
    DecidedExtends(h, e);
    hide Faithful, Admissible, W16, Receive;
    var o := Receive(h.view, d.via, W16(d.copy.seqno), v.ctx).1;
    assert o.Processed? && o.relayed;
    assert (h.decided + [e.seqno])[|h.decided|] == e.seqno;
  }

  /** The nodes up to k have decided on s, and the others are open to it. */
  ghost predicate Reached(net: Net, envs: seq<Env>, s: int, k: nat)
  {
    && |envs| == |net.nodes|
    && forall i :: k < i < |net.nodes| ==> Willing(envs[i]) && Open(net.nodes[i], i - 1, s, envs[i].ctx)
  }

  /** The copy that node k sends, when it is heard by the node that follows. */
  function OnLine(s: int, ttl: nat, k: nat, direct: bool, trail: seq<nat>): Delivery
  {
    Delivery(k + 1, k, k == 0, Copy(s, ttl, false, direct, false, trail))
  }

  function Line(n: nat): seq<nat> { if n == 0 then [0] else Line(n - 1) + [n] }

  /** From node k on: one copy is in flight, to the next node. */
  lemma {:induction false} LineFrom(net: Net, envs: seq<Env>, s: int, ttl: nat, k: nat, direct: bool, b: nat)
    returns (ms: seq<Move>, end: Net)
    requires k + 1 < |net.nodes| && Reached(net, envs, s, k) && b >= 1
    requires net.flight == [OnLine(s, ttl, k, direct, Line(k))] && ttl >= |net.nodes| - 1 - k
    ensures Runs(net, ms, b, end) && |end.nodes| == |net.nodes| && |ms| == |net.nodes| - 1 - k
    ensures forall i :: k < i < |end.nodes| ==> DecidedAt(end.nodes[i], s)
    ensures forall i :: 0 <= i <= k ==> end.nodes[i] == net.nodes[i]
    decreases |net.nodes| - k
  {
    var d, v, h := net.flight[0], envs[k + 1], net.nodes[k + 1];
    assert Open(h, k, s, v.ctx) && Willing(v);
    OpenDecides(h, d, v);
    OpenWindows(h, k, s, v.ctx);
    hide Open, Willing, Process, Admissible, DecidedAt;
    if k + 2 == |net.nodes| {
      var out := LastOut(net, Handle(0, v, []), b);
      var m := Handle(0, v, out);
      end := Next(net, m);
      ms := [m];
      assert ms[1..] == [];
      assert Runs(end, [], b, end);
    } else {
      var c := d.copy.(ttl := ttl - 1, directlink := d.direct);
      var next := OnLine(s, ttl - 1, k + 1, d.direct, Line(k + 1));
      assert Trailed(c, k + 1) == next.copy;
      var m := Handle(0, v, [next]);
      var later := Next(net, m);
      assert later.flight == [next] by { assert Without(net.flight, 0) == []; }
      var rest, fin := LineFrom(later, envs, s, ttl - 1, k + 1, d.direct, b);
      ms, end := [m] + rest, fin;
      assert ms[1..] == rest;
    }
  }

  lemma OpenWindows(h: History, via: nat, s: int, c: Ctx)
    requires Open(h, via, s, c)
    ensures h.view.pws <= MAX_SEQNO && c.myPws <= MAX_SEQNO && Admissible(h, Ogm(via, s, c))
  {
  }

  /** What the last node may send: at most one copy is heard, and here none is. */
  lemma LastOut(net: Net, m: Move, b: nat) returns (out: seq<Delivery>)
    requires m.Handle? && m.at < |net.flight| && net.flight[m.at].to < |net.nodes|
    requires net.nodes[net.flight[m.at].to].view.pws <= MAX_SEQNO && m.env.ctx.myPws <= MAX_SEQNO
    ensures out == []
    ensures match Sent(net, m)
      case None => out == []
      case Some(c) => Sends(out, net.flight[m.at].to, c, |net.nodes|, b)
  {
    out := [];
    hide Process;
  }

  /**
   Flooding gets through: on a line of nodes that are willing and open to the number, an OGM whose
   time to live is at least the number of hops has a run in which every node decides on it.
   */
  lemma LineReached(net: Net, envs: seq<Env>, s: int, ttl: nat, b: nat) returns (ms: seq<Move>, end: Net)
    requires |net.nodes| > 1 && net.flight == [] && Reached(net, envs, s, 0) && b >= 1
    requires ttl >= |net.nodes| - 1
    ensures Runs(net, ms, b, end) && |end.nodes| == |net.nodes|
    ensures forall i :: 0 < i < |end.nodes| ==> DecidedAt(end.nodes[i], s)
  {
    hide Open, Willing, Process, Admissible, DecidedAt;
    var c := Copy(s, ttl, false, false, false, []);
    var first := OnLine(s, ttl, 0, false, Line(0));
    assert Trailed(c, 0) == first.copy;
    var m := Originate(s, ttl, [first]);
    var later := Next(net, m);
    var rest, fin := LineFrom(later, envs, s, ttl, 0, false, b);
    ms, end := [m] + rest, fin;
    assert ms[1..] == rest;
  }
}
