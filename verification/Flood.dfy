/**
 Flooding of the OGMs of one originator through a network of any topology: what a node does
 with a copy it hears (schedule.c:666-800, originator.c:1245-1359, 1400-1530), and the
 network as a state machine in which copies of any number of generations are in flight.
 */
module Flood {
  import opened Arith
  import opened Sets
  import opened Wrappers
  import opened Seqno
  import opened Wrap16

  /** An OGM on its way. `trail` lists the nodes that relayed it as best path; it is not on the wire. */
  datatype Copy = Copy(seqno: int, ttl: nat, uni: bool, directlink: bool, cloned: bool, trail: seq<nat>)

  /**
   A copy about to be heard by node `to` from the neighbour address `via`; `direct` says that this is
   the originator's own.
   */
  datatype Delivery = Delivery(to: nat, via: nat, direct: bool, copy: Copy)

  /**
   What else decides about a copy: whether the node is bidirectionally linked to the sender,
   the random acceptance test, asocial mode, the checks before the sequence number is looked
   at, the plugins and the neighbour's id.
   */
  datatype Env = Env(ctx: Ctx, bidirect: bool, lucky: bool, asocial: bool, known: bool, hooks: bool, idKnown: bool)

  /** schedule_rcvd_ogm: whether to send the copy on, and with the unidirectional flag or not. */
  function Schedule(c: Copy, direct: bool, accepted: bool, best: bool, asocial: bool): Option<Copy>
  {
    var uni := direct && ((accepted && best && asocial) || (!(accepted && best) && !c.cloned));
    var wanted := if direct then (accepted && best) || !c.cloned else !asocial && accepted && best;
    if wanted && ((c.ttl == 1 && direct) || c.ttl > 1) then Some(c.(ttl := c.ttl - 1, uni := uni, directlink := direct))
    else None
  }

  method ScheduleRcvdOgm(c: Copy, direct: bool, accepted: bool, best: bool, asocial: bool) returns (r: Option<Copy>)
    ensures r == Schedule(c, direct, accepted, best, asocial)
  {
    var withUnidirectionalFlag, directlink := false, false;
    if direct {
      directlink := true;
      if accepted && best {
        if asocial { withUnidirectionalFlag := true; }
      } else if !c.cloned {
        withUnidirectionalFlag := true;
      } else {
        return None;
      }
    } else if asocial {
      return None;
    } else if accepted && best {
    } else {
      return None;
    }
    if !((c.ttl == 1 && directlink) || c.ttl > 1) {
      return None;
    }
    var sent := c;
    sent := sent.(ttl := sent.ttl - 1);
    sent := sent.(uni := false, directlink := false);
    if withUnidirectionalFlag { sent := sent.(uni := true); }
    if directlink { sent := sent.(directlink := true); }
    return Some(sent);
  }

  /** process_ogm for one copy at a node with history h; `mine` says that the node is the originator. */
  function Process(h: History, d: Delivery, mine: bool, v: Env): (History, Option<Copy>)
    requires h.view.pws <= MAX_SEQNO && v.ctx.myPws <= MAX_SEQNO
  {
    if d.copy.uni && !mine then (h, None)
    else if mine || d.copy.ttl == 0 || !v.known then (h, None)
    else
      var e := Ogm(d.via, d.copy.seqno, v.ctx);
      var o := Receive(h.view, d.via, W16(d.copy.seqno), v.ctx).1;
      if !o.Processed? || !v.hooks || !v.idKnown then (Extend(h, e), None)
      else
        var accepted := v.bidirect && (o.isNew || o.acceptable) && v.lucky;
        (Extend(h, e), Schedule(d.copy, d.direct, accepted, o.relayed, v.asocial))
  }

  // ----- the network -----

  /** The nodes' histories for this originator, which is node 0, and the copies in flight. */
  datatype Net = Net(nodes: seq<History>, flight: seq<Delivery>)

  /** A copy in flight is handled, the originator sends a new generation, or a node loses a neighbour to a
      purge or hears the originator named as the primary one of another interface. */
  datatype Move =
    | Handle(at: nat, env: Env, out: seq<Delivery>)
    | Originate(seqno: int, ttl: nat, out: seq<Delivery>)
    | Aside(n: nat, e: Event)

  /** The copies a node sends are the relayed one, at most b of them; repetitions carry the cloned flag. */
  ghost predicate Sends(out: seq<Delivery>, n: nat, c: Copy, size: nat, b: nat)
  {
    |out| <= b && forall i :: 0 <= i < |out| ==> SentTo(out[i], Trailed(c, n), size)
  }

  predicate SentTo(d: Delivery, c: Copy, size: nat)
  {
    d.to < size && (d.copy == c || d.copy == c.(cloned := true))
  }

  function Trailed(c: Copy, n: nat): Copy { if c.uni then c else c.(trail := c.trail + [n]) }

  function Sent(net: Net, m: Move): Option<Copy>
    requires m.Handle? && m.at < |net.flight| && net.flight[m.at].to < |net.nodes|
    requires net.nodes[net.flight[m.at].to].view.pws <= MAX_SEQNO && m.env.ctx.myPws <= MAX_SEQNO
  {
    var d := net.flight[m.at];
    Process(net.nodes[d.to], d, d.to == 0, m.env).1
  }

  /** `b` bounds how often a copy that is sent can be heard: the neighbours on all interfaces and the clones. */
  ghost predicate Possible(net: Net, m: Move, b: nat)
  {
    match m
    case Handle(at, env, out) =>
      && at < |net.flight| && net.flight[at].to < |net.nodes|
      && net.nodes[net.flight[at].to].view.pws <= MAX_SEQNO && env.ctx.myPws <= MAX_SEQNO
      && Admissible(net.nodes[net.flight[at].to], Ogm(net.flight[at].via, net.flight[at].copy.seqno, env.ctx))
      && (match Sent(net, m)
          case None => out == []
          case Some(c) => Sends(out, net.flight[at].to, c, |net.nodes|, b))
    case Originate(seqno, ttl, out) =>
      Sends(out, 0, Copy(seqno, ttl, false, false, false, []), |net.nodes|, b)
    case Aside(n, e) =>
      n < |net.nodes| && net.nodes[n].view.pws <= MAX_SEQNO && (e.Named? || e.Forget?) && Admissible(net.nodes[n], e)
  }

  function Without(s: seq<Delivery>, i: nat): seq<Delivery>
    requires i < |s|
  {
    s[..i] + s[i + 1..]
  }

  function Next(net: Net, m: Move): Net
    requires m.Handle? ==>
      && m.at < |net.flight| && net.flight[m.at].to < |net.nodes|
      && net.nodes[net.flight[m.at].to].view.pws <= MAX_SEQNO && m.env.ctx.myPws <= MAX_SEQNO
    requires m.Aside? ==> m.n < |net.nodes| && net.nodes[m.n].view.pws <= MAX_SEQNO && !m.e.Ogm?
  {
    match m
    case Handle(at, env, out) =>
      var d := net.flight[at];
      Net(net.nodes[d.to := Process(net.nodes[d.to], d, d.to == 0, env).0], Without(net.flight, at) + out)
    case Originate(_, _, out) => net.(flight := net.flight + out)
    case Aside(n, e) => net.(nodes := net.nodes[n := Extend(net.nodes[n], e)])
  }

  // ----- what every step keeps -----

  predicate DecidedAt(h: History, s: int) { s in h.decided }

  /** A copy has been relayed by different nodes, each of which has decided on its number. */
  ghost predicate Sound(nodes: seq<History>, c: Copy)
  {
    && c.trail != [] && c.trail[0] == 0
    && (forall i, j :: 0 <= i < j < |c.trail| ==> c.trail[i] != c.trail[j])
    && (forall i :: 0 <= i < |c.trail| ==> c.trail[i] < |nodes|)
    && (forall i :: 0 < i < |c.trail| ==> DecidedAt(nodes[c.trail[i]], c.seqno))
  }

  ghost predicate Valid(net: Net)
  {
    && |net.nodes| > 0
    && (forall i :: 0 <= i < |net.nodes| ==> Faithful(net.nodes[i]))
    && (forall i :: 0 <= i < |net.flight| ==> net.flight[i].to < |net.nodes| && Sound(net.nodes, net.flight[i].copy))
  }

  /** The facts about one handled copy: flags, time to live, and the decision it needs. */
  lemma ProcessSpec(h: History, d: Delivery, mine: bool, v: Env)
    requires Faithful(h) && Admissible(h, Ogm(d.via, d.copy.seqno, v.ctx))
    ensures var r := Process(h, d, mine, v);
      && Faithful(r.0)
      && (forall s :: DecidedAt(h, s) ==> DecidedAt(r.0, s))
      && (forall s :: DecidedAt(r.0, s) && !DecidedAt(h, s) ==> s == d.copy.seqno)
      && (r.1.Some? ==> !mine && !d.copy.uni && d.copy.ttl > 0 && r.1.value.ttl == d.copy.ttl - 1)
      && (r.1.Some? ==> r.1.value.seqno == d.copy.seqno && r.1.value.trail == d.copy.trail)
      && (r.1.Some? && !r.1.value.uni ==> !DecidedAt(h, d.copy.seqno) && DecidedAt(r.0, d.copy.seqno))
  {
    var e := Ogm(d.via, d.copy.seqno, v.ctx);
    StepKeeps(h, e);
    StepVerdicts(h, e);
    hide Faithful, Admissible, W16, Receive;
    var o := Receive(h.view, d.via, W16(d.copy.seqno), v.ctx).1;
    DecidedExtends(h, e);
  }

  lemma DecidedExtends(h: History, e: Event)
    requires e.Ogm? && h.view.pws <= MAX_SEQNO && e.ctx.myPws <= MAX_SEQNO
    ensures var o := Receive(h.view, e.via, W16(e.seqno), e.ctx).1;
      Extend(h, e).decided == if o.Processed? && o.relayed then h.decided + [e.seqno] else h.decided
  {
    hide Receive, W16;
  }

  /** The histories only grow. */
  ghost predicate Grown(nodes: seq<History>, later: seq<History>)
  {
    |later| == |nodes| && forall i, s :: 0 <= i < |nodes| && DecidedAt(nodes[i], s) ==> DecidedAt(later[i], s)
  }

  lemma SoundLater(nodes: seq<History>, later: seq<History>, c: Copy, cloned: bool)
    requires Sound(nodes, c) && Grown(nodes, later)
    ensures Sound(later, c) && Sound(later, c.(cloned := cloned))
  {
    hide DecidedAt;
  }

  /** A relay adds itself to the trail; it was not there, as it had not decided before. */
  lemma SoundRelay(nodes: seq<History>, later: seq<History>, c: Copy, n: nat)
    requires Sound(nodes, c) && Grown(nodes, later) && 0 < n < |nodes|
    requires !DecidedAt(nodes[n], c.seqno) && DecidedAt(later[n], c.seqno)
    ensures Sound(later, c.(trail := c.trail + [n]))
  {
    hide DecidedAt;
    forall i | 0 <= i < |c.trail| ensures c.trail[i] != n {
      if i > 0 { assert DecidedAt(nodes[c.trail[i]], c.seqno); }
    }
  }

  /** Every step keeps the network valid: no copy ever passes the same relay twice. */
  lemma StepKeepsValid(net: Net, m: Move, b: nat)
    requires Valid(net) && Possible(net, m, b)
    ensures Valid(Next(net, m))
  {
    hide Faithful, Admissible, Process, DecidedAt, Sound, Trailed;
    match m
    case Originate(seqno, ttl, out) =>
      var c := Copy(seqno, ttl, false, false, false, []);
      FirstSound(net.nodes, c);
      assert forall i :: 0 <= i < |out| ==> SentTo(out[i], Trailed(c, 0), |net.nodes|);
    case Handle(at, env, out) =>
      var d := net.flight[at];
      ProcessSpec(net.nodes[d.to], d, d.to == 0, env);
      var later := Next(net, m).nodes;
      assert Grown(net.nodes, later);
      forall i | 0 <= i < |net.flight| ensures Sound(later, net.flight[i].copy) {
        SoundLater(net.nodes, later, net.flight[i].copy, false);
      }
      if Sent(net, m).Some? {
        var c := Sent(net, m).value;
        RelaySound(net.nodes, later, d, c);
        assert forall i :: 0 <= i < |out| ==> SentTo(out[i], Trailed(c, d.to), |net.nodes|);
      }
    case Aside(n, e) =>
      AsideSpec(net.nodes[n], e);
      var later := Next(net, m).nodes;
      assert Grown(net.nodes, later);
      forall i | 0 <= i < |net.flight| ensures Sound(later, net.flight[i].copy) {
        SoundLater(net.nodes, later, net.flight[i].copy, false);
      }
  }

  lemma AsideSpec(h: History, e: Event)
    requires (e.Named? || e.Forget?) && Faithful(h) && Admissible(h, e)
    ensures Faithful(Extend(h, e)) && forall s :: DecidedAt(Extend(h, e), s) <==> DecidedAt(h, s)
  {
    StepKeeps(h, e);
    hide Faithful, Admissible, W16;
  }

  lemma FirstSound(nodes: seq<History>, c: Copy)
    requires |nodes| > 0 && c.trail == [] && !c.uni
    ensures Sound(nodes, Trailed(c, 0)) && Sound(nodes, Trailed(c, 0).(cloned := true))
  {
  }

  lemma RelaySound(nodes: seq<History>, later: seq<History>, d: Delivery, c: Copy)
    requires Sound(nodes, d.copy) && Grown(nodes, later) && 0 < d.to < |nodes|
    requires c.seqno == d.copy.seqno && c.trail == d.copy.trail
    requires !c.uni ==> !DecidedAt(nodes[d.to], c.seqno) && DecidedAt(later[d.to], c.seqno)
    ensures Sound(later, Trailed(c, d.to)) && Sound(later, Trailed(c, d.to).(cloned := true))
  {
    if c.uni {
      assert Sound(nodes, c);
      SoundLater(nodes, later, c, true);
    } else {
      SoundRelay(nodes, later, c, d.to);
    }
  }

  // ----- termination of one generation -----

  /** How much a copy of generation s may still cost: itself, and the answers it may bring about. */
  function Cost(d: Delivery, s: int, b: nat): nat
  {
    if d.copy.seqno != s then 0 else if d.copy.uni then 1 else 1 + b
  }

  function FlightCost(f: seq<Delivery>, s: int, b: nat): nat
  {
    if f == [] then 0 else Cost(f[0], s, b) + FlightCost(f[1..], s, b)
  }

  function UndecidedCount(nodes: seq<History>, s: int): nat
  {
    if nodes == [] then 0 else (if DecidedAt(nodes[0], s) then 0 else 1) + UndecidedCount(nodes[1..], s)
  }

  /** Each undecided node may still relay once, to b receivers. */
  function Measure(net: Net, s: int, b: nat): nat
  {
    UndecidedCount(net.nodes, s) * (b * (1 + b)) + FlightCost(net.flight, s, b)
  }

  lemma {:induction false} FlightCostSplit(f: seq<Delivery>, g: seq<Delivery>, s: int, b: nat)
    ensures FlightCost(f + g, s, b) == FlightCost(f, s, b) + FlightCost(g, s, b)
    decreases |f|
  {
    if f == [] {
      assert f + g == g;
    } else {
      assert (f + g)[1..] == f[1..] + g;
      FlightCostSplit(f[1..], g, s, b);
    }
  }

  lemma FlightCostWithout(f: seq<Delivery>, i: nat, s: int, b: nat)
    requires i < |f|
    ensures FlightCost(f, s, b) == FlightCost(Without(f, i), s, b) + Cost(f[i], s, b)
  {
    assert f == f[..i] + ([f[i]] + f[i + 1..]);
    FlightCostSplit(f[..i], [f[i]] + f[i + 1..], s, b);
    FlightCostSplit(f[..i], f[i + 1..], s, b);
  }

  lemma {:induction false} FlightCostBound(out: seq<Delivery>, s: int, b: nat, each: nat)
    requires forall i :: 0 <= i < |out| ==> Cost(out[i], s, b) <= each
    ensures FlightCost(out, s, b) <= |out| * each
    decreases |out|
  {
    if out != [] {
      FlightCostBound(out[1..], s, b, each);
      assert |out| * each == each + (|out| - 1) * each;
    }
  }

  lemma {:induction false} UndecidedUpdate(nodes: seq<History>, n: nat, h: History, s: int)
    requires n < |nodes|
    ensures UndecidedCount(nodes[n := h], s)
         == UndecidedCount(nodes, s) + (if DecidedAt(h, s) then 0 else 1) - (if DecidedAt(nodes[n], s) then 0 else 1)
    decreases |nodes|
  {
    hide DecidedAt;
    if n == 0 {
      assert nodes[n := h][1..] == nodes[1..];
    } else {
      assert nodes[n := h][1..] == nodes[1..][n - 1 := h];
      UndecidedUpdate(nodes[1..], n - 1, h, s);
    }
  }

  /** Sending copies of the relayed one costs at most b times one of them. */
  lemma SendCost(out: seq<Delivery>, n: nat, c: Copy, size: nat, s: int, b: nat)
    requires Sends(out, n, c, size, b)
    ensures FlightCost(out, s, b) <= b * (if c.seqno != s then 0 else if c.uni then 1 else 1 + b)
  {
    var each := if c.seqno != s then 0 else if c.uni then 1 else 1 + b;
    forall i | 0 <= i < |out| ensures Cost(out[i], s, b) <= each {
      assert SentTo(out[i], Trailed(c, n), size);
    }
    FlightCostBound(out, s, b, each);
    MulMono(|out|, b, each);
  }

  /** 1 if the move handles a copy of generation s. */
  function Handles(net: Net, m: Move, s: int): nat
  {
    if m.Handle? && m.at < |net.flight| && net.flight[m.at].copy.seqno == s then 1 else 0
  }

  /** Handling a copy of s uses up the measure of s; no other move adds to it. */
  lemma StepCosts(net: Net, m: Move, s: int, b: nat)
    requires Valid(net) && Possible(net, m, b) && (m.Originate? ==> m.seqno != s)
    ensures Measure(Next(net, m), s, b) + Handles(net, m, s) <= Measure(net, s, b)
  {
    hide Faithful, Admissible, Process, DecidedAt, Sound, Trailed, FlightCost, UndecidedCount, Sends;
    match m
    case Originate(seqno, ttl, out) =>
      FlightCostSplit(net.flight, out, s, b);
      SendCost(out, 0, Copy(seqno, ttl, false, false, false, []), |net.nodes|, s, b);
    case Handle(at, env, out) =>
      var d := net.flight[at];
      var h' := Process(net.nodes[d.to], d, d.to == 0, env).0;
      ProcessSpec(net.nodes[d.to], d, d.to == 0, env);
      FlightCostWithout(net.flight, at, s, b);
      FlightCostSplit(Without(net.flight, at), out, s, b);
      UndecidedUpdate(net.nodes, d.to, h', s);
      var sent := Sent(net, m);
      if sent.Some? { SendCost(out, d.to, sent.value, |net.nodes|, s, b); }
      assert sent.None? ==> FlightCost(out, s, b) == 0 by { NoCost(s, b); }
      var u, u' := UndecidedCount(net.nodes, s), UndecidedCount(net.nodes[d.to := h'], s);
      if sent.Some? && !sent.value.uni && d.copy.seqno == s {
        assert u == u' + 1;
        assert u * (b * (1 + b)) == u' * (b * (1 + b)) + b * (1 + b);
      } else {
        MulMono(u', u, b * (1 + b));
      }
    case Aside(n, e) =>
      AsideSpec(net.nodes[n], e);
      UndecidedUpdate(net.nodes, n, Extend(net.nodes[n], e), s);
  }

  lemma NoCost(s: int, b: nat)
    ensures FlightCost([], s, b) == 0
  {
  }

  // ----- runs -----

  ghost predicate Runs(net: Net, ms: seq<Move>, b: nat, end: Net)
    decreases |ms|
  {
    if ms == [] then end == net else Possible(net, ms[0], b) && Runs(Next(net, ms[0]), ms[1..], b, end)
  }

  /** How many copies of generation s are handled in a run. */
  ghost function Handled(net: Net, ms: seq<Move>, b: nat, end: Net, s: int): nat
    requires Runs(net, ms, b, end)
    decreases |ms|
  {
    if ms == [] then 0 else Handles(net, ms[0], s) + Handled(Next(net, ms[0]), ms[1..], b, end, s)
  }

  /** 1 if in this move node n relays a copy of s as best path. */
  ghost function Relays(net: Net, m: Move, b: nat, n: nat, s: int): nat
    requires Possible(net, m, b)
  {
    if m.Handle? && net.flight[m.at].to == n && net.flight[m.at].copy.seqno == s && Sent(net, m).Some?
        && !Sent(net, m).value.uni
    then 1 else 0
  }

  ghost function Relayed(net: Net, ms: seq<Move>, b: nat, end: Net, n: nat, s: int): nat
    requires Runs(net, ms, b, end)
    decreases |ms|
  {
    if ms == [] then 0 else Relays(net, ms[0], b, n, s) + Relayed(Next(net, ms[0]), ms[1..], b, end, n, s)
  }

  /**
   In a run with any number of generations, on any topology, the copies of generation s that
   are handled after it was sent are bounded by what is in flight and undecided at the start.
   */
  lemma {:induction false} FloodingEnds(net: Net, ms: seq<Move>, b: nat, end: Net, s: int)
    requires Valid(net) && Runs(net, ms, b, end)
    requires forall m :: m in ms && m.Originate? ==> m.seqno != s
    ensures Valid(end) && Handled(net, ms, b, end, s) + Measure(end, s, b) <= Measure(net, s, b)
    decreases |ms|
  {
    hide Valid, Measure, Handles, Sends, Admissible, Sent;
    if ms != [] {
      StepKeepsValid(net, ms[0], b);
      StepCosts(net, ms[0], s, b);
      FloodingEnds(Next(net, ms[0]), ms[1..], b, end, s);
    }
  }

  /** A node relays a generation as best path at most once, and never after it has decided on it. */
  lemma {:induction false} OneRelayPerNode(net: Net, ms: seq<Move>, b: nat, end: Net, n: nat, s: int)
    requires Valid(net) && Runs(net, ms, b, end) && n < |net.nodes|
    ensures Relayed(net, ms, b, end, n, s) <= if DecidedAt(net.nodes[n], s) then 0 else 1
    decreases |ms|
  {
    if ms != [] {
      hide Sound, Faithful, Admissible, Process, DecidedAt, Sends;
      StepKeepsValid(net, ms[0], b);
      if ms[0].Handle? {
        var d := net.flight[ms[0].at];
        ProcessSpec(net.nodes[d.to], d, d.to == 0, ms[0].env);
      }
      if ms[0].Aside? { AsideSpec(net.nodes[ms[0].n], ms[0].e); }
      OneRelayPerNode(Next(net, ms[0]), ms[1..], b, end, n, s);
    }
  }

  /** A copy has passed at most as many relays as there are nodes. */
  lemma TrailShort(net: Net, i: nat)
    requires Valid(net) && i < |net.flight|
    ensures |net.flight[i].copy.trail| <= |net.nodes|
  {
    var t := net.flight[i].copy.trail;
    assert Sound(net.nodes, net.flight[i].copy);
    DistinctBelow(t, |net.nodes|);
    hide Faithful;
  }

  function Elements(t: seq<nat>): set<nat> { set x | x in t }

  function Below(n: nat): (r: set<nat>)
    ensures |r| == n && forall k: nat :: k in r <==> k < n
  {
    if n == 0 then {} else Below(n - 1) + {n - 1}
  }

  lemma DistinctBelow(t: seq<nat>, n: nat)
    requires forall i, j :: 0 <= i < j < |t| ==> t[i] != t[j]
    requires forall i :: 0 <= i < |t| ==> t[i] < n
    ensures |t| <= n
  {
    SetSize(t);
    SubsetSize(Elements(t), Below(n));
  }

  lemma {:induction false} SetSize(t: seq<nat>)
    requires forall i, j :: 0 <= i < j < |t| ==> t[i] != t[j]
    ensures |Elements(t)| == |t|
    decreases |t|
  {
    if t != [] {
      var rest := t[1..];
      SetSize(rest);
      assert t[0] !in rest;
      assert Elements(t) == {t[0]} + Elements(rest);
    }
  }

  /** A generation that has just been sent costs at most this many handled copies. */
  lemma FreshGeneration(net: Net, s: int, ttl: nat, out: seq<Delivery>, b: nat)
    requires Possible(net, Originate(s, ttl, out), b)
    requires forall i :: 0 <= i < |net.flight| ==> net.flight[i].copy.seqno != s
    ensures Measure(Next(net, Originate(s, ttl, out)), s, b) <= (|net.nodes| + 1) * (b * (1 + b))
  {
    FlightCostSplit(net.flight, out, s, b);
    SendCost(out, 0, Copy(s, ttl, false, false, false, []), |net.nodes|, s, b);
    FlightCostBound(net.flight, s, b, 0);
    UndecidedBound(net.nodes, s);
    MulMono(UndecidedCount(net.nodes, s), |net.nodes|, b * (1 + b));
  }

  lemma {:induction false} UndecidedBound(nodes: seq<History>, s: int)
    ensures UndecidedCount(nodes, s) <= |nodes|
  {
    if nodes != [] { UndecidedBound(nodes[1..], s); }
  }

  lemma InitiallyValid(windows: seq<nat>)
    requires windows != [] && forall i :: 0 <= i < |windows| ==> 0 < windows[i] <= MAX_SEQNO
    ensures Valid(Net(seq(|windows|, i requires 0 <= i < |windows| => Begin(windows[i])), []))
  {
  }

  /**
   Once a generation has been sent into a valid network it dies out: at most
   (N + 1) * b * (1 + b) of its copies are ever handled, whatever else goes on.
   */
  lemma GenerationEnds(net: Net, s: int, ttl: nat, out: seq<Delivery>, ms: seq<Move>, b: nat, end: Net)
    requires Valid(net) && Possible(net, Originate(s, ttl, out), b)
    requires forall i :: 0 <= i < |net.flight| ==> net.flight[i].copy.seqno != s
    requires Runs(Next(net, Originate(s, ttl, out)), ms, b, end)
    requires forall m :: m in ms && m.Originate? ==> m.seqno != s
    ensures Handled(Next(net, Originate(s, ttl, out)), ms, b, end, s) <= (|net.nodes| + 1) * (b * (1 + b))
  {
    hide *;
    StepKeepsValid(net, Originate(s, ttl, out), b);
    FloodingEnds(Next(net, Originate(s, ttl, out)), ms, b, end, s);
    FreshGeneration(net, s, ttl, out, b);
  }
}
