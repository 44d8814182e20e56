/**
 The 16-bit sequence number windows of `originator.c`: which OGM of an originator
 is too old, new, acceptable, out of order via a neighbour, or already decided.
 */
module Seqno {
  import opened Arith
  import opened Wrap16
  import Metrics

  const MAX_SEQNO: nat := 65535
  const OGI_WAVG_EXP: nat := 3
  const DEF_OGI: nat := 1000
  const MIN_OGI: nat := 50

  /** The sequence numbers one node remembers about one originator. `considered`
      holds last_considered_seqno per neighbour; `time` is last_valid_time; `wavg` is the
      weighted average of the originator's interval and `wavgSqn` the number it was updated with. */
  datatype View = View(time: nat, valid: nat, decided: nat, considered: map<nat, nat>, pws: nat, wavg: nat,
                       wavgSqn: nat)

  /** What else decides about an incoming OGM: the configured lounge, window and duplicate-address
      timeout, the clock, the outcome of validate_primary_orig, the comparison of the path metrics,
      and the window size the OGM carries, which is taken over if it came via the best neighbour. */
  datatype Ctx = Ctx(lounge: nat, myPws: nat, now: nat, dadTo: nat,
                     primaryOk: bool, best: bool, takesPws: bool, ogmPws: nat)

  predicate Known(v: View) { v.time != 0 || v.valid != 0 }

  /** validate_orig_seqno, the test for outdated numbers. */
  predicate Outdated(v: View, s: nat, c: Ctx)
    requires v.pws <= MAX_SEQNO
  {
    W16(s + c.lounge - v.valid) > MAX_SEQNO - v.pws
  }

  /** What validate_orig_seqno divides by. */
  function Divisor(v: View): nat
  {
    var avg := Metrics.Wavg(v.wavg, OGI_WAVG_EXP);
    if avg < MIN_OGI then avg else MIN_OGI
  }

  /** The division by zero in validate_orig_seqno, which stops the daemon. */
  predicate Traps(v: View, s: nat, c: Ctx)
    requires v.pws <= MAX_SEQNO
  {
    Known(v) && !Outdated(v, s, c) && Divisor(v) == 0
  }

  /** How far ahead a number may be while the originator has been heard of lately. */
  function DadLimit(v: View, c: Ctx): nat
    requires Divisor(v) > 0
  {
    1000 * c.dadTo / Divisor(v)
  }

  /** validate_orig_seqno, the duplicate address alarm. */
  predicate DadAlert(v: View, s: nat, c: Ctx)
    requires Divisor(v) > 0
  {
    W16(s + c.lounge - v.valid) > c.lounge + DadLimit(v, c) && c.now < v.time + 1000 * c.dadTo
  }

  /** process_ogm, the interval since the last new number: the elapsed time by the difference of the numbers.
      The difference is a signed number that the division converts to a huge one if it is negative. */
  function Interval(elapsed: nat, s: nat, last: nat): nat { if s > last then elapsed / (s - last) else 0 }

  /** process_ogm, the average of the intervals when a new number comes in. */
  function Averaged(v: View, s: nat, now: nat): View
  {
    if v.time == 0 || v.time >= now then v
    else if W16(s - (v.wavgSqn + 1)) < v.pws then
      v.(wavg := Metrics.NextWavg(v.wavg, Interval(now - v.time, s, v.wavgSqn), OGI_WAVG_EXP), wavgSqn := s)
    else v.(wavgSqn := s)
  }

  /** validate_considered_order, the test for a number already considered via neighbour k. */
  predicate OutOfOrder(v: View, k: nat, s: nat, c: Ctx)
    requires c.myPws <= MAX_SEQNO
  {
    k in v.considered && (s == v.considered[k] || W16(s - v.considered[k]) > MAX_SEQNO - c.myPws)
  }

  /** process_ogm: IS_NEW. */
  predicate IsNew(v: View, s: nat) { W16(v.valid - s) >= v.pws }

  /** process_ogm: IS_ACCEPTABLE. */
  predicate IsAcceptable(v: View, s: nat, c: Ctx) { !IsNew(v, s) && W16(v.valid - s) <= c.lounge }

  /** update_orig: not yet decided. */
  predicate Undecided(v: View, s: nat) { W16(v.decided - s) >= v.pws }

  /** What becomes of an OGM, in the order of process_ogm. */
  datatype Outcome = Dropped | Stopped | Repeated | Processed(isNew: bool, acceptable: bool, relayed: bool)

  /** validate_orig_seqno leaves an originator that it does not know with the number it has heard. */
  function Noted(v: View, s: nat, now: nat): View { if Known(v) then v else v.(valid := s, time := now) }

  /** process_ogm and update_orig, when the number has been found to be in order. */
  function Recorded(v: View, s: nat, c: Ctx): (View, Outcome)
  {
    var isNew := IsNew(v, s);
    var v1 := if isNew then Averaged(v, s, c.now).(valid := s, time := c.now) else v;
    var relayed := c.best && Undecided(v1, s);
    var v2 := if relayed then v1.(decided := s) else v1;
    (if c.takesPws then v2.(pws := c.ogmPws) else v2, Processed(isNew, IsAcceptable(v, s, c), relayed))
  }

  function Receive(v: View, k: nat, s: nat, c: Ctx): (View, Outcome)
    requires v.pws <= MAX_SEQNO && c.myPws <= MAX_SEQNO
  {
    if Traps(v, s, c) then (v, Stopped)
    else if Known(v) && (Outdated(v, s, c) || DadAlert(v, s, c)) then (v, Dropped)
    else
      var n := Noted(v, s, c.now);
      if !c.primaryOk then (n, Dropped)
      else if OutOfOrder(n, k, s, c) then (n, Repeated)
      else Recorded(n.(considered := n.considered[k := s]), s, c)
  }

  /** The originator record with the fields that `originator.c` updates in place. */
  class OrigNode {
    var lastValidTime: nat
    var lastValidSqn: nat
    var lastDecidedSqn: nat
    var considered: map<nat, nat>
    var pws: nat
    var ogiWavg: nat
    var lastWavgSqn: nat

    /** get_orig_node: the average starts with the default interval. */
    constructor (myPws: nat)
      ensures Value() == Fresh(myPws)
    {
      lastValidTime, lastValidSqn, lastDecidedSqn, considered, pws := 0, 0, 0, map[], myPws;
      ogiWavg, lastWavgSqn := Metrics.NextWavg(0, DEF_OGI, OGI_WAVG_EXP), 0;
    }

    function Value(): View
      reads this
    {
      View(lastValidTime, lastValidSqn, lastDecidedSqn, considered, pws, ogiWavg, lastWavgSqn)
    }

    method ValidateOrigSeqno(s: nat, c: Ctx) returns (ok: bool)
      requires pws <= MAX_SEQNO && !Traps(Value(), s, c)
      modifies this`lastValidSqn, this`lastValidTime
      ensures var v := old(Value());
        && ok == !(Known(v) && (Outdated(v, s, c) || DadAlert(v, s, c)))
        && Value() == Noted(v, s, c.now)
    {
      if lastValidTime != 0 || lastValidSqn != 0 {
        if W16(s + c.lounge - lastValidSqn) > MAX_SEQNO - pws {
          return false;
        }
        var avg := Metrics.Wavg(ogiWavg, OGI_WAVG_EXP);
        var divisor := if avg < MIN_OGI then avg else MIN_OGI;
        if W16(s + c.lounge - lastValidSqn) > c.lounge + 1000 * c.dadTo / divisor
           && c.now < lastValidTime + 1000 * c.dadTo {
          return false;
        }
      } else {
        lastValidSqn := s;
        lastValidTime := c.now;
      }
      return true;
    }

    method ValidateConsideredOrder(k: nat, s: nat, c: Ctx) returns (ok: bool)
      requires c.myPws <= MAX_SEQNO
      modifies this`considered
      ensures var v := old(Value());
        && ok == !OutOfOrder(v, k, s, c)
        && Value() == if ok then v.(considered := v.considered[k := s]) else v
    {
      if k in considered {
        if s == considered[k] {
          return false;
        } else if W16(s - considered[k]) > MAX_SEQNO - c.myPws {
          return false;
        }
      }
      considered := considered[k := s];
      return true;
    }

    method ProcessOgm(k: nat, s: nat, c: Ctx) returns (o: Outcome)
      requires pws <= MAX_SEQNO && c.myPws <= MAX_SEQNO && !Traps(Value(), s, c)
      modifies this
      ensures (Value(), o) == Receive(old(Value()), k, s, c)
    {
      hide W16, Outdated, DadAlert, Divisor;
      var ok := ValidateOrigSeqno(s, c);
      if !ok || !c.primaryOk {
        return Dropped;
      }
      ok := ValidateConsideredOrder(k, s, c);
      if !ok {
        return Repeated;
      }
      var isNew, acceptable, relayed := false, false, false;
      if W16(lastValidSqn - s) >= pws {
        isNew := true;
        if lastValidTime != 0 && lastValidTime < c.now {
          if W16(s - (lastWavgSqn + 1)) < pws {
            var avg;
            ogiWavg, avg := UpdateInterval(c.now - lastValidTime, s);
          }
          lastWavgSqn := s;
        }
        lastValidSqn := s;
        lastValidTime := c.now;
      } else if W16(lastValidSqn - s) <= c.lounge {
        acceptable := true;
      }
      if c.best && W16(lastDecidedSqn - s) >= pws {
        lastDecidedSqn := s;
        relayed := true;
      }
      if c.takesPws {
        pws := c.ogmPws;
      }
      return Processed(isNew, acceptable, relayed);
    }

    method UpdateInterval(elapsed: nat, s: nat) returns (wavg: nat, avg: nat)
      ensures wavg == Metrics.NextWavg(ogiWavg, Interval(elapsed, s, lastWavgSqn), OGI_WAVG_EXP)
    {
      wavg, avg := Metrics.UpdWavg(ogiWavg, Interval(elapsed, s, lastWavgSqn), OGI_WAVG_EXP);
    }
  }

  /** What get_orig_node creates. */
  function Fresh(myPws: nat): View
  {
    View(0, 0, 0, map[], myPws, Metrics.NextWavg(0, DEF_OGI, OGI_WAVG_EXP), 0)
  }

  // ---------------------------------------------------------------------------
  // Unbounded numbers

  /** S lies in the 65536 numbers around L that the window tests can tell apart. */
  predicate InWindow(S: int, L: int, lounge: nat, pws: nat)
  {
    L - lounge - pws <= S <= L - lounge + MAX_SEQNO - pws
  }

  /** Rejected, new and acceptable mean older than last - lounge, greater than last, and between. */
  ghost predicate Classified(S: int, L: int, v: View, c: Ctx)
    requires v.pws <= MAX_SEQNO
  {
    var s := W16(S);
    && (Outdated(v, s, c) <==> S < L - c.lounge)
    && (!Outdated(v, s, c) ==>
      && (IsNew(v, s) <==> S > L)
      && (IsAcceptable(v, s, c) <==> L - c.lounge <= S <= L)
      && (Divisor(v) > 0 ==> (DadAlert(v, s, c) <==> S > L + DadLimit(v, c) && c.now < v.time + 1000 * c.dadTo)))
  }

  lemma WindowNew(S: int, L: int, lounge: nat, pws: nat)
    requires pws <= MAX_SEQNO && InWindow(S, L, lounge, pws) && S >= L - lounge && lounge < TP16
    ensures W16(W16(L) - W16(S)) == if S <= L then L - S else L - S + TP16
  {
  }

  /** With a lounge smaller than the window the 16-bit tests are the comparisons they stand for. */
  lemma ClassifiesInWindow(S: int, L: int, v: View, c: Ctx)
    requires v.pws <= MAX_SEQNO && v.valid == W16(L) && c.lounge < v.pws && InWindow(S, L, c.lounge, v.pws)
    ensures Classified(S, L, v, c)
  {
    hide Divisor, DadLimit;
    if S >= L - c.lounge { WindowNew(S, L, c.lounge, v.pws); }
  }

  /** And only then: a lounge of at least the window, which the option ranges allow
      (lounge up to 31, window from 10), takes an old number for a new one. */
  lemma ClassifiesExactly(L: int, v: View, c: Ctx)
    requires v.pws <= MAX_SEQNO && v.valid == W16(L) && c.lounge + v.pws < TP16
    ensures (forall S :: InWindow(S, L, c.lounge, v.pws) ==> Classified(S, L, v, c)) <==> c.lounge < v.pws
  {
    if c.lounge < v.pws {
      forall S | InWindow(S, L, c.lounge, v.pws)
        ensures Classified(S, L, v, c)
      {
        ClassifiesInWindow(S, L, v, c);
      }
    } else {
      var S := L - v.pws;
      WindowNew(S, L, c.lounge, v.pws);
      assert InWindow(S, L, c.lounge, v.pws);
      assert !Classified(S, L, v, c);
    }
  }

  lemma OldNumberTakenForNew()
    ensures var v, c := View(1, 500, 0, map[], 10, 8000, 500), Ctx(31, 10, 2, 100, true, false, false, 10);
      var (v', o) := Receive(v, 1, 490, c);
      v.valid == 500 && o == Processed(true, false, false) && v'.valid == 490
  {
  }

  /** The order test via one neighbour is "greater than the last one considered". */
  lemma OrderInWindow(S: int, C: int, k: nat, v: View, c: Ctx)
    requires k in v.considered && v.considered[k] == W16(C) && c.myPws <= MAX_SEQNO
    requires 0 - c.myPws <= S - C <= MAX_SEQNO - c.myPws
    ensures OutOfOrder(v, k, W16(S), c) <==> S <= C
  {
  }

  /** The decision test is "greater than the last one decided". */
  lemma DecisionInWindow(S: int, D: int, v: View)
    requires v.decided == W16(D) && 0 < v.pws <= MAX_SEQNO && 0 - v.pws < S - D <= TP16 - v.pws
    ensures Undecided(v, W16(S)) <==> S > D
  {
  }

  // ---------------------------------------------------------------------------
  // The division by the average interval

  /** The tests that an OGM of an originator passes if its number is taken for new. */
  predicate PassesAsNew(v: View, k: nat, s: nat, c: Ctx)
    requires v.pws <= MAX_SEQNO && c.myPws <= MAX_SEQNO
  {
    && !Outdated(v, s, c) && Divisor(v) > 0 && !DadAlert(v, s, c)
    && c.primaryOk && !OutOfOrder(v, k, s, c) && IsNew(v, s)
  }

  /** The average is lost exactly when it stands at its least value and a new number comes in, within
      the window, after fewer milliseconds than it is ahead, or with the 16 bits having wrapped around. */
  lemma AverageLost(v: View, k: nat, s: nat, c: Ctx)
    requires v.pws <= MAX_SEQNO && c.myPws <= MAX_SEQNO && Metrics.Wavg(v.wavg, OGI_WAVG_EXP) >= 1
    requires v.wavg + c.now < Metrics.TP32
    ensures Metrics.Wavg(Receive(v, k, s, c).0.wavg, OGI_WAVG_EXP) == 0 <==>
        && PassesAsNew(v, k, s, c) && 0 < v.time < c.now && W16(s - (v.wavgSqn + 1)) < v.pws
        && v.wavg == 8 && (s > v.wavgSqn ==> c.now - v.time < s - v.wavgSqn)
  {
    DivisorPositive(v);
    hide W16, Outdated, DadAlert, OutOfOrder, Undecided, IsAcceptable, IsNew;
    AveragedLost(v, s, c.now);
    if !Known(v) { AveragedLost(v.(valid := s, time := c.now), s, c.now); }
    var n := Noted(v, s, c.now);
    SameTests(n, n.(considered := n.considered[k := s]), s, c.now);
  }

  lemma AveragedLost(v: View, s: nat, now: nat)
    requires Metrics.Wavg(v.wavg, OGI_WAVG_EXP) >= 1 && v.wavg + now < Metrics.TP32
    ensures Metrics.Wavg(Averaged(v, s, now).wavg, OGI_WAVG_EXP) == 0 <==>
      && 0 < v.time < now && W16(s - (v.wavgSqn + 1)) < v.pws
      && v.wavg == 8 && (s > v.wavgSqn ==> now - v.time < s - v.wavgSqn)
  {
    if 0 < v.time < now {
      IntervalZero(now - v.time, s, v.wavgSqn);
      Metrics.AverageWearsOut(v.wavg, Interval(now - v.time, s, v.wavgSqn), OGI_WAVG_EXP);
    }
  }

  lemma IntervalZero(elapsed: nat, s: nat, last: nat)
    ensures Interval(elapsed, s, last) == 0 <==> (s > last ==> elapsed < s - last)
    ensures Interval(elapsed, s, last) <= elapsed
  {
    if s > last {
      var d: nat := s - last;
      if elapsed >= d { DivAtLeast(elapsed, d, 1); } else { DivBelow(elapsed, d, 1); }
      QuotientAtMost(elapsed, d);
    }
  }

  /** The originator is heard of via k at a number that is two ahead, one millisecond later, and so on. */
  function Hurried(v: View, k: nat, c: Ctx, n: nat): View
    requires v.pws <= MAX_SEQNO && c.myPws <= MAX_SEQNO && !c.takesPws
    ensures Hurried(v, k, c, n).pws == v.pws
  {
    if n == 0 then v
    else
      var u := Hurried(v, k, c, n - 1);
      Receive(u, k, W16(u.valid + 2), c.(now := u.time + 1)).0
  }

  /** What such a neighbour finds, whenever it sends. */
  predicate Hurry(v: View, k: nat, c: Ctx)
  {
    && v.time > 0 && v.valid < TP16 && v.wavgSqn == v.valid && v.wavg < Metrics.TP32
    && k in v.considered && v.considered[k] == v.valid && 10 <= v.pws <= 250
    && c.lounge <= 31 && 10 <= c.myPws <= 250 && c.dadTo > 0 && c.primaryOk && !c.takesPws
  }

  /** Such an OGM is neither old nor alarming, in order and new. */
  lemma HurryIsNew(v: View, k: nat, c: Ctx)
    requires Hurry(v, k, c) && Divisor(v) > 0
    ensures var s, d := W16(v.valid + 2), c.(now := v.time + 1);
      && !Outdated(v, s, d) && !DadAlert(v, s, d) && !OutOfOrder(v, k, s, d) && IsNew(v, s)
      && Averaged(v, s, d.now).wavg == Metrics.NextWavg(v.wavg, 0, OGI_WAVG_EXP) && Averaged(v, s, d.now).wavgSqn == s
  {
    hide Divisor, Metrics.NextWavg, Interval;
    var s, d := W16(v.valid + 2), c.(now := v.time + 1);
    assert W16(s + d.lounge - v.valid) == 2 + d.lounge;
    DivisorSmall(v);
    DivAtLeast(1000 * d.dadTo, Divisor(v), 2);
    assert W16(v.valid - s) == TP16 - 2 && W16(s - v.considered[k]) == 2 && W16(s - (v.wavgSqn + 1)) == 1;
    IntervalZero(1, s, v.wavgSqn);
  }

  lemma HurryStep(v: View, k: nat, c: Ctx)
    requires Hurry(v, k, c) && Divisor(v) > 0
    ensures var (u, o) := Receive(v, k, W16(v.valid + 2), c.(now := v.time + 1));
      o.Processed? && Hurry(u, k, c) && u.pws == v.pws && u.wavg == Metrics.NextWavg(v.wavg, 0, OGI_WAVG_EXP)
  {
    hide Divisor, Metrics.NextWavg, W16, Outdated, DadAlert, OutOfOrder, IsNew, IsAcceptable, Undecided;
    var s, d := W16(v.valid + 2), c.(now := v.time + 1);
    HurryIsNew(v, k, c);
    var n := v.(considered := v.considered[k := s]);
    SameTests(v, n, s, d.now);
    Metrics.NextWavgFits(v.wavg, 0, OGI_WAVG_EXP);
  }

  /** The numbers considered have no part in the tests on what is new. */
  lemma SameTests(v: View, n: View, s: nat, now: nat)
    requires n == v.(considered := n.considered)
    ensures (IsNew(n, s) <==> IsNew(v, s)) && Averaged(n, s, now).wavg == Averaged(v, s, now).wavg
    ensures Averaged(n, s, now) == Averaged(v, s, now).(considered := n.considered)
  {
  }

  lemma DivisorSmall(v: View)
    ensures 2 * Divisor(v) <= 1000
  {
  }

  lemma TrapsNow(v: View, k: nat, c: Ctx)
    requires Hurry(v, k, c) && Divisor(v) == 0
    ensures Receive(v, k, W16(v.valid + 2), c.(now := v.time + 1)).1 == Stopped
  {
    hide Divisor;
    assert W16(W16(v.valid + 2) + c.lounge - v.valid) == 2 + c.lounge;
  }

  /** In this way the divisor reaches zero, whatever the average was. */
  lemma {:induction false} HurryTraps(v: View, k: nat, c: Ctx) returns (n: nat)
    requires Hurry(v, k, c)
    ensures var u := Hurried(v, k, c, n);
      Receive(u, k, W16(u.valid + 2), c.(now := u.time + 1)).1 == Stopped
    decreases v.wavg
  {
    hide Receive, W16, Divisor, Hurried;
    if Divisor(v) == 0 {
      n := 0;
      TrapsNow(v, k, c);
      HurriedMore(v, k, c, 0);
    } else {
      HurryStep(v, k, c);
      var u := Receive(v, k, W16(v.valid + 2), c.(now := v.time + 1)).0;
      DivisorPositive(v);
      Metrics.ZeroProbeLess(v.wavg, OGI_WAVG_EXP);
      var m := HurryTraps(u, k, c);
      HurriedMore(v, k, c, m);
      n := m + 1;
    }
  }

  lemma DivisorPositive(v: View)
    ensures Divisor(v) > 0 <==> Metrics.Wavg(v.wavg, OGI_WAVG_EXP) > 0
  {
  }

  lemma {:induction false} HurriedMore(v: View, k: nat, c: Ctx, n: nat)
    requires v.pws <= MAX_SEQNO && c.myPws <= MAX_SEQNO && !c.takesPws
    ensures Hurried(v, k, c, 0) == v
    ensures var u := Receive(v, k, W16(v.valid + 2), c.(now := v.time + 1)).0;
      u.pws == v.pws && Hurried(v, k, c, n + 1) == Hurried(u, k, c, n)
  {
    hide Receive;
    assert Hurried(v, k, c, 0) == v;
    assert Hurried(v, k, c, 1).pws == v.pws;
    if n > 0 { HurriedMore(v, k, c, n - 1); }
  }

  // ---------------------------------------------------------------------------
  // Runs

  /** An OGM with true sequence number `seqno`, heard from neighbour `via`; an OGM of another interface
      that names this originator as primary one, with its number; the loss of a neighbour, or of the
      originator, to a purge. */
  datatype Event =
    | Ogm(via: nat, seqno: int, ctx: Ctx)
    | Named(seqno: int, now: nat)
    | Forget(via: nat)
    | Purged(myPws: nat)

  /** A node's 16-bit view together with the true history since the originator is in the table: the
      last valid number, the numbers considered per neighbour since the neighbour is there, and the
      numbers decided. */
  datatype History = History(view: View, valid: int, considered: map<nat, seq<int>>, decided: seq<int>)

  function Begin(myPws: nat): History { History(Fresh(myPws), 0, map[], []) }

  function Log(h: History, k: nat): seq<int> { if k in h.considered then h.considered[k] else [] }

  function Extend(h: History, e: Event): History
    requires h.view.pws <= MAX_SEQNO && (e.Ogm? ==> e.ctx.myPws <= MAX_SEQNO)
  {
    match e
    case Ogm(via, seqno, ctx) =>
      var (v, o) := Receive(h.view, via, W16(seqno), ctx);
      History(v,
              if !Known(h.view) || (o.Processed? && o.isNew) then seqno else h.valid,
              if o.Processed? then h.considered[via := Log(h, via) + [seqno]] else h.considered,
              if o.Processed? && o.relayed then h.decided + [seqno] else h.decided)
    case Named(seqno, now) =>
      h.(view := Noted(h.view, W16(seqno), now), valid := if Known(h.view) then h.valid else seqno)
    case Forget(via) =>
      h.(view := h.view.(considered := h.view.considered - {via}), considered := h.considered - {via})
    case Purged(myPws) => Begin(myPws)
  }

  /** What is assumed of the environment: windows within the ranges of the code, a
      lounge below them, a running clock, and arrivals in the window of 65536 numbers. */
  ghost predicate Admissible(h: History, e: Event)
  {
    match e
    case Ogm(via, seqno, ctx) =>
      && ctx.lounge < h.view.pws && ctx.lounge <= ctx.myPws <= MAX_SEQNO
      && 0 < ctx.now && 0 < ctx.ogmPws <= MAX_SEQNO
      && (Known(h.view) ==> InWindow(seqno, h.valid, ctx.lounge, h.view.pws))
    case Named(_, now) => 0 < now
    case Forget(_) => true
    case Purged(myPws) => 0 < myPws <= MAX_SEQNO
  }

  ghost predicate Increasing(s: seq<int>)
  {
    forall i, j :: 0 <= i < j < |s| ==> s[i] < s[j]
  }

  /** Via each neighbour the considered numbers strictly increase. */
  ghost predicate IncreasingPerNeighbour(logs: map<nat, seq<int>>)
  {
    forall k :: k in logs ==> Increasing(logs[k])
  }

  ghost predicate AtMost(s: seq<int>, x: int) { forall i :: 0 <= i < |s| ==> s[i] <= x }

  /** The 16-bit numbers are those of the true history. */
  ghost predicate Agrees(h: History)
  {
    var v := h.view;
    && 0 < v.pws <= MAX_SEQNO
    && (Known(v) ==> v.valid == W16(h.valid))
    && (!Known(v) ==> v.considered == map[] && h.decided == [])
    && v.decided == W16(LastDecided(h))
  }

  /** The last number decided; the field is 0 until there is one. */
  function LastDecided(h: History): int { if h.decided == [] then 0 else h.decided[|h.decided| - 1] }

  ghost predicate LastConsidered(h: History)
  {
    && h.considered.Keys == h.view.considered.Keys
    && forall k :: k in h.considered ==>
      var s := h.considered[k]; s != [] && h.view.considered[k] == W16(s[|s| - 1])
  }

  /** Nothing decided or considered is newer than the last valid number, and the logs increase. */
  ghost predicate Ordered(h: History)
  {
    && AtMost(h.decided, h.valid)
    && (forall k :: k in h.considered ==> AtMost(h.considered[k], h.valid))
    && Increasing(h.decided) && IncreasingPerNeighbour(h.considered)
  }

  ghost predicate Faithful(h: History)
  {
    Agrees(h) && LastConsidered(h) && Ordered(h)
  }

  ghost predicate Run(h: History, events: seq<Event>, h': History)
    decreases |events|
  {
    if events == [] then h' == h
    else
      var last := events[|events| - 1];
      exists m :: Run(h, events[..|events| - 1], m) && Admissible(m, last)
        && m.view.pws <= MAX_SEQNO && h' == Extend(m, last)
  }

  /** In 16 bits, S is not after C: it is older, or so much newer that it comes round to the window below C. */
  predicate SeemsOld(S: int, C: int, window: nat)
  {
    S <= C || (S - C) % TP16 == 0 || (S - C) % TP16 >= TP16 - window
  }

  /** What becomes of an OGM, in the true numbers. */
  ghost predicate Verdict(h: History, e: Event, o: Outcome)
    requires e.Ogm?
  {
    var v, c, S, L := h.view, e.ctx, e.seqno, if Known(h.view) then h.valid else e.seqno;
    var log := Log(h, e.via);
    var avg := Metrics.Wavg(v.wavg, OGI_WAVG_EXP);
    var divisor := if avg < MIN_OGI then avg else MIN_OGI;
    if Known(v) && S < L - c.lounge then o == Dropped
    else if Known(v) && divisor == 0 then o == Stopped
    else if Known(v) && S > L + 1000 * c.dadTo / divisor && c.now < v.time + 1000 * c.dadTo then o == Dropped
    else if !c.primaryOk then o == Dropped
    else if log != [] && SeemsOld(S, log[|log| - 1], c.myPws) then o == Repeated
    else
      && o.Processed? && (o.isNew <==> S > L) && (o.acceptable <==> S <= L)
      && (o.relayed <==> c.best && W16(S - LastDecided(h) - 1) < TP16 - v.pws)
  }

  /**
   Receiving one OGM: what the 16-bit code decides is what the true numbers say, in all cases.
   One that is processed is newer than all that were considered via the same neighbour, and one
   that is decided is newer than all that were decided.
   */
  lemma StepVerdicts(h: History, e: Event)
    requires e.Ogm? && Faithful(h) && Admissible(h, e)
    ensures var (v, o) := Receive(h.view, e.via, W16(e.seqno), e.ctx);
      var L := if Known(h.view) then h.valid else e.seqno;
      && Verdict(h, e, o)
      && (o.Processed? ==> e.seqno >= L - e.ctx.lounge && (o.isNew <==> e.seqno > L))
      && (o.Processed? ==> forall i :: 0 <= i < |Log(h, e.via)| ==> Log(h, e.via)[i] < e.seqno)
      && (o.Processed? && o.relayed ==> forall i :: 0 <= i < |h.decided| ==> h.decided[i] < e.seqno)
  {
    hide W16, Receive, Verdict;
    VerdictGiven(h, e);
    var v, c, S := h.view, e.ctx, e.seqno;
    var s := W16(S);
    if Known(v) {
      ClassifiesInWindow(S, h.valid, v, c);
      hide Outdated, Undecided, OutOfOrder, Divisor, DadLimit;
      ProcessedPasses(v, e.via, s, c);
      if !Outdated(v, s, c) {
        if e.via in v.considered && !OutOfOrder(v, e.via, s, c) { StepOrder(h, e); }
        StepDecision(h, e);
      }
    } else {
      NoneUnknown(h);
      assert Log(h, e.via) == [];
      hide Faithful;
      VerdictOfUnknown(h, e);
    }
  }

  /** What has been tested of an OGM that is processed. */
  lemma ProcessedPasses(v: View, k: nat, s: nat, c: Ctx)
    requires v.pws <= MAX_SEQNO && c.myPws <= MAX_SEQNO && Known(v)
    ensures var o := Receive(v, k, s, c).1;
      o.Processed? ==>
        && !Outdated(v, s, c) && !OutOfOrder(v, k, s, c)
        && (o.isNew <==> IsNew(v, s)) && (o.relayed ==> Undecided(v, s))
  {
    hide W16, Outdated, DadAlert, OutOfOrder, IsAcceptable, Divisor;
  }

  lemma VerdictOfUnknown(h: History, e: Event)
    requires e.Ogm? && !Known(h.view) && h.view.pws <= MAX_SEQNO && e.ctx.myPws <= MAX_SEQNO
    requires Verdict(h, e, Receive(h.view, e.via, W16(e.seqno), e.ctx).1)
    ensures var o := Receive(h.view, e.via, W16(e.seqno), e.ctx).1; o.Processed? ==> !o.isNew
  {
    hide Receive;
  }

  lemma VerdictGiven(h: History, e: Event)
    requires e.Ogm? && Faithful(h) && Admissible(h, e)
    ensures Verdict(h, e, Receive(h.view, e.via, W16(e.seqno), e.ctx).1)
  {
    hide Interval, Metrics.NextWavg, Metrics.Wavg, W16;
    var v, c, S := h.view, e.ctx, e.seqno;
    var s := W16(S);
    TestOfDecision(S, LastDecided(h), v);
    assert Log(h, e.via) != [] <==> e.via in v.considered;
    if Known(v) {
      ClassifiesInWindow(S, h.valid, v, c);
      if !Outdated(v, s, c) && e.via in v.considered { TestOfOrder(h, e); }
    } else {
      UnknownTests(v, s, c);
    }
    hide Outdated, OutOfOrder, Undecided, IsNew, IsAcceptable, SeemsOld, Faithful;
  }

  lemma UnknownTests(v: View, s: nat, c: Ctx)
    requires 0 < v.pws && s < TP16
    ensures var n := v.(valid := s, time := c.now); !IsNew(n, s) && IsAcceptable(n, s, c)
  {
  }

  /** What is written down of an OGM that is processed, and that nothing is of one that is not, but a first number. */
  lemma StepRecords(v: View, k: nat, s: nat, c: Ctx)
    requires v.pws <= MAX_SEQNO && c.myPws <= MAX_SEQNO
    ensures var (u, o) := Receive(v, k, s, c);
      var first := v.time == 0 && v.valid == 0;
      match o
      case Processed(isNew, _, relayed) =>
        && u.valid == (if isNew || first then s else v.valid) && u.time == (if isNew || first then c.now else v.time)
        && u.considered == v.considered[k := s] && u.decided == (if relayed then s else v.decided)
        && u.pws == (if c.takesPws then c.ogmPws else v.pws)
        && (!isNew ==> u.wavg == v.wavg && u.wavgSqn == v.wavgSqn)
      case Stopped => u == v
      case _ => u == if first then v.(valid := s, time := c.now) else v
  {
    hide W16, Outdated, DadAlert, OutOfOrder, IsNew, IsAcceptable, Undecided, Divisor, Interval, Metrics.NextWavg;
  }

  /** The decision test, for numbers however far apart. */
  lemma TestOfDecision(S: int, D: int, v: View)
    requires v.decided == W16(D) && v.pws <= MAX_SEQNO
    ensures Undecided(v, W16(S)) <==> W16(S - D - 1) < TP16 - v.pws
  {
    var a, b := W16(D - S), W16(S - D - 1);
    assert W16(W16(D) - W16(S)) == a;
    assert (a + b + 1) % TP16 == 0;
  }

  /** The order test, for numbers however far apart. */
  lemma TestOfOrder(h: History, e: Event)
    requires e.Ogm? && Faithful(h) && Admissible(h, e) && Known(h.view) && e.via in h.view.considered
    requires e.seqno >= h.valid - e.ctx.lounge
    ensures var log := Log(h, e.via);
      log != [] && (OutOfOrder(h.view, e.via, W16(e.seqno), e.ctx) <==> SeemsOld(e.seqno, log[|log| - 1], e.ctx.myPws))
  {
    var log := h.considered[e.via];
    var S, C := e.seqno, log[|log| - 1];
    assert C <= h.valid;
    assert W16(W16(S) - W16(C)) == W16(S - C);
    assert W16(S) == W16(C) <==> W16(S - C) == 0;
  }

  /**
   As long as the last number decided is within reach of 16 bits, an OGM that is processed is
   decided if and only if the path comparison is for it and its number is greater than every
   number decided, whether it is new or not.
   */
  lemma DecidedExactly(h: History, e: Event)
    requires e.Ogm? && Faithful(h) && Admissible(h, e) && h.decided != []
    requires e.seqno - LastDecided(h) <= TP16 - h.view.pws
    ensures var o := Receive(h.view, e.via, W16(e.seqno), e.ctx).1;
      o.Processed? ==> (o.relayed <==> e.ctx.best && forall i :: 0 <= i < |h.decided| ==> h.decided[i] < e.seqno)
  {
    StepVerdicts(h, e);
    hide Receive;
    assert Increasing(h.decided) && AtMost(h.decided, h.valid);
    var d := e.seqno - LastDecided(h);
    assert LastDecided(h) <= h.valid;
    if d >= 1 {
      assert W16(d - 1) == d - 1;
      assert forall i :: 0 <= i < |h.decided| ==> h.decided[i] <= LastDecided(h);
    }
  }

  /** Nothing has been decided: the field stands at 0, and the numbers just below 65536 seem to be decided already. */
  lemma FirstDecision(h: History, e: Event)
    requires e.Ogm? && Faithful(h) && Admissible(h, e) && h.decided == []
    ensures var o := Receive(h.view, e.via, W16(e.seqno), e.ctx).1;
      o.Processed? ==> (o.relayed <==> e.ctx.best && 0 < W16(e.seqno) <= TP16 - h.view.pws)
  {
    StepVerdicts(h, e);
    hide Receive;
    assert W16(e.seqno) == 0 ==> W16(e.seqno - 1) == TP16 - 1;
    assert W16(e.seqno) > 0 ==> W16(e.seqno - 1) == W16(e.seqno) - 1;
  }

  /** A number that came first via another neighbour and now comes via the best one is decided. */
  lemma SecondPathDecides(now: nat)
    requires 0 < now < 1000
    ensures var h := History(Fresh(100).(time := now, valid := 500, decided := 499, considered := map[1 := 500]),
                             500, map[1 := [500]], [499]);
      var o := Receive(h.view, 2, 500, Ctx(8, 100, now, 100, true, true, false, 100)).1;
      o == Processed(false, true, true)
  {
    assert Divisor(Fresh(100).(time := now, valid := 500, decided := 499, considered := map[1 := 500])) > 0 by {
      FreshDivisor();
    }
  }

  lemma FreshDivisor()
    ensures Metrics.Wavg(Fresh(100).wavg, OGI_WAVG_EXP) >= MIN_OGI
  {
  }

  lemma StepOrder(h: History, e: Event)
    requires e.Ogm? && Faithful(h) && Admissible(h, e) && Known(h.view) && e.via in h.view.considered
    requires e.seqno >= h.valid - e.ctx.lounge && !OutOfOrder(h.view, e.via, W16(e.seqno), e.ctx)
    ensures forall i :: 0 <= i < |Log(h, e.via)| ==> Log(h, e.via)[i] < e.seqno
  {
    var log := h.considered[e.via];
    var C := log[|log| - 1];
    if e.seqno <= C { OrderInWindow(e.seqno, C, e.via, h.view, e.ctx); }
    assert Increasing(log);
  }

  lemma StepDecision(h: History, e: Event)
    requires e.Ogm? && Faithful(h) && Admissible(h, e) && Known(h.view) && e.seqno >= h.valid - e.ctx.lounge
    ensures Undecided(h.view, W16(e.seqno)) ==> forall i :: 0 <= i < |h.decided| ==> h.decided[i] < e.seqno
  {
    if h.decided != [] {
      var D := h.decided[|h.decided| - 1];
      if e.seqno <= D { DecisionInWindow(e.seqno, D, h.view); }
      assert forall i :: 0 <= i < |h.decided| ==> h.decided[i] <= D;
    }
  }

  lemma StepKeeps(h: History, e: Event)
    requires Faithful(h) && Admissible(h, e)
    ensures Faithful(Extend(h, e))
  {
    match e
    case Ogm(_, _, _) => OgmKeeps(h, e);
    case _ => hide W16, Receive;
  }

  lemma OgmKeeps(h: History, e: Event)
    requires e.Ogm? && Faithful(h) && Admissible(h, e)
    ensures Faithful(Extend(h, e))
  {
    hide LastConsidered, Ordered, Receive, W16;
    OgmOrdered(h, e);
    ConsideredNext(h, e);
    OgmLastConsidered(h, e);
    OgmAgrees(h, e);
  }

  /** What an OGM does to the view. */
  lemma ConsideredNext(h: History, e: Event)
    requires e.Ogm? && h.view.pws <= MAX_SEQNO && e.ctx.myPws <= MAX_SEQNO
    ensures var (v, o) := Receive(h.view, e.via, W16(e.seqno), e.ctx);
      v.considered == if o.Processed? then h.view.considered[e.via := W16(e.seqno)] else h.view.considered
  {
    hide W16, Outdated, Traps, DadAlert, OutOfOrder, IsNew, IsAcceptable, Undecided;
  }

  lemma OgmLastConsidered(h: History, e: Event)
    requires e.Ogm? && Faithful(h) && Admissible(h, e)
    ensures LastConsidered(Extend(h, e))
  {
    hide Receive, W16, Ordered;
    ConsideredNext(h, e);
  }

  lemma OgmAgrees(h: History, e: Event)
    requires e.Ogm? && Faithful(h) && Admissible(h, e)
    ensures Agrees(Extend(h, e))
  {
    hide W16, Outdated, Traps, DadAlert, OutOfOrder, IsNew, IsAcceptable, Undecided, Ordered;
  }

  lemma OgmOrdered(h: History, e: Event)
    requires e.Ogm? && Faithful(h) && Admissible(h, e)
    ensures Ordered(Extend(h, e))
  {
    hide LastConsidered, Receive, Increasing, AtMost, W16;
    StepVerdicts(h, e);
    LogNext(h.decided, e.seqno, h.valid, Extend(h, e).valid);
    LogNext(Log(h, e.via), e.seqno, h.valid, Extend(h, e).valid);
    if !Known(h.view) { NoneUnknown(h); }
    forall k | k in h.considered ensures AtMost(h.considered[k], Extend(h, e).valid) {
      LogNext(h.considered[k], e.seqno, h.valid, Extend(h, e).valid);
    }
  }

  lemma NoneUnknown(h: History)
    requires Faithful(h) && !Known(h.view)
    ensures h.considered == map[] && h.decided == []
  {
  }

  lemma LogNext(s: seq<int>, x: int, was: int, valid: int)
    requires Increasing(s) && AtMost(s, was)
    ensures was <= valid ==> AtMost(s, valid)
    ensures s == [] ==> AtMost(s, valid)
    ensures (forall i :: 0 <= i < |s| ==> s[i] < x) ==> Increasing(s + [x])
    ensures (forall i :: 0 <= i < |s| ==> s[i] < x) && x <= valid ==> AtMost(s + [x], valid)
  {
  }

  /** Over every run, the numbers considered via a neighbour strictly increase as long as the neighbour is
      not purged, and the numbers decided strictly increase as long as the originator is not: no sequence
      number of an originator is relayed as best path twice while it is in the table. */
  lemma {:induction false} RunsIncrease(myPws: nat, events: seq<Event>, h: History)
    requires 0 < myPws <= MAX_SEQNO && Run(Begin(myPws), events, h)
    ensures Faithful(h) && Increasing(h.decided) && IncreasingPerNeighbour(h.considered)
    decreases |events|
  {
    hide Faithful, Extend;
    if events != [] {
      var last := events[|events| - 1];
      var m :| Run(Begin(myPws), events[..|events| - 1], m) && Admissible(m, last)
        && m.view.pws <= MAX_SEQNO && h == Extend(m, last);
      RunsIncrease(myPws, events[..|events| - 1], m);
      StepKeeps(m, last);
    } else {
      BeginFaithful(myPws);
    }
    FaithfulOrdered(h);
  }

  lemma BeginFaithful(myPws: nat)
    requires 0 < myPws <= MAX_SEQNO
    ensures Faithful(Begin(myPws))
  {
  }

  lemma FaithfulOrdered(h: History)
    requires Faithful(h)
    ensures Increasing(h.decided) && IncreasingPerNeighbour(h.considered)
  {
  }
}
