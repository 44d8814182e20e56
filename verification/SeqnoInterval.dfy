/**
 What the average interval of an originator comes to (compiled-tools/bmx/bmxd/originator.c:
 1421-1447): on OGMs with numbers in a row that arrive every t milliseconds it comes to t, as long
 as the numbers do not wrap around.
 */
module SeqnoInterval {
  import opened Wrap16
  import opened Arith
  import opened Seqno
  import Metrics
  import MetricsClimb

  /** An originator that is heard of via k, all of whose numbers so far have come this way. */
  predicate Regular(v: View, k: nat, c: Ctx, t: nat)
  {
    && 0 < v.time && v.valid < TP16 && v.wavgSqn == v.valid
    && k in v.considered && v.considered[k] == v.valid && 10 <= v.pws <= 250
    && c.lounge <= 31 && 10 <= c.myPws <= 250 && c.dadTo > 0 && c.primaryOk && !c.takesPws
    && 0 < t && Metrics.Wavg(v.wavg, OGI_WAVG_EXP) >= 1
    && v.wavg + t < Metrics.TP32
  }

  /** After n more OGMs, each with the next number, t milliseconds later. */
  function Punctual(v: View, k: nat, c: Ctx, t: nat, n: nat): (u: View)
    requires v.pws <= MAX_SEQNO && c.myPws <= MAX_SEQNO && !c.takesPws
    ensures u.pws == v.pws
  {
    if n == 0 then v
    else
      var u := Punctual(v, k, c, t, n - 1);
      Receive(u, k, W16(u.valid + 1), c.(now := u.time + t)).0
  }

  lemma NextIsNew(v: View, k: nat, c: Ctx, t: nat)
    requires Regular(v, k, c, t) && v.valid + 1 < TP16
    ensures Divisor(v) > 0
    ensures var s, d := v.valid + 1, c.(now := v.time + t);
      && W16(s) == s && !Outdated(v, s, d) && !DadAlert(v, s, d) && !OutOfOrder(v, k, s, d) && IsNew(v, s)
      && Averaged(v, s, d.now).wavg == Metrics.NextWavg(v.wavg, t, OGI_WAVG_EXP) && Averaged(v, s, d.now).wavgSqn == s
  {
    DivisorPositive(v);
    hide Divisor, Metrics.NextWavg;
    var s, d := v.valid + 1, c.(now := v.time + t);
    assert W16(s + d.lounge - v.valid) == 1 + d.lounge;
    DivisorSmall(v);
    DivAtLeast(1000 * d.dadTo, Divisor(v), 2);
    assert W16(v.valid - s) == TP16 - 1 && W16(s - v.considered[k]) == 1 && W16(s - (v.wavgSqn + 1)) == 0;
    assert Interval(t, s, v.wavgSqn) == t / 1;
  }

  /** One OGM in time: the average takes up its interval, and the next one is in time again. */
  lemma OneInTime(v: View, k: nat, c: Ctx, t: nat)
    requires Regular(v, k, c, t) && v.valid + 1 < TP16
    ensures var (u, o) := Receive(v, k, v.valid + 1, c.(now := v.time + t));
      && o.Processed? && o.isNew
      && u.valid == v.valid + 1 && u.time == v.time + t && u.wavgSqn == u.valid && u.pws == v.pws
      && u.considered == v.considered[k := u.valid]
      && u.wavg == Metrics.NextWavg(v.wavg, t, OGI_WAVG_EXP)
  {
    NextIsNew(v, k, c, t);
    hide Divisor, Metrics.NextWavg, Interval, Outdated, DadAlert, OutOfOrder, IsNew, IsAcceptable, Undecided;
    var s, d := v.valid + 1, c.(now := v.time + t);
    SameTests(v, v.(considered := v.considered[k := s]), s, d.now);
  }

  /** The average takes one step towards t and stays away from 0. */
  lemma AverageStep(x: nat, w: nat, t: nat)
    requires 0 < t && t * 8 + 8 + t < Metrics.TP32 && w + t < Metrics.TP32 && (x <= w || x < t * 8 + 8)
    requires Metrics.Wavg(x, OGI_WAVG_EXP) >= 1
    ensures var y := Metrics.NextWavg(x, t, OGI_WAVG_EXP);
      && y == Metrics.Decrement(x, 8) + t && (y <= w || y < t * 8 + 8)
      && Metrics.Wavg(y, OGI_WAVG_EXP) >= 1
  {
    hide Metrics.NextWavg, Metrics.Decrement;
    Eight();
    MetricsClimb.RepeatedStep(x, w, t, 8, OGI_WAVG_EXP);
    Metrics.AverageWearsOut(x, t, OGI_WAVG_EXP);
  }

  lemma {:induction false} PunctualIs(v: View, k: nat, c: Ctx, t: nat, n: nat)
    requires Regular(v, k, c, t) && v.valid + n < TP16 && t * 8 + 8 + t < Metrics.TP32
    ensures v.pws <= MAX_SEQNO && c.myPws <= MAX_SEQNO && !c.takesPws
    ensures var u := Punctual(v, k, c, t, n);
      && u.valid == v.valid + n && Regular(u, k, c, t)
      && u.wavg == MetricsClimb.Relaxed(v.wavg, 8, t, n) && (u.wavg <= v.wavg || u.wavg < t * 8 + 8)
  {
    hide Receive, Metrics.NextWavg, Metrics.Wavg, Metrics.Decrement;
    if n > 0 {
      PunctualIs(v, k, c, t, n - 1);
      var u := Punctual(v, k, c, t, n - 1);
      OneInTime(u, k, c, t);
      assert W16(u.valid + 1) == u.valid + 1;
      AverageStep(u.wavg, v.wavg, t);
    }
  }

  lemma Eight()
    ensures Pow2(OGI_WAVG_EXP) == 8
  {
    assert Pow2(1) == 2 && Pow2(2) == 4;
  }

  /** The average interval of an originator that sends every t milliseconds is t. */
  lemma IntervalMeasured(v: View, k: nat, c: Ctx, t: nat, n: nat)
    requires Regular(v, k, c, t) && v.valid + n < TP16 && t * 8 + 8 + t < Metrics.TP32
    requires n >= v.wavg && n >= 8 * t
    ensures Metrics.Wavg(Punctual(v, k, c, t, n).wavg, OGI_WAVG_EXP) == t
  {
    PunctualIs(v, k, c, t, n);
    hide Punctual, Regular, MetricsClimb.Relaxed;
    MetricsClimb.RelaxedReaches(v.wavg, 8, t, n);
    Eight();
    var u := Punctual(v, k, c, t, n).wavg;
    DivAtLeast(u, 8, t);
    DivBelow(u, 8, t + 1);
  }
}
