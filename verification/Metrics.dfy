/** The decaying averages of `metrics.c`. */
module Metrics {
  import opened Arith
  import opened Wrap16

  const PROBE_RANGE: nat := 100
  const WA_SCALE_FACTOR: nat := 1000
  const MAX_PATH_LOUNGE: nat := 31
  const MAX_PWS: nat := 250

  // ---------------------------------------------------------------------------
  // update_lounged_metric as a function on the record

  /** The fields of struct sq_record. */
  datatype Record = Record(clr: nat, put: nat, unscaled: nat, val: nat)

  const Zeroed := Record(0, 0, 0, 0)

  /** The sequence number up to which the record is brought, if it is touched at all. */
  function Target(r: Record, probe: nat, lounge: nat, incm: nat, max: nat): int
  {
    if probe != 0 then incm
    else if W16(max - r.clr) > lounge then W16(max - lounge)
    else -1
  }

  /** n rounds of the decay loop. */
  function Decay(u: nat, n: nat, m: nat): (v: nat)
    requires m > 0
    ensures v <= u
  {
    if n == 0 then u
    else var w := Decay(u, n - 1, m); Decrement(w, m)
  }

  lemma DecayMore(u: nat, n: nat, m: nat)
    requires m > 0
    ensures Decay(u, 0, m) == u && Decay(u, n + 1, m) == Decrement(Decay(u, n, m), m)
  {
  }

  function Decrement(w: nat, m: nat): (v: nat)
    requires m > 0
    ensures v <= w
  {
    QuotientAtMost(w, m);
    w - w / m
  }

  /** Division by ws/2 happens, and ws/2 is zero: the C code traps. */
  predicate Traps(r: Record, probe: nat, lounge: nat, incm: nat, max: nat, ws: nat)
  {
    && ws / 2 == 0
    && var upd := Target(r, probe, lounge, incm, max);
    && upd >= 0
    && (0 < W16(upd - r.clr) < ws || (probe != 0 && r.put != upd))
  }

  function Updated(r: Record, probe: nat, lounge: nat, incm: nat, max: nat, ws: nat): Record
    requires !Traps(r, probe, lounge, incm, max, ws)
  {
    var upd := Target(r, probe, lounge, incm, max);
    if upd < 0 then r
    else
      var m := ws / 2;
      var offset := W16(upd - r.clr);
      var u := if offset >= ws then 0 else if offset == 0 then r.unscaled else Decay(r.unscaled, offset, m);
      if probe != 0 && r.put != upd then
        QuotientNat(probe * WA_SCALE_FACTOR, m);
        var u' := u + probe * WA_SCALE_FACTOR / m;
        Record(upd, upd, u', u' / WA_SCALE_FACTOR)
      else
        Record(upd, r.put, u, u / WA_SCALE_FACTOR)
  }

  /** flush_sq_record. */
  function Flushed(r: Record): Record
  {
    var c := W16(r.clr - (MAX_PATH_LOUNGE + MAX_PWS + 1));
    Record(c, c, 0, 0)
  }

  /** The division by zero that the smallest configurable link window (1) allows:
      it happens exactly when a probe is to be added for a new sequence number. */
  lemma TrapsExactly(r: Record, probe: nat, lounge: nat, incm: nat, max: nat, ws: nat)
    requires incm < TP16
    ensures Traps(r, probe, lounge, incm, max, ws) <==> ws < 2 && probe != 0 && r.put != incm
  {
  }

  lemma TrapsWithSmallestWindow()
    ensures Traps(Zeroed, PROBE_RANGE, 0, 1, 1, 1)
  {
  }

  class SqRecord {
    var waClrSqn: nat
    var waSetSqn: nat
    var waUnscaled: nat
    var waVal: nat

    constructor ()
      ensures Value() == Zeroed
    {
      waClrSqn, waSetSqn, waUnscaled, waVal := 0, 0, 0, 0;
    }

    function Value(): Record
      reads this
    {
      Record(waClrSqn, waSetSqn, waUnscaled, waVal)
    }

    method Flush()
      modifies this
      ensures Value() == Flushed(old(Value()))
    {
      waVal, waUnscaled := 0, 0;
      waClrSqn := W16(waClrSqn - (MAX_PATH_LOUNGE + MAX_PWS + 1));
      waSetSqn := waClrSqn;
    }

    method UpdateLounged(probe: nat, lounge: nat, sqnIncm: nat, sqnMax: nat, ws: nat)
      requires !Traps(Value(), probe, lounge, sqnIncm, sqnMax, ws)
      modifies this
      ensures Value() == Updated(old(Value()), probe, lounge, sqnIncm, sqnMax, ws)
    {
      hide W16, Decrement, Decay;
      var sqUpd: nat;
      if probe != 0 {
        sqUpd := sqnIncm;
      } else if W16(sqnMax - waClrSqn) > lounge {
        sqUpd := W16(sqnMax - lounge);
      } else {
        return;
      }
      var mWeight := ws / 2;
      var offset := W16(sqUpd - waClrSqn);
      if offset >= ws {
        waUnscaled := 0;
      } else {
        var i := 0;
        while i < offset
          invariant i <= offset
          invariant i == 0 ==> waUnscaled == old(waUnscaled)
          invariant i > 0 ==> mWeight > 0 && waUnscaled == Decay(old(waUnscaled), i, mWeight)
          invariant waClrSqn == old(waClrSqn) && waSetSqn == old(waSetSqn)
        {
          DecayMore(old(waUnscaled), i, mWeight);
          waUnscaled := Decrement(waUnscaled, mWeight);
          i := i + 1;
        }
      }
      waClrSqn := sqUpd;
      if probe != 0 {
        if waSetSqn != sqUpd {
          waUnscaled := waUnscaled + probe * WA_SCALE_FACTOR / mWeight;
          waSetSqn := sqUpd;
        }
      }
      waVal := waUnscaled / WA_SCALE_FACTOR;
    }
  }

  // ---------------------------------------------------------------------------
  // The metric stays in range, in every run

  /** The most that one probe can add, for m = ws/2. */
  function Share(m: nat): nat
    requires m > 0
  {
    PROBE_RANGE * WA_SCALE_FACTOR / m
  }

  /** Right after an addition the sum may be full; as soon as the record has been
      decayed past the last addition there is room for one more share. */
  ghost predicate InRange(r: Record, ws: nat)
    requires ws >= 2
  {
    var m := ws / 2;
    && r.unscaled <= m * Share(m)
    && (r.clr != r.put ==> r.unscaled <= (m - 1) * Share(m))
    && r.val == r.unscaled / WA_SCALE_FACTOR
  }

  lemma DecrementMakesRoom(u: nat, m: nat, f: nat)
    requires m > 0 && u <= m * f
    ensures Decrement(u, m) <= (m - 1) * f
  {
    var q, r := DivMod(u, m);
    Distribute(m, 1, q);
    Distribute(m, 1, f);
    assert u - q == (m - 1) * q + r;
    if q < f {
      MulMono(q, f - 1, m - 1);
      Distribute(f, 1, m - 1);
    } else {
      MulMono(f, q, m);
    }
  }

  lemma {:induction false} DecayMakesRoom(u: nat, n: nat, m: nat, f: nat)
    requires m > 0 && n > 0 && u <= m * f
    ensures Decay(u, n, m) <= (m - 1) * f
  {
    if n > 1 {
      DecayMakesRoom(u, n - 1, m, f);
      assert (m - 1) * f <= m * f;
    }
    DecrementMakesRoom(Decay(u, n - 1, m), m, f);
  }

  lemma ShareBounds(probe: nat, m: nat)
    requires m > 0 && probe <= PROBE_RANGE
    ensures probe * WA_SCALE_FACTOR / m <= Share(m)
    ensures m * Share(m) <= PROBE_RANGE * WA_SCALE_FACTOR
  {
    DivMonotone(probe * WA_SCALE_FACTOR, PROBE_RANGE * WA_SCALE_FACTOR, m);
    var q, r := DivMod(PROBE_RANGE * WA_SCALE_FACTOR, m);
  }

  /** Between two additions to the sum there is always at least one decay step. */
  lemma UpdateKeepsRange(r: Record, probe: nat, lounge: nat, incm: nat, max: nat, ws: nat)
    requires ws >= 2 && probe <= PROBE_RANGE && incm < TP16 && r.clr < TP16 && InRange(r, ws)
    ensures InRange(Updated(r, probe, lounge, incm, max, ws), ws)
  {
    hide Decay, Share, W16;
    var m := ws / 2;
    var f := Share(m);
    var upd := Target(r, probe, lounge, incm, max);
    MulMono(0, m - 1, f);
    Distribute(m, 1, f);
    ShareBounds(probe, m);
    if upd >= 0 {
      OffsetZero(r, probe, lounge, incm, max);
      var offset := W16(upd - r.clr);
      if 0 < offset < ws { DecayMakesRoom(r.unscaled, offset, m, f); }
      AfterDecay(r, probe, upd, offset, m, f, ws);
    }
  }

  lemma AfterDecay(r: Record, probe: nat, upd: nat, offset: nat, m: nat, f: nat, ws: nat)
    requires ws >= 2 && m == ws / 2 && f == Share(m) && probe <= PROBE_RANGE && InRange(r, ws)
    requires offset == W16(upd - r.clr) && (offset == 0 ==> probe != 0 && upd == r.clr)
    requires probe * WA_SCALE_FACTOR / m <= f && (m - 1) * f == m * f - f && 0 <= (m - 1) * f
    requires 0 < offset < ws ==> Decay(r.unscaled, offset, m) <= (m - 1) * f
    ensures var u := if offset >= ws then 0 else if offset == 0 then r.unscaled else Decay(r.unscaled, offset, m);
      && u <= m * f && (upd != r.put ==> u <= (m - 1) * f)
      && (upd != r.put ==> u + probe * WA_SCALE_FACTOR / m <= m * f)
  {
  }

  /** Without a probe the record is only touched if it moves on. */
  lemma OffsetZero(r: Record, probe: nat, lounge: nat, incm: nat, max: nat)
    requires r.clr < TP16 && incm < TP16
    ensures var upd := Target(r, probe, lounge, incm, max);
      upd >= 0 && W16(upd - r.clr) == 0 ==> probe != 0 && upd == r.clr
  {
    var upd := Target(r, probe, lounge, incm, max);
    if upd >= 0 && probe == 0 {
      AheadOf(max, lounge, r.clr);
    }
  }

  /** If max is more than lounge ahead of clr, then max - lounge is still ahead of clr. */
  lemma AheadOf(max: int, lounge: nat, clr: nat)
    requires clr < TP16 && W16(max - clr) > lounge
    ensures W16(W16(max - lounge) - clr) == W16(max - clr) - lounge
  {
    var d := W16(max - clr);
    var q := (max - clr) / TP16;
    assert max - lounge == clr + (d - lounge) + q * TP16;
    ModShift(clr + (d - lounge), q);
    var w := (clr + (d - lounge)) / TP16;
    assert W16(max - lounge) == clr + (d - lounge) - w * TP16;
    ModShift(d - lounge, -w);
  }

  /** A flush forgets: wherever the next probe falls within the lounge, the number marked last does not hide it,
      and nothing of the old sum is left under it. */
  lemma FlushForgets(r: Record, probe: nat, lounge: nat, incm: nat, max: nat, ws: nat)
    requires probe != 0 && lounge <= MAX_PATH_LOUNGE && 2 <= ws <= MAX_PWS && incm < TP16
    requires W16(incm + lounge - r.clr) < TP16 - (MAX_PATH_LOUNGE + MAX_PWS + 1)
    ensures var f := Flushed(r);
      && W16(incm - f.clr) > ws
      && Updated(f, probe, lounge, incm, max, ws).unscaled == probe * WA_SCALE_FACTOR / (ws / 2)
  {
    FlushedBehind(r, lounge, incm);
    hide Decay, W16;
  }

  lemma FlushedBehind(r: Record, lounge: nat, incm: nat)
    requires lounge <= MAX_PATH_LOUNGE && incm < TP16
    requires W16(incm + lounge - r.clr) < TP16 - (MAX_PATH_LOUNGE + MAX_PWS + 1)
    ensures W16(incm - Flushed(r).clr) == W16(incm + lounge - r.clr) - lounge + (MAX_PATH_LOUNGE + MAX_PWS + 1)
    ensures Flushed(r).put != incm
  {
  }

  datatype Event =
    | Update(probe: nat, lounge: nat, incm: nat, max: nat)
    | Flush

  ghost predicate Legal(e: Event)
  {
    e.Update? ==> e.probe <= PROBE_RANGE && e.incm < TP16
  }

  function Step(r: Record, e: Event, ws: nat): Record
    requires ws >= 2
  {
    match e
    case Update(probe, lounge, incm, max) => Updated(r, probe, lounge, incm, max, ws)
    case Flush => Flushed(r)
  }

  function Run(r: Record, events: seq<Event>, ws: nat): Record
    requires ws >= 2
  {
    if events == [] then r
    else Step(Run(r, events[..|events| - 1], ws), events[|events| - 1], ws)
  }

  /** However the probes and the sequence numbers arrive, the value read as path
      quality never exceeds PROBE_RANGE, and the sum never exceeds m * floor(100000/m). */
  lemma {:induction false} MetricInRange(events: seq<Event>, ws: nat)
    requires ws >= 2 && forall e :: e in events ==> Legal(e)
    ensures var r := Run(Zeroed, events, ws);
      && InRange(r, ws) && r.clr < TP16 && r.val <= PROBE_RANGE
      && r.unscaled <= ws / 2 * Share(ws / 2) <= PROBE_RANGE * WA_SCALE_FACTOR
  {
    ShareBounds(0, ws / 2);
    MulMono(0, ws / 2, Share(ws / 2));
    if events != [] {
      var last := events[|events| - 1];
      MetricInRange(events[..|events| - 1], ws);
      var r := Run(Zeroed, events[..|events| - 1], ws);
      assert Legal(last);
      if last.Update? {
        UpdateKeepsRange(r, last.probe, last.lounge, last.incm, last.max, ws);
      }
    }
    DivMonotone(Run(Zeroed, events, ws).unscaled, PROBE_RANGE * WA_SCALE_FACTOR, WA_SCALE_FACTOR);
  }

  // ---------------------------------------------------------------------------
  // upd_wavg

  const TP32: nat := 0x1_0000_0000

  /** WAVG */
  function Wavg(w: nat, e: nat): nat
  {
    QuotientNat(w, Pow2(e));
    w / Pow2(e)
  }

  method UpdWavg(wavg: nat, probe: nat, weightExp: nat) returns (wavg': nat, avg: nat)
    ensures wavg' == NextWavg(wavg, probe, weightExp) && avg == Wavg(wavg', weightExp)
  {
    if wavg != 0 {
      wavg' := (wavg + probe - Wavg(wavg, weightExp)) % TP32;
    } else {
      wavg' := (probe * Pow2(weightExp)) % TP32;
    }
    avg := Wavg(wavg', weightExp);
  }

  function NextWavg(w: nat, probe: nat, e: nat): nat
  {
    if w != 0 then (w + probe - Wavg(w, e)) % TP32 else probe * Pow2(e) % TP32
  }

  function RunWavg(w: nat, probes: seq<nat>, e: nat): nat
  {
    if probes == [] then w
    else NextWavg(RunWavg(w, probes[..|probes| - 1], e), probes[|probes| - 1], e)
  }

  /** One step keeps an average that lies between two bounds between them if the
      probe does; nothing wraps as long as the upper bound fits. */
  lemma WavgStaysBetween(w: nat, probe: nat, e: nat, lo: nat, hi: nat)
    requires 1 <= lo <= probe <= hi && (hi + 1) * Pow2(e) <= TP32
    requires w == 0 || lo <= Wavg(w, e) <= hi
    ensures lo <= Wavg(NextWavg(w, probe, e), e) <= hi
  {
    var p := Pow2(e);
    MulMono(lo, probe, p);
    MulMono(probe, hi, p);
    Distribute(hi, 1, p);
    if w == 0 {
      DivAtLeast(probe * p, p, lo);
      DivBelow(probe * p, p, hi + 1);
    } else {
      NextBetween(w, probe, p, lo, hi);
      var w' := w + probe - w / p;
      DivAtLeast(w', p, lo);
      DivBelow(w', p, hi + 1);
    }
  }

  lemma NextBetween(w: nat, probe: nat, p: nat, lo: nat, hi: nat)
    requires p > 0 && lo <= w / p <= hi && lo <= probe <= hi
    ensures lo * p <= w + probe - w / p < (hi + 1) * p
  {
    var q, r := DivMod(w, p);
    NextAbove(q, r, probe, p, lo);
    NextBelow(q, r, probe, p, hi);
  }

  lemma NextAbove(q: nat, r: nat, probe: nat, p: nat, lo: nat)
    requires p > 0 && lo <= q && lo <= probe
    ensures lo * p <= q * p + r + probe - q
  {
    var d := q - lo;
    Distribute(lo, d, p);
    MulMono(1, p, d);
  }

  lemma NextBelow(q: nat, r: nat, probe: nat, p: nat, hi: nat)
    requires r < p && q <= hi && probe <= hi
    ensures q * p + r + probe - q < (hi + 1) * p
  {
    var d := hi - q;
    Distribute(q, d + 1, p);
    Distribute(d, 1, p);
    MulMono(1, p, d);
  }

  /** Over any run of non-zero probes the average stays within the range of the probes. */
  lemma {:induction false} WavgRun(probes: seq<nat>, e: nat, lo: nat, hi: nat)
    requires probes != [] && 1 <= lo <= hi && (hi + 1) * Pow2(e) <= TP32
    requires forall p :: p in probes ==> lo <= p <= hi
    ensures lo <= Wavg(RunWavg(0, probes, e), e) <= hi
  {
    var prefix, last := probes[..|probes| - 1], probes[|probes| - 1];
    assert last in probes && forall p :: p in prefix ==> p in probes;
    if prefix != [] { WavgRun(prefix, e, lo, hi); }
    WavgStaysBetween(RunWavg(0, prefix, e), last, e, lo, hi);
  }

  lemma {:induction false} RunWavgPrepend(w: nat, p: nat, probes: seq<nat>, e: nat)
    ensures RunWavg(w, [p] + probes, e) == RunWavg(NextWavg(w, p, e), probes, e)
  {
    var all := [p] + probes;
    if probes == [] {
      assert all[..0] == [];
      assert RunWavg(w, all[..0], e) == w;
    } else {
      assert all[..|all| - 1] == [p] + probes[..|probes| - 1];
      RunWavgPrepend(w, p, probes[..|probes| - 1], e);
    }
  }

  /** An average is lost in one step exactly when it stands at its least value and the probe is zero. */
  lemma AverageWearsOut(w: nat, probe: nat, e: nat)
    requires Wavg(w, e) >= 1 && w + probe < TP32
    ensures Wavg(NextWavg(w, probe, e), e) == 0 <==> probe == 0 && (e == 0 || w == Pow2(e))
  {
    hide Pow2;
    Pow2Least(e);
    var p := Pow2(e);
    var q, r := DivMod(w, p);
    var w' := w + probe - q;
    if e > 0 { LeastLost(q, r, probe, p); }
    if w' < p { DivBelow(w', p, 1); } else { DivAtLeast(w', p, 1); }
  }

  lemma Pow2Least(e: nat)
    ensures if e == 0 then Pow2(e) == 1 else Pow2(e) >= 2
  {
  }

  lemma LeastLost(q: nat, r: nat, probe: nat, p: nat)
    requires q >= 1 && p >= 2 && r < p
    ensures q * p + r + probe - q < p <==> q == 1 && r == 0 && probe == 0
  {
    var d := p - 1;
    MulMono(1, q, d);
    if q >= 2 { MulMono(2, q, d); }
    assert q * p == q * d + q;
  }

  lemma NextWavgFits(w: nat, probe: nat, e: nat)
    ensures NextWavg(w, probe, e) < TP32
  {
  }

  lemma ZeroProbeLess(w: nat, e: nat)
    requires w < TP32 && Wavg(w, e) > 0
    ensures NextWavg(w, 0, e) < w
  {
    QuotientAtMost(w, Pow2(e));
  }

  /** Enough probes of zero wear any average down to zero. */
  lemma {:induction false} ZeroProbesExhaust(w: nat, e: nat) returns (probes: seq<nat>)
    requires w < TP32
    ensures forall p :: p in probes ==> p == 0
    ensures Wavg(RunWavg(w, probes, e), e) == 0
    decreases w
  {
    if Wavg(w, e) == 0 {
      probes := [];
    } else {
      ZeroProbeLess(w, e);
      var rest := ZeroProbesExhaust(NextWavg(w, 0, e), e);
      RunWavgPrepend(w, 0, rest, e);
      probes := [0] + rest;
    }
  }
}
