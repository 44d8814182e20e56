/**
 Where the averages of metrics.c lead: a link on which every OGM arrives climbs to the full
 value, one that has gone silent falls to nothing, and a weighted average comes to what it is
 fed with (compiled-tools/bmx/bmxd/metrics.c:39-119).
 */
module MetricsClimb {
  import opened Arith
  import opened Wrap16
  import opened Metrics

  /** A decay step takes off exactly the m-th part, rounded down. */
  lemma DecayStep(w: nat, m: nat)
    requires m > 0
    ensures (m - 1) * w <= m * Decrement(w, m) < (m - 1) * w + m
  {
    var q, r := DivMod(w, m);
    Distribute(m, 1, w);
    Distribute(w, q, m);
    assert m * (w - q) == (w - q) * m == w * m - q * m;
  }

  // ----- decay and addition in turn -----

  /** n times: the m-th part is taken off and s is added. */
  function Relaxed(u: nat, m: nat, s: nat, n: nat): (v: nat)
    requires m > 0
  {
    if n == 0 then u else Decrement(Relaxed(u, m, s, n - 1), m) + s
  }

  /** One such step goes towards m * s and not beyond it. */
  lemma RelaxStep(u: nat, m: nat, s: nat)
    requires m > 0
    ensures var v := Decrement(u, m) + s;
      && v >= s
      && (u < m * s ==> u < v <= m * s)
      && (m * s <= u < m * s + m ==> v == u)
      && (u >= m * s + m ==> m * s <= v < u)
  {
    var q, r := DivMod(u, m);
    if u < m * s {
      if q >= s { MulMono(s, q, m); }
      var d := s - 1 - q;
      assert q < s;
      Distribute(q, d + 1, m);
      Distribute(d, 1, m);
      MulMono(1, m, d);
    } else if u < m * s + m {
      if q < s { MulMono(q + 1, s, m); Distribute(q, 1, m); }
      if q > s { MulMono(s + 1, q, m); Distribute(s, 1, m); }
    } else {
      if q <= s { MulMono(q, s, m); }
      var d := q - s - 1;
      Distribute(s, d + 1, m);
      Distribute(d, 1, m);
      MulMono(1, m, d);
    }
  }

  /** However far away the sum is, it gets to m * s, from below exactly, and stays there. */
  lemma {:induction false} RelaxedReaches(u: nat, m: nat, s: nat, n: nat)
    requires m > 0
    ensures n > 0 ==> Relaxed(u, m, s, n) >= s
    ensures u <= m * s ==> Relaxed(u, m, s, n) <= m * s && (n >= m * s - u ==> Relaxed(u, m, s, n) == m * s)
    ensures u > m * s ==> Relaxed(u, m, s, n) >= m * s && (n >= u ==> Relaxed(u, m, s, n) < m * s + m)
    ensures u <= m * s ==> Relaxed(u, m, s, n) == m * s || Relaxed(u, m, s, n) >= u + n
    ensures u > m * s ==> Relaxed(u, m, s, n) < m * s + m || Relaxed(u, m, s, n) <= u - n
  {
    hide Decrement;
    if n > 0 {
      RelaxedReaches(u, m, s, n - 1);
      RelaxStep(Relaxed(u, m, s, n - 1), m, s);
    }
  }

  // ----- a link on which every OGM arrives -----

  /** The record after n numbers in a row, each with probe p. */
  function Faultless(r: Record, p: nat, lounge: nat, ws: nat, n: nat): (q: Record)
    requires ws >= 2
  {
    if n == 0 then r
    else
      var q := Faultless(r, p, lounge, ws, n - 1);
      Updated(q, p, lounge, W16(q.clr + 1), W16(q.clr + 1), ws)
  }

  /** The last number of the record was heard with a probe. */
  predicate UpToDate(r: Record) { r.clr == r.put < TP16 }

  lemma NextNumber(r: Record, p: nat, lounge: nat, ws: nat)
    requires ws >= 2 && p > 0 && UpToDate(r)
    ensures p * WA_SCALE_FACTOR / (ws / 2) >= 0
    ensures var q := Updated(r, p, lounge, W16(r.clr + 1), W16(r.clr + 1), ws);
      && q.unscaled == Decrement(r.unscaled, ws / 2) + p * WA_SCALE_FACTOR / (ws / 2)
      && q.val == q.unscaled / WA_SCALE_FACTOR && UpToDate(q)
  {
    hide Decrement;
    QuotientNat(p * WA_SCALE_FACTOR, ws / 2);
    DecayMore(r.unscaled, 0, ws / 2);
    assert W16(W16(r.clr + 1) - r.clr) == 1;
    assert W16(r.clr + 1) != r.put;
  }

  lemma {:induction false} FaultlessIs(r: Record, p: nat, lounge: nat, ws: nat, n: nat)
    requires ws >= 2 && p > 0 && UpToDate(r)
    ensures p * WA_SCALE_FACTOR / (ws / 2) >= 0
    ensures var q := Faultless(r, p, lounge, ws, n);
      && q.unscaled == Relaxed(r.unscaled, ws / 2, p * WA_SCALE_FACTOR / (ws / 2), n) && UpToDate(q)
      && (n > 0 ==> q.val == q.unscaled / WA_SCALE_FACTOR)
  {
    hide Decrement, Updated, UpToDate;
    QuotientNat(p * WA_SCALE_FACTOR, ws / 2);
    if n > 0 {
      FaultlessIs(r, p, lounge, ws, n - 1);
      NextNumber(Faultless(r, p, lounge, ws, n - 1), p, lounge, ws);
    }
  }

  /**
   Over any run of numbers in a row, each with the same probe p, the sum is at least the share
   of p, grows with every number as long as it is below m times the share, with m = ws / 2, and
   stands at m * floor(1000 * p / m) from then on.
   */
  lemma FaultlessClimbs(r: Record, p: nat, lounge: nat, ws: nat, n: nat)
    requires ws >= 2 && p > 0 && UpToDate(r)
    ensures p * WA_SCALE_FACTOR / (ws / 2) >= 0
    ensures var m, u, v := ws / 2, Faultless(r, p, lounge, ws, n).unscaled, Faultless(r, p, lounge, ws, n + 1).unscaled;
      var s := p * WA_SCALE_FACTOR / m;
      && v >= s
      && (u < m * s ==> u < v <= m * s)
      && (m * s <= u < m * s + m ==> v == u)
      && (u >= m * s + m ==> m * s <= v < u)
      && (r.unscaled <= m * s <= n ==> u == m * s)
      && (r.unscaled > m * s && n >= r.unscaled ==> m * s <= u < m * s + m)
  {
    hide Decrement, Faultless, UpToDate;
    var m := ws / 2;
    QuotientNat(p * WA_SCALE_FACTOR, m);
    var s: nat := p * WA_SCALE_FACTOR / m;
    FaultlessIs(r, p, lounge, ws, n);
    FaultlessIs(r, p, lounge, ws, n + 1);
    RelaxedReaches(r.unscaled, m, s, n);
    RelaxStep(Relaxed(r.unscaled, m, s, n), m, s);
  }

  /** The value that is read as path quality comes to the probe itself or to one below it. */
  lemma FaultlessValue(r: Record, p: nat, lounge: nat, ws: nat, n: nat)
    requires 2 <= ws <= MAX_PWS && 0 < p <= PROBE_RANGE && UpToDate(r)
    requires r.unscaled <= n && PROBE_RANGE * WA_SCALE_FACTOR <= n
    ensures p - 1 <= Faultless(r, p, lounge, ws, n).val <= p
  {
    hide Faultless, UpToDate, Relaxed, Decrement;
    var m := ws / 2;
    MulMono(p, PROBE_RANGE, WA_SCALE_FACTOR);
    var q, rest := DivMod(p * WA_SCALE_FACTOR, m);
    FaultlessClimbs(r, p, lounge, ws, n);
    FaultlessIs(r, p, lounge, ws, n);
    assert m * q == q * m;
    NearValue(Faultless(r, p, lounge, ws, n).unscaled, q, rest, m, p);
  }

  lemma NearValue(u: nat, q: nat, rest: nat, m: nat, p: nat)
    requires 0 < m <= WA_SCALE_FACTOR && rest < m && p > 0 && p * WA_SCALE_FACTOR == q * m + rest
    requires q * m <= u < q * m + m
    ensures p - 1 <= u / WA_SCALE_FACTOR <= p
  {
    DivAtLeast(u, WA_SCALE_FACTOR, p - 1);
    DivBelow(u, WA_SCALE_FACTOR, p + 1);
  }

  // ----- a link that has gone silent -----

  /** Each number that passes without a probe takes off the m-th part, and a whole window takes off everything. */
  lemma SilenceDecays(r: Record, lounge: nat, max: nat, ws: nat)
    requires ws >= 2 && r.clr < TP16 && W16(max - r.clr) > lounge
    ensures var n, q := W16(max - r.clr) - lounge, Updated(r, 0, lounge, max, max, ws);
      && q.unscaled == (if n >= ws then 0 else Decay(r.unscaled, n, ws / 2))
      && q.clr == W16(max - lounge) && q.put == r.put && q.val == q.unscaled / WA_SCALE_FACTOR
  {
    AheadOf(max, lounge, r.clr);
    hide Decay, W16;
  }

  lemma {:induction false} DecayIsRelaxed(u: nat, m: nat, n: nat)
    requires m > 0
    ensures Decay(u, n, m) == Relaxed(u, m, 0, n)
  {
    if n > 0 {
      DecayIsRelaxed(u, m, n - 1);
      DecayMore(u, n - 1, m);
    }
  }

  /** Enough numbers without a probe, however they are counted, wear the sum down to less than m, which reads as 0. */
  lemma SilenceFalls(u: nat, n: nat, m: nat)
    requires 0 < m <= WA_SCALE_FACTOR && n >= u
    ensures Decay(u, n, m) < m && Decay(u, n, m) / WA_SCALE_FACTOR == 0
  {
    DecayIsRelaxed(u, m, n);
    RelaxedReaches(u, m, 0, n);
  }

  /** A probe after numbers that were missed: each of them takes off the m-th part, and a window of them everything. */
  lemma ProbeAfterGap(r: Record, p: nat, lounge: nat, incm: nat, ws: nat)
    requires ws >= 2 && p > 0 && incm < TP16 && UpToDate(r) && incm != r.clr
    ensures p * WA_SCALE_FACTOR / (ws / 2) >= 0
    ensures var n, q := W16(incm - r.clr), Updated(r, p, lounge, incm, incm, ws);
      && q.unscaled == (if n >= ws then 0 else Decay(r.unscaled, n, ws / 2)) + p * WA_SCALE_FACTOR / (ws / 2)
      && q.clr == q.put == incm
  {
    QuotientNat(p * WA_SCALE_FACTOR, ws / 2);
    hide Decay;
  }

  /** Nothing changes when a number is reported twice, or without a probe within the lounge. */
  lemma Unchanged(r: Record, p: nat, lounge: nat, max: nat, ws: nat)
    requires ws >= 2 && UpToDate(r) && r.val == r.unscaled / WA_SCALE_FACTOR
    ensures p > 0 ==> Updated(r, p, lounge, r.clr, max, ws) == r
    ensures W16(max - r.clr) <= lounge ==> Updated(r, 0, lounge, max, max, ws) == r
  {
  }

  // ----- the weighted average -----

  lemma RepeatedStep(x: nat, w: nat, p: nat, m: nat, e: nat)
    requires m == Pow2(e) && x > 0 && p > 0 && w + p < TP32 && p * m + m + p < TP32
    requires x <= w || x < p * m + m
    ensures NextWavg(x, p, e) == Decrement(x, m) + p > 0
    ensures NextWavg(x, p, e) <= w || NextWavg(x, p, e) < p * m + m
  {
    hide Pow2;
    DecrementIs(x, e);
    hide Decrement;
    RelaxStep(x, m, p);
    assert m * p == p * m;
  }

  lemma {:induction false} Repeated(w: nat, p: nat, e: nat, probes: seq<nat>)
    requires w > 0 && p > 0 && w + p < TP32 && p * Pow2(e) + Pow2(e) + p < TP32 && forall q :: q in probes ==> q == p
    ensures RunWavg(w, probes, e) == Relaxed(w, Pow2(e), p, |probes|)
    ensures 0 < RunWavg(w, probes, e) && (RunWavg(w, probes, e) <= w || RunWavg(w, probes, e) < p * Pow2(e) + Pow2(e))
  {
    hide Pow2, Decrement, NextWavg;
    if probes != [] {
      var front, last := probes[..|probes| - 1], probes[|probes| - 1];
      assert last in probes && forall q :: q in front ==> q in probes;
      Repeated(w, p, e, front);
      RepeatedStep(RunWavg(w, front, e), w, p, Pow2(e), e);
    }
  }

  lemma DecrementIs(w: nat, e: nat)
    ensures Wavg(w, e) >= 0 && Decrement(w, Pow2(e)) == w - Wavg(w, e)
  {
    hide Pow2;
  }

  /** An average that is fed with the same probe again and again comes to this probe. */
  lemma AverageReaches(w: nat, p: nat, e: nat, probes: seq<nat>)
    requires w > 0 && p > 0 && w + p < TP32 && p * Pow2(e) + Pow2(e) + p < TP32
    requires (forall q :: q in probes ==> q == p) && |probes| >= w && |probes| >= p * Pow2(e)
    ensures Wavg(RunWavg(w, probes, e), e) == p
  {
    hide Pow2, RunWavg;
    var m := Pow2(e);
    Repeated(w, p, e, probes);
    RelaxedReaches(w, m, p, |probes|);
    assert m * p == p * m;
    Distribute(p, 1, m);
    var u := RunWavg(w, probes, e);
    DivAtLeast(u, m, p);
    DivBelow(u, m, p + 1);
  }

  /** A probe that is one larger makes the sum one larger: each probe counts. */
  lemma ProbeCounts(w: nat, p: nat, q: nat, e: nat)
    requires w > 0 && p <= q && w + q < TP32
    ensures NextWavg(w, q, e) - NextWavg(w, p, e) == q - p
  {
    DecrementIs(w, e);
  }
}
