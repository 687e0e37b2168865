/**
 The beacon rule for one flow: a ring of the latest eight gaps between packets, judged by mean
 and variance, against the gaps of the packets that really arrived. Reals stand for `double`,
 and the comparison of a standard deviation is made on its square.
 */
module Beacon {
  import opened Words
  import opened Options

  const MAX_GAPS: nat := 8
  const BEACON_MIN_SAMPLES: nat := 5
  const BEACON_CV_MAX: real := 0.1
  const BEACON_MIN_INTERVAL: real := 1.0
  const BEACON_MAX_INTERVAL: real := 300.0
  const NS: real := 1000000000.0

  datatype FlowRecord = Flow(lastTs: nat, gaps: seq<real>, ngaps: nat, alerted: bool)

  type Flow = f: FlowRecord | |f.gaps| == MAX_GAPS witness Flow(0, seq(MAX_GAPS, _ => 0.0), 0, false)

  datatype Alert = Alert(mean: real, callbacks: nat)

  function Fresh(): Flow {
    Flow(0, seq(MAX_GAPS, _ => 0.0), 0, false)
  }

  function Gap(now: nat, earlier: nat): real {
    Since(now, earlier) as real / NS
  }

  // ---- sums over gaps -----------------------------------------------------

  function Total(xs: seq<real>, f: real -> real): real {
    if xs == [] then 0.0 else Total(xs[..|xs|-1], f) + f(xs[|xs|-1])
  }

  function Itself(): real -> real {
    x => x
  }

  function Deviation(mean: real): real -> real {
    x => (x - mean) * (x - mean)
  }

  function Mean(xs: seq<real>): real
    requires xs != []
  {
    Total(xs, Itself()) / |xs| as real
  }

  datatype Summary = Summary(n: nat, mean: real, variance: real)

  function Summarise(xs: seq<real>): Summary
    requires xs != []
  {
    Summary(|xs|, Mean(xs), Total(xs, Deviation(Mean(xs))) / |xs| as real)
  }

  /** Enough samples, a mean interval in range, and a deviation of at most a tenth of the mean. */
  predicate Regular(s: Summary) {
    && s.n >= BEACON_MIN_SAMPLES
    && BEACON_MIN_INTERVAL <= s.mean <= BEACON_MAX_INTERVAL
    && s.variance <= (BEACON_CV_MAX * s.mean) * (BEACON_CV_MAX * s.mean)
  }

  predicate Steady(xs: seq<real>) {
    xs != [] && Regular(Summarise(xs))
  }

  // ---- the rule -----------------------------------------------------------

  /** Write the new gap over the oldest one. */
  function Noted(f: Flow, ts: nat): Flow {
    if f.lastTs == 0 then f.(lastTs := ts)
    else Flow(ts, f.gaps[f.ngaps % MAX_GAPS := Gap(ts, f.lastTs)], f.ngaps + 1, f.alerted)
  }

  function Kept(f: Flow): seq<real> {
    f.gaps[..if f.ngaps < MAX_GAPS then f.ngaps else MAX_GAPS]
  }

  function Judge(f: Flow): (Flow, Option<Alert>) {
    if !f.alerted && Steady(Kept(f))
    then (f.(alerted := true), Some(AlertOn(Summarise(Kept(f)))))
    else (f, None)
  }

  function AlertOn(s: Summary): Alert {
    Alert(s.mean, s.n + 1)
  }

  function Packet(f: Flow, ts: nat): (Flow, Option<Alert>) {
    Judge(Noted(f, ts))
  }

  function After(tss: seq<nat>): Flow {
    if tss == [] then Fresh() else Packet(After(tss[..|tss|-1]), tss[|tss|-1]).0
  }

  /** The alert raised by the last of the packets `tss`, if any. */
  function AlertAt(tss: seq<nat>): Option<Alert>
    requires tss != []
  {
    Packet(After(tss[..|tss|-1]), tss[|tss|-1]).1
  }

  // ---- what really happened -----------------------------------------------

  predicate Timed(tss: seq<nat>) {
    (forall i :: 0 <= i < |tss| ==> 0 < tss[i]) && forall i, j :: 0 <= i < j < |tss| ==> tss[i] <= tss[j]
  }

  /** Every gap between consecutive packets, oldest first. */
  function Gaps(tss: seq<nat>): (gs: seq<real>)
    ensures |gs| == if tss == [] then 0 else |tss| - 1
  {
    if |tss| < 2 then [] else Gaps(tss[..|tss|-1]) + [Gap(tss[|tss|-1], tss[|tss|-2])]
  }

  function Latest(gs: seq<real>): seq<real> {
    if |gs| <= MAX_GAPS then gs else gs[|gs| - MAX_GAPS..]
  }

  /** The ring after the gaps `gs`: gap number `g` sits in place `g % 8` until eight more arrive. */
  ghost predicate RingHolds(f: Flow, gs: seq<real>) {
    && f.ngaps == |gs|
    && forall g :: 0 <= g < |gs| && |gs| - MAX_GAPS <= g ==> f.gaps[g % MAX_GAPS] == gs[g]
  }

  lemma {:induction false} NotedHolds(f: Flow, gs: seq<real>, ts: nat)
    requires RingHolds(f, gs) && f.lastTs != 0
    ensures RingHolds(Noted(f, ts), gs + [Gap(ts, f.lastTs)])
  {
    forall g | 0 <= g < |gs| && |gs| + 1 - MAX_GAPS <= g
      ensures g % MAX_GAPS != |gs| % MAX_GAPS
    {
      SlotsApart(g, |gs|);
    }
  }

  lemma SlotsApart(g: nat, n: nat)
    requires g < n < g + MAX_GAPS
    ensures g % MAX_GAPS != n % MAX_GAPS
  {
  }

  lemma JudgeKeeps(f: Flow)
    ensures Judge(f).0 == f.(alerted := f.alerted || Steady(Kept(f)))
  {
  }

  lemma {:induction false} RunHolds(tss: seq<nat>)
    requires Timed(tss)
    ensures RingHolds(After(tss), Gaps(tss)) && After(tss).lastTs == Now(tss)
  {
    if tss != [] {
      var before, ts := tss[..|tss|-1], tss[|tss|-1];
      RunHolds(before);
      JudgeKeeps(Noted(After(before), ts));
      if before != [] {
        NotedHolds(After(before), Gaps(before), ts);
      }
    }
  }

  function Now(tss: seq<nat>): nat {
    if tss == [] then 0 else tss[|tss|-1]
  }

  /** The number of the gap that sits in place `j` of the ring after `n` gaps. */
  lemma InPlace(n: nat, j: nat) returns (g: nat)
    requires j < MAX_GAPS && j < n
    ensures g % MAX_GAPS == j && n - MAX_GAPS <= g < n
    ensures g == if n < MAX_GAPS then j else if j < n % MAX_GAPS then n - n % MAX_GAPS + j else n - MAX_GAPS - n % MAX_GAPS + j
  {
    g := if n < MAX_GAPS then j else if j < n % MAX_GAPS then n - n % MAX_GAPS + j else n - MAX_GAPS - n % MAX_GAPS + j;
  }

  /** What the rule sums over is the latest gaps, rotated by where the ring stands. */
  lemma {:induction false} RingIsRotation(f: Flow, gs: seq<real>)
    requires RingHolds(f, gs)
    ensures var (w, k) := (Latest(gs), if |gs| < MAX_GAPS then 0 else |gs| % MAX_GAPS);
            Kept(f) == w[|w| - k..] + w[..|w| - k]
  {
    var w, k := Latest(gs), if |gs| < MAX_GAPS then 0 else |gs| % MAX_GAPS;
    forall j | 0 <= j < |w|
      ensures Kept(f)[j] == (w[|w| - k..] + w[..|w| - k])[j]
    {
      var g := InPlace(|gs|, j);
      assert f.gaps[g % MAX_GAPS] == gs[g];
    }
  }

  lemma {:induction false} TotalConcat(a: seq<real>, b: seq<real>, f: real -> real)
    ensures Total(a + b, f) == Total(a, f) + Total(b, f)
  {
    if b == [] {
      assert a + b == a;
    } else {
      TotalConcat(a, b[..|b|-1], f);
      assert (a + b)[..|a + b|-1] == a + b[..|b|-1];
    }
  }

  lemma {:induction false} RingTotal(f: Flow, gs: seq<real>, v: real -> real)
    requires RingHolds(f, gs)
    ensures |Kept(f)| == |Latest(gs)| && Total(Kept(f), v) == Total(Latest(gs), v)
  {
    RingIsRotation(f, gs);
    var w, k := Latest(gs), if |gs| < MAX_GAPS then 0 else |gs| % MAX_GAPS;
    TotalConcat(w[|w| - k..], w[..|w| - k], v);
    TotalConcat(w[..|w| - k], w[|w| - k..], v);
    assert w == w[..|w| - k] + w[|w| - k..];
  }

  /** So the ring is judged exactly as the latest gaps would be. */
  lemma {:induction false} RingSummary(f: Flow, gs: seq<real>)
    requires RingHolds(f, gs) && gs != []
    ensures Summarise(Kept(f)) == Summarise(Latest(gs))
  {
    RingTotal(f, gs, Itself());
    assert Mean(Kept(f)) == Mean(Latest(gs));
    RingTotal(f, gs, Deviation(Mean(Latest(gs))));
  }

  // ---- the mean -----------------------------------------------------------

  lemma {:induction false} GapAt(tss: seq<nat>, g: nat)
    requires g < |Gaps(tss)|
    ensures Gaps(tss)[g] == Gap(tss[g + 1], tss[g])
  {
    if g + 2 < |tss| {
      GapAt(tss[..|tss|-1], g);
    }
  }

  lemma {:induction false} Telescopes(tss: seq<nat>, lo: nat, hi: nat)
    requires Timed(tss) && lo <= hi <= |Gaps(tss)| && tss != []
    ensures Total(Gaps(tss)[lo..hi], Itself()) == (tss[hi] - tss[lo]) as real / NS
  {
    if lo < hi {
      Telescopes(tss, lo, hi - 1);
      GapAt(tss, hi - 1);
      assert Gaps(tss)[lo..hi][..hi - 1 - lo] == Gaps(tss)[lo..hi - 1];
    }
  }

  lemma {:induction false} LatestTotal(tss: seq<nat>, n: nat)
    requires Timed(tss) && tss != [] && n == |Latest(Gaps(tss))|
    ensures Total(Latest(Gaps(tss)), Itself()) == (tss[|tss|-1] - tss[|tss|-1-n]) as real / NS
  {
    var gs := Gaps(tss);
    Telescopes(tss, |gs| - n, |gs|);
    assert Latest(gs) == gs[|gs| - n..|gs|];
  }

  /** The mean computed from the ring is the time since that many packets back, divided by the count. */
  lemma {:induction false} MeanIsInterval(tss: seq<nat>, n: nat)
    requires Timed(tss) && |tss| >= 2 && n == if |tss| <= 8 then |tss| - 1 else 8
    ensures |Kept(After(tss))| == n
    ensures Mean(Kept(After(tss))) == (tss[|tss|-1] - tss[|tss|-1-n]) as real / 1000000000.0 / n as real
  {
    RunHolds(tss);
    RingTotal(After(tss), Gaps(tss), Itself());
    LatestTotal(tss, n);
  }

  // ---- when it alerts -----------------------------------------------------

  /** Some packet so far completed a steady window. */
  predicate EverSteady(tss: seq<nat>) {
    tss != [] && (Steady(Latest(Gaps(tss))) || EverSteady(tss[..|tss|-1]))
  }

  lemma {:induction false} PacketSummary(tss: seq<nat>)
    requires Timed(tss) && tss != []
    ensures var f := Noted(After(tss[..|tss|-1]), tss[|tss|-1]);
            && |Kept(f)| == |Latest(Gaps(tss))|
            && (|tss| > 1 ==> Summarise(Kept(f)) == Summarise(Latest(Gaps(tss))))
  {
    var before := tss[..|tss|-1];
    RunHolds(before);
    if before != [] {
      NotedHolds(After(before), Gaps(before), tss[|tss|-1]);
      RingSummary(Noted(After(before), tss[|tss|-1]), Gaps(tss));
    }
  }

  lemma {:induction false} AlertedIffEverSteady(tss: seq<nat>)
    requires Timed(tss)
    ensures After(tss).alerted <==> EverSteady(tss)
  {
    if tss != [] {
      var before := tss[..|tss|-1];
      AlertedIffEverSteady(before);
      PacketSummary(tss);
      JudgeKeeps(Noted(After(before), tss[|tss|-1]));
    }
  }

  /**
   For every packet stream, the rule alerts on a packet exactly when it is the first one whose
   latest gaps are steady, and it then reports their mean and their number.
   */
  lemma {:induction false} AlertExactlyWhen(tss: seq<nat>)
    requires Timed(tss) && tss != []
    ensures var w := Latest(Gaps(tss));
            AlertAt(tss) == if !EverSteady(tss[..|tss|-1]) && Steady(w) then Some(AlertOn(Summarise(w))) else None
  {
    AlertedIffEverSteady(tss[..|tss|-1]);
    PacketSummary(tss);
  }

  lemma {:induction false} AlertSets(tss: seq<nat>)
    requires tss != []
    ensures After(tss).alerted <==> After(tss[..|tss|-1]).alerted || AlertAt(tss).Some?
    ensures After(tss[..|tss|-1]).alerted ==> AlertAt(tss).None?
  {
  }

  lemma {:induction false} AlertedStays(tss: seq<nat>, k: nat)
    requires k <= |tss| && After(tss[..k]).alerted
    ensures After(tss).alerted
  {
    if k < |tss| {
      assert tss[..|tss|-1][..k] == tss[..k];
      AlertedStays(tss[..|tss|-1], k);
      AlertSets(tss);
    } else {
      assert tss[..k] == tss;
    }
  }

  /** No flow ever raises a second alert. */
  lemma {:induction false} AtMostOneAlert(tss: seq<nat>, k: nat)
    requires 0 < k < |tss| && AlertAt(tss[..k]).Some?
    ensures AlertAt(tss).None?
  {
    AlertSets(tss[..k]);
    assert tss[..|tss|-1][..k] == tss[..k];
    AlertedStays(tss[..|tss|-1], k);
    AlertSets(tss);
  }

  // ---- jitter -------------------------------------------------------------

  ghost predicate Within(xs: seq<real>, lo: real, hi: real) {
    forall i :: 0 <= i < |xs| ==> lo <= xs[i] <= hi
  }

  function Chord(p: real, q: real): real -> real {
    x => p * x + q
  }

  lemma {:induction false} TotalMonotone(xs: seq<real>, f: real -> real, g: real -> real)
    requires forall i :: 0 <= i < |xs| ==> f(xs[i]) <= g(xs[i])
    ensures Total(xs, f) <= Total(xs, g)
  {
    if xs != [] {
      TotalMonotone(xs[..|xs|-1], f, g);
    }
  }

  lemma ChordStep(p: real, q: real, t: real, x: real, n: nat)
    ensures p * (t + x) + q * (n + 1) as real == p * t + q * n as real + Chord(p, q)(x)
  {
  }

  lemma {:induction false} TotalChord(xs: seq<real>, p: real, q: real)
    ensures Total(xs, Chord(p, q)) == p * Total(xs, Itself()) + q * |xs| as real
  {
    if xs != [] {
      var rest := xs[..|xs|-1];
      TotalChord(rest, p, q);
      ChordStep(p, q, Total(rest, Itself()), xs[|xs|-1], |rest|);
    }
  }

  /** Between its ends an upward parabola lies under its chord. */
  lemma UnderChord(x: real, lo: real, hi: real, c: real)
    requires lo <= x <= hi
    ensures Deviation(c)(x) <= Chord(lo + hi - 2.0 * c, c * c - lo * hi)(x)
  {
    assert (hi - x) * (x - lo) >= 0.0;
  }

  lemma {:induction false} DeviationUnderChord(xs: seq<real>, lo: real, hi: real, c: real, p: real, q: real)
    requires Within(xs, lo, hi) && p == lo + hi - 2.0 * c && q == c * c - lo * hi
    ensures Total(xs, Deviation(c)) <= Total(xs, Chord(p, q))
  {
    forall i | 0 <= i < |xs|
      ensures Deviation(c)(xs[i]) <= Chord(p, q)(xs[i])
    {
      UnderChord(xs[i], lo, hi, c);
    }
    TotalMonotone(xs, Deviation(c), Chord(p, q));
  }

  lemma JitterBound(lo: real, hi: real, m: real, p: real, q: real, limit: real)
    requires (hi - lo) * (hi - lo) <= 0.04 * (lo * hi)
    requires p == lo + hi - 2.0 * m && q == m * m - lo * hi
    requires limit == (BEACON_CV_MAX * m) * (BEACON_CV_MAX * m)
    ensures p * m + q <= limit
  {
    var r := 2.02 * m - (lo + hi);
    assert r * r >= 0.0;
    assert r * r == 4.0804 * (m * m) - 4.04 * (m * (lo + hi)) + (lo + hi) * (lo + hi);
    assert (lo + hi) * (lo + hi) == (hi - lo) * (hi - lo) + 4.0 * (lo * hi);
  }

  lemma DivideWithin(t: real, n: nat, lo: real, hi: real)
    requires n > 0 && lo * n as real <= t <= hi * n as real
    ensures lo <= t / n as real <= hi
  {
    var m, k := t / n as real, n as real;
    assert t == m * k && k > 0.0;
    assert (m - lo) * k >= 0.0;
    assert (hi - m) * k >= 0.0;
  }

  lemma {:induction false} TotalFlat(xs: seq<real>, q: real)
    ensures Total(xs, Chord(0.0, q)) == q * |xs| as real
  {
    TotalChord(xs, 0.0, q);
  }

  lemma {:induction false} MeanWithin(xs: seq<real>, lo: real, hi: real)
    requires Within(xs, lo, hi) && xs != []
    ensures lo <= Mean(xs) <= hi
  {
    TotalMonotone(xs, Chord(0.0, lo), Itself());
    TotalMonotone(xs, Itself(), Chord(0.0, hi));
    TotalFlat(xs, lo);
    TotalFlat(xs, hi);
    DivideWithin(Total(xs, Itself()), |xs|, lo, hi);
  }

  /** How far apart gaps may lie and still be steady whatever their order and distribution. */
  ghost predicate LowJitter(lo: real, hi: real) {
    1.0 <= lo <= hi <= 300.0 && (hi - lo) * (hi - lo) <= 0.04 * (lo * hi)
  }

  lemma FactorOut(p: real, q: real, m: real, t: real, n: real, limit: real)
    requires t == m * n && p * m + q <= limit && n >= 0.0
    ensures p * t + q * n <= limit * n
  {
    NonNegative(limit - (p * m + q), n);
    assert p * t == (p * m) * n;
  }

  lemma {:induction false} ChordLimit(xs: seq<real>, d: real, m: real, p: real, q: real, limit: real)
    requires xs != [] && d <= Total(xs, Chord(p, q)) && m == Mean(xs) && p * m + q <= limit
    ensures d / |xs| as real <= limit
  {
    var t, n := Total(xs, Itself()), |xs| as real;
    TotalChord(xs, p, q);
    FactorOut(p, q, m, t, n, limit);
  }

  /** Some bound on the deviation's chord at the mean bounds the variance. */
  lemma {:induction false} VarianceWithin(xs: seq<real>, lo: real, hi: real, m: real)
      returns (p: real, q: real)
    requires xs != [] && Within(xs, lo, hi) && m == Mean(xs)
    ensures p == lo + hi - 2.0 * m && q == m * m - lo * hi
    ensures Summarise(xs).variance <= p * m + q
  {
    p, q := lo + hi - 2.0 * m, m * m - lo * hi;
    DeviationUnderChord(xs, lo, hi, m, p, q);
    ChordLimit(xs, Total(xs, Deviation(m)), m, p, q, p * m + q);
  }

  lemma {:induction false} LowJitterIsSteady(xs: seq<real>, lo: real, hi: real)
    requires |xs| >= BEACON_MIN_SAMPLES && Within(xs, lo, hi) && LowJitter(lo, hi)
    ensures Steady(xs)
  {
    MeanWithin(xs, lo, hi);
    var m := Mean(xs);
    var p, q := VarianceWithin(xs, lo, hi, m);
    JitterBound(lo, hi, m, p, q, (BEACON_CV_MAX * m) * (BEACON_CV_MAX * m));
  }

  /** Gaps within ten percent of each other, even within twenty, are low jitter. */
  lemma TenPercent(g: real, r: real)
    requires 1.0 <= r <= 1.2 && 1.0 <= g && r * g <= 300.0
    ensures LowJitter(g, r * g)
  {
    var e, gg := r - 1.0, g * g;
    SmallSquare(e);
    NonNegative(g, g);
    NonNegative(0.04 * r - e * e, gg);
    assert r * g - g == e * g;
    assert (e * g) * (e * g) == (e * e) * gg;
    assert g * (r * g) == r * gg;
  }

  lemma NonNegative(a: real, b: real)
    requires a >= 0.0 && b >= 0.0
    ensures a * b >= 0.0
  {
  }

  lemma SmallSquare(e: real)
    requires 0.0 <= e <= 0.2
    ensures e * e <= 0.04
  {
    NonNegative(0.2 - e, e);
  }

  lemma {:induction false} TooFewNeverSteady(tss: seq<nat>)
    requires |tss| <= BEACON_MIN_SAMPLES
    ensures !EverSteady(tss)
  {
    if tss != [] {
      TooFewNeverSteady(tss[..|tss|-1]);
    }
  }

  lemma {:induction false} GapsPrefix(tss: seq<nat>, k: nat)
    requires 0 < k <= |tss|
    ensures Gaps(tss[..k]) == Gaps(tss)[..k-1]
  {
    forall g | 0 <= g < k - 1
      ensures Gaps(tss[..k])[g] == Gaps(tss)[g]
    {
      GapAt(tss, g);
      GapAt(tss[..k], g);
    }
  }

  /** A flow whose first five gaps have low jitter alerts on its sixth packet and on no other. */
  lemma {:induction false} SixthPacketAlerts(tss: seq<nat>, lo: real, hi: real)
    requires Timed(tss) && |tss| >= 6
    requires Within(Gaps(tss)[..5], lo, hi) && LowJitter(lo, hi)
    ensures AlertAt(tss).Some? <==> |tss| == 6
    ensures AlertAt(tss[..6]).Some?
  {
    var six := tss[..BEACON_MIN_SAMPLES + 1];
    GapsPrefix(tss, BEACON_MIN_SAMPLES + 1);
    LowJitterIsSteady(Gaps(six), lo, hi);
    TooFewNeverSteady(six[..BEACON_MIN_SAMPLES]);
    AlertExactlyWhen(six);
    if |tss| > BEACON_MIN_SAMPLES + 1 {
      AtMostOneAlert(tss, BEACON_MIN_SAMPLES + 1);
    } else {
      assert six == tss;
    }
  }

  /** Before the sixth packet no flow alerts. */
  lemma {:induction false} NoEarlyAlert(tss: seq<nat>)
    requires Timed(tss) && 0 < |tss| <= 5
    ensures AlertAt(tss).None?
  {
    TooFewNeverSteady(tss);
    AlertExactlyWhen(tss);
  }

  lemma Square(x: real)
    ensures x * x >= 0.0
  {
  }

  lemma {:induction false} OneDeviation(xs: seq<real>, c: real, i: nat)
    requires i < |xs|
    ensures 0.0 <= Deviation(c)(xs[i]) <= Total(xs, Deviation(c))
  {
    var rest, x := xs[..|xs|-1], xs[|xs|-1];
    Square(x - c);
    if i < |rest| {
      OneDeviation(rest, c, i);
    } else if rest != [] {
      OneDeviation(rest, c, 0);
    }
  }

  lemma Multiply(d: real, n: nat, v: real)
    requires n > 0 && d / n as real <= v
    ensures d <= v * n as real
  {
    assert d == (d / n as real) * n as real;
  }

  /** Within about 28 percent of the mean. */
  predicate Near(x: real, mean: real) {
    (x - mean) * (x - mean) <= 0.08 * (mean * mean)
  }

  /** Steady gaps all lie near their mean. */
  lemma {:induction false} SteadyIsNear(xs: seq<real>, i: nat)
    requires Steady(xs) && i < |xs|
    ensures |xs| <= MAX_GAPS ==> Near(xs[i], Mean(xs))
  {
    var m := Mean(xs);
    OneDeviation(xs, m, i);
    Multiply(Total(xs, Deviation(m)), |xs|, (BEACON_CV_MAX * m) * (BEACON_CV_MAX * m));
    if |xs| <= MAX_GAPS {
      AtMostEight(m, |xs|);
    }
  }

  /** So an alert is never raised on irregular traffic: every one of the latest gaps is near the mean reported. */
  lemma {:induction false} AlertIsRegular(tss: seq<nat>, i: nat)
    requires Timed(tss) && tss != [] && AlertAt(tss).Some? && i < |Latest(Gaps(tss))|
    ensures var (m, x) := (AlertAt(tss).value.mean, Latest(Gaps(tss))[i]);
            1.0 <= m <= 300.0 && Near(x, m)
  {
    AlertExactlyWhen(tss);
    SteadyIsNear(Latest(Gaps(tss)), i);
  }

  lemma AtMostEight(m: real, n: nat)
    requires n <= MAX_GAPS
    ensures ((BEACON_CV_MAX * m) * (BEACON_CV_MAX * m)) * n as real <= 0.08 * (m * m)
  {
    var s := (BEACON_CV_MAX * m) * (BEACON_CV_MAX * m);
    assert s == 0.01 * (m * m) && s >= 0.0;
    assert s * n as real <= s * 8.0;
  }

  /** Judged on sums alone: `m` the mean, and the squared deviations at most a hundredth of its square, on average. */
  lemma {:induction false} SteadyExactlyWhen(xs: seq<real>, m: real)
    requires xs != [] && m == Mean(xs)
    ensures Steady(xs) <==>
            |xs| >= 5 && 1.0 <= m <= 300.0 && Total(xs, Deviation(m)) <= ((0.1 * m) * (0.1 * m)) * |xs| as real
  {
    DividesExactly(Total(xs, Deviation(m)), |xs|, (0.1 * m) * (0.1 * m));
  }

  lemma DividesExactly(d: real, n: nat, v: real)
    requires n > 0
    ensures d / n as real <= v <==> d <= v * n as real
  {
    if d / n as real <= v {
      Multiply(d, n, v);
    }
  }

  lemma ReportsSummary(w: seq<real>)
    requires w != []
    ensures AlertOn(Summarise(w)).callbacks == |w| + 1
    ensures AlertOn(Summarise(w)).mean == Total(w, Itself()) / |w| as real
  {
  }

  lemma {:induction false} AlertOfWindow(tss: seq<nat>)
    requires Timed(tss) && tss != [] && AlertAt(tss).Some?
    ensures var w := Latest(Gaps(tss)); |w| >= 5 && AlertAt(tss).value == AlertOn(Summarise(w))
  {
    AlertExactlyWhen(tss);
  }

  /** What an alert reports: the number of packets its gaps lie between, and their mean distance in seconds. */
  lemma {:induction false} AlertReports(tss: seq<nat>, n: nat)
    requires Timed(tss) && tss != [] && AlertAt(tss).Some? && n == if |tss| <= 8 then |tss| - 1 else 8
    ensures n >= 5 && AlertAt(tss).value.callbacks == n + 1
    ensures AlertAt(tss).value.mean == (tss[|tss|-1] - tss[|tss|-1-n]) as real / 1000000000.0 / n as real
  {
    var a, w := AlertAt(tss).value, Latest(Gaps(tss));
    AlertOfWindow(tss);
    ReportsSummary(w);
    LatestTotal(tss, n);
    SameQuotient(a.mean, Total(w, Itself()), (tss[|tss|-1] - tss[|tss|-1-n]) as real / 1000000000.0, n);
  }

  lemma SameQuotient(q: real, x: real, y: real, n: nat)
    requires n > 0 && q == x / n as real && x == y
    ensures q == y / n as real
  {
  }
}
