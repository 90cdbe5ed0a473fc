/** Laws of the skew detector over whole runs: the window it remembers, the bounds it keeps, and
    where its average converges. */
module SkewLaws {
  import opened Words
  import opened Skew

  // ---------- what the ring remembers ----------

  datatype Event = Record(x: int, window: uint64) | Enable | Disable | Clear

  function Step(d: Detector, e: Event): Detector
    requires d.capacity > 0
  {
    match e
    case Record(x, window) => Recorded(d, x, window)
    case Enable => d.(autoAdjust := true)
    case Disable => Disabled(d)
    case Clear => Cleared(d)
  }

  function Run(d: Detector, events: seq<Event>): (r: Detector)
    requires d.capacity > 0
    ensures r.capacity == d.capacity
  {
    if events == [] then d else Step(Run(d, events[..|events| - 1]), events[|events| - 1])
  }

  /** The offsets recorded since the ring was last started over. */
  function Offsets(events: seq<Event>): seq<int> {
    if events == [] then []
    else match events[|events| - 1]
         case Record(x, _) => Offsets(events[..|events| - 1]) + [x]
         case Clear => []
         case _ => Offsets(events[..|events| - 1])
  }

  /** The clamped window of the latest record, which starting the ring over does not forget. */
  function LatestWindow(events: seq<Event>): nat {
    if events == [] then 0
    else if events[|events| - 1].Record? then
      (var w := events[|events| - 1].window; if w <= MAX_INT then w else MAX_INT)
    else LatestWindow(events[..|events| - 1])
  }

  lemma LastNSnoc(s: seq<int>, x: int, n: nat)
    requires n > 0
    ensures LastN(LastN(s, n) + [x], n) == LastN(s + [x], n)
  {
  }

  /** After any run the ring holds exactly the last capacity offsets, oldest first; Report, which
      is a function of them and of the last window, is therefore the direct computation. */
  lemma {:induction false} RemembersLatest(capacity: nat, events: seq<Event>)
    requires capacity > 0
    ensures Run(New(capacity), events).samples == LastN(Offsets(events), capacity)
    ensures Run(New(capacity), events).lastWindow == LatestWindow(events)
  {
    hide Mean, Smooth, Round, OffsetOf, LastN;
    if events == [] {
      LastNEmpty(capacity);
    } else {
      RemembersLatest(capacity, events[..|events| - 1]);
      LastNEmpty(capacity);
      if events[|events| - 1].Record? {
        LastNSnoc(Offsets(events[..|events| - 1]), events[|events| - 1].x, capacity);
      }
    }
  }

  lemma LastNEmpty(n: nat)
    ensures LastN([], n) == []
  {
  }

  // ---------- one record and one report, in whole numbers ----------

  /** The samples after a record: the new one last, before it those remembered, the oldest dropped
      when the ring is full. Below sixteen samples, or with auto-adjust off, nothing else moves. */
  lemma RecordKeeps(d: Detector, x: int, window: uint64)
    requires d.capacity > 0 && |d.samples| <= d.capacity
    ensures var r := Recorded(d, x, window);
            && |r.samples| == (if |d.samples| < d.capacity then |d.samples| + 1 else d.capacity)
            && r.samples[|r.samples| - 1] == x
            && (forall i :: 0 <= i < |r.samples| - 1 ==> r.samples[i] == d.samples[|d.samples| + 1 - |r.samples| + i])
            && r.capacity == d.capacity && r.autoAdjust == d.autoAdjust
            && r.lastWindow == (if window <= 0x7FFF_FFFF_FFFF_FFFF then window else 0x7FFF_FFFF_FFFF_FFFF)
            && (!d.autoAdjust || |r.samples| < 16 ==> r.smoothedScaled == d.smoothedScaled && r.offset == d.offset)
  {
    hide Mean, Smooth, Round, OffsetOf;
  }

  /** The average and the offset after an adjusting record of n samples with sum s, p being the
      scaled average before it. With V = (1000 s + 4 n p) / (5000 n), a fifth of the mean and four
      fifths of p / 1000, the average is 1000 V to the nearest whole number, and the offset is V
      to the nearest whole number, zero exactly below a half; halves go away from zero. */
  lemma RecordAdjusts(d: Detector, x: int, window: uint64)
    requires d.capacity > 0 && |d.samples| <= d.capacity && d.autoAdjust
    requires |Recorded(d, x, window).samples| >= 16
    ensures var r := Recorded(d, x, window);
            var n := |r.samples|;
            var total := 1000 * Sum(r.samples) + 4 * n * d.smoothedScaled;
            && 2 * Abs(5 * n * r.smoothedScaled - total) <= 5 * n
            && (2 * (5 * n * r.smoothedScaled - total) == 5 * n ==> total > 0)
            && (2 * (5 * n * r.smoothedScaled - total) == -5 * n ==> total < 0)
            && 2 * Abs(5000 * n * r.offset - total) <= 5000 * n
            && (2 * (5000 * n * r.offset - total) == 5000 * n ==> total > 0)
            && (2 * (5000 * n * r.offset - total) == -5000 * n ==> total < 0)
            && (r.offset == 0 <==> 2 * Abs(total) < 5000 * n)
  {
    hide Sum, Smooth, Round, OffsetOf, Mean;
    var s := Recorded(d, x, window).samples;
    var n: int := |s|;
    var m, p := Mean(s), d.smoothedScaled;
    var total := 1000 * Sum(s) + 4 * n * p;
    MeanTimes(s);
    var y := Smooth(m, p);
    SmoothTimes(m, p, Sum(s), n);
    RoundScaled(y * EMA_SCALE as real, 5 * n, total);
    OffsetScaled(y, 5000 * n, total);
  }

  lemma MeanTimes(s: seq<int>)
    requires s != []
    ensures Mean(s) * |s| as real == Sum(s) as real
  {
  }

  lemma SmoothTimes(m: real, p: int, sum: int, n: int)
    requires n > 0 && m * n as real == sum as real
    ensures var total := 1000 * sum + 4 * n * p;
            && Smooth(m, p) * EMA_SCALE as real * (5 * n) as real == total as real
            && Smooth(m, p) * (5000 * n) as real == total as real
  {
    var y, a, b := Smooth(m, p), n as real, p as real;
    assert y == 0.2 * m + 0.0008 * b;
    assert (5 * n) as real == 5.0 * a && (5000 * n) as real == 5000.0 * a;
    assert (4 * n * p) as real == 4.0 * (a * b) by { RealProduct(n, p); }
    assert y * (5000.0 * a) == 1000.0 * (m * a) + 4.0 * (a * b) by { Distribute(y, m, a, b); }
    assert y * 1000.0 * (5.0 * a) == y * (5000.0 * a);
  }

  lemma RealProduct(n: int, p: int)
    ensures (4 * n * p) as real == 4.0 * (n as real * p as real)
  {
  }

  lemma Distribute(y: real, m: real, a: real, b: real)
    requires y == 0.2 * m + 0.0008 * b
    ensures y * (5000.0 * a) == 1000.0 * (m * a) + 4.0 * (a * b)
  {
  }

  /** Rounding z, when z times k is the whole number t. */
  lemma RoundScaled(z: real, k: int, t: int)
    requires k > 0 && z * k as real == t as real
    ensures 2 * Abs(k * Round(z) - t) <= k
    ensures 2 * (k * Round(z) - t) == k ==> t > 0
    ensures 2 * (k * Round(z) - t) == -k ==> t < 0
  {
    hide Round, Abs;
    RoundNear(z);
    var r := Round(z);
    RealProduct2(k, r, r as real - z, z);
    HalfBound(r as real - z, k * r - t, k);
    SignOfProduct(z, k as real);
  }

  lemma HalfBound(e: real, q: int, k: int)
    requires k > 0 && -0.5 <= e <= 0.5 && e * k as real == q as real
    ensures 2 * Abs(q) <= k
    ensures (2 * q == k ==> e == 0.5) && (2 * q == -k ==> e == -0.5)
  {
    var kr := k as real;
    var p := e * kr;
    ScaleBounds(e, kr, p);
    WholeBound(p, q, k);
  }

  lemma WholeBound(p: real, q: int, k: int)
    requires p == q as real && -(k as real) <= 2.0 * p <= k as real
    ensures 2 * Abs(q) <= k
    ensures (2 * q == k ==> 2.0 * p == k as real) && (2 * q == -k ==> 2.0 * p == -(k as real))
  {
    var t := 2 * q;
    assert t as real == 2.0 * p;
  }

  lemma RealProduct2(k: int, r: int, e: real, z: real)
    requires e == r as real - z
    ensures e * k as real == (k * r) as real - z * k as real
  {
  }

  lemma ScaleBounds(e: real, k: real, p: real)
    requires k > 0.0 && -0.5 <= e <= 0.5 && p == e * k
    ensures -k <= 2.0 * p <= k
    ensures 2.0 * p == k ==> e == 0.5
    ensures 2.0 * p == -k ==> e == -0.5
  {
    if e < 0.5 {
      MulLess(e, 0.5, k);
    }
    if e > -0.5 {
      MulLess(-0.5, e, k);
    }
  }

  lemma SignOfProduct(z: real, k: real)
    requires k > 0.0
    ensures z > 0.0 <==> z * k > 0.0
    ensures z < 0.0 <==> z * k < 0.0
  {
  }

  lemma ThresholdScaled(z: real, k: int, t: int)
    requires k > 0 && z * k as real == t as real
    ensures z < 0.5 <==> 2 * t < k
    ensures z > -0.5 <==> 2 * t > -k
  {
    var kr := k as real;
    var p := z * kr;
    HalfCompared(z, kr, p);
    WholeCompared(p, t, k);
  }

  lemma HalfCompared(z: real, k: real, p: real)
    requires k > 0.0 && p == z * k
    ensures z < 0.5 <==> 2.0 * p < k
    ensures z > -0.5 <==> 2.0 * p > -k
  {
    if z < 0.5 {
      MulLess(z, 0.5, k);
    } else {
      MulAtLeast(0.5, z, k);
    }
    if z > -0.5 {
      MulLess(-0.5, z, k);
    } else {
      MulAtLeast(z, -0.5, k);
    }
  }

  lemma WholeCompared(p: real, t: int, k: int)
    requires p == t as real
    ensures 2.0 * p < k as real <==> 2 * t < k
    ensures 2.0 * p > -(k as real) <==> 2 * t > -k
  {
    var u := 2 * t;
    assert u as real == 2.0 * p;
  }

  lemma RoundLeavesZero(z: real)
    ensures z >= 0.5 ==> Round(z) >= 1
    ensures z <= -0.5 ==> Round(z) <= -1
  {
  }

  lemma OffsetScaled(z: real, k: int, t: int)
    requires k > 0 && z * k as real == t as real
    ensures 2 * Abs(k * OffsetOf(z) - t) <= k
    ensures 2 * (k * OffsetOf(z) - t) == k ==> t > 0
    ensures 2 * (k * OffsetOf(z) - t) == -k ==> t < 0
    ensures OffsetOf(z) == 0 <==> 2 * Abs(t) < k
  {
    hide Round;
    RoundScaled(z, k, t);
    ThresholdScaled(z, k, t);
    RoundLeavesZero(z);
    if -0.5 < z < 0.5 {
      assert OffsetOf(z) == 0 && k * 0 == 0;
    }
  }

  /** The counts of a report are the numbers of offsets that are not zero, */
  lemma {:induction false} NonZeroAre(s: seq<int>)
    ensures CountNonZero(s) == |set i | 0 <= i < |s| && s[i] != 0|
  {
    var all := set i | 0 <= i < |s| && s[i] != 0;
    if s == [] {
      assert all == {};
    } else {
      var f, last := s[..|s| - 1], |s| - 1;
      NonZeroAre(f);
      var rest := set i | 0 <= i < |f| && f[i] != 0;
      assert all == if s[last] != 0 then rest + {last} else rest;
    }
  }

  /** or as far off as the window was wide. */
  lemma {:induction false} EdgesAre(s: seq<int>, w: nat)
    ensures CountEdges(s, w) == |set i | 0 <= i < |s| && (s[i] == w || s[i] + w == 0)|
  {
    var all := set i | 0 <= i < |s| && (s[i] == w || s[i] + w == 0);
    if s == [] {
      assert all == {};
    } else {
      var f, last := s[..|s| - 1], |s| - 1;
      EdgesAre(f, w);
      var rest := set i | 0 <= i < |f| && (f[i] == w || f[i] + w == 0);
      assert all == if s[last] == w || s[last] + w == 0 then rest + {last} else rest;
    }
  }

  /** The numbers of a report: below eight samples only the counts, from eight on the mean and
      the share of edge hits as well. */
  lemma ReportNumbers(d: Detector)
    ensures var n, r := |d.samples|, Reported(d);
            && r.sampleCount == n && r.nonZeroCount == |set i | 0 <= i < n && d.samples[i] != 0|
            && (n < 8 ==> r.meanOffset == 0.0 && r.edgeHitRatio == 0.0 && r.recommend == InsufficientData)
            && (n >= 8 ==> r.meanOffset * n as real == Sum(d.samples) as real && r.recommend != InsufficientData)
            && (n >= 8 && d.lastWindow == 0 ==> r.edgeHitRatio == 0.0)
            && (n >= 8 && d.lastWindow > 0 ==>
                r.edgeHitRatio * n as real ==
                |set i | 0 <= i < n && (d.samples[i] == d.lastWindow || d.samples[i] + d.lastWindow == 0)| as real)
  {
    hide CountNonZero, CountEdges, Sum;
    NonZeroAre(d.samples);
    EdgesAre(d.samples, d.lastWindow);
    if |d.samples| >= 8 {
      MeanTimes(d.samples);
    }
  }

  // ---------- bounds over whole runs ----------

  ghost predicate AllWithin(s: seq<int>, w: nat) {
    forall i :: 0 <= i < |s| ==> Abs(s[i]) <= w
  }

  ghost predicate Bounded(d: Detector, w: nat) {
    && AllWithin(d.samples, w) && |d.samples| <= d.capacity
    && Abs(d.smoothedScaled) <= EMA_SCALE * w && Abs(d.offset) <= w
  }

  lemma {:induction false} SumBound(s: seq<int>, w: nat)
    requires AllWithin(s, w)
    ensures -(w * |s|) <= Sum(s) <= w * |s|
  {
    if s != [] {
      SumBound(s[..|s| - 1], w);
      assert w * |s| == w * (|s| - 1) + w;
    }
  }

  lemma DivBound(a: real, n: real, w: real)
    requires n > 0.0 && -(w * n) <= a <= w * n
    ensures -w <= a / n <= w
  {
    var q := a / n;
    assert q * n == a;
    if q > w {
      MulLess(w, q, n);
    }
    if q < -w {
      MulLess(q, -w, n);
    }
  }

  lemma MulLess(a: real, b: real, n: real)
    requires a < b && n > 0.0
    ensures a * n < b * n
  {
  }

  lemma MeanBound(s: seq<int>, w: nat)
    requires s != [] && AllWithin(s, w)
    ensures -(w as real) <= Mean(s) <= w as real
  {
    hide Sum;
    SumBound(s, w);
    var n: int := |s|;
    assert (w * n) as real == w as real * n as real;
    DivBound(Sum(s) as real, n as real, w as real);
  }

  /** Round is a nearest integer, and away from zero at halves. */
  lemma RoundNear(x: real)
    ensures -0.5 <= Round(x) as real - x <= 0.5
    ensures (Round(x) as real - x == 0.5 ==> x > 0.0) && (Round(x) as real - x == -0.5 ==> x < 0.0)
  {
  }

  lemma RoundBound(x: real, n: nat)
    requires -(n as real) <= x <= n as real
    ensures Abs(Round(x)) <= n
  {
    RoundNear(x);
  }

  lemma OffsetBound(x: real, n: nat)
    requires -(n as real) <= x <= n as real
    ensures Abs(OffsetOf(x)) <= n
  {
    RoundBound(x, n);
  }

  lemma SmoothBound(mean: real, p: int, w: nat)
    requires -(w as real) <= mean <= w as real && Abs(p) <= EMA_SCALE * w
    ensures -(w as real) <= Smooth(mean, p) <= w as real
    ensures -((EMA_SCALE * w) as real) <= Smooth(mean, p) * EMA_SCALE as real <= (EMA_SCALE * w) as real
  {
    var q := p as real / 1000.0;
    assert -(w as real) <= q <= w as real;
  }

  lemma LastNWithin(s: seq<int>, x: int, n: nat, w: nat)
    requires AllWithin(s, w) && Abs(x) <= w
    ensures AllWithin(LastN(s + [x], n), w)
  {
  }

  lemma RecordedBounded(d: Detector, x: int, window: uint64, w: nat)
    requires d.capacity > 0 && Bounded(d, w) && Abs(x) <= w
    ensures Bounded(Recorded(d, x, window), w)
  {
    hide Mean, Smooth, Round, OffsetOf, AllWithin, LastN, Abs;
    LastNWithin(d.samples, x, d.capacity, w);
    var s := LastN(d.samples + [x], d.capacity);
    LastNFits(d.samples + [x], d.capacity);
    MeanBound(s, w);
    SmoothBound(Mean(s), d.smoothedScaled, w);
    RoundBound(Smooth(Mean(s), d.smoothedScaled) * EMA_SCALE as real, EMA_SCALE * w);
    OffsetBound(Smooth(Mean(s), d.smoothedScaled), w);
  }

  lemma LastNFits(s: seq<int>, n: nat)
    requires s != [] && n > 0
    ensures 0 < |LastN(s, n)| <= n
  {
  }

  /** Fed with offsets of magnitude at most w, the average stays within 1000 w and the offset
      within w, whatever else happens to the detector. */
  lemma {:induction false} RunBounded(capacity: nat, events: seq<Event>, w: nat)
    requires capacity > 0
    requires forall i :: 0 <= i < |events| && events[i].Record? ==> Abs(events[i].x) <= w
    ensures Bounded(Run(New(capacity), events), w)
  {
    hide Recorded, Abs;
    assert Abs(0) == 0 by { AbsZero(); }
    if events != [] {
      var front := events[..|events| - 1];
      assert forall i :: 0 <= i < |front| ==> front[i] == events[i];
      RunBounded(capacity, front, w);
      var e := events[|events| - 1];
      if e.Record? {
        RecordedBounded(Run(New(capacity), front), e.x, e.window, w);
      }
    }
  }

  lemma AbsZero()
    ensures Abs(0) == 0
  {
  }

  /** While auto-adjust is off, the offset and the average are zero. */
  lemma {:induction false} PassiveIsZero(capacity: nat, events: seq<Event>)
    requires capacity > 0
    ensures var d := Run(New(capacity), events);
            !d.autoAdjust ==> d.offset == 0 && d.smoothedScaled == 0
  {
    hide Mean, Smooth, Round, OffsetOf;
    if events != [] {
      PassiveIsZero(capacity, events[..|events| - 1]);
    }
  }

  // ---------- convergence ----------

  /** One step of the average when its input is the constant x: the scaled error becomes four
      fifths of itself, rounded to a nearest integer. */
  lemma ErrorStep(x: int, p: int)
    ensures var e, e' := p - EMA_SCALE * x, Round(Smooth(x as real, p) * EMA_SCALE as real) - EMA_SCALE * x;
            && -2 <= 5 * e' - 4 * e <= 2
            && 5 * Abs(e') <= 4 * Abs(e) + 2
            && (Abs(e) >= 3 ==> Abs(e') < Abs(e))
            && (Abs(e) <= 2 ==> Abs(e') <= 2)
  {
    hide Round;
    var e := p - 1000 * x;
    var y := Smooth(x as real, p) * EMA_SCALE as real;
    assert y == 1000.0 * x as real + 0.8 * e as real;
    RoundNear(y);
    var e' := Round(y) - 1000 * x;
    assert 5.0 * (e' as real) - 4.0 * (e as real) <= 2.5;
    assert 5.0 * (e' as real) - 4.0 * (e as real) >= -2.5;
    assert (5 * e' - 4 * e) as real == 5.0 * (e' as real) - 4.0 * (e as real);
  }

  /** Within 624 thousandths of x the reported offset is exactly x. */
  lemma OffsetExact(x: int, p: int)
    requires Abs(p - EMA_SCALE * x) <= 624
    ensures OffsetOf(Smooth(x as real, p)) == x
  {
    hide Round;
    var e := p - 1000 * x;
    var y := Smooth(x as real, p);
    assert y == x as real + 0.0008 * e as real;
    RoundNear(y);
    assert -0.5 < y - x as real < 0.5;
    assert -1.0 < Round(y) as real - x as real < 1.0;
  }

  /** The state after recording x once for each window. */
  function RecordSame(d: Detector, x: int, windows: seq<uint64>): (r: Detector)
    requires d.capacity > 0
    ensures r.capacity == d.capacity && r.autoAdjust == d.autoAdjust
  {
    if windows == [] then d
    else Recorded(RecordSame(d, x, windows[..|windows| - 1]), x, windows[|windows| - 1])
  }

  ghost predicate Constant(s: seq<int>, x: int) {
    forall i :: 0 <= i < |s| ==> s[i] == x
  }

  lemma {:induction false} SumConstant(s: seq<int>, x: int)
    requires Constant(s, x)
    ensures Sum(s) == x * |s|
  {
    if s != [] {
      SumConstant(s[..|s| - 1], x);
      assert x * |s| == x * (|s| - 1) + x;
    }
  }

  lemma MeanConstant(s: seq<int>, x: int)
    requires s != [] && Constant(s, x)
    ensures Mean(s) == x as real
  {
    hide Sum;
    SumConstant(s, x);
    var n: int := |s|;
    assert (x * n) as real == x as real * n as real;
    DivBound(Sum(s) as real - x as real * n as real, n as real, 0.0);
    DivCancel(x as real, n as real);
  }

  lemma DivCancel(x: real, n: real)
    requires n > 0.0
    ensures x * n / n == x
  {
  }

  /** The last n elements, or all of them, are x. */
  ghost predicate TailIs(s: seq<int>, n: nat, x: int) {
    forall i :: 0 <= i < |s| && i >= |s| - n ==> s[i] == x
  }

  lemma TailStep(s: seq<int>, n: nat, x: int, capacity: nat)
    requires TailIs(s, n, x) && |s| <= capacity && capacity > 0
    ensures TailIs(LastN(s + [x], capacity), n + 1, x)
    ensures |LastN(s + [x], capacity)| == if |s| < capacity then |s| + 1 else capacity
  {
    var t := LastN(s + [x], capacity);
    assert t == (s + [x])[|s| + 1 - |t|..];
  }

  /** The newest min(n, capacity) samples after n records of x are x. */
  lemma {:induction false} TailConstant(d: Detector, x: int, windows: seq<uint64>)
    requires d.capacity > 0 && |d.samples| <= d.capacity
    ensures var s, n := RecordSame(d, x, windows).samples, |windows|;
            && TailIs(s, n, x) && |s| <= d.capacity
            && (n > 0 ==> s != [])
            && |s| >= (if n < d.capacity then n else d.capacity)
  {
    hide Mean, Smooth, Round, OffsetOf, LastN, TailIs;
    if windows == [] {
      TailNone(d.samples, x);
    } else {
      var front := windows[..|windows| - 1];
      TailConstant(d, x, front);
      TailStep(RecordSame(d, x, front).samples, |front|, x, d.capacity);
    }
  }

  lemma TailNone(s: seq<int>, x: int)
    ensures TailIs(s, 0, x)
  {
  }

  lemma TailAll(s: seq<int>, n: nat, x: int)
    requires TailIs(s, n, x) && n >= |s|
    ensures Constant(s, x)
  {
  }

  lemma {:induction false} CountsConstant(s: seq<int>, x: int, w: nat)
    requires Constant(s, x)
    ensures CountNonZero(s) == (if x != 0 then |s| else 0)
    ensures CountEdges(s, w) == (if Abs(x) == w then |s| else 0)
  {
    if s != [] {
      CountsConstant(s[..|s| - 1], x, w);
    }
  }

  /** The report on a client that is always off by x: its mean is x, and the advice is to widen
      the window when x is its edge, to expect drift otherwise, and nothing when x is zero. */
  lemma ReportOfConstant(d: Detector, x: int)
    requires |d.samples| >= 8 && Constant(d.samples, x)
    ensures var n, edge := |d.samples|, x != 0 && Abs(x) == d.lastWindow;
            Reported(d) == SkewReport(n, x as real, if x != 0 then n else 0, if edge then 1.0 else 0.0,
              if edge then WidenWindowOrCheckNtp else if x != 0 then ConsistentDrift else NoActionNeeded)
  {
    hide Mean, CountEdges, CountNonZero;
    MeanConstant(d.samples, x);
    CountsConstant(d.samples, x, d.lastWindow);
    var n: int := |d.samples|;
    DivCancel(1.0, n as real);
    assert 0 as real / n as real == 0.0;
    assert x != 0 ==> AbsReal(x as real) >= 0.5;
  }

  /** The advice, in whole numbers: widen the window when at least a fifth of the offsets are its
      edge, expect drift when their sum is at least half their number, else do nothing. */
  lemma ReportAdvice(d: Detector)
    requires |d.samples| >= 8
    ensures var n := |d.samples|;
            var edges := if d.lastWindow > 0 then CountEdges(d.samples, d.lastWindow) else 0;
            Reported(d).recommend ==
              if 5 * edges >= n then WidenWindowOrCheckNtp
              else if 2 * Abs(Sum(d.samples)) >= n then ConsistentDrift
              else NoActionNeeded
  {
    hide CountEdges, Sum, CountNonZero;
    var n: int := |d.samples|;
    var edges := if d.lastWindow > 0 then CountEdges(d.samples, d.lastWindow) else 0;
    QuotientAtLeast(edges as real, n as real, 0.2);
    AbsQuotientAtLeast(Sum(d.samples), n);
  }

  lemma AbsQuotientAtLeast(a: int, n: int)
    requires n > 0
    ensures AbsReal(a as real / n as real) >= 0.5 <==> 2 * Abs(a) >= n
  {
    QuotientAtLeast(a as real, n as real, 0.5);
    QuotientAtLeast((-a) as real, n as real, 0.5);
    NegatedQuotient(a as real, n as real);
  }

  lemma NegatedQuotient(a: real, n: real)
    requires n > 0.0
    ensures -a / n == -(a / n)
  {
  }

  lemma QuotientAtLeast(a: real, n: real, q: real)
    requires n > 0.0
    ensures a / n >= q <==> a >= q * n
  {
    var x := a / n;
    assert x * n == a;
    if x >= q {
      MulAtLeast(q, x, n);
    } else {
      MulLess(x, q, n);
    }
  }

  lemma MulAtLeast(a: real, b: real, n: real)
    requires a <= b && n > 0.0
    ensures a * n <= b * n
  {
  }

  function Error(d: Detector, x: int): nat {
    Abs(d.smoothedScaled - EMA_SCALE * x)
  }

  ghost predicate Adjusting(d: Detector) {
    d.capacity >= 16 && d.autoAdjust && |d.samples| <= d.capacity
  }

  /** Recording x into a full ring of x: the error step, and the exact offset once near. */
  lemma RecordNear(d: Detector, x: int, window: uint64)
    requires d.capacity > 0 && d.autoAdjust
    requires var s := Recorded(d, x, window).samples; |s| >= 16 && Constant(s, x)
    ensures var r := Recorded(d, x, window);
            && 5 * Error(r, x) <= 4 * Error(d, x) + 2
            && (Error(d, x) >= 3 ==> Error(r, x) < Error(d, x))
            && (Error(d, x) <= 2 ==> Error(r, x) <= 2)
            && (Error(d, x) <= 624 ==> r.offset == x)
  {
    hide Mean, Smooth, Round, OffsetOf;
    var s := Recorded(d, x, window).samples;
    MeanConstant(s, x);
    ErrorStep(x, d.smoothedScaled);
    if Error(d, x) <= 624 {
      OffsetExact(x, d.smoothedScaled);
    }
  }

  lemma {:induction false} SameBounded(d: Detector, x: int, windows: seq<uint64>, w: nat)
    requires d.capacity > 0 && Bounded(d, w) && Abs(x) <= w
    ensures Bounded(RecordSame(d, x, windows), w)
  {
    hide Recorded, Bounded;
    if windows != [] {
      SameBounded(d, x, windows[..|windows| - 1], w);
      RecordedBounded(RecordSame(d, x, windows[..|windows| - 1]), x, windows[|windows| - 1], w);
    }
  }

  lemma ErrorBounded(d: Detector, x: int, w: nat)
    requires Bounded(d, w) && Abs(x) <= w
    ensures Error(d, x) <= 2000 * w
  {
  }

  function Pow(b: nat, n: nat): nat {
    if n == 0 then 1 else b * Pow(b, n - 1)
  }

  /** Shrinking by four fifths k times takes an error of 2000 w below the half-way mark. */
  predicate Enough(w: nat, k: nat) {
    Pow(4, k) * (2000 * w) <= 622 * Pow(5, k)
  }

  lemma EnoughMore(w: nat, k: nat)
    requires Enough(w, k)
    ensures Enough(w, k + 1)
  {
    var a, b: nat := Pow(4, k), Pow(5, k);
    var m := a * (2000 * w);
    assert Pow(4, k + 1) * (2000 * w) == 4 * m by { MulAssoc(4, a, 2000 * w); }
  }

  lemma MulAssoc(a: nat, b: nat, c: nat)
    ensures (a * b) * c == a * (b * c)
  {
  }

  lemma {:induction false} PowRatio(k: nat)
    ensures 4 * Pow(5, k) >= (4 + k) * Pow(4, k)
  {
    if k > 0 {
      PowRatio(k - 1);
      var a, b: nat := Pow(4, k - 1), Pow(5, k - 1);
      assert (4 + k) * (4 * a) == 4 * ((3 + k) * a) + 4 * a;
      assert 5 * ((3 + k) * a) == 4 * ((3 + k) * a) + (3 + k) * a;
      MulMono(4, 3 + k, a);
    }
  }

  lemma PowPlus10(b: nat, n: nat)
    ensures b == 4 ==> Pow(b, n + 10) == 1048576 * Pow(b, n)
    ensures b == 5 ==> Pow(b, n + 10) == 9765625 * Pow(b, n)
  {
    if b == 4 || b == 5 {
      assert Pow(b, n + 2) == b * (b * Pow(b, n));
      assert Pow(b, n + 4) == b * (b * Pow(b, n + 2));
      assert Pow(b, n + 6) == b * (b * Pow(b, n + 4));
      assert Pow(b, n + 8) == b * (b * Pow(b, n + 6));
    }
  }

  /** Some k is enough for every magnitude, */
  lemma EnoughExists(w: nat)
    ensures Enough(w, 13 * w)
  {
    var k := 13 * w;
    var a, b: nat := Pow(4, k), Pow(5, k);
    PowRatio(k);
    assert 622 * (4 + k) * a >= 4 * (2000 * w) * a by { MulMono(4 * (2000 * w), 622 * (4 + k), a); }
    assert 622 * ((4 + k) * a) <= 622 * (4 * b);
  }

  /** and 37 is for the largest window. */
  lemma EnoughForWindows()
    ensures Enough(1000, 37)
  {
    PowPlus10(5, 7);
    PowPlus10(5, 17);
    PowPlus10(5, 27);
    PowPlus10(4, 7);
    PowPlus10(4, 17);
    PowPlus10(4, 27);
    assert Pow(4, 7) == 16384 && Pow(5, 7) == 78125;
  }

  /** Once the ring holds only x, the error above 2 falls to four fifths with every record. */
  lemma {:induction false} ErrorFalls(d: Detector, x: int, windows: seq<uint64>, w: nat)
    requires Adjusting(d) && Bounded(d, w) && Abs(x) <= w && |windows| >= d.capacity
    ensures var k := |windows| - d.capacity;
            Pow(5, k) * (Error(RecordSame(d, x, windows), x) - 2) <= Pow(4, k) * (2000 * w)
  {
    hide Recorded, Error, Bounded;
    if |windows| == d.capacity {
      SameBounded(d, x, windows, w);
      ErrorBounded(RecordSame(d, x, windows), x, w);
    } else {
      var front, last := windows[..|windows| - 1], windows[|windows| - 1];
      ErrorFalls(d, x, front, w);
      BoundedFits(d, w);
      TailConstant(d, x, windows);
      TailAll(RecordSame(d, x, windows).samples, |windows|, x);
      RecordNear(RecordSame(d, x, front), x, last);
      FallStep(Error(RecordSame(d, x, front), x), Error(RecordSame(d, x, windows), x),
               |front| - d.capacity, Pow(4, |front| - d.capacity) * (2000 * w));
      MulAssoc(4, Pow(4, |front| - d.capacity), 2000 * w);
    }
  }

  lemma FallStep(e: nat, e': nat, k: nat, m: nat)
    requires 5 * e' <= 4 * e + 2 && Pow(5, k) * (e - 2) <= m
    ensures Pow(5, k + 1) * (e' - 2) <= 4 * m
  {
    var p: nat := Pow(5, k);
    MulMono(5 * (e' - 2), 4 * (e - 2), p);
    assert (5 * p) * (e' - 2) == (5 * (e' - 2)) * p;
    assert (4 * (e - 2)) * p == 4 * (p * (e - 2));
  }

  lemma {:induction false} EnoughLater(w: nat, k: nat, n: nat)
    requires Enough(w, k) && k <= n
    ensures Enough(w, n)
  {
    hide Enough;
    if k < n {
      EnoughLater(w, k, n - 1);
      EnoughMore(w, n - 1);
    }
  }

  lemma EnoughIsNear(e: nat, w: nat, k: nat)
    requires Enough(w, k) && Pow(5, k) * (e - 2) <= Pow(4, k) * (2000 * w)
    ensures e <= 624
  {
    var p: nat := Pow(5, k);
    PowPositive(k);
    if e > 624 {
      MulMono(623, e - 2, p);
    }
  }

  lemma {:induction false} PowPositive(k: nat)
    ensures Pow(5, k) >= 1
  {
    if k > 0 {
      PowPositive(k - 1);
    }
  }

  lemma BoundedFits(d: Detector, w: nat)
    requires Bounded(d, w)
    ensures |d.samples| <= d.capacity
  {
  }

  /** Convergence with a rate: recording the same offset x with auto-adjust on, CurrentOffset is
      exactly x from record capacity + k + 1 on, where w bounds what came before and k is any
      number of steps with 2000 w (4/5)^k <= 622. */
  lemma ConvergesBy(d: Detector, x: int, windows: seq<uint64>, w: nat, k: nat)
    requires Adjusting(d) && Bounded(d, w) && Abs(x) <= w
    requires Enough(w, k) && |windows| >= d.capacity + k + 1
    ensures RecordSame(d, x, windows).offset == x
    ensures Holding(RecordSame(d, x, windows), x)
  {
    hide Recorded, Error, Bounded, Enough, Pow;
    var front, last := windows[..|windows| - 1], windows[|windows| - 1];
    ErrorFalls(d, x, front, w);
    EnoughLater(w, k, |front| - d.capacity);
    EnoughIsNear(Error(RecordSame(d, x, front), x), w, |front| - d.capacity);
    BoundedFits(d, w);
    TailConstant(d, x, windows);
    TailAll(RecordSame(d, x, windows).samples, |windows|, x);
    RecordNear(RecordSame(d, x, front), x, last);
  }

  /** The state that recording x over and over leads to. */
  ghost predicate Holding(d: Detector, x: int) {
    d.autoAdjust && |d.samples| >= 16 && Constant(d.samples, x) && Error(d, x) <= 624 && d.offset == x
  }

  /** A detector that holds x goes on holding it while x is recorded. */
  lemma HoldingKept(d: Detector, x: int, window: uint64)
    requires d.capacity >= 16 && Holding(d, x)
    ensures Holding(Recorded(d, x, window), x)
  {
    hide Mean, Smooth, Round, OffsetOf, Error;
    RecordNear(d, x, window);
  }

  /** A bound on the magnitudes in a state. */
  function Magnitude(s: seq<int>): (w: nat)
    ensures AllWithin(s, w)
  {
    if s == [] then 0
    else
      var w, a := Magnitude(s[..|s| - 1]), Abs(s[|s| - 1]);
      if w >= a then w else a
  }

  /** From the n-th record of x on, whatever the windows, the offset is x. */
  ghost predicate SettledFrom(d: Detector, x: int, n: nat)
    requires d.capacity > 0
  {
    forall windows: seq<uint64> :: |windows| >= n ==> RecordSame(d, x, windows).offset == x
  }

  /** Convergence from every state: from some point on CurrentOffset equals x for good. */
  lemma Converges(d: Detector, x: int)
    requires Adjusting(d)
    ensures exists n: nat :: SettledFrom(d, x, n)
  {
    hide RecordSame;
    var w := Magnitude(d.samples) + Abs(d.smoothedScaled) + Abs(d.offset) + Abs(x);
    assert Bounded(d, w);
    var n := d.capacity + 13 * w + 1;
    EnoughExists(w);
    forall windows: seq<uint64> | |windows| >= n ensures RecordSame(d, x, windows).offset == x {
      ConvergesBy(d, x, windows, w, 13 * w);
    }
    assert SettledFrom(d, x, n);
  }
}
