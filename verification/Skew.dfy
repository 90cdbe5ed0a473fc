/** skew.go: the clock-skew detector. A ring buffer of matched offsets with incrementally kept
    aggregates, and a fixed-point exponential average of their mean. float64 arithmetic is
    modelled over the reals, int64 by unbounded integers. */
module Skew {
  import opened Words

  const EMA_SCALE: int := 1000

  datatype Recommend = InsufficientData | NoActionNeeded | ConsistentDrift | WidenWindowOrCheckNtp

  datatype SkewReport = SkewReport(
    sampleCount: nat, meanOffset: real, nonZeroCount: nat, edgeHitRatio: real, recommend: Recommend)

  // ---------- arithmetic ----------

  /** math.Round: to the nearest integer, halves away from zero. */
  function Round(x: real): int {
    if x >= 0.0 then (x + 0.5).Floor else -((0.5 - x).Floor)
  }

  function Abs(x: int): nat {
    if x >= 0 then x else -x
  }

  function AbsReal(x: real): real {
    if x >= 0.0 then x else -x
  }

  // ---------- the detector as a value: the remembered offsets, oldest first ----------

  datatype Detector = Detector(
    samples: seq<int>, capacity: nat, autoAdjust: bool, offset: int, smoothedScaled: int, lastWindow: nat)

  function Sum(s: seq<int>): int {
    if s == [] then 0 else Sum(s[..|s| - 1]) + s[|s| - 1]
  }

  function CountNonZero(s: seq<int>): nat {
    if s == [] then 0 else CountNonZero(s[..|s| - 1]) + (if s[|s| - 1] != 0 then 1 else 0)
  }

  function CountEdges(s: seq<int>, w: nat): nat {
    if s == [] then 0 else CountEdges(s[..|s| - 1], w) + (if Abs(s[|s| - 1]) == w then 1 else 0)
  }

  /** The last n elements, or all of them. */
  function LastN(s: seq<int>, n: nat): seq<int> {
    if |s| <= n then s else s[|s| - n..]
  }

  function Mean(s: seq<int>): real
    requires s != []
  {
    Sum(s) as real / |s| as real
  }

  /** One step of the average, before rounding: 0.2 times the mean, 0.8 times the stored value. */
  function Smooth(mean: real, prevScaled: int): real {
    0.2 * mean + (1.0 - 0.2) * (prevScaled as real / EMA_SCALE as real)
  }

  function OffsetOf(smoothed: real): int {
    if AbsReal(smoothed) >= 0.5 then Round(smoothed) else 0
  }

  function ClampWindow(window: uint64): nat {
    if window > MAX_INT then MAX_INT else window
  }

  /** What Record does. */
  function Recorded(d: Detector, x: int, window: uint64): (r: Detector)
    requires d.capacity > 0
    ensures |d.samples| <= d.capacity ==> 0 < |r.samples| <= d.capacity
  {
    var samples := LastN(d.samples + [x], d.capacity);
    var base := d.(samples := samples, lastWindow := ClampWindow(window));
    if d.autoAdjust && |samples| >= 16 then
      var smoothed := Smooth(Mean(samples), d.smoothedScaled);
      base.(smoothedScaled := Round(smoothed * EMA_SCALE as real), offset := OffsetOf(smoothed))
    else base
  }

  /** What Report returns, computed directly from the remembered offsets. */
  function Reported(d: Detector): SkewReport {
    var n := |d.samples|;
    if n < 8 then SkewReport(n, 0.0, CountNonZero(d.samples), 0.0, InsufficientData)
    else
      var mean := Mean(d.samples);
      var ratio := (if d.lastWindow > 0 then CountEdges(d.samples, d.lastWindow) else 0) as real / n as real;
      SkewReport(n, mean, CountNonZero(d.samples), ratio,
                 if ratio >= 0.2 then WidenWindowOrCheckNtp
                 else if AbsReal(mean) >= 0.5 then ConsistentDrift
                 else NoActionNeeded)
  }

  function New(capacity: nat): Detector {
    Detector([], capacity, false, 0, 0, 0)
  }

  function Disabled(d: Detector): Detector {
    d.(autoAdjust := false, offset := 0, smoothedScaled := 0)
  }

  function Cleared(d: Detector): Detector {
    d.(samples := [], offset := 0, smoothedScaled := 0)
  }

  // ---------- aggregates ----------

  lemma SumSnoc(s: seq<int>, x: int)
    ensures Sum(s + [x]) == Sum(s) + x
    ensures CountNonZero(s + [x]) == CountNonZero(s) + if x != 0 then 1 else 0
  {
    assert (s + [x])[..|s|] == s;
  }

  lemma {:induction false} SumCons(x: int, s: seq<int>)
    ensures Sum([x] + s) == x + Sum(s)
    ensures CountNonZero([x] + s) == (if x != 0 then 1 else 0) + CountNonZero(s)
  {
    if s == [] {
      assert [x] + s == [] + [x];
      SumSnoc([], x);
    } else {
      var front, last := s[..|s| - 1], s[|s| - 1];
      SumCons(x, front);
      SumSnoc([x] + front, last);
      assert [x] + s == ([x] + front) + [last];
    }
  }

  lemma {:induction false} CountConcat(a: seq<int>, b: seq<int>, w: nat)
    ensures CountEdges(a + b, w) == CountEdges(a, w) + CountEdges(b, w)
  {
    if b == [] {
      assert a + b == a;
    } else {
      CountConcat(a, b[..|b| - 1], w);
      assert (a + b)[..|a + b| - 1] == a + b[..|b| - 1];
    }
  }

  // ---------- the detector as an object ----------

  class ClockSkewDetector {
    // The ring: `length` slots of a buffer of `capacity` slots are in use.
    var buffer: array<int>
    const capacity: nat
    var writeIdx: nat
    var length: nat
    var sum: int
    var nonZeroCount: int
    var autoAdjust: bool
    var offset: int
    var smoothedScaled: int
    var lastWindowUsed: nat

    ghost predicate Shaped()
      reads this
    {
      && buffer.Length == capacity && length <= capacity
      && (length < capacity ==> writeIdx == length)
      && (length == capacity > 0 ==> writeIdx < capacity)
      && (capacity == 0 ==> writeIdx == 0)
    }

    /** The ring read from its oldest slot. */
    ghost function Samples(): (s: seq<int>)
      reads this, buffer
      requires Shaped()
      ensures |s| == length
    {
      if length < capacity then buffer[..length] else buffer[writeIdx..] + buffer[..writeIdx]
    }

    ghost function Model(): Detector
      reads this, buffer
      requires Shaped()
    {
      Detector(Samples(), capacity, autoAdjust, offset, smoothedScaled, lastWindowUsed)
    }

    /** The aggregates equal their recomputation. */
    ghost predicate Valid()
      reads this, buffer
    {
      Shaped() && sum == Sum(Samples()) && nonZeroCount == CountNonZero(Samples())
    }

    constructor (capacity: nat)
      ensures Valid() && fresh(buffer) && Model() == New(capacity)
    {
      buffer := new int[capacity];
      this.capacity := capacity;
      writeIdx, length, sum, nonZeroCount := 0, 0, 0, 0;
      autoAdjust, offset, smoothedScaled, lastWindowUsed := false, 0, 0, 0;
    }

    method Record(matchedOffset: int, windowUsed: uint64)
      requires Valid() && capacity > 0
      modifies this`writeIdx, this`length, this`sum, this`nonZeroCount, this`offset, this`smoothedScaled,
        this`lastWindowUsed, buffer
      ensures Valid() && Model() == Recorded(old(Model()), matchedOffset, windowUsed)
    {
      hide Sum, CountNonZero, Round, Smooth, OffsetOf;
      Push(matchedOffset);
      if windowUsed > MAX_INT {
        lastWindowUsed := MAX_INT;
      } else {
        lastWindowUsed := windowUsed;
      }
      if autoAdjust && length >= 16 {
        var mean := sum as real / length as real;
        var prevScaled := smoothedScaled;
        var smoothed := Smooth(mean, prevScaled);
        smoothedScaled := Round(smoothed * EMA_SCALE as real);
        offset := OffsetOf(smoothed);
      }
    }

    /** The ring-buffer part of Record. */
    method Push(matchedOffset: int)
      requires Valid() && capacity > 0
      modifies this`writeIdx, this`length, this`sum, this`nonZeroCount, buffer
      ensures Valid() && Samples() == LastN(old(Samples()) + [matchedOffset], capacity)
    {
      if length < capacity {
        Grow(matchedOffset);
      } else {
        Overwrite(matchedOffset);
      }
    }

    /** A ring that is not full yet: the sample is appended. */
    method Grow(matchedOffset: int)
      requires Valid() && length < capacity
      modifies this`writeIdx, this`length, this`sum, this`nonZeroCount, buffer
      ensures Valid() && Samples() == old(Samples()) + [matchedOffset]
    {
      hide Sum, CountNonZero, Wrap;
      ghost var s := Samples();
      SumSnoc(s, matchedOffset);
      WrapIndex(length + 1, capacity);
      buffer[length] := matchedOffset;
      sum := sum + matchedOffset;
      if matchedOffset != 0 {
        nonZeroCount := nonZeroCount + 1;
      }
      length := length + 1;
      writeIdx := Wrap(length, capacity);
      assert buffer[..length] == s + [matchedOffset];
      assert length == capacity ==> buffer[0..] + buffer[..0] == buffer[..length];
    }

    /** A full ring: the oldest sample makes place. */
    method Overwrite(matchedOffset: int)
      requires Valid() && length == capacity > 0
      modifies this`writeIdx, this`sum, this`nonZeroCount, buffer
      ensures Valid() && Samples() == old(Samples())[1..] + [matchedOffset]
    {
      hide Sum, CountNonZero, Wrap, LastN;
      ghost var s, w := Samples(), writeIdx;
      DropOldest(s, matchedOffset);
      var dropped := buffer[writeIdx];
      buffer[writeIdx] := matchedOffset;
      sum := sum - dropped + matchedOffset;
      if dropped != 0 {
        nonZeroCount := nonZeroCount - 1;
      }
      if matchedOffset != 0 {
        nonZeroCount := nonZeroCount + 1;
      }
      WrapIndex(w + 1, capacity);
      writeIdx := Wrap(writeIdx + 1, capacity);
      Rotated(s, buffer[..], w, matchedOffset);
      assert buffer[writeIdx..] == buffer[..][writeIdx..] && buffer[..writeIdx] == buffer[..][..writeIdx];
    }

    method CurrentOffset() returns (r: int)
      ensures r == offset
    {
      return offset;
    }

    method EnableAutoAdjust()
      requires Shaped()
      modifies this`autoAdjust
      ensures Shaped() && autoAdjust && Model() == old(Model()).(autoAdjust := true)
    {
      autoAdjust := true;
    }

    method DisableAutoAdjust()
      requires Shaped()
      modifies this`autoAdjust, this`offset, this`smoothedScaled
      ensures Shaped() && Model() == Disabled(old(Model()))
      ensures !autoAdjust && offset == 0 && smoothedScaled == 0 && Samples() == old(Samples())
    {
      autoAdjust := false;
      offset := 0;
      smoothedScaled := 0;
    }

    /** Starts the ring over; the auto-adjust flag and the last window stay. */
    method Reset()
      requires Shaped()
      modifies this
      ensures Valid() && fresh(buffer) && Model() == Cleared(old(Model()))
      ensures length == 0 && offset == 0 && smoothedScaled == 0
      ensures autoAdjust == old(autoAdjust) && lastWindowUsed == old(lastWindowUsed)
    {
      buffer := new int[capacity];
      writeIdx, length, sum, nonZeroCount := 0, 0, 0, 0;
      offset := 0;
      smoothedScaled := 0;
    }

    method Report() returns (r: SkewReport)
      requires Valid()
      ensures r == Reported(Model())
    {
      hide Sum, CountNonZero, CountEdges;
      NonZeroIsNat(Samples());
      if length < 8 {
        return SkewReport(length, 0.0, nonZeroCount, 0.0, InsufficientData);
      }
      var meanOffset := sum as real / length as real;
      var edgeHits := 0;
      if lastWindowUsed > 0 {
        edgeHits := EdgeHits();
      }
      var edgeHitRatio := edgeHits as real / length as real;
      var recommend;
      if edgeHitRatio >= 0.2 {
        recommend := WidenWindowOrCheckNtp;
      } else if AbsReal(meanOffset) >= 0.5 {
        recommend := ConsistentDrift;
      } else {
        recommend := NoActionNeeded;
      }
      return SkewReport(length, meanOffset, nonZeroCount, edgeHitRatio, recommend);
    }

    /** The loop of Report, over the buffer in storage order. */
    method EdgeHits() returns (edgeHits: nat)
      requires Valid()
      ensures edgeHits == CountEdges(Samples(), lastWindowUsed)
    {
      hide Sum, CountNonZero;
      edgeHits := 0;
      for i := 0 to length
        invariant edgeHits == CountEdges(buffer[..i], lastWindowUsed)
      {
        assert buffer[..i + 1][..i] == buffer[..i];
        if Abs(buffer[i]) == lastWindowUsed {
          edgeHits := edgeHits + 1;
        }
      }
      if length == capacity {
        assert buffer[..length] == buffer[..writeIdx] + buffer[writeIdx..];
        CountConcat(buffer[..writeIdx], buffer[writeIdx..], lastWindowUsed);
        CountConcat(buffer[writeIdx..], buffer[..writeIdx], lastWindowUsed);
      }
    }
  }

  lemma DropOldest(s: seq<int>, x: int)
    requires s != []
    ensures Sum(s[1..] + [x]) == Sum(s) - s[0] + x
    ensures CountNonZero(s[1..] + [x]) ==
            CountNonZero(s) - (if s[0] != 0 then 1 else 0) + (if x != 0 then 1 else 0)
    ensures s[0] != 0 ==> CountNonZero(s) > 0
  {
    assert s == [s[0]] + s[1..];
    SumCons(s[0], s[1..]);
    SumSnoc(s[1..], x);
  }

  /** i % n. */
  function Wrap(i: nat, n: nat): nat
    requires n > 0
  {
    i % n
  }

  lemma WrapIndex(i: nat, n: nat)
    requires i <= n && n > 0
    ensures Wrap(i, n) == if i == n then 0 else i
  {
  }

  lemma NonZeroIsNat(s: seq<int>)
    ensures CountNonZero(s) >= 0
  {
  }

  /** Overwriting the oldest slot and advancing drops the oldest sample and appends the new one. */
  lemma Rotated(s: seq<int>, b: seq<int>, w: nat, x: int)
    requires w < |b| && |b| == |s| && b[w] == x
    requires forall j :: 0 <= j < |b| && j != w ==> b[j] == s[if j >= w then j - w else j + |b| - w]
    ensures var n := if w + 1 == |b| then 0 else w + 1;
            b[n..] + b[..n] == s[1..] + [x]
  {
    var n := if w + 1 == |b| then 0 else w + 1;
    assert |b[n..] + b[..n]| == |s|;
  }
}
