/** totp.go: time-based codes, validation windows, and verification that tracks clock skew. */
module Totp {
  import opened Wrappers
  import opened Words
  import opened ConstantTime
  import opened Otp
  import Skew

  const MAX_WINDOW: nat := 1000

  datatype Totp = Totp(mac: Mac, digits: nat, period: uint64, cleared: bool)

  predicate ValidTotp(t: Totp) {
    6 <= t.digits <= 8 && t.period > 0
  }

  /** newTOTPWithRuntime, for a secret or provider that is present and a known algorithm. */
  function NewTotp(mac: Mac, digits: uint32, period: uint64): (r: Result<Totp>)
    ensures r.Ok? ==> ValidTotp(r.value)
    ensures r == Err(ErrInvalidDigits) <==> !(6 <= digits <= 8)
    ensures r == Err(ErrInvalidTime) <==> 6 <= digits <= 8 && period == 0
  {
    if digits < 6 || digits > 8 then Err(ErrInvalidDigits)
    else if period == 0 then Err(ErrInvalidTime)
    else Ok(Totp(mac, digits, period, false))
  }

  function CodeAt(t: Totp, counter: uint64, context: seq<byte>): seq<byte>
    requires ValidTotp(t)
  {
    Code(t.mac, t.digits, counter, context)
  }

  function StepOf(t: Totp, time: uint64): uint64
    requires ValidTotp(t)
  {
    time / t.period
  }

  // ---------- counter arithmetic ----------

  /** The sum of a counter and a signed step, unless it leaves the 64-bit range. */
  function CheckedAddSigned(counter: uint64, delta: int64): Option<uint64> {
    if delta >= 0 then
      var sum := (counter + delta) % TWO_64;
      if sum < counter then None else Some(sum)
    else
      var d := -(delta as int);
      if d > counter then None else Some(counter - d)
  }

  function AddCounterSigned(counter: uint64, delta: int64): uint64 {
    match CheckedAddSigned(counter, delta)
    case None => 0
    case Some(v) => v
  }

  lemma CheckedAddMeans(counter: uint64, delta: int64)
    ensures CheckedAddSigned(counter, delta) ==
            if 0 <= counter + delta < TWO_64 then Some(counter + delta) else None
  {
  }

  // ---------- the window ----------

  /** Some counter at most w steps from `counter` has the code. */
  ghost predicate InWindow(t: Totp, context: seq<byte>, code: seq<byte>, counter: uint64, w: nat)
    requires ValidTotp(t)
  {
    exists c: uint64 :: counter - w <= c <= counter + w && CodeAt(t, c, context) == code
  }

  /** What Verify and VerifyBound accept: the window, and the code of counter 0 when the window
      runs past the largest counter, because an out-of-range counter is replaced by 0. */
  ghost predicate WindowAccepts(t: Totp, context: seq<byte>, code: seq<byte>, counter: uint64, w: nat)
    requires ValidTotp(t)
  {
    InWindow(t, context, code, counter, w) || (counter + w >= TWO_64 && CodeAt(t, 0, context) == code)
  }

  /** A window in terms of the codes themselves. */
  lemma WindowIs(t: Totp, context: seq<byte>, code: seq<byte>, counter: uint64, w: nat)
    requires ValidTotp(t)
    ensures InWindow(t, context, code, counter, w) <==>
            exists c: uint64 :: counter - w <= c <= counter + w && Code(t.mac, t.digits, c, context) == code
  {
    hide Code;
    if InWindow(t, context, code, counter, w) {
      var c: uint64 :| counter - w <= c <= counter + w && CodeAt(t, c, context) == code;
      assert Code(t.mac, t.digits, c, context) == code;
    }
    if c: uint64 :| counter - w <= c <= counter + w && Code(t.mac, t.digits, c, context) == code {
      assert CodeAt(t, c, context) == code;
    }
  }

  /** The steps tried so far: one of the counters up to step i has the code. */
  ghost predicate Tried(t: Totp, context: seq<byte>, code: seq<byte>, counter: uint64, w: int, i: int)
    requires ValidTotp(t) && 0 <= w <= MAX_WINDOW && i <= w + 1
  {
    exists j: int :: -w <= j < i && CodeAt(t, AddCounterSigned(counter, j), context) == code
  }

  lemma TriedNext(t: Totp, context: seq<byte>, code: seq<byte>, counter: uint64, w: int, i: int)
    requires ValidTotp(t) && 0 <= w <= MAX_WINDOW && -w <= i <= w
    ensures Tried(t, context, code, counter, w, i + 1) <==>
            Tried(t, context, code, counter, w, i) || CodeAt(t, AddCounterSigned(counter, i), context) == code
  {
    hide CodeAt, AddCounterSigned;
  }

  lemma TriedAll(t: Totp, context: seq<byte>, code: seq<byte>, counter: uint64, w: int)
    requires ValidTotp(t) && 0 <= w <= MAX_WINDOW
    ensures Tried(t, context, code, counter, w, w + 1) <==> WindowAccepts(t, context, code, counter, w)
  {
    hide CodeAt;
    if Tried(t, context, code, counter, w, w + 1) {
      var j: int :| -w <= j < w + 1 && CodeAt(t, AddCounterSigned(counter, j), context) == code;
      CheckedAddMeans(counter, j);
    }
    if InWindow(t, context, code, counter, w) {
      var c: uint64 :| counter - w <= c <= counter + w && CodeAt(t, c, context) == code;
      CheckedAddMeans(counter, c - counter);
      assert CodeAt(t, AddCounterSigned(counter, c - counter), context) == code;
    }
    if counter + w >= TWO_64 {
      CheckedAddMeans(counter, w);
      assert AddCounterSigned(counter, w) == 0;
    }
  }

  /** The loop of Verify and VerifyBound, which differ in the context only: every counter of the
      window is compared, whatever matched before. */
  method VerifyBound(t: Totp, code: seq<byte>, context: seq<byte>, current: uint64, window: uint64)
    returns (r: Result<bool>)
    requires ValidTotp(t) && |code| <= MAX_INT
    ensures t.cleared ==> r == Err(ErrInvalidSecret)
    ensures !t.cleared && window > 1000 ==> r == Err(ErrInvalidTime)
    ensures !t.cleared && window <= 1000 ==>
              r.Ok? && (r.value <==> WindowAccepts(t, context, code, StepOf(t, current), window))
    ensures !t.cleared && window <= 1000 ==>
              (r.value <==>
               || (exists c: uint64 :: current / t.period - window <= c <= current / t.period + window &&
                                       Code(t.mac, t.digits, c, context) == code)
               || (current / t.period + window >= 0x1_0000_0000_0000_0000 &&
                   Code(t.mac, t.digits, 0, context) == code))
  {
    hide Code, Or, AddCounterSigned, Tried, InWindow;
    if t.cleared {
      return Err(ErrInvalidSecret);
    }
    var counter := StepOf(t, current);
    if window > MAX_WINDOW {
      return Err(ErrInvalidTime);
    }
    var matched: byte := 0;
    var windowInt: int := window;
    var i := -windowInt;
    NothingTried(t, context, code, counter, windowInt);
    while i <= windowInt
      invariant -windowInt <= i <= windowInt + 1
      invariant matched != 0 <==> Tried(t, context, code, counter, windowInt, i)
    {
      var equal := CompareStep(t, code, context, counter, i);
      TriedNext(t, context, code, counter, windowInt, i);
      OrByte(matched, equal);
      matched := Or(matched, equal);
      i := i + 1;
    }
    TriedAll(t, context, code, counter, windowInt);
    WindowIs(t, context, code, counter, window);
    return Ok(matched != 0);
  }

  /** One step of the loop: the code of counter + i, out-of-range counters replaced by 0. */
  method CompareStep(t: Totp, code: seq<byte>, context: seq<byte>, counter: uint64, i: int64) returns (r: byte)
    requires ValidTotp(t) && |code| <= MAX_INT
    ensures r == if CodeAt(t, AddCounterSigned(counter, i), context) == code then 1 else 0
  {
    hide Code, AddCounterSigned;
    var testCounter := AddCounterSigned(counter, i);
    var expected := GenDigits(t.mac, t.digits, testCounter, context);
    r := ConstantTimeEqByteResult(code, expected);
  }

  lemma NothingTried(t: Totp, context: seq<byte>, code: seq<byte>, counter: uint64, w: int)
    requires ValidTotp(t) && 0 <= w <= MAX_WINDOW
    ensures !Tried(t, context, code, counter, w, -w)
  {
  }

  lemma OrByte(a: byte, b: byte)
    ensures Or(a, b) < 0x100 && (Or(a, b) != 0 <==> a != 0 || b != 0)
  {
    hide Or, Pow2;
    Pow2Small();
    OrBounds(a, b, 8);
    OrIsZero(a, b);
  }

  method Verify(t: Totp, code: seq<byte>, current: uint64, window: uint64) returns (r: Result<bool>)
    requires ValidTotp(t) && |code| <= MAX_INT
    ensures t.cleared ==> r == Err(ErrInvalidSecret)
    ensures !t.cleared && window > 1000 ==> r == Err(ErrInvalidTime)
    ensures !t.cleared && window <= 1000 ==>
              r.Ok? && (r.value <==> WindowAccepts(t, [], code, StepOf(t, current), window))
    ensures !t.cleared && window <= 1000 ==>
              (r.value <==>
               || (exists c: uint64 :: current / t.period - window <= c <= current / t.period + window &&
                                       Code(t.mac, t.digits, c, []) == code)
               || (current / t.period + window >= 0x1_0000_0000_0000_0000 && Code(t.mac, t.digits, 0, []) == code))
  {
    r := VerifyBound(t, code, [], current, window);
  }

  /** When the window fits in 64 bits, exactly the codes of its counters are accepted. */
  lemma WindowExact(t: Totp, context: seq<byte>, code: seq<byte>, counter: uint64, w: nat)
    requires ValidTotp(t) && counter + w < TWO_64
    ensures WindowAccepts(t, context, code, counter, w) <==>
            exists c: uint64 :: (if counter >= w then counter - w else 0) <= c <= counter + w &&
                                CodeAt(t, c, context) == code
  {
    hide CodeAt;
    var low := if counter >= w then counter - w else 0;
    if c: uint64 :| low <= c <= counter + w && CodeAt(t, c, context) == code {
      assert InWindow(t, context, code, counter, w);
    }
  }

  /** With a period of at least two seconds every window fits. */
  lemma PeriodTwoFits(t: Totp, time: uint64, w: nat)
    requires ValidTotp(t) && t.period >= 2 && w <= MAX_WINDOW
    ensures StepOf(t, time) + w < TWO_64
  {
    var p: nat := t.period;
    MulMono(2, p, TWO_63);
    DivBelow(time, TWO_63, p);
  }

  // A digest that truncates to 0, and one that truncates to 1.
  const DIGEST_OF_ZERO: Digest := seq(20, i => 0)
  const DIGEST_OF_ONE: Digest := seq(20, i => if i == 3 then 1 else 0)

  /** A mac under which counter 0 alone has the all-zero digest. */
  function ZeroMarked(context: seq<byte>): Mac {
    (m: seq<byte>) => if m == Message(0, context) then DIGEST_OF_ZERO else DIGEST_OF_ONE
  }

  lemma ZeroMarkedCode(digits: nat, c: uint64, context: seq<byte>)
    requires 6 <= digits <= 8
    ensures DecimalValue(Code(ZeroMarked(context), digits, c, context)) == if c == 0 then 0 else 1
  {
    hide Message, DynamicTruncate, Decimal, DecimalValue, BigEndianValue;
    CodeMeans(ZeroMarked(context), digits, c, context);
    MessageInjective(c, context, 0, context);
    var h := ZeroMarked(context)(Message(c, context));
    assert h[19] == 0;
    FourValue(h[0..4]);
    assert Pow10(2) == 100;
    assert Pow10(4) == 10000;
    assert Pow10(6) == 1000000;
  }

  /** A window that overruns the counter range wraps: the code of counter 0 is accepted although
      no counter of the window has it. */
  lemma WindowWrapsToZero(digits: nat, period: uint64, context: seq<byte>, counter: uint64, w: nat)
    requires 6 <= digits <= 8 && period > 0 && w <= MAX_WINDOW && counter + w >= TWO_64
    ensures var t := Totp(ZeroMarked(context), digits, period, false);
            var code := CodeAt(t, 0, context);
            && WindowAccepts(t, context, code, counter, w)
            && !InWindow(t, context, code, counter, w)
  {
    hide Code;
    var t := Totp(ZeroMarked(context), digits, period, false);
    forall c: uint64 | c != 0 ensures CodeAt(t, c, context) != CodeAt(t, 0, context) {
      ZeroMarkedCode(digits, c, context);
      ZeroMarkedCode(digits, 0, context);
    }
  }

  /** Whatever the mac and the code, exactly the codes of the window's counters are accepted. */
  ghost predicate AlwaysExact(digits: nat, period: uint64, context: seq<byte>, counter: uint64, w: nat)
    requires 6 <= digits <= 8 && period > 0
  {
    forall mac: Mac, code: seq<byte> ::
      var t := Totp(mac, digits, period, false);
      WindowAccepts(t, context, code, counter, w) <==> InWindow(t, context, code, counter, w)
  }

  /** Window exactness holds if and only if the window does not overrun the counter range. */
  lemma ExactUnlessOverrun(digits: nat, period: uint64, context: seq<byte>, counter: uint64, w: nat)
    requires 6 <= digits <= 8 && period > 0 && w <= MAX_WINDOW
    ensures AlwaysExact(digits, period, context, counter, w) <==> counter + w < TWO_64
  {
    hide CodeAt, InWindow;
    if counter + w >= TWO_64 {
      WindowWrapsToZero(digits, period, context, counter, w);
    }
  }

  /** A code generated at time u is accepted at time v whenever the times are at most
      window * period apart (section 5.2 of RFC 6238). */
  lemma GeneratedIsAccepted(t: Totp, context: seq<byte>, u: uint64, v: uint64, w: nat)
    requires ValidTotp(t) && u <= v + w * t.period && v <= u + w * t.period
    ensures WindowAccepts(t, context, CodeAt(t, StepOf(t, u), context), StepOf(t, v), w)
  {
    hide CodeAt;
    DivClose(u, v, w, t.period);
    DivClose(v, u, w, t.period);
    assert InWindow(t, context, CodeAt(t, StepOf(t, u), context), StepOf(t, v), w);
  }

  lemma DivClose(u: nat, v: nat, w: nat, p: nat)
    requires p > 0 && u <= v + w * p
    ensures u / p <= v / p + w
  {
    var q := v / p + w;
    assert v < (v / p) * p + p;
    assert (q + 1) * p == (v / p) * p + w * p + p;
    DivBelow(u, q + 1, p);
  }

  lemma DivBelow(u: nat, n: nat, p: nat)
    requires p > 0 && u < n * p
    ensures u / p < n
  {
    var q := u / p;
    assert q * p <= u;
    if q >= n {
      MulMono(n, q, p);
    }
  }

  // ---------- tracking ----------

  /** The counter the window is centred on: adjusted by the detector unless that overflows. */
  function Adjusted(base: uint64, offset: int64): uint64 {
    match CheckedAddSigned(base, offset)
    case None => base
    case Some(v) => v
  }

  /** The window's centre is the time's counter plus the offset, or the time's counter alone when
      the sum leaves the 64-bit range. */
  lemma AdjustedIs(base: uint64, offset: int64)
    ensures Adjusted(base, offset) == if 0 <= base + offset < 0x1_0000_0000_0000_0000 then base + offset else base
  {
    CheckedAddMeans(base, offset);
  }

  /** Step i of the window hits: its counter exists and has the code. */
  predicate Hits(t: Totp, code: seq<byte>, centre: uint64, i: int)
    requires ValidTotp(t)
  {
    0 <= centre + i < TWO_64 && CodeAt(t, centre + i, []) == code
  }

  ghost predicate AnyHit(t: Totp, code: seq<byte>, centre: uint64, w: int)
    requires ValidTotp(t)
  {
    exists i :: -w <= i <= w && Hits(t, code, centre, i)
  }

  predicate IsInt64(x: int) {
    -0x8000_0000_0000_0000 <= x < 0x8000_0000_0000_0000
  }

  /** The first step from i to w that hits. */
  function FirstHit(t: Totp, code: seq<byte>, centre: uint64, i: int, w: int): (r: Option<int>)
    requires ValidTotp(t)
    ensures r.Some? ==> i <= r.value <= w && Hits(t, code, centre, r.value)
    ensures forall j :: i <= j < (if r.Some? then r.value else w + 1) ==> !Hits(t, code, centre, j)
    decreases w - i
  {
    if i > w then None
    else if Hits(t, code, centre, i) then Some(i)
    else FirstHit(t, code, centre, i + 1, w)
  }

  /** The detector after a tracked verification: the first hit is recorded. */
  function TrackedDetector(t: Totp, code: seq<byte>, current: uint64, window: nat, d: Skew.Detector): Skew.Detector
    requires ValidTotp(t) && IsInt64(d.offset) && d.capacity > 0 && window <= MAX_WINDOW
  {
    match FirstHit(t, code, Adjusted(StepOf(t, current), d.offset), -(window as int), window)
    case None => d
    case Some(i) => Skew.Recorded(d, i, window)
  }

  method VerifyTracking(t: Totp, code: seq<byte>, current: uint64, window: uint64, detector: Skew.ClockSkewDetector)
    returns (r: Result<bool>)
    requires ValidTotp(t) && |code| <= MAX_INT
    requires detector.Valid() && detector.capacity > 0 && IsInt64(detector.offset)
    modifies detector, detector.buffer
    ensures detector.Valid()
    ensures t.cleared ==> r == Err(ErrInvalidSecret) && detector.Model() == old(detector.Model())
    ensures !t.cleared && window > 1000 ==> r == Err(ErrInvalidTime) && detector.Model() == old(detector.Model())
    ensures !t.cleared && window <= 1000 ==>
              && r.Ok?
              && detector.Model() == TrackedDetector(t, code, current, window, old(detector.Model()))
              && (r.value <==> AnyHit(t, code, Adjusted(StepOf(t, current), old(detector.offset)), window))
    ensures !t.cleared && window <= 1000 ==>
              var base, sum: int := current / t.period, current / t.period + old(detector.offset);
              var centre: int := if 0 <= sum < 0x1_0000_0000_0000_0000 then sum else base;
              r.value <==> exists c: uint64 :: centre - window <= c <= centre + window &&
                                               Code(t.mac, t.digits, c, []) == code
  {
    hide Code, InWindow, Skew.Recorded, Skew.Sum, Skew.CountNonZero, FirstHit;
    if t.cleared {
      return Err(ErrInvalidSecret);
    }
    var baseCounter := StepOf(t, current);
    var currentOffset := detector.CurrentOffset();
    var adjusted := CheckedAddSigned(baseCounter, currentOffset);
    var adjustedCounter := if adjusted.Some? then adjusted.value else baseCounter;
    if window > MAX_WINDOW {
      return Err(ErrInvalidTime);
    }
    TrackingAgrees(t, code, adjustedCounter, window);
    WindowIs(t, [], code, adjustedCounter, window);
    AdjustedIs(baseCounter, currentOffset);
    var windowInt: int := window;
    var i := -windowInt;
    while i <= windowInt
      invariant -windowInt <= i <= windowInt + 1
      invariant forall j :: -windowInt <= j < i ==> !Hits(t, code, adjustedCounter, j)
      invariant detector.buffer == old(detector.buffer)
      invariant detector.Valid() && detector.Model() == old(detector.Model())
    {
      CheckedAddMeans(adjustedCounter, i);
      var testCounter := CheckedAddSigned(adjustedCounter, i);
      if testCounter.Some? {
        var expected := GenDigits(t.mac, t.digits, testCounter.value, []);
        var equal := ConstTimeEqBytes(code, expected);
        if equal {
          FirstHitIs(t, code, adjustedCounter, window, i);
          detector.Record(i, window);
          return Ok(true);
        }
      }
      i := i + 1;
    }
    NoHit(t, code, adjustedCounter, window);
    return Ok(false);
  }

  lemma FirstHitIs(t: Totp, code: seq<byte>, centre: uint64, w: int, i: int)
    requires ValidTotp(t) && 0 <= w && -w <= i <= w && Hits(t, code, centre, i)
    requires forall j :: -w <= j < i ==> !Hits(t, code, centre, j)
    ensures FirstHit(t, code, centre, -w, w) == Some(i)
  {
    hide Hits;
    var r := FirstHit(t, code, centre, -w, w);
  }

  lemma NoHit(t: Totp, code: seq<byte>, centre: uint64, w: int)
    requires ValidTotp(t) && 0 <= w && forall j :: -w <= j <= w ==> !Hits(t, code, centre, j)
    ensures FirstHit(t, code, centre, -w, w) == None
  {
    hide Hits;
    var r := FirstHit(t, code, centre, -w, w);
  }

  /** A tracked verification accepts exactly the window around its centre; at offset zero that is
      what Verify accepts, when the window fits. */
  lemma TrackingAgrees(t: Totp, code: seq<byte>, centre: uint64, w: nat)
    requires ValidTotp(t)
    ensures AnyHit(t, code, centre, w) <==> InWindow(t, [], code, centre, w)
    ensures centre + w < TWO_64 ==>
              (AnyHit(t, code, centre, w) <==> WindowAccepts(t, [], code, centre, w))
    ensures Adjusted(centre, 0) == centre
  {
    hide CodeAt;
    if InWindow(t, [], code, centre, w) {
      var c: uint64 :| centre - w <= c <= centre + w && CodeAt(t, c, []) == code;
      assert Hits(t, code, centre, c - centre);
    }
    if AnyHit(t, code, centre, w) {
      var i :| -(w as int) <= i <= w && Hits(t, code, centre, i);
      var c: uint64 := centre + i;
      assert CodeAt(t, c, []) == code;
    }
    CheckedAddMeans(centre, 0);
  }
}
