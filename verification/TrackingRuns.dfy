/** VerifyTracking over whole runs: the detector it feeds stays within the windows used, and so
    does every code it accepts. */
module TrackingRuns {
  import opened Wrappers
  import opened Words
  import opened Otp
  import opened Totp
  import Skew
  import SkewLaws

  datatype Event = Verify(code: seq<byte>, current: uint64, window: uint64) | Enable | Disable | Clear

  /** The detector after one event. An offset outside int64 is not a Go value. */
  function Step(t: Totp, d: Skew.Detector, e: Event): Skew.Detector
    requires ValidTotp(t) && d.capacity > 0
  {
    match e
    case Verify(code, current, window) =>
      if t.cleared || window > MAX_WINDOW || !IsInt64(d.offset) then d
      else TrackedDetector(t, code, current, window, d)
    case Enable => d.(autoAdjust := true)
    case Disable => Skew.Disabled(d)
    case Clear => Skew.Cleared(d)
  }

  /** The detector after a run of events. */
  function Drive(t: Totp, d: Skew.Detector, events: seq<Event>): (r: Skew.Detector)
    requires ValidTotp(t) && d.capacity > 0
    ensures r.capacity == d.capacity
  {
    if events == [] then d else Step(t, Drive(t, d, events[..|events| - 1]), events[|events| - 1])
  }

  /** A run that starts with a new detector. */
  function Session(t: Totp, capacity: nat, events: seq<Event>): (d: Skew.Detector)
    requires ValidTotp(t) && capacity > 0
    ensures d.capacity == capacity
  {
    Drive(t, Skew.New(capacity), events)
  }

  // ---------- a session is a run of the detector ----------

  /** What one event makes the detector do: a tracked verification that hits is one record. */
  function EventsOf(t: Totp, d: Skew.Detector, e: Event): seq<SkewLaws.Event>
    requires ValidTotp(t)
  {
    match e
    case Verify(code, current, window) =>
      if t.cleared || window > MAX_WINDOW || !IsInt64(d.offset) then []
      else (
        match FirstHit(t, code, Adjusted(StepOf(t, current), d.offset), -(window as int), window)
        case None => []
        case Some(i) => [SkewLaws.Record(i, window)])
    case Enable => [SkewLaws.Enable]
    case Disable => [SkewLaws.Disable]
    case Clear => [SkewLaws.Clear]
  }

  function Feed(t: Totp, d: Skew.Detector, events: seq<Event>): seq<SkewLaws.Event>
    requires ValidTotp(t) && d.capacity > 0
  {
    if events == [] then []
    else
      var front := events[..|events| - 1];
      Feed(t, d, front) + EventsOf(t, Drive(t, d, front), events[|events| - 1])
  }

  lemma RunAppend(d: Skew.Detector, fed: seq<SkewLaws.Event>, e: SkewLaws.Event)
    requires d.capacity > 0
    ensures SkewLaws.Run(d, fed + [e]) == SkewLaws.Step(SkewLaws.Run(d, fed), e)
  {
    assert (fed + [e])[..|fed|] == fed;
  }

  /** Tracked verification makes a run of the detector on what its events feed it. */
  lemma {:induction false} DriveIsRun(t: Totp, d: Skew.Detector, events: seq<Event>)
    requires ValidTotp(t) && d.capacity > 0
    ensures Drive(t, d, events) == SkewLaws.Run(d, Feed(t, d, events))
  {
    hide Hits, FirstHit, Skew.Recorded, StepOf, SkewLaws.Run;
    if events == [] {
      RunNone(d);
    } else {
      var front := events[..|events| - 1];
      DriveIsRun(t, d, front);
      var fed := Feed(t, d, front);
      var more := EventsOf(t, Drive(t, d, front), events[|events| - 1]);
      if more == [] {
        assert fed + more == fed;
      } else {
        RunAppend(d, fed, more[0]);
        assert more == [more[0]];
      }
    }
  }

  lemma RunNone(d: Skew.Detector)
    requires d.capacity > 0
    ensures SkewLaws.Run(d, []) == d
  {
  }

  /** Every window that is not rejected is at most w. */
  ghost predicate WindowsWithin(events: seq<Event>, w: nat) {
    forall i :: 0 <= i < |events| && events[i].Verify? && events[i].window <= MAX_WINDOW ==> events[i].window <= w
  }

  lemma {:induction false} FeedWithin(t: Totp, d: Skew.Detector, events: seq<Event>, w: nat)
    requires ValidTotp(t) && d.capacity > 0 && WindowsWithin(events, w)
    ensures forall e :: e in Feed(t, d, events) && e.Record? ==> Skew.Abs(e.x) <= w
  {
    hide Hits, FirstHit, Drive, StepOf;
    if events != [] {
      var front := events[..|events| - 1];
      assert forall i :: 0 <= i < |front| ==> front[i] == events[i];
      FeedWithin(t, d, front, w);
    }
  }

  /** Fed by VerifyTracking only, with windows of at most w, the average never exceeds 1000 w in
      magnitude and the offset never exceeds w. */
  lemma SessionBounded(t: Totp, capacity: nat, events: seq<Event>, w: nat)
    requires ValidTotp(t) && capacity > 0 && WindowsWithin(events, w)
    ensures SkewLaws.Bounded(Session(t, capacity, events), w)
  {
    hide Feed, Drive, SkewLaws.Run;
    var d := Skew.New(capacity);
    DriveIsRun(t, d, events);
    FeedWithin(t, d, events, w);
    SkewLaws.RunBounded(capacity, Feed(t, d, events), w);
  }

  /** While auto-adjust is off, the offset and the average are zero. */
  lemma SessionPassive(t: Totp, capacity: nat, events: seq<Event>)
    requires ValidTotp(t) && capacity > 0
    ensures var d := Session(t, capacity, events);
            !d.autoAdjust ==> d.offset == 0 && d.smoothedScaled == 0
  {
    hide Feed, Drive, SkewLaws.Run;
    DriveIsRun(t, Skew.New(capacity), events);
    SkewLaws.PassiveIsZero(capacity, Feed(t, Skew.New(capacity), events));
  }

  /** Every code accepted after such a run belongs to a counter within w + window of the time's
      own counter, however the detector has drifted. */
  lemma AcceptedNearby(t: Totp, capacity: nat, events: seq<Event>, w: nat,
                       code: seq<byte>, current: uint64, window: nat)
    requires ValidTotp(t) && capacity > 0 && WindowsWithin(events, w)
    requires IsInt64(Session(t, capacity, events).offset)
    requires AnyHit(t, code, Adjusted(StepOf(t, current), Session(t, capacity, events).offset), window)
    ensures InWindow(t, [], code, StepOf(t, current), w + window)
  {
    hide CodeAt, Session;
    var d := Session(t, capacity, events);
    SessionBounded(t, capacity, events, w);
    var base := StepOf(t, current);
    CheckedAddMeans(base, d.offset);
    var centre := Adjusted(base, d.offset);
    var i :| -(window as int) <= i <= window && Hits(t, code, centre, i);
    var c: uint64 := centre + i;
    assert base - (w + window) <= c <= base + (w + window) && CodeAt(t, c, []) == code;
  }

  /** While auto-adjust is off, tracking accepts exactly the plain window around the time. */
  lemma PassiveTrackingIsPlain(t: Totp, capacity: nat, events: seq<Event>,
                               code: seq<byte>, current: uint64, window: nat)
    requires ValidTotp(t) && capacity > 0 && !Session(t, capacity, events).autoAdjust
    ensures Session(t, capacity, events).offset == 0
    ensures AnyHit(t, code, Adjusted(StepOf(t, current), Session(t, capacity, events).offset), window)
            <==> InWindow(t, [], code, StepOf(t, current), window)
  {
    hide Hits, InWindow, Session;
    SessionPassive(t, capacity, events);
    TrackingAgrees(t, code, StepOf(t, current), window);
  }

  // ---------- the closed loop ----------

  /** What is recorded is what remains after the adjustment: the code of a client whose clock is
      `skew` steps off, when no earlier counter of the adjusted window has it. */
  lemma RecordsRemainder(t: Totp, d: Skew.Detector, current: uint64, window: nat, skew: int)
    requires ValidTotp(t) && IsInt64(d.offset) && d.capacity > 0 && window <= MAX_WINDOW
    requires 0 <= StepOf(t, current) + d.offset < TWO_64 && 0 <= StepOf(t, current) + skew < TWO_64
    requires Skew.Abs(skew - d.offset) <= window
    requires var base := StepOf(t, current);
             forall c: uint64 :: base + d.offset - window <= c < base + skew ==>
               CodeAt(t, c, []) != CodeAt(t, base + skew, [])
    ensures TrackedDetector(t, CodeAt(t, StepOf(t, current) + skew, []), current, window, d) ==
            Skew.Recorded(d, skew - d.offset, window)
  {
    hide CodeAt, StepOf, FirstHit, Skew.Recorded;
    var base := StepOf(t, current);
    var code := CodeAt(t, base + skew, []);
    CheckedAddMeans(base, d.offset);
    var centre := base + d.offset;
    forall j: int | -(window as int) <= j < skew - d.offset ensures !Hits(t, code, centre, j) {
      if 0 <= centre + j < TWO_64 {
        var c: uint64 := centre + j;
        assert base + d.offset - window <= c < base + skew;
      }
    }
    FirstHitIs(t, code, centre, window, skew - d.offset);
  }

  /** A client whose clock is `skew` steps off submits its code, while the compensation is o: the
      window around the adjusted counter reaches the client's, and no earlier counter of it has
      the same code. */
  ghost predicate FromClient(t: Totp, e: Event, skew: int, o: int)
    requires ValidTotp(t)
  {
    && e.Verify? && e.window <= MAX_WINDOW && Skew.Abs(skew - o) <= e.window
    && var base := StepOf(t, e.current);
       && 0 <= base + o < TWO_64 && 0 <= base + skew < TWO_64
       && e.code == CodeAt(t, base + skew, [])
       && forall c: uint64 :: base + o - e.window <= c < base + skew ==> CodeAt(t, c, []) != e.code
  }

  ghost predicate AllFromClient(t: Totp, events: seq<Event>, skew: int, o: int)
    requires ValidTotp(t)
  {
    forall i :: 0 <= i < |events| ==> FromClient(t, events[i], skew, o)
  }

  lemma ClientRecords(t: Totp, d: Skew.Detector, e: Event, skew: int, o: int)
    requires ValidTotp(t) && !t.cleared && d.capacity > 0 && IsInt64(o)
    requires FromClient(t, e, skew, o) && d.offset == o
    ensures e.Verify? && Step(t, d, e) == Skew.Recorded(d, skew - o, e.window)
  {
    hide CodeAt, StepOf, Skew.Recorded, TrackedDetector;
    RecordsRemainder(t, d, e.current, e.window, skew);
  }

  function Windows(events: seq<Event>): (r: seq<uint64>)
    ensures |r| == |events|
  {
    if events == [] then []
    else
      var e := events[|events| - 1];
      Windows(events[..|events| - 1]) + [if e.Verify? then e.window else 0]
  }

  /** The compensation is o before the first code and after each of them. */
  ghost predicate StaysAt(t: Totp, d: Skew.Detector, codes: seq<Event>, o: int)
    requires ValidTotp(t) && d.capacity > 0
  {
    forall m :: 0 <= m <= |codes| ==> Drive(t, d, codes[..m]).offset == o
  }

  lemma StaysAtFront(t: Totp, d: Skew.Detector, codes: seq<Event>, o: int)
    requires ValidTotp(t) && d.capacity > 0 && codes != [] && StaysAt(t, d, codes, o)
    ensures StaysAt(t, d, codes[..|codes| - 1], o) && Drive(t, d, codes[..|codes| - 1]).offset == o
  {
    var front := codes[..|codes| - 1];
    assert forall m :: 0 <= m <= |front| ==> front[..m] == codes[..m];
  }

  lemma StaysAtEnds(t: Totp, d: Skew.Detector, codes: seq<Event>, o: int)
    requires ValidTotp(t) && d.capacity > 0 && StaysAt(t, d, codes, o)
    ensures d.offset == o && Drive(t, d, codes).offset == o
  {
    assert codes[..0] == [] && codes[..|codes|] == codes;
  }

  lemma {:induction false} SteadyRecordsSame(t: Totp, d: Skew.Detector, codes: seq<Event>, skew: int, o: int)
    requires ValidTotp(t) && !t.cleared && d.capacity > 0 && IsInt64(o)
    requires AllFromClient(t, codes, skew, o) && StaysAt(t, d, codes, o)
    ensures Drive(t, d, codes) == SkewLaws.RecordSame(d, skew - o, Windows(codes))
  {
    hide Step, Skew.Recorded, FromClient, StaysAt;
    if codes != [] {
      var front, last := codes[..|codes| - 1], codes[|codes| - 1];
      StaysAtFront(t, d, codes, o);
      SteadyRecordsSame(t, d, front, skew, o);
      assert FromClient(t, last, skew, o);
      ClientRecords(t, Drive(t, d, front), last, skew, o);
    }
  }

  /** What a compensation that stays put must be: half of the client's skew. A detector that
      stays at o is fed skew - o over and over, and converges to that. */
  lemma SteadyIsHalf(t: Totp, d: Skew.Detector, codes: seq<Event>, skew: int, o: int, w: nat, k: nat)
    requires ValidTotp(t) && !t.cleared && SkewLaws.Adjusting(d) && SkewLaws.Bounded(d, w) && IsInt64(o)
    requires AllFromClient(t, codes, skew, o) && Skew.Abs(skew - o) <= w
    requires SkewLaws.Enough(w, k) && |codes| >= d.capacity + k + 1
    ensures StaysAt(t, d, codes, o) ==> 2 * o == skew
  {
    hide Drive, StaysAt, Windows, AllFromClient, Skew.Abs, Skew.Recorded, SkewLaws.Bounded, SkewLaws.Enough,
      SkewLaws.Holding, SkewLaws.RecordSame;
    if StaysAt(t, d, codes, o) {
      StaysAtEnds(t, d, codes, o);
      SteadyRecordsSame(t, d, codes, skew, o);
      SkewLaws.ConvergesBy(d, skew - o, Windows(codes), w, k);
    }
  }

  /** Conversely, a detector that holds o is kept there by a client at twice o. */
  lemma {:induction false} HalfIsSteady(t: Totp, d: Skew.Detector, codes: seq<Event>, o: int)
    requires ValidTotp(t) && !t.cleared && d.capacity >= 16 && IsInt64(o)
    requires SkewLaws.Holding(d, o) && AllFromClient(t, codes, 2 * o, o)
    ensures SkewLaws.Holding(Drive(t, d, codes), o) && StaysAt(t, d, codes, o)
  {
    hide Step, Skew.Recorded, FromClient, SkewLaws.Holding;
    HoldsOffset(d, o);
    if codes != [] {
      var front, last := codes[..|codes| - 1], codes[|codes| - 1];
      assert forall i :: 0 <= i < |front| ==> front[i] == codes[i];
      HalfIsSteady(t, d, front, o);
      var p := Drive(t, d, front);
      HoldsOffset(p, o);
      assert FromClient(t, last, 2 * o, o);
      ClientRecords(t, p, last, 2 * o, o);
      SkewLaws.HoldingKept(p, o, last.window);
      HoldsOffset(Drive(t, d, codes), o);
      assert codes[..|codes|] == codes;
      assert forall m :: 0 <= m <= |front| ==> front[..m] == codes[..m];
    }
  }

  lemma HoldsOffset(d: Skew.Detector, o: int)
    requires SkewLaws.Holding(d, o)
    ensures d.offset == o && d.autoAdjust
  {
  }

  /** A detector can be brought to hold any offset by recording it often enough. */
  lemma HoldingReached(capacity: nat, o: int) returns (fed: seq<SkewLaws.Event>)
    requires capacity >= 16
    ensures SkewLaws.Holding(SkewLaws.Run(Skew.New(capacity), fed), o)
    ensures |SkewLaws.Run(Skew.New(capacity), fed).samples| <= capacity
  {
    hide SkewLaws.Holding, SkewLaws.Run, SkewLaws.Enough, Skew.Recorded, Skew.Abs;
    var w := Skew.Abs(o);
    var windows: seq<uint64> := seq(capacity + 13 * w + 1, i => 0);
    SkewLaws.EnoughExists(w);
    RunNone(Skew.New(capacity));
    RunAppend(Skew.New(capacity), [], SkewLaws.Enable);
    assert [] + [SkewLaws.Enable] == [SkewLaws.Enable];
    var d := Skew.New(capacity).(autoAdjust := true);
    NewBounded(d, w);
    SkewLaws.ConvergesBy(d, o, windows, w, 13 * w);
    SkewLaws.SameBounded(d, o, windows, w);
    SkewLaws.BoundedFits(SkewLaws.RecordSame(d, o, windows), w);
    fed := [SkewLaws.Enable] + Records(o, windows);
    RunRecords(Skew.New(capacity), [SkewLaws.Enable], o, windows);
  }

  lemma NewBounded(d: Skew.Detector, w: nat)
    requires d.samples == [] && d.smoothedScaled == 0 && d.offset == 0
    ensures SkewLaws.Bounded(d, w)
  {
  }

  function Records(x: int, windows: seq<uint64>): seq<SkewLaws.Event> {
    if windows == [] then []
    else Records(x, windows[..|windows| - 1]) + [SkewLaws.Record(x, windows[|windows| - 1])]
  }

  lemma {:induction false} RunRecords(d: Skew.Detector, fed: seq<SkewLaws.Event>, x: int, windows: seq<uint64>)
    requires d.capacity > 0
    ensures SkewLaws.Run(d, fed + Records(x, windows)) == SkewLaws.RecordSame(SkewLaws.Run(d, fed), x, windows)
  {
    hide SkewLaws.Run, Skew.Recorded;
    if windows == [] {
      assert fed + [] == fed;
    } else {
      var front, e := windows[..|windows| - 1], SkewLaws.Record(x, windows[|windows| - 1]);
      RunRecords(d, fed, x, front);
      RunAppend(d, fed + Records(x, front), e);
      assert fed + (Records(x, front) + [e]) == (fed + Records(x, front)) + [e];
    }
  }

  /** An adjusting detector stays at o for good, however many codes the client submits. */
  ghost predicate Steady(t: Totp, d: Skew.Detector, skew: int, o: int)
    requires ValidTotp(t) && d.capacity > 0
  {
    d.autoAdjust && forall codes :: AllFromClient(t, codes, skew, o) ==> StaysAt(t, d, codes, o)
  }

  /** Some run of a detector leads to such a state. */
  ghost predicate CanBeSteady(t: Totp, capacity: nat, skew: int, o: int)
    requires ValidTotp(t) && capacity > 0
  {
    exists fed :: Steady(t, SkewLaws.Run(Skew.New(capacity), fed), skew, o)
  }

  /** A client with a skew can be compensated steadily by o if and only if o is half the skew, for
      every client that has a code to submit at all. */
  lemma SteadyExactly(t: Totp, capacity: nat, e: Event, skew: int, o: int)
    requires ValidTotp(t) && !t.cleared && capacity >= 16 && IsInt64(o) && FromClient(t, e, skew, o)
    ensures CanBeSteady(t, capacity, skew, o) <==> 2 * o == skew
  {
    hide SkewLaws.Run, FromClient, StaysAt, Drive, SkewLaws.Holding;
    if 2 * o == skew {
      var fed := HoldingReached(capacity, o);
      var d := SkewLaws.Run(Skew.New(capacity), fed);
      HoldsOffset(d, o);
      forall codes | AllFromClient(t, codes, skew, o) ensures StaysAt(t, d, codes, o) {
        HalfIsSteady(t, d, codes, o);
      }
      assert Steady(t, d, skew, o);
    }
    if CanBeSteady(t, capacity, skew, o) {
      var fed :| Steady(t, SkewLaws.Run(Skew.New(capacity), fed), skew, o);
      RingFits(capacity, fed);
      SteadyForced(t, SkewLaws.Run(Skew.New(capacity), fed), e, skew, o);
    }
  }

  lemma {:induction false} RingFits(capacity: nat, fed: seq<SkewLaws.Event>)
    requires capacity > 0
    ensures |SkewLaws.Run(Skew.New(capacity), fed).samples| <= capacity
  {
    if fed != [] {
      RingFits(capacity, fed[..|fed| - 1]);
    }
  }

  lemma SteadyForced(t: Totp, d: Skew.Detector, e: Event, skew: int, o: int)
    requires ValidTotp(t) && !t.cleared && IsInt64(o) && FromClient(t, e, skew, o)
    requires d.capacity >= 16 && |d.samples| <= d.capacity && Steady(t, d, skew, o)
    ensures 2 * o == skew
  {
    hide FromClient, StaysAt, Drive, SkewLaws.Enough;
    var w := SkewLaws.Magnitude(d.samples) + Skew.Abs(d.smoothedScaled) + Skew.Abs(d.offset) + Skew.Abs(skew - o);
    assert SkewLaws.Bounded(d, w);
    SkewLaws.EnoughExists(w);
    var codes := seq(d.capacity + 13 * w + 1, i => e);
    assert AllFromClient(t, codes, skew, o);
    SteadyIsHalf(t, d, codes, skew, o, w, 13 * w);
  }

  /** How many of a client's codes refute a compensation, for the windows that are allowed. */
  function Patience(capacity: nat): nat {
    capacity + 38
  }

  /** Documented as compensating for drift, tracked verification compensates at most half of it
      steadily: after any session with auto-adjust on, an offset that is not half of a client's
      skew is left within Patience of the client's codes. */
  lemma NoSteadyCompensation(t: Totp, capacity: nat, before: seq<Event>, codes: seq<Event>, skew: int, o: int)
    requires ValidTotp(t) && !t.cleared && capacity >= 16 && 2 * o != skew
    requires Session(t, capacity, before).autoAdjust
    requires AllFromClient(t, codes, skew, o) && |codes| >= Patience(capacity)
    ensures !StaysAt(t, Session(t, capacity, before), codes, o)
  {
    hide Session, Drive, SkewLaws.Bounded, StaysAt, SkewLaws.Enough, CodeAt;
    var d := Session(t, capacity, before);
    SessionBounded(t, capacity, before, MAX_WINDOW);
    SkewLaws.BoundedFits(d, MAX_WINDOW);
    SkewLaws.EnoughForWindows();
    if StaysAt(t, d, codes, o) {
      assert d.offset == o by { StaysAtEnds(t, d, codes, o); }
      OffsetFits(d, MAX_WINDOW);
      assert FromClient(t, codes[0], skew, o);
      SteadyIsHalf(t, d, codes, skew, o, MAX_WINDOW, 37);
    }
  }

  lemma OffsetFits(d: Skew.Detector, w: nat)
    requires SkewLaws.Bounded(d, w) && w <= MAX_WINDOW
    ensures IsInt64(d.offset)
  {
  }

  /** In particular, full compensation is steady if and only if there is no skew. */
  lemma FullCompensationExactly(t: Totp, capacity: nat, current: uint64, skew: int)
    requires ValidTotp(t) && !t.cleared && capacity >= 16 && IsInt64(skew)
    requires 0 <= StepOf(t, current) + skew < TWO_64
    ensures CanBeSteady(t, capacity, skew, skew) <==> skew == 0
  {
    hide CodeAt, StepOf, CanBeSteady;
    var e := Verify(CodeAt(t, StepOf(t, current) + skew, []), current, 0);
    assert FromClient(t, e, skew, skew);
    SteadyExactly(t, capacity, e, skew, skew);
  }
}
