/** One-time use end to end: a caller that checks a code against the time window first and the
    replay store second. Times are nanoseconds; the window works in whole seconds. */
module EndToEnd {
  import opened Words
  import opened Otp
  import opened Totp
  import opened Verifier
  import opened ReplayStore
  import opened ReplayRuns
  import opened ReplayBounds

  const SECOND: int := 1_000_000_000
  const DEFAULT_REPLAY_TTL: int := 90 * SECOND

  /** Counter c is inside a window of w steps at second t. */
  predicate Inside(c: nat, w: nat, period: nat, t: nat)
    requires period > 0
  {
    t / period - w <= c <= t / period + w
  }

  /** The window check of TOTP.Verify passes for a code exactly when some counter inside the
      window has it, provided the window does not run past the largest counter. */
  lemma GateFindsCounter(t: Totp, context: seq<byte>, code: seq<byte>, second: uint64, w: nat)
    requires ValidTotp(t) && StepOf(t, second) + w < TWO_64
    ensures WindowAccepts(t, context, code, StepOf(t, second), w) <==>
            exists c: uint64 :: Inside(c, w, t.period, second) && CodeAt(t, c, context) == code
  {
    hide CodeAt;
    WindowExact(t, context, code, StepOf(t, second), w);
    if c: uint64 :| Inside(c, w, t.period, second) && CodeAt(t, c, context) == code {
      assert InWindow(t, context, code, StepOf(t, second), w);
    }
  }

  /** Two generated codes share a replay key exactly when code and context are the same, so codes
      of other contexts never block each other. */
  lemma ReplayIsolation(t: Totp, c1: uint64, x1: seq<byte>, c2: uint64, x2: seq<byte>)
    requires ValidTotp(t)
    ensures ReplayKey(CodeAt(t, c1, x1), x1) == ReplayKey(CodeAt(t, c2, x2), x2) <==>
            CodeAt(t, c1, x1) == CodeAt(t, c2, x2) && x1 == x2
  {
    var a, b := CodeAt(t, c1, x1), CodeAt(t, c2, x2);
    assert 0 !in a && 0 !in b;
    if ReplayKey(a, x1) == ReplayKey(b, x2) {
      ReplayKeyInjective(a, x1, b, x2);
    }
  }

  /** The seconds at which a counter is inside the window form one interval, of length at most
      (2w + 1) * period. */
  lemma InsideIsInterval(c: nat, w: nat, period: nat, t: nat)
    requires period > 0
    ensures Inside(c, w, period, t) <==> (c - w) * period <= t < (c + w + 1) * period
  {
    var q := t / period;
    assert q * period <= t < (q + 1) * period by { MulSucc(q, period); }
    if c <= q + w {
      if q <= c + w {
        MulMono(c - w, q, period);
        MulMono(q + 1, c + w + 1, period);
      } else {
        MulMono(c + w + 1, q, period);
      }
    } else {
      MulMono(q + 1, c - w, period);
    }
  }

  /** Two readings inside the same window are less than its length apart. */
  lemma InsideSpan(c: nat, w: nat, period: nat, g1: nat, g2: nat)
    requires period > 0
    requires Inside(c, w, period, g1 / SECOND) && Inside(c, w, period, g2 / SECOND)
    ensures g2 - g1 < (2 * w + 1) * period * SECOND
  {
    InsideIsInterval(c, w, period, g1 / SECOND);
    InsideIsInterval(c, w, period, g2 / SECOND);
    assert (c + w + 1) * period - (c - w) * period == (2 * w + 1) * period;
    var span := (2 * w + 1) * period;
    assert g2 / SECOND - g1 / SECOND < span;
  }

  /** A gated call: the window check reads the clock at `gate` and finds counter c inside; the
      store reads it at most `delay` later. */
  ghost predicate Gated(run: seq<Event>, i: nat, gate: nat, delay: nat, c: nat, w: nat, period: nat) {
    && i < |run| && run[i].Record? && period > 0
    && Inside(c, w, period, gate / SECOND)
    && gate <= run[i].now <= gate + delay
  }

  /** One-time use: if the store's time to live covers the whole window and the delay between
      the two readings, then a code accepted twice while its counter is inside the window means
      that a call in between evicted, and that at least maxSize - max(maxSize/10, 1) + 1 other
      keys were accepted in between. */
  lemma OneTimeUse(maxSize: nat, run: seq<Event>, i: nat, j: nat, gi: nat, gj: nat,
                   delay: nat, c: nat, w: nat, period: nat)
    requires i < j && Gated(run, i, gi, delay, c, w, period) && Gated(run, j, gj, delay, c, w, period)
    requires run[i].key == run[j].key && run[i].ttl >= (2 * w + 1) * period * SECOND + delay
    requires Monotone(run) && forall x :: i <= x <= j ==> run[x].Record?
    requires Accepts(maxSize, run, i) && Accepts(maxSize, run, j)
    ensures |Others(maxSize, run, i, j, run[i].key)| >= Needed(maxSize)
    ensures !Unevicted(maxSize, run, i, j)
  {
    hide Accepts, Others, Needed, Inside, Unevicted;
    InsideSpan(c, w, period, gi, gj);
    EvictionBoundMonotone(maxSize, run, i, j);
  }

  /** Two accepts of one key by gated calls of one counter, with no clearing in between. */
  ghost predicate UsedTwice(maxSize: nat, run: seq<Event>, i: nat, j: nat, gi: nat, gj: nat,
                            ttl: int, delay: nat, c: nat, w: nat, period: nat)
  {
    && i < j && Gated(run, i, gi, delay, c, w, period) && Gated(run, j, gj, delay, c, w, period)
    && run[i].key == run[j].key && run[i].ttl == run[j].ttl == ttl
    && Monotone(run) && (forall x :: i <= x <= j ==> run[x].Record?)
    && Accepts(maxSize, run, i) && Accepts(maxSize, run, j)
  }

  /** Over every run a code is used twice inside its window only if a call in between evicts,
      which takes many other keys. */
  ghost predicate UsedOnce(maxSize: nat, ttl: int, delay: nat, w: nat, period: nat) {
    forall run: seq<Event>, i: nat, j: nat, gi: nat, gj: nat, c: nat ::
      UsedTwice(maxSize, run, i, j, gi, gj, ttl, delay, c, w, period) ==>
        !Unevicted(maxSize, run, i, j) && |Others(maxSize, run, i, j, run[i].key)| >= Needed(maxSize)
  }

  /** One-time use, exactly: it holds if and only if the time to live covers the length of the
      window and the delay. */
  lemma OneTimeUseExactly(maxSize: nat, ttl: int, delay: nat, w: nat, period: nat)
    requires period > 0
    ensures UsedOnce(maxSize, ttl, delay, w, period) <==> ttl >= (2 * w + 1) * period * SECOND + delay
  {
    hide Unevicted, Accepts, Others, Needed, Inside;
    if ttl >= (2 * w + 1) * period * SECOND + delay {
      forall run: seq<Event>, i: nat, j: nat, gi: nat, gj: nat, c: nat
        | UsedTwice(maxSize, run, i, j, gi, gj, ttl, delay, c, w, period)
        ensures !Unevicted(maxSize, run, i, j) && |Others(maxSize, run, i, j, run[i].key)| >= Needed(maxSize)
      {
        OneTimeUse(maxSize, run, i, j, gi, gj, delay, c, w, period);
      }
    } else {
      ReusedWhenShort(maxSize, [], ttl, delay, w, period);
    }
  }

  /** The last nanosecond of the window that counter w has at time 0. */
  function LastGate(w: nat, period: nat): (gate: int)
    requires period > 0
    ensures gate >= 0
  {
    MulMono(1, 2 * w + 1, period);
    (2 * w + 1) * period * SECOND - 1
  }

  /** Two uses of one key: at the start of the window without delay, at its end with all of it. */
  function TwoUses(key: Key, ttl: int, delay: nat, w: nat, period: nat): seq<Event>
    requires period > 0
  {
    [Record(key, ttl, 0), Record(key, ttl, LastGate(w, period) + delay)]
  }

  /** With less time to live than that, a second use succeeds, for a store of any capacity. */
  lemma ReusedWhenShort(maxSize: nat, key: Key, ttl: int, delay: nat, w: nat, period: nat)
    requires period > 0 && ttl < (2 * w + 1) * period * SECOND + delay
    ensures var run := TwoUses(key, ttl, delay, w, period);
            && UsedTwice(maxSize, run, 0, 1, 0, LastGate(w, period), ttl, delay, w, w, period)
            && Unevicted(maxSize, run, 0, 1)
  {
    hide Check, OutcomeOf, StateAt, Demand, Inside;
    var run, gate: nat := TwoUses(key, ttl, delay, w, period), LastGate(w, period);
    EmptyDemand(0);
    assert NaiveAt(run, 0) == map[];
    assert Roomy(maxSize, run, 0);
    RefinesNaive(maxSize, run, 0);
    assert NaiveAt(run, 1) == map[key := ttl];
    RefinesNaive(maxSize, run, 1);
    LastGateInside(w, period);
  }

  lemma LastGateInside(w: nat, period: nat)
    requires period > 0
    ensures Inside(w, w, period, 0 / SECOND) && Inside(w, w, period, LastGate(w, period) / SECOND)
  {
    hide Inside;
    MulMono(1, 2 * w + 1, period);
    InsideIsInterval(w, w, period, 0);
    InsideIsInterval(w, w, period, LastGate(w, period) / SECOND);
    assert LastGate(w, period) / SECOND == (2 * w + 1) * period - 1;
  }

  /** The default time to live is exactly the length of the default window, period 30 and one
      step: it covers it without any delay, and with none to spare. */
  lemma DefaultCovers(maxSize: nat, delay: nat)
    ensures UsedOnce(maxSize, DEFAULT_REPLAY_TTL, delay, 1, 30) <==> delay == 0
  {
    hide UsedOnce;
    OneTimeUseExactly(maxSize, DEFAULT_REPLAY_TTL, delay, 1, 30);
  }

  /** One nanosecond between the window check and the store's reading is enough for an immediate
      second use of the same code, for a store of any capacity. */
  lemma DefaultHasNoSlack(maxSize: nat, key: Key)
    ensures var run := [Record(key, 90_000_000_000, 0), Record(key, 90_000_000_000, 90_000_000_000)];
            && Gated(run, 0, 0, 1, 1, 1, 30) && Gated(run, 1, 89_999_999_999, 1, 1, 1, 30)
            && Accepts(maxSize, run, 0) && Accepts(maxSize, run, 1)
  {
    hide Accepts, Gated;
    ReusedWhenShort(maxSize, key, DEFAULT_REPLAY_TTL, 1, 1, 30);
  }

  lemma EmptyDemand(now: int)
    ensures Demand(map[], now) == 0
  {
    assert LiveMap(map[], now) == map[];
  }
}
