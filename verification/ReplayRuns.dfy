/** Runs of the replay store: it refines a naive "seen until expiry" map while it has room, and
    eviction forgets a key only after many others were accepted. */
module ReplayRuns {
  import opened Words
  import opened ReplayStore

  datatype Event = Record(key: Key, ttl: int, now: int) | Clear

  datatype Outcome = Accepted | Rejected | Cleared

  // ---------- one event ----------

  function Step(st: Store, e: Event): Store {
    match e
    case Record(key, ttl, now) => Check(st, key, ttl, now).0
    case Clear => Empty(st.maxSize)
  }

  function OutcomeOf(st: Store, e: Event): Outcome {
    match e
    case Record(key, ttl, now) => if Check(st, key, ttl, now).1 then Accepted else Rejected
    case Clear => Cleared
  }

  /** The state before event i of a run that starts empty. */
  function StateAt(maxSize: nat, run: seq<Event>, i: nat): Store
    requires i <= |run|
  {
    if i == 0 then Empty(maxSize) else Step(StateAt(maxSize, run, i - 1), run[i - 1])
  }

  predicate Accepts(maxSize: nat, run: seq<Event>, i: nat) {
    i < |run| && OutcomeOf(StateAt(maxSize, run, i), run[i]) == Accepted
  }

  ghost predicate Sound(st: Store, maxSize: nat) {
    Inv(st) && |st.entries| <= Bound(maxSize) && st.maxSize == maxSize
  }

  lemma StepSound(st: Store, e: Event, maxSize: nat)
    requires Sound(st, maxSize)
    ensures Sound(Step(st, e), maxSize)
  {
    hide Check, Inv;
    match e {
      case Record(key, ttl, now) => CheckInv(st, key, ttl, now);
      case Clear => EmptySound(maxSize);
    }
  }

  lemma SoundFits(maxSize: nat)
    ensures forall st :: Sound(st, maxSize) ==> |st.entries| <= (if maxSize >= 1 then maxSize else 1)
  {
  }

  lemma EmptySound(maxSize: nat)
    ensures Sound(Empty(maxSize), maxSize)
  {
  }

  /** In every reachable state the order lists each key of the map exactly once, and the size
      is at most maxSize (at most 1 for a store of capacity 0). */
  lemma {:induction false} Reachable(maxSize: nat, run: seq<Event>, i: nat)
    requires i <= |run|
    ensures Sound(StateAt(maxSize, run, i), maxSize)
    ensures |StateAt(maxSize, run, i).entries| <= (if maxSize >= 1 then maxSize else 1)
  {
    hide Step, Sound;
    assert forall st :: Sound(st, maxSize) ==> |st.entries| <= (if maxSize >= 1 then maxSize else 1) by {
      SoundFits(maxSize);
    }
    if i == 0 {
      EmptySound(maxSize);
    } else {
      Reachable(maxSize, run, i - 1);
      StepSound(StateAt(maxSize, run, i - 1), run[i - 1], maxSize);
    }
  }

  // ---------- the naive map ----------

  /** Never sweeps and never evicts: a key is seen until its recorded expiry. */
  function NaiveStep(m: map<Key, int>, e: Event): map<Key, int> {
    match e
    case Record(key, ttl, now) => if Live(m, key, now) then m else m[key := now + ttl]
    case Clear => map[]
  }

  function NaiveOutcome(m: map<Key, int>, e: Event): Outcome {
    match e
    case Record(key, ttl, now) => if Live(m, key, now) then Rejected else Accepted
    case Clear => Cleared
  }

  function NaiveAt(run: seq<Event>, i: nat): map<Key, int>
    requires i <= |run|
  {
    if i == 0 then map[] else NaiveStep(NaiveAt(run, i - 1), run[i - 1])
  }

  /** The store and the naive map have the same unexpired entries from now on. */
  ghost predicate Agree(st: Store, m: map<Key, int>, now: int) {
    LiveMap(st.entries, now) == LiveMap(m, now)
  }

  lemma LiveLater(m: map<Key, int>, now: int, later: int)
    requires now <= later
    ensures LiveMap(LiveMap(m, now), later) == LiveMap(m, later)
  {
  }

  lemma AgreeLater(st: Store, m: map<Key, int>, now: int, later: int)
    requires Agree(st, m, now) && now <= later
    ensures Agree(st, m, later)
  {
    LiveLater(st.entries, now, later);
    LiveLater(m, now, later);
  }

  lemma ScheduledAgrees(st: Store, m: map<Key, int>, now: int)
    requires Agree(st, m, now)
    ensures Agree(Scheduled(st, now), m, now)
  {
    LiveLater(st.entries, now, now);
  }

  /** The number of keys that must be remembered at a reading. */
  function Demand(m: map<Key, int>, now: int): nat {
    |LiveMap(m, now)|
  }

  lemma LiveFewer(m: map<Key, int>, now: int)
    ensures |LiveMap(m, now)| <= |m|
    ensures |LiveMap(m, now)| == |m| ==> LiveMap(m, now) == m
  {
    var live := LiveMap(m, now);
    assert live.Keys <= m.Keys;
    SubsetSize(live.Keys, m.Keys);
    if |live| == |m| {
      assert live.Keys == m.Keys;
    }
  }

  lemma {:induction false} SubsetSize(a: set<Key>, b: set<Key>)
    requires a <= b
    ensures |a| <= |b| && (|a| == |b| ==> a == b)
  {
    assert b == a + (b - a);
  }

  /** With fewer live keys than capacity, making room removes expired keys only. */
  lemma RoomKeepsLive(st: Store, now: int)
    requires Demand(st.entries, now) < st.maxSize
    ensures LiveMap(Roomier(st, now).entries, now) == LiveMap(st.entries, now)
  {
    LiveLater(st.entries, now, now);
  }

  /** Without that, an eviction removes the oldest key, which is live. */
  lemma EvictionForgets(st: Store, now: int)
    requires Sound(st, st.maxSize) && Demand(st.entries, now) >= Bound(st.maxSize)
    ensures var r := Roomier(st, now);
            exists k :: Live(st.entries, k, now) && k !in r.entries
  {
    hide Keep;
    LiveFewer(st.entries, now);
    assert LiveMap(st.entries, now) == st.entries;
    var swept := Sweep(st, now);
    SweepInv(st, now);
    SizeIsOrder(swept);
    assert |swept.entries| >= swept.maxSize;
    var k := swept.order[0];
    assert k in swept.order[..EvictCount(swept)];
    assert Live(st.entries, k, now) && k !in Evict(swept).entries;
  }

  lemma RecordedLive(m: map<Key, int>, key: Key, expireAt: int, now: int)
    requires !Live(m, key, now)
    ensures LiveMap(m[key := expireAt], now) ==
            if expireAt > now then LiveMap(m, now)[key := expireAt] else LiveMap(m, now)
  {
  }

  lemma RoomierShrinks(st: Store, now: int)
    ensures forall k :: k in Roomier(st, now).entries ==>
              k in st.entries && Roomier(st, now).entries[k] == st.entries[k]
  {
  }

  /** One call: agreeing at the reading, both give the same answer; after a fresh key they
      still agree exactly when fewer keys were live than the store can hold. */
  lemma CheckAgrees(st: Store, m: map<Key, int>, key: Key, ttl: int, now: int)
    requires Sound(st, st.maxSize) && Agree(st, m, now)
    ensures Check(st, key, ttl, now).1 <==> !Live(m, key, now)
    ensures Live(m, key, now) ==> Agree(Check(st, key, ttl, now).0, m, now)
    ensures !Live(m, key, now) ==>
              (Demand(m, now) < Bound(st.maxSize) <==>
               Agree(Check(st, key, ttl, now).0, m[key := now + ttl], now))
  {
    hide Roomier, Scheduled, Inv, Keep, LiveMap;
    ScheduledAgrees(st, m, now);
    StepInv(st, now);
    var s := Scheduled(st, now);
    LiveMembers(s.entries, now);
    LiveMembers(m, now);
    assert Live(s.entries, key, now) <==> Live(m, key, now) by {
      assert key in LiveMap(s.entries, now) <==> key in LiveMap(m, now);
    }
    if !Live(m, key, now) {
      FreshAgrees(s, m, key, ttl, now);
    }
  }

  lemma LiveMembers(m: map<Key, int>, now: int)
    ensures forall k :: k in LiveMap(m, now) <==> Live(m, k, now)
    ensures forall k :: k in LiveMap(m, now) ==> LiveMap(m, now)[k] == m[k]
  {
  }

  lemma FreshAgrees(s: Store, m: map<Key, int>, key: Key, ttl: int, now: int)
    requires Sound(s, s.maxSize) && Agree(s, m, now) && !Live(s.entries, key, now) && !Live(m, key, now)
    ensures Demand(m, now) < Bound(s.maxSize) <==>
            Agree(Recorded(Roomier(s, now), key, now + ttl), m[key := now + ttl], now)
  {
    hide Roomier, Inv, Keep, LiveMap;
    var r := Roomier(s, now);
    RoomierShrinks(s, now);
    RecordedLive(r.entries, key, now + ttl, now);
    RecordedLive(m, key, now + ttl, now);
    if Demand(m, now) < Bound(s.maxSize) {
      if s.maxSize == 0 {
        NothingToForget(s, now);
      } else {
        RoomKeepsLive(s, now);
      }
    } else {
      EvictionForgets(s, now);
      var k :| Live(s.entries, k, now) && k !in r.entries;
      LiveMembers(r.entries[key := now + ttl], now);
      LiveMembers(m[key := now + ttl], now);
      LiveMembers(s.entries, now);
      LiveMembers(m, now);
      assert k in LiveMap(m, now);
      assert Live(m[key := now + ttl], k, now) && !Live(r.entries[key := now + ttl], k, now);
    }
  }

  lemma NothingToForget(st: Store, now: int)
    requires Inv(st) && Demand(st.entries, now) == 0
    ensures LiveMap(Roomier(st, now).entries, now) == LiveMap(st.entries, now)
  {
    LiveLater(st.entries, now, now);
    assert LiveMap(st.entries, now) == map[];
  }

  // ---------- whole runs ----------

  predicate Monotone(run: seq<Event>) {
    forall i, j :: 0 <= i < j < |run| && run[i].Record? && run[j].Record? ==> run[i].now <= run[j].now
  }

  /** At event i the naive map has fewer live keys than the store can hold, if a fresh key is
      inserted. */
  predicate Roomy(maxSize: nat, run: seq<Event>, i: nat)
    requires i < |run|
  {
    run[i].Record? && !Live(NaiveAt(run, i), run[i].key, run[i].now) ==>
      Demand(NaiveAt(run, i), run[i].now) < Bound(maxSize)
  }

  lemma {:induction false} AgreeAt(maxSize: nat, run: seq<Event>, i: nat, now: int)
    requires i <= |run| && Monotone(run)
    requires forall j :: 0 <= j < i ==> Roomy(maxSize, run, j)
    requires forall j :: 0 <= j < i && run[j].Record? ==> run[j].now <= now
    ensures Agree(StateAt(maxSize, run, i), NaiveAt(run, i), now)
  {
    hide Check, LiveMap, Roomy, Sound;
    if i > 0 {
      var st, m, e := StateAt(maxSize, run, i - 1), NaiveAt(run, i - 1), run[i - 1];
      Reachable(maxSize, run, i - 1);
      if e.Record? {
        AgreeAt(maxSize, run, i - 1, e.now);
        CheckAgreesSound(st, m, e, maxSize);
        assert Roomy(maxSize, run, i - 1);
        AgreeStep(maxSize, run, i - 1);
        AgreeLater(StateAt(maxSize, run, i), NaiveAt(run, i), e.now, now);
      }
    }
  }

  lemma CheckAgreesSound(st: Store, m: map<Key, int>, e: Event, maxSize: nat)
    requires Sound(st, maxSize) && e.Record? && Agree(st, m, e.now)
    ensures OutcomeOf(st, e) == NaiveOutcome(m, e)
    ensures NaiveOutcome(m, e) == Rejected ==> Agree(Step(st, e), NaiveStep(m, e), e.now)
    ensures NaiveOutcome(m, e) == Accepted ==>
              (Demand(m, e.now) < Bound(maxSize) <==> Agree(Step(st, e), NaiveStep(m, e), e.now))
  {
    hide Check, LiveMap, Agree;
    CheckAgrees(st, m, e.key, e.ttl, e.now);
  }

  lemma AgreeStep(maxSize: nat, run: seq<Event>, i: nat)
    requires i < |run| && run[i].Record? && Roomy(maxSize, run, i)
    requires Sound(StateAt(maxSize, run, i), maxSize)
    requires Agree(StateAt(maxSize, run, i), NaiveAt(run, i), run[i].now)
    ensures Agree(StateAt(maxSize, run, i + 1), NaiveAt(run, i + 1), run[i].now)
  {
    hide Check, LiveMap, Agree, Sound;
    CheckAgreesSound(StateAt(maxSize, run, i), NaiveAt(run, i), run[i], maxSize);
  }

  /** Refinement: over every run with non-decreasing readings in which fewer keys are live than
      the store can hold at each fresh insertion, every answer is the naive map's. */
  lemma RefinesNaive(maxSize: nat, run: seq<Event>, i: nat)
    requires i < |run| && Monotone(run)
    requires forall j :: 0 <= j < i ==> Roomy(maxSize, run, j)
    ensures OutcomeOf(StateAt(maxSize, run, i), run[i]) == NaiveOutcome(NaiveAt(run, i), run[i])
  {
    hide Check, Live, Roomy, Sound;
    if run[i].Record? {
      AgreeAt(maxSize, run, i, run[i].now);
      Reachable(maxSize, run, i);
      CheckAgreesSound(StateAt(maxSize, run, i), NaiveAt(run, i), run[i], maxSize);
    }
  }

  /** The condition is tight: at the first event that breaks it, some key that is still live
      would be accepted again at once. */
  lemma CapacityIsNeeded(maxSize: nat, run: seq<Event>, i: nat, ttl: int)
    requires i < |run| && Monotone(run) && run[i].Record?
    requires forall j :: 0 <= j < i ==> Roomy(maxSize, run, j)
    requires !Roomy(maxSize, run, i)
    ensures exists k :: var probe := Record(k, ttl, run[i].now);
              && NaiveOutcome(NaiveAt(run, i + 1), probe) == Rejected
              && OutcomeOf(StateAt(maxSize, run, i + 1), probe) == Accepted
  {
    hide Scheduled, Roomier, Inv, Keep;
    var st, m, e := StateAt(maxSize, run, i), NaiveAt(run, i), run[i];
    AgreeAt(maxSize, run, i, e.now);
    Reachable(maxSize, run, i);
    ScheduledAgrees(st, m, e.now);
    StepInv(st, e.now);
    var s := Scheduled(st, e.now);
    assert Demand(s.entries, e.now) >= Bound(s.maxSize);
    EvictionForgets(s, e.now);
    var k :| Live(s.entries, k, e.now) && k !in Roomier(s, e.now).entries;
    var after := StateAt(maxSize, run, i + 1);
    assert k in LiveMap(m, e.now) && k in LiveMap(s.entries, e.now);
    assert e.key !in LiveMap(m, e.now) && e.key !in LiveMap(s.entries, e.now);
    assert after.entries == Roomier(s, e.now).entries[e.key := e.now + e.ttl];
    ScheduledShrinks(after, e.now);
    var probe := Record(k, ttl, e.now);
    assert OutcomeOf(after, probe) == Accepted && NaiveOutcome(NaiveAt(run, i + 1), probe) == Rejected;
  }

  lemma ScheduledShrinks(st: Store, now: int)
    ensures forall k :: k in Scheduled(st, now).entries ==>
              k in st.entries && Scheduled(st, now).entries[k] == st.entries[k]
  {
  }
}
