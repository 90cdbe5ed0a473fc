/** What eviction can forget: only a prefix of the acceptance order, so a key comes back before
    its expiry only after many other keys were accepted. */
module ReplayBounds {
  import opened Words
  import opened ReplayStore
  import opened ReplayRuns

  // ---------- the keys behind a key ----------

  /** The elements behind the last occurrence of k. */
  function Behind(s: seq<Key>, k: Key): set<Key> {
    if s == [] || s[|s| - 1] == k then {}
    else Behind(s[..|s| - 1], k) + (if k in s[..|s| - 1] then {s[|s| - 1]} else {})
  }

  lemma BehindSnoc(s: seq<Key>, x: Key, k: Key)
    ensures Behind(s + [x], k) == if x == k then {} else Behind(s, k) + (if k in s then {x} else {})
  {
    assert (s + [x])[..|s|] == s;
  }

  lemma {:induction false} KeepBehind(s: seq<Key>, keep: set<Key>, k: Key)
    requires k in keep
    ensures Behind(Keep(s, keep), k) <= Behind(s, k)
  {
    if s != [] {
      var front, last := s[..|s| - 1], s[|s| - 1];
      KeepBehind(front, keep, k);
      KeepMembers(front, keep);
      BehindSnoc(Keep(front, keep), last, k);
      assert last !in keep ==> Keep(s, keep) == Keep(front, keep);
    }
  }

  lemma {:induction false} DropBehind(s: seq<Key>, n: nat, k: Key)
    requires n <= |s|
    ensures Behind(s[n..], k) <= Behind(s, k)
  {
    if n < |s| {
      var front, last := s[..|s| - 1], s[|s| - 1];
      DropBehind(front, n, k);
      assert s[n..] == front[n..] + [last];
      BehindSnoc(front[n..], last, k);
      assert k in front[n..] ==> k in front;
    }
  }

  lemma {:induction false} BehindPrefix(s: seq<Key>, n: nat, k: Key)
    requires n <= |s| && k in s[..n] && k !in s[n..]
    ensures Elements(s[n..]) <= Behind(s, k)
  {
    if n < |s| {
      var front, last := s[..|s| - 1], s[|s| - 1];
      assert front[..n] == s[..n] && s[n..] == front[n..] + [last];
      BehindPrefix(front, n, k);
      assert k in front[..n] ==> k in front;
      assert last in s[n..];
    }
  }

  // ---------- one event ----------

  /** k is stored until expiry e, and everything behind it is in d. */
  ghost predicate Remembered(st: Store, k: Key, e: int, d: set<Key>) {
    k in st.entries && st.entries[k] == e && k in st.order && Behind(st.order, k) <= d
  }

  /** The number of distinct other keys that must be accepted before a live key is forgotten:
      all the store holds but one batch, and the one whose arrival evicts. */
  function Needed(maxSize: nat): (n: nat)
    ensures n == if maxSize >= 20 then maxSize - maxSize / 10 + 1 else if maxSize >= 1 then maxSize else 1
  {
    Bound(maxSize) - BatchSize(Bound(maxSize)) + 1
  }

  lemma SweepRemembers(st: Store, k: Key, e: int, d: set<Key>, now: int)
    requires Remembered(st, k, e, d) && now < e
    ensures Remembered(Sweep(st, now), k, e, d)
  {
    hide Behind, Keep;
    var live := LiveMap(st.entries, now).Keys;
    KeepMembers(st.order, live);
    KeepBehind(st.order, live, k);
  }

  /** An eviction forgets k only if all but one batch of the order is behind it. */
  lemma EvictRemembers(st: Store, k: Key, e: int, d: set<Key>, key: Key)
    requires Inv(st) && Remembered(st, k, e, d) && key !in st.entries
    ensures Remembered(Evict(st), k, e, d) || |d + {key}| >= |st.order| - BatchSize(|st.order|) + 1
  {
    hide Behind, Elements;
    SizeIsOrder(st);
    var n := EvictCount(st);
    var rest := st.order[n..];
    DropMembers(st.order, n);
    if k in st.order[..n] {
      BehindPrefix(st.order, n, k);
      ElementsCount(rest);
      RestBound(rest, d, key);
    } else {
      DropBehind(st.order, n, k);
      EvictKeepsEntry(st, k);
    }
  }

  lemma RestBound(rest: seq<Key>, d: set<Key>, key: Key)
    requires NoDuplicates(rest) && Elements(rest) <= d && key !in rest
    ensures |d + {key}| >= |rest| + 1
  {
    ElementsCount(rest);
    SubsetSize(Elements(rest) + {key}, d + {key});
  }

  lemma EvictKeepsEntry(st: Store, k: Key)
    requires k in st.entries && k !in st.order[..EvictCount(st)]
    ensures k in Evict(st).entries && Evict(st).entries[k] == st.entries[k]
  {
  }

  lemma RememberedSome(st: Store, k: Key, e: int, d: set<Key>)
    requires Remembered(st, k, e, d)
    ensures |st.order| >= 1
  {
  }

  lemma BatchGrows(n: nat, maxSize: nat)
    requires n >= Bound(maxSize)
    ensures n - BatchSize(n) + 1 >= Needed(maxSize)
  {
  }

  lemma RoomierRemembers(st: Store, k: Key, e: int, d: set<Key>, key: Key, now: int)
    requires Inv(st) && Remembered(st, k, e, d) && now < e && !Live(st.entries, key, now)
    ensures Remembered(Roomier(st, now), k, e, d) || |d + {key}| >= Needed(st.maxSize)
  {
    hide Remembered, Evict, Inv, Keep;
    SweepRemembers(st, k, e, d, now);
    SweepInv(st, now);
    var s := Sweep(st, now);
    SizeIsOrder(s);
    if |st.entries| >= st.maxSize && |s.entries| >= s.maxSize {
      EvictRemembers(s, k, e, d, key);
      RememberedSome(s, k, e, d);
      BatchGrows(|s.order|, st.maxSize);
    }
  }

  lemma RecordedRemembers(st: Store, k: Key, e: int, d: set<Key>, key: Key, expireAt: int)
    requires Inv(st) && Remembered(st, k, e, d) && key != k
    ensures Remembered(Recorded(st, key, expireAt), k, e, d + {key})
  {
    hide Behind, Keep;
    var keep := st.entries.Keys - {key};
    KeepMembers(st.order, keep);
    KeepBehind(st.order, keep, k);
    BehindSnoc(Keep(st.order, keep), key, k);
  }

  /** A call at a reading below k's expiry: k itself is rejected while remembered, and any
      other call keeps k or has gathered enough other keys. */
  lemma CheckRemembers(st: Store, k: Key, e: int, d: set<Key>, key: Key, ttl: int, now: int)
    requires Sound(st, st.maxSize) && Remembered(st, k, e, d) && now < e
    ensures key == k ==> !Check(st, key, ttl, now).1
    ensures var (st', first) := Check(st, key, ttl, now);
            var d' := if first then d + {key} else d;
            Remembered(st', k, e, d') || |d'| >= Needed(st.maxSize)
  {
    hide Sweep, Roomier, Recorded, Behind, Inv;
    var s := Scheduled(st, now);
    StepInv(st, now);
    SweepRemembers(st, k, e, d, now);
    assert Remembered(s, k, e, d);
    if !Live(s.entries, key, now) {
      RoomierRemembers(s, k, e, d, key, now);
      RoomierInv(s, now);
      if Remembered(Roomier(s, now), k, e, d) {
        RecordedRemembers(Roomier(s, now), k, e, d, key, now + ttl);
      }
    }
  }

  // ---------- calls that evict ----------

  /** A call evicts: its key is fresh, and the store is full of unexpired keys. */
  predicate Evicts(st: Store, key: Key, now: int) {
    !Live(st.entries, key, now) && Demand(st.entries, now) >= Bound(st.maxSize)
  }

  /** A call loses an unexpired key exactly when it evicts. */
  lemma EvictsExactly(st: Store, key: Key, ttl: int, now: int)
    requires Sound(st, st.maxSize)
    ensures Evicts(st, key, now) <==>
            exists k :: Live(st.entries, k, now) && k !in Check(st, key, ttl, now).0.entries
  {
    hide Roomier, Inv, Keep;
    StepInv(st, now);
    var s := Scheduled(st, now);
    LiveLater(st.entries, now, now);
    if Evicts(st, key, now) {
      EvictionForgets(s, now);
      var k :| Live(s.entries, k, now) && k !in Roomier(s, now).entries;
      assert Live(st.entries, k, now) && k !in Check(st, key, ttl, now).0.entries;
    } else if !Live(st.entries, key, now) {
      CheckKeepsLive(st, key, ttl, now);
    }
  }

  /** A fresh key that does not evict costs no unexpired key its place. */
  lemma CheckKeepsLive(st: Store, key: Key, ttl: int, now: int)
    requires Sound(st, st.maxSize) && !Live(st.entries, key, now) && !Evicts(st, key, now)
    ensures forall k :: Live(st.entries, k, now) ==>
              k in Check(st, key, ttl, now).0.entries && Check(st, key, ttl, now).0.entries[k] == st.entries[k]
  {
    hide Roomier, Inv, Keep, LiveMap;
    StepInv(st, now);
    var s := Scheduled(st, now);
    ScheduledLive(st, now);
    if s.maxSize == 0 {
      NothingToForget(s, now);
    } else {
      RoomKeepsLive(s, now);
    }
    LiveMembers(s.entries, now);
    LiveMembers(st.entries, now);
    LiveMembers(Roomier(s, now).entries, now);
  }

  lemma ScheduledLive(st: Store, now: int)
    ensures LiveMap(Scheduled(st, now).entries, now) == LiveMap(st.entries, now)
  {
    LiveLater(st.entries, now, now);
  }

  ghost predicate Stored(st: Store, k: Key, e: int) {
    k in st.entries && st.entries[k] == e
  }

  /** A call below a stored key's expiry rejects that key, and keeps it unless it evicts. */
  lemma CheckKeeps(st: Store, k: Key, e: int, key: Key, ttl: int, now: int)
    requires Sound(st, st.maxSize) && Stored(st, k, e) && now < e
    ensures key == k ==> !Check(st, key, ttl, now).1
    ensures !Evicts(st, key, now) ==> Stored(Check(st, key, ttl, now).0, k, e)
  {
    hide Check, Evicts, Inv;
    CheckEntries(st, key, ttl, now);
    if Live(st.entries, key, now) {
    } else if !Evicts(st, key, now) {
      CheckKeepsLive(st, key, ttl, now);
    }
  }

  // ---------- whole runs ----------

  /** The distinct keys other than k accepted strictly between events i and j. */
  function Others(maxSize: nat, run: seq<Event>, i: nat, j: nat, k: Key): set<Key>
    requires j <= |run|
  {
    if j <= i + 1 then {}
    else Others(maxSize, run, i, j - 1, k) +
         (if Accepts(maxSize, run, j - 1) && run[j - 1].Record? && run[j - 1].key != k then {run[j - 1].key} else {})
  }

  /** From event i to event j: event i is a call on k, and no call after it up to j reads the
      clock at or past k's expiry, nor is the store cleared. */
  ghost predicate Within(run: seq<Event>, i: nat, j: nat) {
    && i < j <= |run| && run[i].Record?
    && forall x :: i < x < j ==> run[x].Record? && run[x].now < run[i].now + run[i].ttl
  }

  lemma AcceptRemembers(st: Store, k: Key, ttl: int, now: int)
    requires Sound(st, st.maxSize) && Check(st, k, ttl, now).1
    ensures Remembered(Check(st, k, ttl, now).0, k, now + ttl, {})
  {
    hide Roomier, Scheduled, Inv, Keep;
    var r := Roomier(Scheduled(st, now), now);
    BehindSnoc(Keep(r.order, r.entries.Keys - {k}), k, k);
  }

  lemma {:induction false} RememberedUntil(maxSize: nat, run: seq<Event>, i: nat, j: nat)
    requires Within(run, i, j) && Accepts(maxSize, run, i)
    ensures var k, e := run[i].key, run[i].now + run[i].ttl;
            Remembered(StateAt(maxSize, run, j), k, e, Others(maxSize, run, i, j, k))
            || |Others(maxSize, run, i, j, k)| >= Needed(maxSize)
  {
    hide Check, Remembered, Sound, Needed, Accepts, StateAt, Others;
    var k, e := run[i].key, run[i].now + run[i].ttl;
    var st, c := StateAt(maxSize, run, j - 1), run[j - 1];
    Reachable(maxSize, run, j - 1);
    SoundSize(st, maxSize);
    RunStep(maxSize, run, i, j, k);
    if j == i + 1 {
      AcceptRemembers(st, k, c.ttl, c.now);
    } else {
      RememberedUntil(maxSize, run, i, j - 1);
      var d := Others(maxSize, run, i, j - 1, k);
      if Remembered(st, k, e, d) {
        CheckRemembers(st, k, e, d, c.key, c.ttl, c.now);
      } else {
        SubsetSize(d, Others(maxSize, run, i, j, k));
      }
    }
  }

  /** The last event of a prefix: the next state, and the keys gathered. */
  lemma RunStep(maxSize: nat, run: seq<Event>, i: nat, j: nat, k: Key)
    requires i < j <= |run| && run[j - 1].Record?
    ensures var st, c := StateAt(maxSize, run, j - 1), run[j - 1];
            && StateAt(maxSize, run, j) == Check(st, c.key, c.ttl, c.now).0
            && (Accepts(maxSize, run, j - 1) <==> Check(st, c.key, c.ttl, c.now).1)
            && Others(maxSize, run, i, j, k) ==
               if j == i + 1 then {}
               else Others(maxSize, run, i, j - 1, k) +
                    (if Check(st, c.key, c.ttl, c.now).1 && c.key != k then {c.key} else {})
  {
    hide Check;
  }

  /** No call strictly between events i and j evicts. */
  predicate Unevicted(maxSize: nat, run: seq<Event>, i: nat, j: nat)
    requires j <= |run|
  {
    forall x :: i < x < j && run[x].Record? ==> !Evicts(StateAt(maxSize, run, x), run[x].key, run[x].now)
  }

  lemma {:induction false} StoredUntil(maxSize: nat, run: seq<Event>, i: nat, j: nat)
    requires Within(run, i, j) && Accepts(maxSize, run, i) && Unevicted(maxSize, run, i, j)
    ensures Stored(StateAt(maxSize, run, j), run[i].key, run[i].now + run[i].ttl)
  {
    hide Check, Sound, Accepts, StateAt, Evicts, Others;
    var k, e := run[i].key, run[i].now + run[i].ttl;
    var st, c := StateAt(maxSize, run, j - 1), run[j - 1];
    Reachable(maxSize, run, j - 1);
    SoundSize(st, maxSize);
    RunStep(maxSize, run, i, j, k);
    if j == i + 1 {
      AcceptRemembers(st, k, c.ttl, c.now);
    } else {
      StoredUntil(maxSize, run, i, j - 1);
      CheckKeeps(st, k, e, c.key, c.ttl, c.now);
    }
  }

  lemma SoundSize(st: Store, maxSize: nat)
    requires Sound(st, maxSize)
    ensures st.maxSize == maxSize && Sound(st, st.maxSize)
  {
  }

  /** Eviction bound: if the same key is accepted twice, with no clearing and no reading at or
      past its expiry in between, then some call in between evicted, and at least
      maxSize - maxSize/10 + 1 distinct other keys were accepted in between, or maxSize of them
      for a store of fewer than twenty keys. */
  lemma EvictionBound(maxSize: nat, run: seq<Event>, i: nat, j: nat)
    requires j < |run| && Within(run, i, j + 1) && run[j].key == run[i].key && i < j
    requires Accepts(maxSize, run, i) && Accepts(maxSize, run, j)
    ensures |Others(maxSize, run, i, j, run[i].key)| >= Needed(maxSize)
    ensures !Unevicted(maxSize, run, i, j)
    ensures var others := |Others(maxSize, run, i, j, run[i].key)|;
            (maxSize >= 20 ==> others >= maxSize - maxSize / 10 + 1) && (maxSize < 20 ==> others >= maxSize)
  {
    hide Check, Remembered, Sound, Needed, Accepts, StateAt, Others, Unevicted;
    var k, e := run[i].key, run[i].now + run[i].ttl;
    RememberedUntil(maxSize, run, i, j);
    Reachable(maxSize, run, j);
    RunStep(maxSize, run, i, j + 1, k);
    var st := StateAt(maxSize, run, j);
    SoundSize(st, maxSize);
    var d := Others(maxSize, run, i, j, k);
    if Remembered(st, k, e, d) {
      CheckRemembers(st, k, e, d, k, run[j].ttl, run[j].now);
    }
    if Unevicted(maxSize, run, i, j) {
      StoredUntil(maxSize, run, i, j);
      CheckKeeps(st, k, e, k, run[j].ttl, run[j].now);
    }
  }

  /** The same for non-decreasing readings, where only the second accept's reading matters. */
  lemma EvictionBoundMonotone(maxSize: nat, run: seq<Event>, i: nat, j: nat)
    requires i < j < |run| && Monotone(run)
    requires forall x :: i <= x <= j ==> run[x].Record?
    requires run[j].key == run[i].key && run[j].now < run[i].now + run[i].ttl
    requires Accepts(maxSize, run, i) && Accepts(maxSize, run, j)
    ensures |Others(maxSize, run, i, j, run[i].key)| >= Needed(maxSize)
    ensures !Unevicted(maxSize, run, i, j)
  {
    hide Accepts, Others, Needed, Unevicted;
    EvictionBound(maxSize, run, i, j);
  }

  // ---------- the bound is reached ----------

  /** Pairwise different keys. */
  function Nth(x: int): Key {
    seq(if x >= 0 then x else 0, i => 0)
  }

  function Nths(from: nat, n: nat): (s: seq<Key>)
    ensures NoDuplicates(s) && |s| == n
    ensures forall i :: 0 <= i < n ==> s[i] == Nth(from + i)
  {
    var s := seq(n, i => Nth(from + i));
    assert forall i :: 0 <= i < n ==> s[i] == Nth(from + i) && |s[i]| == from + i;
    s
  }

  /** Keys 0 to Bound(maxSize), one after the other, and then the last key of the first batch
      again, all at one reading. */
  function Crowd(maxSize: nat): seq<Event> {
    var m := Bound(maxSize);
    seq(m + 1, x => Record(Nth(x), 1, 0)) + [Record(Nth(BatchSize(m) - 1), 1, 0)]
  }

  /** A store after n of those keys, none of them expired at reading 0. */
  ghost predicate Crowded(st: Store, maxSize: nat, n: nat) {
    && st.maxSize == maxSize && Inv(st) && st.order == Nths(0, n)
    && forall k :: k in st.entries ==> st.entries[k] == 1
  }

  lemma NoneExpired(st: Store, maxSize: nat, n: nat)
    requires Crowded(st, maxSize, n)
    ensures |st.entries| == n && Sweep(st, 0) == st
    ensures Scheduled(st, 0).(nextSweep := st.nextSweep) == st
    ensures forall k :: Live(st.entries, k, 0) <==> k in st.order
  {
    SizeIsOrder(st);
    var live := LiveMap(st.entries, 0);
    assert live == st.entries;
    KeepAll(st.order, live.Keys);
  }

  lemma NthIsNew(x: nat)
    ensures Nth(x) !in Nths(0, x) && Nths(0, x) + [Nth(x)] == Nths(0, x + 1)
  {
    assert |Nth(x)| == x;
    assert forall i :: 0 <= i < x ==> |Nths(0, x)[i]| == i;
  }

  lemma CrowdGrows(st: Store, maxSize: nat, n: nat)
    requires Crowded(st, maxSize, n) && n < Bound(maxSize)
    ensures var (st', first) := Check(st, Nth(n), 1, 0); first && Crowded(st', maxSize, n + 1)
  {
    hide Sweep, Keep;
    NoneExpired(st, maxSize, n);
    NthIsNew(n);
    var s := Scheduled(st, 0);
    NoneExpired(s, maxSize, n);
    assert Roomier(s, 0) == s;
    KeepAll(s.order, s.entries.Keys - {Nth(n)});
    RecordedInv(s, Nth(n), 1);
  }

  lemma {:induction false} CrowdFills(maxSize: nat, n: nat)
    requires n <= Bound(maxSize)
    ensures Crowded(StateAt(maxSize, Crowd(maxSize), n), maxSize, n)
    ensures forall x :: 0 <= x < n ==> Accepts(maxSize, Crowd(maxSize), x)
  {
    hide Check, Crowded;
    if n == 0 {
      assert Crowded(Empty(maxSize), maxSize, 0) by { CrowdStarts(maxSize); }
    } else {
      CrowdFills(maxSize, n - 1);
      CrowdGrows(StateAt(maxSize, Crowd(maxSize), n - 1), maxSize, n - 1);
    }
  }

  lemma CrowdStarts(maxSize: nat)
    ensures Crowded(Empty(maxSize), maxSize, 0)
  {
  }

  /** One key too many: the oldest batch is gone, and its last key is accepted again. */
  lemma CrowdOverflows(st: Store, maxSize: nat)
    requires Crowded(st, maxSize, Bound(maxSize))
    ensures var m := Bound(maxSize);
            var (st', first) := Check(st, Nth(m), 1, 0);
            first && Check(st', Nth(BatchSize(m) - 1), 1, 0).1
  {
    hide Keep, Sweep, Inv;
    var m := Bound(maxSize);
    var k := Nth(BatchSize(m) - 1);
    NoneExpired(st, maxSize, m);
    NthIsNew(m);
    var s := Scheduled(st, 0);
    StepInv(st, 0);
    NoneExpired(s, maxSize, m);
    assert s.order[..EvictCount(s)][BatchSize(m) - 1] == k;
    assert k !in Roomier(s, 0).entries;
    assert |k| != |Nth(m)|;
    var st' := Check(st, Nth(m), 1, 0).0;
    ScheduledShrinks(st', 0);
  }

  lemma {:induction false} CrowdOthers(maxSize: nat, j: nat)
    requires var b := BatchSize(Bound(maxSize)); b <= j <= Bound(maxSize) + 1
    requires forall x :: 0 <= x < j ==> Accepts(maxSize, Crowd(maxSize), x)
    ensures var b := BatchSize(Bound(maxSize));
            Others(maxSize, Crowd(maxSize), b - 1, j, Nth(b - 1)) == Elements(Nths(b, j - b))
  {
    hide Accepts;
    var b := BatchSize(Bound(maxSize));
    if j > b {
      CrowdOthers(maxSize, j - 1);
      assert |Nth(j - 1)| != |Nth(b - 1)|;
      assert Nths(b, j - b) == Nths(b, j - b - 1) + [Nth(j - 1)];
    }
  }

  /** The bound is exact for every capacity: a key can be accepted twice before its expiry with
      exactly that many other keys in between. */
  lemma EvictionBoundIsReached(maxSize: nat)
    ensures exists run: seq<Event>, i: nat, j: nat ::
              && j < |run| && Within(run, i, j + 1) && run[i].key == run[j].key && Monotone(run)
              && Accepts(maxSize, run, i) && Accepts(maxSize, run, j)
              && |Others(maxSize, run, i, j, run[i].key)| == Needed(maxSize)
              && (maxSize >= 20 ==> |Others(maxSize, run, i, j, run[i].key)| == maxSize - maxSize / 10 + 1)
              && (1 <= maxSize < 20 ==> |Others(maxSize, run, i, j, run[i].key)| == maxSize)
  {
    hide Check, Accepts, Others, Crowded, StateAt, Elements, Crowd, Within, Monotone, Nths;
    var run, m := Crowd(maxSize), Bound(maxSize);
    var b := BatchSize(m);
    CrowdShape(maxSize);
    CrowdFills(maxSize, m);
    CrowdOverflows(StateAt(maxSize, run, m), maxSize);
    CrowdEnds(maxSize);
    CrowdOthers(maxSize, m + 1);
    ElementsCount(Nths(b, m + 1 - b));
    assert |Others(maxSize, run, b - 1, m + 1, run[b - 1].key)| == Needed(maxSize);
  }

  lemma CrowdShape(maxSize: nat)
    ensures var run, m := Crowd(maxSize), Bound(maxSize);
            var b := BatchSize(m);
            && b <= m && |run| == m + 2 && Within(run, b - 1, m + 2) && Monotone(run)
            && run[b - 1].key == run[m + 1].key == Nth(b - 1)
  {
  }

  lemma CrowdEnds(maxSize: nat)
    requires var m := Bound(maxSize);
             var (st', first) := Check(StateAt(maxSize, Crowd(maxSize), m), Nth(m), 1, 0);
             first && Check(st', Nth(BatchSize(m) - 1), 1, 0).1
    ensures Accepts(maxSize, Crowd(maxSize), Bound(maxSize))
    ensures Accepts(maxSize, Crowd(maxSize), Bound(maxSize) + 1)
  {
    hide Check;
  }

  // ---------- the order is the order of latest acceptance ----------

  /** The keys accepted before event i since the last clearing, in order. */
  function History(maxSize: nat, run: seq<Event>, i: nat): seq<Key>
    requires i <= |run|
  {
    if i == 0 || run[i - 1].Clear? then []
    else History(maxSize, run, i - 1) + (if Accepts(maxSize, run, i - 1) then [run[i - 1].key] else [])
  }

  /** The position of the last occurrence of k, or -1. */
  function LastIndex(h: seq<Key>, k: Key): (i: int)
    ensures -1 <= i < |h|
  {
    if h == [] then -1 else if h[|h| - 1] == k then |h| - 1 else LastIndex(h[..|h| - 1], k)
  }

  ghost predicate Ranked(s: seq<Key>, h: seq<Key>) {
    && (forall p :: 0 <= p < |s| ==> LastIndex(h, s[p]) >= 0)
    && forall p, q :: 0 <= p < q < |s| ==> LastIndex(h, s[p]) < LastIndex(h, s[q])
  }

  lemma {:induction false} KeepRanked(s: seq<Key>, keep: set<Key>, h: seq<Key>)
    requires Ranked(s, h)
    ensures Ranked(Keep(s, keep), h)
  {
    hide LastIndex;
    if s != [] {
      var front, last := s[..|s| - 1], s[|s| - 1];
      KeepRanked(front, keep, h);
      KeepMembers(front, keep);
      var kept := Keep(front, keep);
      forall p | 0 <= p < |kept| ensures LastIndex(h, kept[p]) < LastIndex(h, last) {
        assert kept[p] in front;
      }
    }
  }

  lemma RecordedRanked(st: Store, h: seq<Key>, key: Key, expireAt: int)
    requires Ranked(st.order, h)
    ensures Ranked(Recorded(st, key, expireAt).order, h + [key])
  {
    hide LastIndex, Keep;
    var keep := st.entries.Keys - {key};
    KeepRanked(st.order, keep, h);
    KeepMembers(st.order, keep);
    var kept := Keep(st.order, keep);
    forall x: Key ensures LastIndex(h + [key], x) == if x == key then |h| else LastIndex(h, x) {
      LastIndexSnoc(h, key, x);
    }
    forall p | 0 <= p < |kept| ensures kept[p] != key {
      assert kept[p] in kept;
    }
  }

  lemma LastIndexSnoc(h: seq<Key>, key: Key, x: Key)
    ensures LastIndex(h + [key], x) == if x == key then |h| else LastIndex(h, x)
  {
    assert (h + [key])[..|h|] == h;
  }

  lemma CheckRanked(st: Store, h: seq<Key>, key: Key, ttl: int, now: int)
    requires Ranked(st.order, h)
    ensures var (st', first) := Check(st, key, ttl, now);
            Ranked(st'.order, if first then h + [key] else h)
  {
    hide Ranked, Keep, Recorded;
    var s := Scheduled(st, now);
    KeepRanked(st.order, LiveMap(st.entries, now).Keys, h);
    assert Ranked(s.order, h);
    if !Live(s.entries, key, now) {
      KeepRanked(s.order, LiveMap(s.entries, now).Keys, h);
      DropRanked(Sweep(s, now), h);
      RecordedRanked(Roomier(s, now), h, key, now + ttl);
    }
  }

  lemma DropRanked(st: Store, h: seq<Key>)
    requires Ranked(st.order, h)
    ensures Ranked(Evict(st).order, h)
  {
    hide LastIndex, BatchSize, Elements;
    var n := EvictCount(st);
    assert forall p :: 0 <= p < |st.order| - n ==> Evict(st).order[p] == st.order[p + n];
  }

  /** In every reachable state the order slice lists its keys by their latest acceptance. */
  lemma {:induction false} OrderIsByLatestAcceptance(maxSize: nat, run: seq<Event>, i: nat)
    requires i <= |run|
    ensures Ranked(StateAt(maxSize, run, i).order, History(maxSize, run, i))
  {
    hide Check, Ranked;
    RankedEmpty();
    if i > 0 && run[i - 1].Record? {
      OrderIsByLatestAcceptance(maxSize, run, i - 1);
      CheckRanked(StateAt(maxSize, run, i - 1), History(maxSize, run, i - 1),
                  run[i - 1].key, run[i - 1].ttl, run[i - 1].now);
      var h := History(maxSize, run, i - 1);
      assert h + [] == h;
    }
  }

  lemma RankedEmpty()
    ensures Ranked([], [])
  {
  }

  // ---------- the sweep schedule ----------

  /** A call past the sweep time drops every expired entry and moves the sweep time on by thirty
      seconds; any other call leaves the sweep time alone. */
  lemma SweepSchedule(st: Store, key: Key, ttl: int, now: int)
    ensures var st' := Check(st, key, ttl, now).0;
            && st'.nextSweep == (if now > st.nextSweep then now + 30_000_000_000 else st.nextSweep)
            && (now > st.nextSweep ==> forall k :: k in st'.entries && k != key ==> st'.entries[k] > now)
  {
    hide Keep, Elements;
    RoomierShrinks(Scheduled(st, now), now);
  }

  // ---------- a rejection is always a replay ----------

  /** Event i accepted k until the expiry it is stored with, and nothing cleared the store since. */
  ghost predicate Origin(maxSize: nat, run: seq<Event>, i: nat, n: nat, k: Key) {
    && i < n <= |run| && Accepts(maxSize, run, i) && run[i].Record? && run[i].key == k
    && k in StateAt(maxSize, run, n).entries
    && StateAt(maxSize, run, n).entries[k] == run[i].now + run[i].ttl
    && forall x :: i <= x < n ==> run[x].Record?
  }

  lemma {:induction false} EntryHasOrigin(maxSize: nat, run: seq<Event>, n: nat, k: Key)
    requires n <= |run| && k in StateAt(maxSize, run, n).entries
    ensures exists i: nat :: Origin(maxSize, run, i, n, k)
  {
    hide Check;
    if n > 0 {
      var c := run[n - 1];
      if c.Record? {
        var st := StateAt(maxSize, run, n - 1);
        CheckEntries(st, c.key, c.ttl, c.now);
        if k in st.entries && StateAt(maxSize, run, n).entries[k] == st.entries[k] {
          EntryHasOrigin(maxSize, run, n - 1, k);
          var i: nat :| Origin(maxSize, run, i, n - 1, k);
          assert Origin(maxSize, run, i, n, k);
        } else {
          assert Origin(maxSize, run, n - 1, n, k);
        }
      }
    }
  }

  /** No false alarms: a rejected call has an earlier accept of the same key whose expiry is past
      the call's reading, with no clearing in between. */
  lemma RejectionIsReplay(maxSize: nat, run: seq<Event>, j: nat)
    requires j < |run| && run[j].Record? && !Accepts(maxSize, run, j)
    ensures exists i: nat :: Origin(maxSize, run, i, j, run[j].key) && run[j].now < run[i].now + run[i].ttl
  {
    hide Check;
    var st, c := StateAt(maxSize, run, j), run[j];
    CheckEntries(st, c.key, c.ttl, c.now);
    EntryHasOrigin(maxSize, run, j, c.key);
    var i: nat :| Origin(maxSize, run, i, j, c.key);
  }
}
