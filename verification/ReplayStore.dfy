/** replay_store.go: the bounded in-memory replay store. A clock reading is a number of
    nanoseconds and a parameter; each operation runs inside the store's lock. */
module ReplayStore {
  import opened Words

  type Key = seq<byte>

  /** The instant of a zero time.Time, in nanoseconds before the Unix epoch. */
  const ZERO_TIME: int := -62_135_596_800_000_000_000
  const SWEEP_EVERY: int := 30_000_000_000

  // ---------- the store as a value ----------

  datatype Store = Store(entries: map<Key, int>, order: seq<Key>, maxSize: nat, nextSweep: int)

  function Empty(maxSize: nat): Store {
    Store(map[], [], maxSize, ZERO_TIME)
  }

  predicate Live(m: map<Key, int>, k: Key, now: int) {
    k in m && m[k] > now
  }

  /** The unexpired part of a key-to-expiry map. */
  function LiveMap(m: map<Key, int>, now: int): map<Key, int> {
    map k | k in m && m[k] > now :: m[k]
  }

  /** The elements of s that are in keep, in order. */
  function Keep(s: seq<Key>, keep: set<Key>): (r: seq<Key>)
    ensures |r| <= |s|
  {
    if s == [] then []
    else Keep(s[..|s| - 1], keep) + (if s[|s| - 1] in keep then [s[|s| - 1]] else [])
  }

  ghost predicate NoDuplicates(s: seq<Key>) {
    forall i, j :: 0 <= i < j < |s| ==> s[i] != s[j]
  }

  /** The order lists exactly the keys of the map, each once. */
  ghost predicate Inv(st: Store) {
    NoDuplicates(st.order) && forall k :: k in st.order <==> k in st.entries
  }

  function Sweep(st: Store, now: int): Store {
    var live := LiveMap(st.entries, now);
    st.(entries := live, order := Keep(st.order, live.Keys))
  }

  function Elements(s: seq<Key>): set<Key> {
    set k | k in s
  }

  function BatchSize(n: nat): nat {
    if n / 10 > 1 then n / 10 else 1
  }

  /** How many keys one eviction removes. */
  function EvictCount(st: Store): (n: nat)
    ensures n <= |st.order|
  {
    if BatchSize(|st.entries|) <= |st.order| then BatchSize(|st.entries|) else |st.order|
  }

  function Evict(st: Store): Store {
    var n := EvictCount(st);
    st.(entries := st.entries - Elements(st.order[..n]), order := st.order[n..])
  }

  function Scheduled(st: Store, now: int): Store {
    if now > st.nextSweep then Sweep(st, now).(nextSweep := now + SWEEP_EVERY) else st
  }

  function Roomier(st: Store, now: int): Store {
    if |st.entries| >= st.maxSize then
      var swept := Sweep(st, now);
      if |swept.entries| >= swept.maxSize then Evict(swept) else swept
    else st
  }

  function Recorded(st: Store, key: Key, expireAt: int): Store {
    st.(entries := st.entries[key := expireAt], order := Keep(st.order, st.entries.Keys - {key}) + [key])
  }

  /** One call of CheckAndRecord: the new store, and whether the key was first seen. */
  function Check(st: Store, key: Key, ttl: int, now: int): (Store, bool) {
    var s := Scheduled(st, now);
    if Live(s.entries, key, now) then (s, false)
    else (Recorded(Roomier(s, now), key, now + ttl), true)
  }

  // ---------- lemmas about Keep ----------

  lemma KeepSnoc(s: seq<Key>, k: Key, keep: set<Key>)
    ensures Keep(s + [k], keep) == Keep(s, keep) + (if k in keep then [k] else [])
  {
    assert (s + [k])[..|s|] == s;
  }

  lemma {:induction false} KeepMembers(s: seq<Key>, keep: set<Key>)
    ensures forall k :: k in Keep(s, keep) <==> k in s && k in keep
  {
    if s != [] {
      KeepMembers(s[..|s| - 1], keep);
      assert s == s[..|s| - 1] + [s[|s| - 1]];
    }
  }

  lemma {:induction false} KeepNoDuplicates(s: seq<Key>, keep: set<Key>)
    requires NoDuplicates(s)
    ensures NoDuplicates(Keep(s, keep))
  {
    if s != [] {
      KeepNoDuplicates(s[..|s| - 1], keep);
      KeepMembers(s[..|s| - 1], keep);
    }
  }

  lemma {:induction false} KeepAll(s: seq<Key>, keep: set<Key>)
    requires forall k :: k in s ==> k in keep
    ensures Keep(s, keep) == s
  {
    if s != [] {
      KeepAll(s[..|s| - 1], keep);
      assert s == s[..|s| - 1] + [s[|s| - 1]];
    }
  }

  /** Dropping the one occurrence of a key is keeping all others. */
  lemma {:induction false} KeepOthers(s: seq<Key>, keep: set<Key>, i: nat)
    requires NoDuplicates(s) && i < |s|
    requires forall k :: k in s && k != s[i] ==> k in keep
    requires s[i] !in keep
    ensures Keep(s, keep) == s[..i] + s[i + 1..]
  {
    var last := |s| - 1;
    if i == last {
      KeepAll(s[..last], keep);
      assert s[i + 1..] == [];
    } else {
      KeepOthers(s[..last], keep, i);
      assert s[..last][..i] == s[..i] && s[..last][i + 1..] + [s[last]] == s[i + 1..];
    }
  }

  lemma {:induction false} ElementsCount(s: seq<Key>)
    requires NoDuplicates(s)
    ensures |Elements(s)| == |s|
  {
    if s != [] {
      ElementsCount(s[..|s| - 1]);
      assert Elements(s) == Elements(s[..|s| - 1]) + {s[|s| - 1]};
    }
  }

  /** Under the invariant the map and the order have the same size. */
  lemma SizeIsOrder(st: Store)
    requires Inv(st)
    ensures |st.entries| == |st.order|
  {
    ElementsCount(st.order);
    assert st.entries.Keys == Elements(st.order);
  }

  // ---------- the invariant ----------

  lemma SweepInv(st: Store, now: int)
    requires Inv(st)
    ensures Inv(Sweep(st, now)) && |Sweep(st, now).entries| <= |st.entries|
  {
    var live := LiveMap(st.entries, now);
    KeepMembers(st.order, live.Keys);
    KeepNoDuplicates(st.order, live.Keys);
    SizeIsOrder(st);
    SizeIsOrder(Sweep(st, now));
  }

  lemma EvictInv(st: Store)
    requires Inv(st)
    ensures Inv(Evict(st)) && |Evict(st).entries| == |st.entries| - EvictCount(st)
  {
    var n := EvictCount(st);
    var r := Evict(st);
    DropMembers(st.order, n);
    assert forall k :: k in r.entries <==> k in st.entries && k !in st.order[..n];
    SizeIsOrder(st);
    SizeIsOrder(r);
  }

  lemma DropMembers(s: seq<Key>, n: nat)
    requires NoDuplicates(s) && n <= |s|
    ensures NoDuplicates(s[n..])
    ensures forall k :: k in s[n..] <==> k in s && k !in s[..n]
  {
    assert s == s[..n] + s[n..];
    forall k | k in s[n..] ensures k !in s[..n] {
      var j :| 0 <= j < |s[n..]| && s[n..][j] == k;
      assert s[n + j] == k;
    }
  }

  lemma RecordedInv(st: Store, key: Key, expireAt: int)
    requires Inv(st)
    ensures Inv(Recorded(st, key, expireAt))
    ensures |Recorded(st, key, expireAt).entries| == |st.entries| + if key in st.entries then 0 else 1
  {
    var keep := st.entries.Keys - {key};
    KeepMembers(st.order, keep);
    KeepNoDuplicates(st.order, keep);
    var r := Recorded(st, key, expireAt);
    assert r.entries.Keys == st.entries.Keys + {key};
    assert |r.entries| == |r.entries.Keys|;
  }

  function Bound(maxSize: nat): nat {
    if maxSize >= 1 then maxSize else 1
  }

  /** Every call keeps the structure and the size bound. */
  lemma CheckInv(st: Store, key: Key, ttl: int, now: int)
    requires Inv(st) && |st.entries| <= Bound(st.maxSize)
    ensures Inv(Check(st, key, ttl, now).0) && |Check(st, key, ttl, now).0.entries| <= Bound(st.maxSize)
    ensures Check(st, key, ttl, now).0.maxSize == st.maxSize
  {
    hide Sweep, Evict, Recorded, Inv, Live;
    StepInv(st, now);
    var s := Scheduled(st, now);
    if !Live(s.entries, key, now) {
      RoomierInv(s, now);
      RecordedInv(Roomier(s, now), key, now + ttl);
      SweepSame(st, now);
      assert Recorded(Roomier(s, now), key, now + ttl).maxSize == st.maxSize by { SameMaxSize(st, key, ttl, now); }
    }
  }

  lemma SweepSame(st: Store, now: int)
    ensures Sweep(st, now).maxSize == st.maxSize
  {
  }

  lemma SameMaxSize(st: Store, key: Key, ttl: int, now: int)
    ensures Check(st, key, ttl, now).0.maxSize == st.maxSize
  {
  }

  lemma StepInv(st: Store, now: int)
    requires Inv(st)
    ensures Inv(Scheduled(st, now)) && |Scheduled(st, now).entries| <= |st.entries|
    ensures Scheduled(st, now).maxSize == st.maxSize
  {
    SweepInv(st, now);
  }

  /** Making room leaves space for one more key. */
  lemma RoomierInv(st: Store, now: int)
    requires Inv(st) && |st.entries| <= Bound(st.maxSize)
    ensures Inv(Roomier(st, now)) && |Roomier(st, now).entries| < Bound(st.maxSize)
  {
    hide Evict, Inv;
    SweepInv(st, now);
    var s := Sweep(st, now);
    EvictInv(s);
    SizeIsOrder(s);
  }

  // ---------- the store as an object ----------

  class InMemoryReplayStore {
    var entries: map<Key, int>
    // The order slice: len elements of the backing array, from start on.
    var backing: array<Key>
    var start: nat
    var len: nat
    const maxSize: nat
    var nextSweep: int

    ghost predicate Shaped()
      reads this
    {
      start + len <= backing.Length
    }

    ghost function Model(): Store
      reads this, backing
      requires Shaped()
    {
      Store(entries, backing[start..start + len], maxSize, nextSweep)
    }

    ghost predicate Valid()
      reads this, backing
    {
      Shaped() && Inv(Model()) && |entries| <= Bound(maxSize)
    }

    constructor (maxSize: nat)
      ensures Valid() && fresh(backing) && Model() == Empty(maxSize)
    {
      entries := map[];
      backing := new Key[maxSize](i => []);
      start, len := 0, 0;
      this.maxSize := maxSize;
      nextSweep := ZERO_TIME;
    }

    method CheckAndRecord(key: Key, ttl: int, now: int) returns (firstSeen: bool)
      requires Valid()
      modifies this, backing
      ensures Valid() && (backing == old(backing) || fresh(backing))
      ensures (Model(), firstSeen) == Check(old(Model()), key, ttl, now)
      ensures firstSeen <==> !(key in old(entries) && old(entries[key]) > now)
      ensures key in entries && entries[key] == if firstSeen then now + ttl else old(entries[key])
      ensures forall k :: k in entries && k != key ==> k in old(entries) && entries[k] == old(entries)[k]
      ensures !firstSeen || |old(entries)| < maxSize ==>
                forall k :: k in old(entries) && old(entries)[k] > now && k != key ==> k in entries
    {
      hide Sweep, Evict, Inv, Keep, LiveMap, Recorded, Roomier, Scheduled, Check, Live, Bound;
      ghost var before := Model();
      CheckInv(before, key, ttl, now);
      CheckUnfolds(before, key, ttl, now);
      CheckEntries(before, key, ttl, now);
      var expireAt := now + ttl;
      if now > nextSweep {
        SweepOnSchedule(now);
      }
      assert Model() == Scheduled(before, now);
      if key in entries && entries[key] > now {
        return false;
      }
      if |entries| >= maxSize {
        MakeRoom(now);
      }
      assert Model() == Roomier(Scheduled(before, now), now);
      Insert(key, expireAt);
      return true;
    }

    method SweepOnSchedule(now: int)
      requires Shaped() && Inv(Model()) && now > nextSweep
      modifies this`entries, this`len, this`nextSweep, backing
      ensures Shaped() && Model() == Scheduled(old(Model()), now)
    {
      hide Sweep, Inv, Keep, LiveMap;
      SweepExpired(now);
      nextSweep := now + SWEEP_EVERY;
    }

    method MakeRoom(now: int)
      requires Shaped() && Inv(Model()) && |entries| >= maxSize
      modifies this`entries, this`start, this`len, backing
      ensures Shaped() && Model() == Roomier(old(Model()), now)
    {
      hide Sweep, Evict, Inv, LiveMap, Keep;
      SweepInv(Model(), now);
      SweepExpired(now);
      if |entries| >= maxSize {
        EvictBatch();
      }
    }

    method Insert(key: Key, expireAt: int)
      requires Shaped() && Inv(Model())
      modifies this, backing
      ensures Shaped() && (backing == old(backing) || fresh(backing))
      ensures Model() == Recorded(old(Model()), key, expireAt)
    {
      hide Keep, Inv;
      ghost var st := Model();
      if key in entries {
        RemoveFromOrder(key);
      } else {
        AbsentKept(st, key);
      }
      entries := entries[key := expireAt];
      AppendOrder(key);
    }

    /** A single pass that reuses the backing array: each element is read before the slot it
        may be overwritten in is reached. */
    method SweepExpired(now: int)
      requires Shaped() && Inv(Model())
      modifies this`entries, this`len, backing
      ensures Shaped() && Model() == Sweep(old(Model()), now)
    {
      hide Inv, LiveMap, Keep, SweptUpTo;
      ghost var st := Model();
      ghost var order, all, live := st.order, entries, LiveMap(entries, now);
      ghost var out: seq<Key> := [];
      NothingSwept(st, now);
      var kept := 0;
      for i := 0 to len
        invariant |out| == kept <= i && len == |order| && start + len <= backing.Length
        invariant out == Keep(order[..i], live.Keys)
        invariant forall j :: 0 <= j < kept ==> backing[start + j] == out[j]
        invariant forall j :: i <= j < |order| ==> backing[start + j] == order[j]
        invariant SweptUpTo(all, entries, order, i, now)
      {
        var k := backing[start + i];
        NotYetSwept(st, entries, i, now);
        if k !in entries {
          continue;
        }
        if entries[k] <= now {
          entries := entries - {k};
          continue;
        }
        backing[start + kept] := k;
        kept := kept + 1;
        out := out + [k];
      }
      assert order[..len] == order;
      AllSwept(st, entries, now);
      len := kept;
      assert backing[start..start + len] == out;
    }

    method EvictBatch()
      requires Shaped() && Inv(Model())
      modifies this`entries, this`start, this`len
      ensures Shaped() && Model() == Evict(old(Model()))
    {
      hide Inv, Elements, Evict, EvictCount;
      ghost var st := Model();
      ghost var order, all := st.order, entries;
      NoneEvicted(all, order);
      var target := if |entries| / 10 > 1 then |entries| / 10 else 1;
      EvictIs(st);
      var count := 0;
      while count < target && len > 0
        invariant count <= target && count <= |order| && Shaped()
        invariant len == |order| - count && start == old(start) + count
        invariant entries == all - Elements(order[..count])
        decreases len
      {
        var oldest := backing[start];
        assert oldest == order[count];
        OneMoreEvicted(all, order, count);
        start, len := start + 1, len - 1;
        entries := entries - {oldest};
        count := count + 1;
      }
      assert backing[start..start + len] == order[count..];
    }

    method RemoveFromOrder(key: Key)
      requires Shaped() && Inv(Model()) && key in entries
      modifies this`len, backing
      ensures Shaped() && backing[start..start + len] == Keep(old(backing[start..start + len]), entries.Keys - {key})
    {
      hide Keep, Inv;
      ghost var order := backing[start..start + len];
      KeyHasPlace(Model(), key);
      var i := 0;
      while i < len
        invariant 0 <= i <= len == |order| && Shaped() && backing[start..start + len] == order
        invariant key !in order[..i]
      {
        if backing[start + i] == key {
          KeepOrderWithout(Model(), i);
          DeleteAt(i);
          return;
        }
        assert order[..i + 1] == order[..i] + [order[i]];
        i := i + 1;
      }
      assert false;
    }

    /** append(order[:i], order[i+1:]...): the tail moves down in place. */
    method DeleteAt(i: nat)
      requires Shaped() && i < len
      modifies this`len, backing
      ensures len == old(len) - 1 && Shaped()
      ensures backing[start..start + len] ==
              old(backing[start..start + len])[..i] + old(backing[start..start + len])[i + 1..]
    {
      ghost var before := backing[..];
      forall j | start + i <= j < start + len - 1 {
        backing[j] := backing[j + 1];
      }
      len := len - 1;
      MovedDown(before, backing[..], start, len, i);
      assert backing[start..start + len] == backing[..][start..start + len];
      assert before[start..start + len + 1] == old(backing[start..start + len]);
    }

    /** append(order, key): in place while the backing array has room, else into a new one. */
    method AppendOrder(key: Key)
      requires Shaped()
      modifies this`backing, this`start, this`len, backing
      ensures Shaped() && (backing == old(backing) || fresh(backing))
      ensures backing[start..start + len] == old(backing[start..start + len]) + [key]
    {
      if start + len == backing.Length {
        var grown := new Key[2 * len + 1](i => []);
        forall j | 0 <= j < len {
          grown[j] := backing[start + j];
        }
        assert grown[..len] == backing[start..start + len];
        backing, start := grown, 0;
      }
      backing[start + len] := key;
      len := len + 1;
    }

    method Reset()
      requires Valid()
      modifies this`entries, this`len, this`nextSweep
      ensures Valid() && Model() == Empty(maxSize)
      ensures entries == map[] && len == 0 && nextSweep == -62_135_596_800_000_000_000
    {
      entries := map[];
      len := 0;
      nextSweep := ZERO_TIME;
    }

    method Size() returns (n: nat)
      requires Valid()
      ensures n == |Model().order|
    {
      SizeIsOrder(Model());
      return |entries|;
    }
  }

  /** The stages of a call: the scheduled sweep, the look-up, making room, recording. */
  lemma CheckUnfolds(st: Store, key: Key, ttl: int, now: int)
    requires Inv(st) && |st.entries| <= Bound(st.maxSize)
    ensures now <= st.nextSweep ==> Scheduled(st, now) == st
    ensures var s := Scheduled(st, now);
            && Inv(s) && s.maxSize == st.maxSize && |s.entries| <= Bound(st.maxSize)
            && (|s.entries| < s.maxSize ==> Roomier(s, now) == s)
            && Inv(Roomier(s, now))
            && Check(st, key, ttl, now) == if key in s.entries && s.entries[key] > now then (s, false)
                                           else (Recorded(Roomier(s, now), key, now + ttl), true)
  {
    hide Sweep, Evict, Inv, Recorded;
    StepInv(st, now);
    RoomierInv(Scheduled(st, now), now);
  }

  /** The entries and the answer of a call, in terms of the entries before it. */
  lemma CheckEntries(st: Store, key: Key, ttl: int, now: int)
    ensures var (st', first) := Check(st, key, ttl, now);
            && (first <==> !(key in st.entries && st.entries[key] > now))
            && key in st'.entries && st'.entries[key] == (if first then now + ttl else st.entries[key])
            && (forall k :: k in st'.entries && k != key ==> k in st.entries && st'.entries[k] == st.entries[k])
            && (!first || |st.entries| < st.maxSize ==>
                forall k :: k in st.entries && st.entries[k] > now && k != key ==> k in st'.entries)
  {
    hide Keep, Elements;
    LiveSmaller(st.entries, now);
  }

  lemma LiveSmaller(m: map<Key, int>, now: int)
    ensures |LiveMap(m, now)| <= |m|
  {
    var live := LiveMap(m, now);
    assert live.Keys <= m.Keys;
    assert m.Keys == live.Keys + (m.Keys - live.Keys);
  }

  /** A fresh key that meets a store full of n unexpired keys costs the e oldest of them their
      place and no other, where e is a tenth of n, at least one. */
  lemma EvictingCall(st: Store, key: Key, ttl: int, now: int, n: nat, e: nat)
    requires Inv(st) && |st.order| == n && n >= 1 && n >= st.maxSize && key !in st.entries
    requires forall k :: k in st.entries ==> st.entries[k] > now
    requires e >= 1 && (e == 1 || 10 * e <= n) && n < 10 * (e + 1)
    ensures var st' := Check(st, key, ttl, now).0;
            && st'.order == st.order[e..] + [key]
            && forall k :: k in st'.entries <==> k == key || k in st.order[e..]
  {
    hide Keep, Evict, Sweep, Inv;
    AllLiveSweep(st, now);
    StepInv(st, now);
    var s := Scheduled(st, now);
    SizeIsOrder(s);
    AllLiveSweep(s, now);
    EvictInv(s);
    EvictKeeps(s, e);
    var r := Evict(s);
    assert key !in r.entries by {
      assert forall k :: k in st.order[e..] ==> k in st.order;
      KeysAreOrder(st);
    }
    KeepAll(r.order, r.entries.Keys - {key});
  }

  lemma KeysAreOrder(st: Store)
    requires Inv(st)
    ensures forall k :: k in st.order <==> k in st.entries
  {
  }

  lemma AllLiveSweep(st: Store, now: int)
    requires Inv(st) && forall k :: k in st.entries ==> st.entries[k] > now
    ensures Sweep(st, now) == st
  {
    assert LiveMap(st.entries, now) == st.entries;
    KeepAll(st.order, st.entries.Keys);
  }

  lemma EvictKeeps(st: Store, e: nat)
    requires Inv(st) && e >= 1 && |st.entries| == |st.order| >= 1
    requires (e == 1 || 10 * e <= |st.order|) && |st.order| < 10 * (e + 1)
    ensures Evict(st).order == st.order[e..] && Evict(st).maxSize == st.maxSize
    ensures forall k :: k in Evict(st).entries <==> k in st.order[e..]
  {
    hide EvictCount, BatchSize, NoDuplicates;
    EvictCountIs(st, e);
    DropMembers(st.order, e);
    KeysAreOrder(st);
  }

  lemma EvictCountIs(st: Store, e: nat)
    requires e >= 1 && |st.entries| == |st.order| >= 1
    requires (e == 1 || 10 * e <= |st.order|) && |st.order| < 10 * (e + 1)
    ensures EvictCount(st) == e <= |st.order|
  {
  }

  lemma EvictIs(st: Store)
    ensures forall n: nat {:trigger st.order[n..]} ::
              n <= BatchSize(|st.entries|) && n <= |st.order| && (n == BatchSize(|st.entries|) || n == |st.order|) ==>
              Evict(st) == st.(entries := st.entries - Elements(st.order[..n]), order := st.order[n..])
  {
  }

  lemma NoneEvicted(m: map<Key, int>, order: seq<Key>)
    ensures m - Elements(order[..0]) == m
  {
  }

  lemma OneMoreEvicted(m: map<Key, int>, order: seq<Key>, n: nat)
    requires n < |order|
    ensures m - Elements(order[..n]) - {order[n]} == m - Elements(order[..n + 1])
  {
    assert order[..n + 1] == order[..n] + [order[n]];
  }

  lemma MovedDown(a: seq<Key>, b: seq<Key>, start: nat, len: nat, i: nat)
    requires |a| == |b| && start + len + 1 <= |a| && i <= len
    requires forall j :: start <= j < start + i ==> b[j] == a[j]
    requires forall j :: start + i <= j < start + len ==> b[j] == a[j + 1]
    ensures b[start..start + len] == a[start..start + len + 1][..i] + a[start..start + len + 1][i + 1..]
  {
  }

  lemma KeyHasPlace(st: Store, key: Key)
    requires Inv(st) && key in st.entries
    ensures key in st.order
  {
  }

  lemma KeepOrderWithout(st: Store, i: nat)
    requires Inv(st) && i < |st.order|
    ensures Keep(st.order, st.entries.Keys - {st.order[i]}) == st.order[..i] + st.order[i + 1..]
  {
    KeepOthers(st.order, st.entries.Keys - {st.order[i]}, i);
  }

  lemma AbsentKept(st: Store, key: Key)
    requires Inv(st) && key !in st.entries
    ensures Keep(st.order, st.entries.Keys - {key}) == st.order
  {
    KeepAll(st.order, st.entries.Keys - {key});
  }

  /** The map midway through a sweep: expired keys among the first i are gone. */
  ghost predicate SweptUpTo(all: map<Key, int>, m: map<Key, int>, order: seq<Key>, i: nat, now: int)
    requires i <= |order|
  {
    && (forall k :: k in m <==> k in all && (k in order[..i] ==> all[k] > now))
    && forall k :: k in m ==> m[k] == all[k]
  }

  lemma NothingSwept(st: Store, now: int)
    ensures SweptUpTo(st.entries, st.entries, st.order, 0, now)
    ensures Keep(st.order[..0], LiveMap(st.entries, now).Keys) == []
  {
  }

  /** The step of the sweep: the next key is still mapped, and is kept exactly when live. */
  lemma NotYetSwept(st: Store, m: map<Key, int>, i: nat, now: int)
    requires i < |st.order| && SweptUpTo(st.entries, m, st.order, i, now) && Inv(st)
    ensures var k := st.order[i];
            && k in m && SweptUpTo(st.entries, if m[k] <= now then m - {k} else m, st.order, i + 1, now)
            && Keep(st.order[..i + 1], LiveMap(st.entries, now).Keys) ==
               Keep(st.order[..i], LiveMap(st.entries, now).Keys) + (if m[k] <= now then [] else [k])
  {
    hide Keep;
    var k := st.order[i];
    assert k !in st.order[..i];
    assert st.order[..i + 1] == st.order[..i] + [k];
    KeepSnoc(st.order[..i], k, LiveMap(st.entries, now).Keys);
  }

  lemma AllSwept(st: Store, m: map<Key, int>, now: int)
    requires SweptUpTo(st.entries, m, st.order, |st.order|, now) && Inv(st)
    ensures m == LiveMap(st.entries, now)
  {
    assert st.order[..|st.order|] == st.order;
  }
}
