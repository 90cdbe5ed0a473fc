/** verifier.go: replay protection and rate limiting around one code comparison, for a caller
    that makes one call at a time. */
module Verifier {
  import opened Words
  import opened ConstantTime
  import opened ReplayStore

  /** The arguments of verifyInner. */
  datatype Call = Call(code: seq<byte>, expected: seq<byte>, issued: seq<byte>, request: seq<byte>)

  predicate Matches(c: Call) {
    c.issued == c.request && c.code == c.expected
  }

  function ReplayKey(code: seq<byte>, context: seq<byte>): Key {
    code + [0] + context
  }

  function KeyOf(c: Call): Key {
    ReplayKey(c.code, c.issued)
  }

  /** attempts++ on a uint32. */
  function Increment(attempts: uint32): uint32 {
    (attempts + 1) % TWO_32
  }

  /** The attempts, the store and the answer after one undisturbed call. */
  function VerifyCall(maxAttempts: uint32, ttl: int, attempts: uint32, st: Store, c: Call, now: int):
    (uint32, Store, bool)
  {
    if attempts >= maxAttempts then (attempts, st, false)
    else if !Matches(c) then (Increment(attempts), st, false)
    else
      var (st', first) := Check(st, KeyOf(c), ttl, now);
      if first then (0, st', true) else (Increment(attempts), st', false)
  }

  /** Code and context determine the replay key, for codes without a NUL byte. */
  lemma ReplayKeyInjective(code1: seq<byte>, ctx1: seq<byte>, code2: seq<byte>, ctx2: seq<byte>)
    requires 0 !in code1 && 0 !in code2
    requires ReplayKey(code1, ctx1) == ReplayKey(code2, ctx2)
    ensures code1 == code2 && ctx1 == ctx2
  {
    SplitAtFirst(code1, ctx1, code2, ctx2, 0);
  }

  /** A separator that occurs in neither head is found at the same place. */
  lemma SplitAtFirst(a: seq<byte>, r: seq<byte>, b: seq<byte>, t: seq<byte>, sep: byte)
    requires sep !in a && sep !in b && a + [sep] + r == b + [sep] + t
    ensures a == b && r == t
  {
    var s := a + [sep] + r;
    assert s[|a|] == sep && s[|b|] == sep;
    assert forall i :: 0 <= i < |a| ==> s[i] == a[i] != sep;
    assert forall i :: 0 <= i < |b| ==> s[i] == b[i] != sep;
    assert |a| == |b|;
    assert a == s[..|a|] && b == s[..|b|] && r == s[|a| + 1..] && t == s[|b| + 1..];
  }

  class Verifier {
    const store: InMemoryReplayStore
    const ttl: int
    const maxAttempts: uint32
    var attempts: uint32

    ghost predicate Valid()
      reads this, store, store.backing
    {
      store.Valid()
    }

    constructor (maxAttempts: uint32, store: InMemoryReplayStore, ttl: int)
      requires store.Valid()
      ensures Valid() && attempts == 0
      ensures this.maxAttempts == maxAttempts && this.store == store && this.ttl == ttl
    {
      this.store := store;
      this.ttl := ttl;
      this.maxAttempts := maxAttempts;
      attempts := 0;
    }

    method VerifyInner(code: seq<byte>, expected: seq<byte>, issued: seq<byte>, request: seq<byte>, now: int)
      returns (ok: bool)
      requires Valid()
      requires |code| <= MAX_INT && |expected| <= MAX_INT && |issued| <= MAX_INT && |request| <= MAX_INT
      modifies this, store, store.backing
      ensures Valid()
      ensures (attempts, store.Model(), ok) ==
              VerifyCall(maxAttempts, ttl, old(attempts), old(store.Model()),
                         Call(code, expected, issued, request), now)
      ensures ok ==> code == expected && issued == request && old(attempts) < maxAttempts
      ensures old(attempts) >= maxAttempts ==> attempts == old(attempts) && store.Model() == old(store.Model())
      ensures old(attempts) < maxAttempts ==> attempts == if ok then 0 else (old(attempts) + 1) % 0x1_0000_0000
      ensures code != expected || issued != request ==> store.Model() == old(store.Model())
      ensures old(attempts) < maxAttempts && code == expected && issued == request ==>
                var key := code + [0] + issued;
                && (ok <==> !(key in old(store.entries) && old(store.entries)[key] > now))
                && key in store.entries && store.entries[key] == (if ok then now + ttl else old(store.entries)[key])
    {
      hide Check, Inv, Bound, Empty;
      if attempts >= maxAttempts {
        return false;
      }
      var ctxMatch := ConstTimeEqBytes(issued, request);
      var codeMatch := ConstTimeEqBytes(code, expected);
      if !ctxMatch || !codeMatch {
        attempts := Increment(attempts);
        return false;
      }
      var key := ReplayKey(code, issued);
      var firstSeen := store.CheckAndRecord(key, ttl, now);
      if !firstSeen {
        attempts := Increment(attempts);
        return false;
      }
      attempts := 0;
      return true;
    }

    method IsRateLimited() returns (limited: bool)
      ensures limited <==> attempts >= maxAttempts
    {
      return attempts >= maxAttempts;
    }

    method ResetAttempts()
      modifies this
      ensures attempts == 0
    {
      attempts := 0;
    }

    method ClearUsedCodes()
      requires Valid()
      modifies store
      ensures Valid() && attempts == old(attempts) && store.Model() == Empty(store.maxSize)
    {
      store.Reset();
    }
  }
}
