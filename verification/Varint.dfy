/** migration.go: base-128 varints. */
module Varint {
  import opened Wrappers
  import opened Words

  // ---------- what the bytes mean ----------

  /** The encoding of v: seven bits a byte, low bits first, the top bit set on all but the last. */
  function VarintBytes(v: nat): (b: seq<byte>)
    ensures |b| > 0
  {
    if v < 0x80 then [v] else [0x80 + v % 0x80] + VarintBytes(v / 0x80)
  }

  /** The number a group of bytes stands for, without a word size. */
  function VarintValue(b: seq<byte>): nat {
    if b == [] then 0 else b[0] % 0x80 + 0x80 * VarintValue(b[1..])
  }

  /** The length of the varint at the head of s: its first byte below 0x80 must be among the
      first `limit` bytes. */
  function VarintLength(s: seq<byte>, limit: nat): (n: Option<nat>)
    ensures n.Some? ==> 1 <= n.value <= limit && n.value <= |s|
  {
    if s == [] || limit == 0 then None
    else if s[0] < 0x80 then Some(1)
    else match VarintLength(s[1..], limit - 1)
         case None => None
         case Some(n) => Some(1 + n)
  }

  /** The varint at the head of s: its value in a 64-bit word, and its length. A value of more
      than 64 bits loses its high bits; one of more than ten bytes is an error. */
  function ReadVarint(s: seq<byte>): (r: Option<(uint64, nat)>)
    ensures r.Some? ==> 1 <= r.value.1 <= 10 && r.value.1 <= |s|
  {
    match VarintLength(s, 10)
    case None => None
    case Some(n) => Some((VarintValue(s[..n]) % TWO_64, n))
  }

  // ---------- the loops ----------

  method AppendProtoVarint(dst: seq<byte>, v: uint64) returns (r: seq<byte>)
    ensures r == dst + VarintBytes(v)
  {
    hide VarintBytes, Or;
    r := dst;
    var value := v;
    while value >= 0x80
      invariant 0 <= value && r + VarintBytes(value) == dst + VarintBytes(v)
    {
      BytesStep(value);
      assert r + VarintBytes(value) == (r + [Or(value % 0x100, 0x80)]) + VarintBytes(value / 0x80);
      r := r + [Or(value % 0x100, 0x80)];
      value := value / 0x80;
    }
    BytesLast(value);
    r := r + [value % 0x100];
  }

  lemma BytesLast(v: nat)
    requires v < 0x80
    ensures VarintBytes(v) == [v % 0x100]
  {
  }

  /** byte(value) | 0x80 is the next byte of the encoding. */
  lemma BytesStep(v: nat)
    requires v >= 0x80
    ensures Or(v % 0x100, 0x80) < 0x100
    ensures VarintBytes(v) == [Or(v % 0x100, 0x80)] + VarintBytes(v / 0x80)
  {
    hide Or;
    ContinuationByte(v % 0x100);
    assert v % 0x100 % 0x80 == v % 0x80;
  }

  lemma ContinuationByte(b: byte)
    ensures Or(b, 0x80) == 0x80 + b % 0x80
  {
    hide Or, Shl, Pow2;
    Pow2Small();
    ShlSeven(1);
    if b < 0x80 {
      OrDisjoint(b, 1, 7);
    } else {
      OrAbsorb(b - 0x80, 7);
    }
  }

  lemma ShlSeven(a: nat)
    ensures Shl(a, 7) == 0x80 * a
  {
    ShlPlus7(a, 0);
  }

  /** Setting a bit that is set already changes nothing. */
  lemma {:induction false} OrAbsorb(low: nat, s: nat)
    requires low < Pow2(s)
    ensures Or(low + Shl(1, s), Shl(1, s)) == low + Shl(1, s)
  {
    if s > 0 {
      OrAbsorb(low / 2, s - 1);
      Pow2IsShl(s - 1);
      assert (low + Shl(1, s)) / 2 == low / 2 + Shl(1, s - 1);
    }
  }

  method ReadProtoVarint(data: seq<byte>, offset: nat) returns (r: Result<(uint64, nat)>)
    requires offset <= |data|
    ensures r == match ReadVarint(data[offset..])
                 case Some(p) => Ok((p.0, offset + p.1))
                 case None => Err(ErrInvalidMigration)
  {
    hide VarintBytes, VarintLength, VarintValue, Or, And, Shl;
    NoValue();
    assert data[offset..offset] == [];
    var value: uint64 := 0;
    var shift := 0;
    var i := offset;
    while i < |data|
      invariant offset <= i <= |data| && shift == 7 * (i - offset) <= 63
      invariant forall j :: offset <= j < i ==> data[j] >= 0x80
      invariant value == VarintValue(data[offset..i])
    {
      var b := data[i];
      AccumulateSeven(value, b, data[offset..i]);
      assert data[offset..i] + [b] == data[offset..i + 1];
      value := Or(value, Shl64(And(b, 0x7f), shift));
      if b < 0x80 {
        LengthFound(data[offset..], i - offset, 10);
        assert data[offset..][..i + 1 - offset] == data[offset..i + 1];
        return Ok((value, i + 1));
      }
      shift := shift + 7;
      i := i + 1;
      if shift > 63 {
        break;
      }
      NoWrapYet(data[offset..i]);
    }
    LengthMissing(data[offset..], i - offset, 10);
    return Err(ErrInvalidMigration);
  }

  lemma NoValue()
    ensures VarintValue([]) == 0
  {
  }

  /** value |= uint64(b & 0x7f) << shift appends seven bits, dropping those past bit 63. */
  lemma AccumulateSeven(value: uint64, b: byte, before: seq<byte>)
    requires |before| <= 9 && value == VarintValue(before)
    ensures Or(value, Shl64(And(b, 0x7f), 7 * |before|)) == VarintValue(before + [b]) % TWO_64
    ensures Or(value, Shl64(And(b, 0x7f), 7 * |before|)) < TWO_64
  {
    hide Or, And, Shl, Low, VarintValue, Pow2;
    var s := 7 * |before|;
    Pow2Small();
    AndMask(b, 7);
    LowIsMod(b, 7);
    ValueSnoc(before, b);
    ValueBound(before);
    Low64(Shl(b % 0x80, s));
    ShlWraps(b % 0x80, s, 64);
    OrDisjoint(value, Low(b % 0x80, 64 - s), s);
    Low64(value + Shl(b % 0x80, s));
    LowAddShl(value, b % 0x80, s, 64);
    LowBound(value + Shl(b % 0x80, s), 64);
    Pow2Words();
  }

  /** Reducing a sum of disjoint parts reduces the shifted part only. */
  lemma {:induction false} LowAddShl(a: nat, b: nat, s: nat, w: nat)
    requires a < Pow2(s) && s <= w
    ensures Low(a + Shl(b, s), w) == a + Low(Shl(b, s), w)
  {
    if s > 0 {
      LowAddShl(a / 2, b, s - 1, w - 1);
      assert (a + Shl(b, s)) / 2 == a / 2 + Shl(b, s - 1);
    }
  }

  lemma {:induction false} ValueSnoc(s: seq<byte>, b: byte)
    ensures VarintValue(s + [b]) == VarintValue(s) + Shl(b % 0x80, 7 * |s|)
  {
    if s == [] {
      assert s + [b] == [b] && [b][1..] == [];
    } else {
      ValueSnoc(s[1..], b);
      assert (s + [b])[1..] == s[1..] + [b];
      ShlPlus7(b % 0x80, 7 * |s[1..]|);
    }
  }

  lemma {:induction false} ValueBound(s: seq<byte>)
    ensures VarintValue(s) < Pow2(7 * |s|)
  {
    if s != [] {
      ValueBound(s[1..]);
      Pow2Plus7(7 * |s[1..]|);
    }
  }

  lemma Pow2Plus7(n: nat)
    ensures Pow2(n + 7) == 0x80 * Pow2(n)
  {
    assert Pow2(n + 2) == 4 * Pow2(n);
    assert Pow2(n + 4) == 16 * Pow2(n);
    assert Pow2(n + 6) == 64 * Pow2(n);
  }

  lemma NoWrapYet(s: seq<byte>)
    requires |s| <= 9
    ensures VarintValue(s) < TWO_64
  {
    hide Pow2, VarintValue;
    ValueBound(s);
    Pow2Monotone(7 * |s|, 64);
    Pow2Words();
  }

  lemma {:induction false} Pow2Monotone(m: nat, n: nat)
    requires m <= n
    ensures Pow2(m) <= Pow2(n)
  {
    if m < n {
      Pow2Monotone(m, n - 1);
    }
  }

  lemma {:induction false} LengthFound(s: seq<byte>, k: nat, limit: nat)
    requires k < |s| && k < limit && s[k] < 0x80
    requires forall j :: 0 <= j < k ==> s[j] >= 0x80
    ensures VarintLength(s, limit) == Some(k + 1)
  {
    if k > 0 {
      LengthFound(s[1..], k - 1, limit - 1);
    }
  }

  lemma {:induction false} LengthMissing(s: seq<byte>, k: nat, limit: nat)
    requires k <= |s| && k <= limit && (k == |s| || k == limit)
    requires forall j :: 0 <= j < k ==> s[j] >= 0x80
    ensures VarintLength(s, limit) == None
  {
    if k > 0 {
      LengthMissing(s[1..], k - 1, limit - 1);
    }
  }

  // ---------- the bytes, one by one ----------

  /** Byte i of an encoding holds bits 7 i to 7 i + 6 of the value, and the top bit on all bytes
      but the last; no byte is spent on leading zeros. */
  lemma {:induction false} BytesAre(v: nat, i: nat)
    requires i < |VarintBytes(v)|
    ensures VarintBytes(v)[i] == v / Pow2(7 * i) % 0x80 + (if i + 1 < |VarintBytes(v)| then 0x80 else 0)
    ensures (i > 0 ==> v >= Pow2(7 * i)) && (i + 1 == |VarintBytes(v)| ==> v < Pow2(7 * i + 7))
  {
    hide Pow2, VarintBytes;
    Pow2Zero();
    Pow2Plus7(7 * i);
    BytesUnfold(v);
    if v >= 0x80 && i > 0 {
      var p, rest := Pow2(7 * (i - 1)), VarintBytes(v / 0x80);
      assert VarintBytes(v)[i] == rest[i - 1];
      BytesAre(v / 0x80, i - 1);
      Pow2Plus7(7 * (i - 1));
      DivDiv(v, 0x80, p);
      AtLeast(v, p);
    }
  }

  lemma AtLeast(v: nat, p: nat)
    ensures v / 0x80 >= p <==> v >= 0x80 * p
  {
  }

  lemma BytesUnfold(v: nat)
    ensures v < 0x80 ==> VarintBytes(v) == [v]
    ensures v >= 0x80 ==> VarintBytes(v) == [0x80 + v % 0x80] + VarintBytes(v / 0x80)
  {
  }

  /** A read ends at the first byte below 0x80, and fails exactly when none is among the first
      ten. */
  lemma ReadExactly(s: seq<byte>)
    ensures ReadVarint(s).None? <==> forall i :: 0 <= i < |s| && i < 10 ==> s[i] >= 0x80
    ensures ReadVarint(s).Some? ==>
              var n := ReadVarint(s).value.1;
              s[n - 1] < 0x80 && forall i :: 0 <= i < n - 1 ==> s[i] >= 0x80
  {
    hide VarintValue;
    LengthExactly(s, 10);
  }

  lemma {:induction false} LengthExactly(s: seq<byte>, limit: nat)
    ensures VarintLength(s, limit).None? <==> forall i :: 0 <= i < |s| && i < limit ==> s[i] >= 0x80
    ensures VarintLength(s, limit).Some? ==>
              var n := VarintLength(s, limit).value;
              s[n - 1] < 0x80 && forall i :: 0 <= i < n - 1 ==> s[i] >= 0x80
  {
    if s != [] && limit > 0 && s[0] >= 0x80 {
      LengthExactly(s[1..], limit - 1);
      assert forall i :: 0 < i < |s| ==> s[i] == s[1..][i - 1];
    }
  }

  // ---------- the round trip ----------

  /** The encoding of v < 2^(7n) has at most n bytes and is found whatever follows it. */
  lemma {:induction false} BytesFound(v: nat, n: nat, suffix: seq<byte>)
    requires v < Pow2(7 * n) && n > 0
    ensures |VarintBytes(v)| <= n
    ensures VarintLength(VarintBytes(v) + suffix, n) == Some(|VarintBytes(v)|)
    ensures VarintValue(VarintBytes(v)) == v
  {
    var b := VarintBytes(v);
    if v >= 0x80 {
      if n == 1 {
        Pow2Small();
        assert false;
      } else {
        Pow2Plus7(7 * (n - 1));
        BytesFound(v / 0x80, n - 1, suffix);
        assert (b + suffix)[1..] == VarintBytes(v / 0x80) + suffix;
      }
    } else {
      assert b == [v] && [v][1..] == [];
    }
  }

  /** Round trip: for every 64-bit v and any bytes after its encoding, the reader returns v and
      the exact length, which is at most ten. */
  lemma ReadBack(v: uint64, suffix: seq<byte>)
    ensures ReadVarint(VarintBytes(v) + suffix) == Some((v, |VarintBytes(v)|))
    ensures 1 <= |VarintBytes(v)| <= 10
  {
    hide VarintBytes, VarintLength, VarintValue, Pow2;
    Pow2Words();
    Pow2Monotone(64, 70);
    BytesFound(v, 10, suffix);
    assert (VarintBytes(v) + suffix)[..|VarintBytes(v)|] == VarintBytes(v);
  }

  /** In context: reading at the end of any prefix. */
  lemma ReadBackAt(prefix: seq<byte>, v: uint64, suffix: seq<byte>)
    ensures var data := prefix + VarintBytes(v) + suffix;
            ReadVarint(data[|prefix|..]) == Some((v, |VarintBytes(v)|))
  {
    ReadBack(v, suffix);
    assert (prefix + VarintBytes(v) + suffix)[|prefix|..] == VarintBytes(v) + suffix;
  }

  /** A successful read looks only at the bytes it consumes. */
  lemma ReadLocal(s: seq<byte>, t: seq<byte>)
    requires ReadVarint(s).Some?
    ensures ReadVarint(s + t) == ReadVarint(s)
  {
    LengthLocal(s, t, 10);
    var n := VarintLength(s, 10).value;
    assert (s + t)[..n] == s[..n];
  }

  lemma {:induction false} LengthLocal(s: seq<byte>, t: seq<byte>, limit: nat)
    requires VarintLength(s, limit).Some?
    ensures VarintLength(s + t, limit) == VarintLength(s, limit)
  {
    if s[0] >= 0x80 {
      assert (s + t)[1..] == s[1..] + t;
      LengthLocal(s[1..], t, limit - 1);
    }
  }
}
