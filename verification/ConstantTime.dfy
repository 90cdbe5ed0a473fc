/** constant_time.go: byte-string equality without data-dependent branches. */
module ConstantTime {
  import opened Words

  /** Byte i of s, or 0 past its end. */
  function ByteAt(s: seq<byte>, i: nat): byte {
    if i < |s| then s[i] else 0
  }

  /** (diff | -diff) >> 63 in 64-bit words. */
  function SignOfNonzero(diff: uint64): nat {
    Or(diff, Neg64(diff)) / TWO_63
  }

  /** The trick: the top bit of diff | -diff is set exactly when diff is not zero. */
  lemma TopBitIsNonzero(diff: uint64)
    ensures SignOfNonzero(diff) == if diff == 0 then 0 else 1
  {
    hide Or, Pow2;
    Pow2Words();
    OrBounds(diff, Neg64(diff), 64);
    OrIsZero(diff, Neg64(diff));
  }

  /** diff is zero after the first n positions exactly when the lengths and those bytes agree. */
  ghost predicate Compared(a: seq<byte>, b: seq<byte>, n: nat, diff: nat) {
    diff < TWO_64 && (diff == 0 <==> |a| == |b| && forall i :: 0 <= i < n ==> ByteAt(a, i) == ByteAt(b, i))
  }

  lemma ComparedLengths(a: seq<byte>, b: seq<byte>)
    requires |a| <= MAX_INT && |b| <= MAX_INT
    ensures Compared(a, b, 0, Xor(|a|, |b|))
  {
    hide Xor, Pow2;
    Pow2Words();
    XorIsZero(|a|, |b|);
    XorBound(|a|, |b|, 63);
  }

  lemma ComparedStep(a: seq<byte>, b: seq<byte>, n: nat, diff: nat)
    requires Compared(a, b, n, diff)
    ensures Xor(ByteAt(a, n), ByteAt(b, n)) < 0x100
    ensures Compared(a, b, n + 1, Or(diff, Xor(ByteAt(a, n), ByteAt(b, n))))
  {
    hide Xor, Or, Pow2;
    Pow2Words();
    Pow2Small();
    var x := Xor(ByteAt(a, n), ByteAt(b, n));
    XorIsZero(ByteAt(a, n), ByteAt(b, n));
    XorBound(ByteAt(a, n), ByteAt(b, n), 8);
    OrIsZero(diff, x);
    OrBounds(diff, x, 64);
  }

  lemma ComparedAll(a: seq<byte>, b: seq<byte>, n: nat, diff: nat)
    requires Compared(a, b, n, diff) && n >= |a| && n >= |b|
    ensures diff == 0 <==> a == b
  {
    if diff == 0 {
      forall i | 0 <= i < |a| ensures a[i] == b[i] {
        assert ByteAt(a, i) == ByteAt(b, i);
      }
    }
  }

  method ConstTimeEqBytes(a: seq<byte>, b: seq<byte>) returns (equal: bool)
    requires |a| <= MAX_INT && |b| <= MAX_INT
    ensures equal <==> a == b
  {
    hide Xor, Or, Compared, SignOfNonzero;
    var maxLen := if |b| > |a| then |b| else |a|;
    ComparedLengths(a, b);
    var diff := Xor(|a|, |b|);
    for i := 0 to maxLen
      invariant Compared(a, b, i, diff)
    {
      var av, bv: byte := 0, 0;
      if i < |a| {
        av := a[i];
      }
      if i < |b| {
        bv := b[i];
      }
      ComparedStep(a, b, i, diff);
      diff := Or(diff, Xor(av, bv));
    }
    ComparedAll(a, b, maxLen, diff);
    ComparedWord(a, b, maxLen, diff);
    TopBitIsNonzero(diff);
    var nonzero := SignOfNonzero(diff);
    return nonzero == 0;
  }

  lemma ComparedWord(a: seq<byte>, b: seq<byte>, n: nat, diff: nat)
    requires Compared(a, b, n, diff)
    ensures diff < TWO_64
  {
  }

  method ConstantTimeEqByteResult(a: seq<byte>, b: seq<byte>) returns (r: byte)
    requires |a| <= MAX_INT && |b| <= MAX_INT
    ensures r == if a == b then 1 else 0
  {
    hide Xor, Or, Compared, SignOfNonzero;
    var maxLen := if |a| > |b| then |a| else |b|;
    ComparedLengths(a, b);
    var diff := Xor(|a|, |b|);
    for i := 0 to maxLen
      invariant Compared(a, b, i, diff)
    {
      var av, bv: byte := 0, 0;
      if i < |a| {
        av := a[i];
      }
      if i < |b| {
        bv := b[i];
      }
      ComparedStep(a, b, i, diff);
      diff := Or(diff, Xor(av, bv));
    }
    ComparedAll(a, b, maxLen, diff);
    ComparedWord(a, b, maxLen, diff);
    TopBitIsNonzero(diff);
    return (1 - SignOfNonzero(diff)) % 0x100;
  }
}
