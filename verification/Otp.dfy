/** hotp.go: from a counter and a context to the digits of a code. HMAC is any function from
    messages to digests of 20, 32 or 64 bytes. */
module Otp {
  import opened Words

  type Digest = h: seq<byte> | |h| == 20 || |h| == 32 || |h| == 64 witness seq(20, i => 0)

  type Mac = seq<byte> -> Digest

  // ---------- the message ----------

  /** "genotp-ctx-v1" and a zero byte. */
  const CONTEXT_BIND_TAG: seq<byte> :=
    [0x67, 0x65, 0x6E, 0x6F, 0x74, 0x70, 0x2D, 0x63, 0x74, 0x78, 0x2D, 0x76, 0x31, 0x00]

  /** The low n bytes of v, most significant first. */
  function BigEndian(v: nat, n: nat): (b: seq<byte>)
    ensures |b| == n
  {
    if n == 0 then [] else BigEndian(v / 0x100, n - 1) + [v % 0x100]
  }

  function BigEndianValue(b: seq<byte>): nat {
    if b == [] then 0 else 0x100 * BigEndianValue(b[..|b| - 1]) + b[|b| - 1]
  }

  lemma {:induction false} BigEndianInverse(v: nat, n: nat)
    requires v < Pow2(8 * n)
    ensures BigEndianValue(BigEndian(v, n)) == v
  {
    if n > 0 {
      Pow2Plus8(8 * (n - 1));
      BigEndianInverse(v / 0x100, n - 1);
      assert BigEndian(v, n)[..n - 1] == BigEndian(v / 0x100, n - 1);
    }
  }

  function Message(counter: uint64, context: seq<byte>): seq<byte> {
    BigEndian(counter, 8) + (if |context| > 0 then CONTEXT_BIND_TAG + context else [])
  }

  /** Counter and context determine the message; the empty context gives the plain one. */
  lemma MessageInjective(c1: uint64, x1: seq<byte>, c2: uint64, x2: seq<byte>)
    ensures Message(c1, x1) == Message(c2, x2) <==> c1 == c2 && x1 == x2
    ensures Message(c1, []) == BigEndian(c1, 8)
  {
    hide BigEndian, BigEndianValue, Pow2;
    var m1, m2 := Message(c1, x1), Message(c2, x2);
    assert Message(c1, []) == BigEndian(c1, 8) + [];
    if m1 == m2 {
      assert m1[..8] == BigEndian(c1, 8) && m2[..8] == BigEndian(c2, 8);
      Pow2Words();
      BigEndianInverse(c1, 8);
      BigEndianInverse(c2, 8);
      TagStripped(x1);
      TagStripped(x2);
      assert m1[8..] == (if |x1| > 0 then CONTEXT_BIND_TAG + x1 else []);
      assert m2[8..] == (if |x2| > 0 then CONTEXT_BIND_TAG + x2 else []);
    }
  }

  /** The message byte by byte: the counter's eight bytes, most significant first, and for a
      context that is not empty the tag "genotp-ctx-v1", a NUL and the context. */
  lemma MessageIs(counter: uint64, context: seq<byte>)
    ensures forall i :: 0 <= i < 8 ==> Message(counter, context)[i] == counter / Pow2(56 - 8 * i) % 0x100
    ensures context == [] ==> |Message(counter, context)| == 8
    ensures context != [] ==>
              var m, tag := Message(counter, context), "genotp-ctx-v1";
              && |m| == 8 + 14 + |context|
              && (forall i :: 0 <= i < 13 ==> m[8 + i] == tag[i] as int)
              && m[21] == 0 && m[22..] == context
  {
    hide Pow2;
    forall i | 0 <= i < 8 ensures Message(counter, context)[i] == counter / Pow2(56 - 8 * i) % 0x100 {
      BigEndianAt(counter, 8, i);
      assert Message(counter, context)[i] == BigEndian(counter, 8)[i];
    }
  }

  lemma {:induction false} BigEndianAt(v: nat, n: nat, i: nat)
    requires i < n
    ensures BigEndian(v, n)[i] == v / Pow2(8 * (n - 1 - i)) % 0x100
  {
    hide Pow2;
    if i == n - 1 {
      Pow2Zero();
    } else {
      BigEndianAt(v / 0x100, n - 1, i);
      Pow2Plus8(8 * (n - 2 - i));
      DivDiv(v, 0x100, Pow2(8 * (n - 2 - i)));
    }
  }

  lemma TagStripped(x: seq<byte>)
    ensures (CONTEXT_BIND_TAG + x)[|CONTEXT_BIND_TAG|..] == x
  {
  }

  // ---------- dynamic truncation ----------

  /** The expression of the source: offset from the low four bits of the last byte, then four
      bytes masked, shifted and or-ed together. */
  function DynamicTruncate(h: Digest, modValue: uint32): uint32
    requires modValue > 0
  {
    AndNibble(h[|h| - 1]);
    var offset := And(h[|h| - 1], 0x0f);
    TopByte(h[offset]);
    var binary := Or(Or(Or(Shl(And(h[offset], 0x7f), 24), Shl(h[offset + 1], 16)), Shl(h[offset + 2], 8)),
                     h[offset + 3]);
    binary % modValue
  }

  /** The truncation offset stays inside the shortest digest: offset + 3 < 20. */
  lemma AndNibble(b: byte)
    ensures And(b, 0x0f) == b % 16 && And(b, 0x0f) + 3 < 20
  {
    hide And, Low, Pow2;
    Pow2Small();
    AndMask(b, 4);
    LowIsMod(b, 4);
  }

  lemma TopByte(b: byte)
    ensures And(b, 0x7f) == b % 0x80
  {
    hide And, Low, Pow2;
    Pow2Small();
    AndMask(b, 7);
    LowIsMod(b, 7);
  }

  /** Section 5.3 of RFC 4226: the low 31 bits of the big-endian word at the offset, reduced. */
  lemma TruncateMeans(h: Digest, modValue: uint32)
    requires modValue > 0
    ensures var o := h[|h| - 1] % 16;
            && o + 4 <= |h|
            && DynamicTruncate(h, modValue) == (BigEndianValue(h[o..o + 4]) % TWO_31) % modValue
    ensures DynamicTruncate(h, modValue) < modValue
  {
    hide And, Or, Shl, BigEndianValue, Pow2;
    AndNibble(h[|h| - 1]);
    var o := h[|h| - 1] % 16;
    TopByte(h[o]);
    FourBytes(h[o] % 0x80, h[o + 1], h[o + 2], h[o + 3]);
    FourValue(h[o..o + 4]);
    var a: int, b: int, c: int, d: int := h[o], h[o + 1], h[o + 2], h[o + 3];
    var low := 0x1_0000 * b + 0x100 * c + d;
    ModUnique(0x100_0000 * a + low, TWO_31, a / 0x80, 0x100_0000 * (a % 0x80) + low);
  }

  lemma ShlBytes(a: nat)
    ensures Shl(a, 8) == 0x100 * a && Shl(a, 16) == 0x1_0000 * a && Shl(a, 24) == 0x100_0000 * a
  {
    ShlPlus8(a, 0);
    ShlPlus8(a, 8);
    ShlPlus8(a, 16);
  }

  /** Or-ing shifted bytes together is adding them. */
  lemma FourBytes(a: byte, b: byte, c: byte, d: byte)
    ensures Or(Or(Or(Shl(a, 24), Shl(b, 16)), Shl(c, 8)), d) == 0x100_0000 * a + 0x1_0000 * b + 0x100 * c + d
  {
    hide Or, Shl, Pow2;
    Pow2Words();
    Pow2Small();
    ShlBytes(a);
    ShlBytes(b);
    ShlBytes(c);
    OrDisjoint(Shl(b, 16), a, 24);
    var ab := 0x100 * a + b;
    ShlBytes(ab);
    OrDisjoint(Shl(c, 8), ab, 16);
    var abc := 0x100 * ab + c;
    ShlBytes(abc);
    OrDisjoint(d, abc, 8);
  }

  lemma FourValue(s: seq<byte>)
    requires |s| == 4
    ensures BigEndianValue(s) ==
            0x100_0000 * (s[0] as int) + 0x1_0000 * (s[1] as int) + 0x100 * (s[2] as int) + s[3] as int
  {
    var a: int, b: int, c: int := s[0], s[1], s[2];
    assert s[..3][..2] == s[..2] && s[..2][..1] == s[..1] && s[..1][..0] == [];
    assert BigEndianValue(s[..1]) == a;
    assert BigEndianValue(s[..2]) == 0x100 * a + b;
    assert BigEndianValue(s[..3]) == 0x1_0000 * a + 0x100 * b + c;
  }

  // ---------- decimal digits ----------

  function Pow10(n: nat): (p: nat)
    ensures p >= 1
  {
    if n == 0 then 1 else 10 * Pow10(n - 1)
  }

  predicate IsDigit(c: byte) {
    0x30 <= c <= 0x39
  }

  /** The last n decimal digits of v, as ASCII. */
  function Decimal(v: nat, n: nat): (s: seq<byte>)
    ensures |s| == n && forall i :: 0 <= i < n ==> IsDigit(s[i])
  {
    if n == 0 then [] else Decimal(v / 10, n - 1) + [0x30 + v % 10]
  }

  function DecimalValue(s: seq<byte>): int {
    if s == [] then 0 else 10 * DecimalValue(s[..|s| - 1]) + (s[|s| - 1] as int - 0x30)
  }

  lemma {:induction false} DecimalReads(v: nat, n: nat)
    requires v < Pow10(n)
    ensures DecimalValue(Decimal(v, n)) == v
  {
    if n > 0 {
      DecimalReads(v / 10, n - 1);
      assert Decimal(v, n)[..n - 1] == Decimal(v / 10, n - 1);
    }
  }

  predicate AllDigits(s: seq<byte>) {
    forall i :: 0 <= i < |s| ==> IsDigit(s[i])
  }

  /** The digits are the unique string of n ASCII digits that reads as v. */
  lemma {:induction false} DecimalUnique(v: nat, n: nat, s: seq<byte>)
    requires |s| == n && AllDigits(s) && DecimalValue(s) == v
    ensures s == Decimal(v, n)
  {
    if n > 0 {
      var front, last := s[..n - 1], s[n - 1] as int;
      assert s == front + [s[n - 1]];
      DigitsNonNegative(front);
      assert v / 10 == DecimalValue(front) && v % 10 == last - 0x30;
      DecimalUnique(v / 10, n - 1, front);
    }
  }

  lemma {:induction false} DigitsNonNegative(s: seq<byte>)
    requires AllDigits(s)
    ensures DecimalValue(s) >= 0
  {
    if s != [] {
      DigitsNonNegative(s[..|s| - 1]);
    }
  }

  /** formatOTP: fills dst from the right. */
  method FormatOTP(dst: array<byte>, code: uint32, digits: nat) returns (s: seq<byte>)
    requires digits <= dst.Length
    modifies dst
    ensures s == Decimal(code, digits) == dst[..digits]
    ensures forall j :: digits <= j < dst.Length ==> dst[j] == old(dst[j])
  {
    var rest := code;
    var i := digits - 1;
    assert Decimal(code, digits) + [] == Decimal(code, digits);
    while i >= 0
      invariant -1 <= i < digits && 0 <= rest < TWO_32
      invariant Decimal(rest, i + 1) + dst[i + 1..digits] == Decimal(code, digits)
      invariant forall j :: digits <= j < dst.Length ==> dst[j] == old(dst[j])
    {
      ghost var tail := dst[i + 1..digits];
      dst[i] := 0x30 + rest % 10;
      assert dst[i..digits] == [0x30 + rest % 10] + tail;
      assert Decimal(rest, i + 1) + tail == Decimal(rest / 10, i) + ([0x30 + rest % 10] + tail);
      rest := rest / 10;
      i := i - 1;
    }
    assert Decimal(rest, 0) == [];
    s := dst[..digits];
  }

  // ---------- the code of a counter ----------

  /** The moving factor and context to digits: what genDigits returns. */
  function Code(mac: Mac, digits: nat, counter: uint64, context: seq<byte>): (s: seq<byte>)
    requires 6 <= digits <= 8
    ensures |s| == digits && AllDigits(s)
  {
    ModValue(digits);
    Decimal(DynamicTruncate(mac(Message(counter, context)), Pow10(digits)), digits)
  }

  lemma ModValue(digits: nat)
    requires 6 <= digits <= 8
    ensures 0 < Pow10(digits) < TWO_32
  {
    assert Pow10(2) == 100;
    assert Pow10(4) == 10000;
    assert Pow10(6) == 1000000;
    assert Pow10(8) == 100000000;
  }

  /** The code is the zero-padded decimal of the truncated digest, which is below 10^digits. */
  lemma CodeMeans(mac: Mac, digits: nat, counter: uint64, context: seq<byte>)
    requires 6 <= digits <= 8
    ensures var h := mac(Message(counter, context));
            var o := h[|h| - 1] % 16;
            && o + 4 <= |h|
            && DecimalValue(Code(mac, digits, counter, context)) ==
               (BigEndianValue(h[o..o + 4]) % TWO_31) % Pow10(digits)
  {
    hide DynamicTruncate, Decimal, DecimalValue, Pow10, Message;
    ModValue(digits);
    var h := mac(Message(counter, context));
    TruncateMeans(h, Pow10(digits));
    DecimalReads(DynamicTruncate(h, Pow10(digits)), digits);
  }

  method GenDigits(mac: Mac, digits: nat, counter: uint64, context: seq<byte>) returns (s: seq<byte>)
    requires 6 <= digits <= 8
    ensures s == Code(mac, digits, counter, context)
  {
    hide DynamicTruncate, Decimal, Pow10, Message;
    ModValue(digits);
    var buf := new byte[8];
    s := FormatOTP(buf, DynamicTruncate(mac(Message(counter, context)), Pow10(digits)), digits);
  }

  /** Digit i of a code, counted from the left, is that decimal place, in ASCII. */
  lemma {:induction false} DecimalAt(v: nat, n: nat, i: nat)
    requires i < n
    ensures Decimal(v, n)[i] == '0' as int + v / Pow10(n - 1 - i) % 10
  {
    hide Pow10;
    if i == n - 1 {
      Pow10Small();
    } else {
      DecimalAt(v / 10, n - 1, i);
      Pow10Step(n - 2 - i);
      DivDiv(v, 10, Pow10(n - 2 - i));
    }
  }

  lemma Pow10Step(n: nat)
    ensures Pow10(n + 1) == 10 * Pow10(n) && Pow10(n) > 0
  {
  }

  lemma Pow10Small()
    ensures Pow10(0) == 1 && Pow10(6) == 1_000_000 && Pow10(7) == 10_000_000 && Pow10(8) == 100_000_000
  {
    assert Pow10(2) == 100;
    assert Pow10(4) == 10_000;
    assert Pow10(6) == 1_000_000;
  }

  /** The code in full: for the digest h and the offset o in the low four bits of its last byte,
      the 31-bit number of the four bytes at o, of which the last digits are shown. */
  lemma CodeDigits(mac: Mac, digits: nat, counter: uint64, context: seq<byte>, i: nat)
    requires 6 <= digits <= 8 && i < digits
    ensures var h := mac(Message(counter, context));
            var o := h[|h| - 1] % 16;
            var number := 0x100_0000 * (h[o] as int % 0x80) + 0x1_0000 * (h[o + 1] as int)
                          + 0x100 * (h[o + 2] as int) + h[o + 3] as int;
            Code(mac, digits, counter, context)[i] ==
              '0' as int + number % (if digits == 6 then 1_000_000 else if digits == 7 then 10_000_000
                                     else 100_000_000) / Pow10(digits - 1 - i) % 10
  {
    hide DynamicTruncate, Decimal, Pow10, Message, BigEndianValue;
    Pow10Small();
    ModValue(digits);
    var h := mac(Message(counter, context));
    var o := h[|h| - 1] % 16;
    TruncateMeans(h, Pow10(digits));
    FourValue(h[o..o + 4]);
    var a: int, low := h[o], 0x1_0000 * (h[o + 1] as int) + 0x100 * (h[o + 2] as int) + h[o + 3] as int;
    ModUnique(0x100_0000 * a + low, TWO_31, a / 0x80, 0x100_0000 * (a % 0x80) + low);
    DecimalAt(DynamicTruncate(h, Pow10(digits)), digits, i);
  }
}
