/** base32.go: the bit-buffer Base32 decoder, against the bit-string description of
    section 6 of RFC 4648. Go strings are sequences of bytes. */
module Base32 {
  import opened Wrappers
  import opened Words
  import opened BitStrings

  // ---------- the encoder, as RFC 4648 describes it (without padding) ----------

  /** The alphabet: 'A'-'Z' for 0-25, '2'-'7' for 26-31. */
  function Digit(v: nat): byte
    requires v < 32
  {
    if v < 26 then 0x41 + v else 0x32 + (v - 26)
  }

  /** How many zero bits fill the last group of five. */
  function PaddingLength(n: nat): (z: nat)
    ensures z < 5 && (n + z) % 5 == 0
  {
    (5 - n % 5) % 5
  }

  function PaddedBits(data: seq<byte>): seq<bool> {
    Flat(data, 8) + Zeros(PaddingLength(8 * |data|))
  }

  /** The five-bit groups of the encoding of data. */
  function Groups(data: seq<byte>): (g: seq<nat>)
    ensures 5 * |g| == 8 * |data| + PaddingLength(8 * |data|)
    ensures forall i :: 0 <= i < |g| ==> g[i] < 32
  {
    FlatLength(data, 8);
    ChunkLength(PaddedBits(data), 5);
    Pow2Small();
    Chunk(PaddedBits(data), 5)
  }

  function EncodeBase32(data: seq<byte>): (s: seq<byte>)
    ensures |s| == |Groups(data)|
  {
    var g := Groups(data);
    seq(|g|, i requires 0 <= i < |g| => Digit(g[i]))
  }

  // ---------- the decoder's tables ----------

  /** The table b32Inverse. Only its first 128 entries are written out, so every byte from
      0x80 on has Go's zero value, 0, and not -1. */
  function Inverse(c: byte): int {
    if 0x32 <= c <= 0x37 then 26 + (c - 0x32)
    else if 0x41 <= c <= 0x5A then c - 0x41
    else if 0x61 <= c <= 0x7A then c - 0x61
    else if c < 0x80 then -1
    else 0
  }

  predicate IsSeparator(c: byte) {
    c == 0x20 || c == 0x2D || c == 0x3D || 0x09 <= c <= 0x0D
  }

  /** The characters left after stripping separators. */
  function Kept(src: seq<byte>): seq<byte> {
    if src == [] then []
    else Kept(src[..|src| - 1]) + (if IsSeparator(src[|src| - 1]) then [] else [src[|src| - 1]])
  }

  lemma {:induction false} KeptLength(src: seq<byte>)
    ensures |Kept(src)| <= |src|
  {
    if src != [] {
      KeptLength(src[..|src| - 1]);
    }
  }

  predicate ValidUpTo(k: seq<byte>, n: nat)
    requires n <= |k|
  {
    forall i :: 0 <= i < n ==> Inverse(k[i]) >= 0
  }

  predicate AllValid(k: seq<byte>) {
    ValidUpTo(k, |k|)
  }

  /** The number of leading characters before the first one the table rejects. */
  function ValidPrefix(k: seq<byte>): (n: nat)
    ensures n <= |k| && ValidUpTo(k, n)
    ensures n < |k| ==> Inverse(k[n]) < 0
  {
    if k == [] || Inverse(k[0]) < 0 then 0
    else
      var n := ValidPrefix(k[1..]);
      assert forall i :: 0 < i < n + 1 ==> k[i] == k[1..][i - 1];
      1 + n
  }

  function Values(k: seq<byte>): (v: seq<nat>)
    requires AllValid(k)
    ensures |v| == |k|
    ensures forall i :: 0 <= i < |v| ==> v[i] == Inverse(k[i]) < 32
  {
    seq(|k|, i requires 0 <= i < |k| => Inverse(k[i]))
  }

  /** The complete bytes in a string of valid characters. */
  function BytesOf(k: seq<byte>): (d: seq<byte>)
    requires AllValid(k)
    ensures |d| == 5 * |k| / 8
  {
    FlatLength(Values(k), 5);
    ChunkLength(Flat(Values(k), 5), 8);
    Pow2Small();
    Chunk(Flat(Values(k), 5), 8)
  }

  /** What decoding src returns when the destination never runs out. */
  function Decoded(src: seq<byte>): Result<seq<byte>> {
    var k := Kept(src);
    if AllValid(k) then Ok(BytesOf(k)) else Err(ErrInvalidSecret)
  }

  /** The count or error returned for a destination of cap bytes: whichever of the two errors
      the scan meets first wins. */
  function Outcome(src: seq<byte>, cap: nat): Result<nat> {
    var k := Kept(src);
    var n := ValidPrefix(k);
    if 5 * n / 8 > cap then Err(ErrDstTooSmall)
    else if n < |k| then Err(ErrInvalidSecret)
    else Ok(5 * n / 8)
  }

  /** The bytes stored in the destination, also when an error is returned. */
  function Written(src: seq<byte>, cap: nat): (w: seq<byte>)
    ensures |w| <= cap
  {
    var k := Kept(src);
    var d := BytesOf(k[..ValidPrefix(k)]);
    if |d| <= cap then d else d[..cap]
  }

  // ---------- the decoder ----------

  /** The first loop of the decoder. */
  method StripSeparators(src: seq<byte>) returns (buf: seq<byte>)
    ensures buf == Kept(src)
  {
    buf := [];
    for i := 0 to |src|
      invariant buf == Kept(src[..i])
    {
      assert src[..i + 1][..i] == src[..i];
      var c := src[i];
      if IsSeparator(c) {
        continue;
      }
      buf := buf + [c];
    }
    assert src[..|src|] == src;
  }

  method DecodeBase32(dst: array<byte>, src: seq<byte>) returns (r: Result<nat>)
    modifies dst
    ensures r == Outcome(src, dst.Length)
    ensures dst[..|Written(src, dst.Length)|] == Written(src, dst.Length)
    ensures forall j :: |Written(src, dst.Length)| <= j < dst.Length ==> dst[j] == old(dst[j])
  {
    hide Outcome, Written, Consumed, Kept, Or, And, Shl, Shr;
    var buf := StripSeparators(src);
    NothingConsumed(buf);
    if |buf| == 0 {
      AllConsumed([], 0, 0, src, 0, dst.Length);
      return Ok(0);
    }
    var dstIdx: nat, buffer: uint64, bitsLeft: nat := 0, 0, 0;
    var i := 0;
    while i < |buf|
      invariant i <= |buf| && dstIdx <= dst.Length && bitsLeft < 8
      invariant Consumed(dst[..dstIdx], buffer, bitsLeft, buf, i)
      invariant forall j :: dstIdx <= j < dst.Length ==> dst[j] == old(dst[j])
    {
      var val := Inverse(buf[i]);
      if val < 0 {
        AllConsumed(dst[..dstIdx], buffer, bitsLeft, src, i, dst.Length);
        return Err(ErrInvalidSecret);
      }
      PushGroup(dst[..dstIdx], buffer, bitsLeft, buf, i);
      buffer := Or(Shl64(buffer, 5), val);
      bitsLeft := bitsLeft + 5;
      i := i + 1;
      if bitsLeft >= 8 {
        bitsLeft := bitsLeft - 8;
        if dstIdx >= dst.Length {
          Truncated(dst[..dstIdx], buffer, bitsLeft + 8, src, i);
          return Err(ErrDstTooSmall);
        }
        dstIdx := StoreByte(dst, dstIdx, buffer, bitsLeft, buf, i);
      }
    }
    AllConsumed(dst[..dstIdx], buffer, bitsLeft, src, i, dst.Length);
    return Ok(dstIdx);
  }

  /** The store at the end of the decoder's loop body. */
  method StoreByte(dst: array<byte>, dstIdx: nat, buffer: uint64, bitsLeft: nat, ghost k: seq<byte>, ghost n: nat)
    returns (next: nat)
    requires dstIdx < dst.Length && Consumed(dst[..dstIdx], buffer, bitsLeft + 8, k, n)
    modifies dst
    ensures next == dstIdx + 1 && Consumed(dst[..next], buffer, bitsLeft, k, n)
    ensures forall j :: next <= j < dst.Length ==> dst[j] == old(dst[j])
  {
    PopByte(dst[..dstIdx], buffer, bitsLeft, k, n);
    var v := And(Shr(buffer, bitsLeft), 0xff);
    ghost var before := dst[..dstIdx];
    dst[dstIdx] := v;
    next := dstIdx + 1;
    assert dst[..next] == before + [v];
  }

  /** The bytes stored and the pending bits are together the bits of the characters read. */
  ghost predicate Consumed(d: seq<byte>, buffer: nat, left: nat, k: seq<byte>, n: nat) {
    n <= |k| && ValidUpTo(k, n) && Flat(d, 8) + BitsOf(buffer, left) == Flat(Values(k[..n]), 5)
  }

  /** Shifting in a group of five bits appends it to the pending bits, although the 64-bit
      accumulator drops its high bits. */
  lemma PushGroup(d: seq<byte>, buffer: uint64, left: nat, k: seq<byte>, i: nat)
    requires left < 8 && i < |k| && Inverse(k[i]) >= 0 && Consumed(d, buffer, left, k, i)
    ensures Or(Shl64(buffer, 5), Inverse(k[i])) < TWO_64
    ensures Consumed(d, Or(Shl64(buffer, 5), Inverse(k[i])), left + 5, k, i + 1)
  {
    hide Flat, BitsOf, Or, Low, Shl, Pow2;
    var val := Inverse(k[i]);
    PushBits(buffer, left, val);
    var vals := Values(k[..i]);
    FlatSnoc(vals, val, 5);
    assert Values(k[..i + 1]) == vals + [val];
    assert Flat(d, 8) + (BitsOf(buffer, left) + BitsOf(val, 5)) == Flat(vals, 5) + BitsOf(val, 5);
  }

  lemma PushBits(buffer: uint64, left: nat, val: nat)
    requires left < 8 && val < 32
    ensures Or(Shl64(buffer, 5), val) < TWO_64
    ensures BitsOf(Or(Shl64(buffer, 5), val), left + 5) == BitsOf(buffer, left) + BitsOf(val, 5)
  {
    hide BitsOf, Or, Low, Shl, Pow2;
    Pow2Small();
    Pow2Words();
    Low64(Shl(buffer, 5));
    ShlWraps(buffer, 5, 64);
    var low := Low(buffer, 59);
    OrDisjoint(val, low, 5);
    OrBounds(Shl(low, 5), val, 64);
    BitsJoin(low, val, left, 5);
    BitsOfLow(buffer, left, 59);
  }

  /** Storing (buffer >> left) & 0xff moves the oldest eight pending bits to the destination. */
  lemma PopByte(d: seq<byte>, buffer: nat, left: nat, k: seq<byte>, n: nat)
    requires Consumed(d, buffer, left + 8, k, n)
    ensures And(Shr(buffer, left), 0xff) < 256
    ensures Consumed(d + [And(Shr(buffer, left), 0xff)], buffer, left, k, n)
  {
    hide Flat, BitsOf, And, Low, Shr, Pow2, Values;
    Pow2Small();
    var v := And(Shr(buffer, left), 0xff);
    AndMask(Shr(buffer, left), 8);
    LowBound(Shr(buffer, left), 8);
    BitsSplit(buffer, 8, left);
    BitsOfLow(Shr(buffer, left), 8, 8);
    FlatSnoc(d, v, 8);
    assert Flat(d + [v], 8) + BitsOf(buffer, left) == Flat(d, 8) + (BitsOf(v, 8) + BitsOf(buffer, left));
  }

  lemma NothingConsumed(k: seq<byte>)
    ensures Consumed([], 0, 0, k, 0)
  {
  }

  /** The scan ends at the first invalid character, or at the end. */
  lemma AllConsumed(d: seq<byte>, buffer: nat, left: nat, src: seq<byte>, n: nat, cap: nat)
    requires left < 8 && Consumed(d, buffer, left, Kept(src), n) && |d| <= cap
    requires n < |Kept(src)| ==> Inverse(Kept(src)[n]) < 0
    ensures Outcome(src, cap) == (if n < |Kept(src)| then Err(ErrInvalidSecret) else Ok(|d|))
    ensures Written(src, cap) == d
  {
    hide Flat, Chunk, BitsOf, Pow2, Kept;
    PrefixReached(Kept(src), n);
    Pow2Small();
    ChunkFlat(d, 8, BitsOf(buffer, left));
    assert BytesOf(Kept(src)[..n]) == d;
  }

  /** When the destination is full and a byte is pending, what was stored is a strict prefix. */
  lemma Truncated(d: seq<byte>, buffer: nat, left: nat, src: seq<byte>, n: nat)
    requires 8 <= left < 16 && Consumed(d, buffer, left, Kept(src), n)
    ensures Outcome(src, |d|) == Err(ErrDstTooSmall) && Written(src, |d|) == d
  {
    hide Flat, Chunk, BitsOf, Pow2, Kept;
    var k := Kept(src);
    assert n <= ValidPrefix(k);
    var vals := Values(k[..ValidPrefix(k)]);
    assert vals[..n] == Values(k[..n]);
    FlatLength(vals[..n], 5);
    FlatLength(d, 8);
    FlatPrefix(vals, n, 5);
    Pow2Small();
    ChunkPrefix(d, 8, Flat(vals, 5));
  }

  lemma PrefixReached(k: seq<byte>, n: nat)
    requires n <= |k| && ValidUpTo(k, n) && (n < |k| ==> Inverse(k[n]) < 0)
    ensures ValidPrefix(k) == n
  {
  }

  // ---------- what the decoder computes ----------

  /** With a destination of len*5/8+1 bytes the buffer is never too small, and the outcome is
      the decoded bytes or the invalid-secret error. */
  lemma BufferSuffices(src: seq<byte>, cap: nat)
    requires cap >= |src| * 5 / 8 + 1
    ensures Outcome(src, cap) == (match Decoded(src) case Ok(d) => Ok(|d|) case Err(e) => Err(e))
    ensures Decoded(src).Ok? ==> Written(src, cap) == Decoded(src).value
  {
    KeptLength(src);
    var k := Kept(src);
    var n := ValidPrefix(k);
    assert k[..|k|] == k;
    if AllValid(k) {
      PrefixReached(k, |k|);
    } else {
      assert n < |k|;
    }
  }

  /** For all-valid input of m kept characters: the count is floor(5m/8), and
      ErrDstTooSmall occurs exactly when that exceeds the buffer. */
  lemma TooSmallExactly(src: seq<byte>, cap: nat)
    requires AllValid(Kept(src))
    ensures Outcome(src, cap) == if 5 * |Kept(src)| / 8 > cap then Err(ErrDstTooSmall) else Ok(5 * |Kept(src)| / 8)
  {
    assert Kept(src)[..|Kept(src)|] == Kept(src);
    PrefixReached(Kept(src), |Kept(src)|);
  }

  /** The decoder drops exactly space, hyphen, equals sign and the ASCII control spaces. */
  lemma SeparatorsAre(a: seq<byte>, c: byte, b: seq<byte>)
    ensures Kept(a + [c] + b) ==
            Kept(a) + (if c in {0x20, 0x2D, 0x3D, 0x09, 0x0A, 0x0B, 0x0C, 0x0D} then [] else [c]) + Kept(b)
    ensures Kept([]) == []
  {
    KeptJoin(a + [c], b);
    KeptJoin(a, [c]);
    assert [c][..0] == [];
  }

  lemma {:induction false} KeptJoin(a: seq<byte>, b: seq<byte>)
    ensures Kept(a + b) == Kept(a) + Kept(b)
  {
    if b == [] {
      assert a + b == a;
    } else {
      var front := b[..|b| - 1];
      KeptJoin(a, front);
      assert (a + b)[..|a + b| - 1] == a + front;
    }
  }

  /** The alphabet of section 6 of RFC 4648, in either case; other ASCII is rejected, and bytes
      outside ASCII have the table's zero value. */
  lemma TableIs(c: byte)
    ensures 'A' as int <= c <= 'Z' as int ==> Inverse(c) == c - 'A' as int && Digit(Inverse(c)) == c
    ensures 'a' as int <= c <= 'z' as int ==> Inverse(c) == c - 'a' as int
    ensures '2' as int <= c <= '7' as int ==> Inverse(c) == 26 + c - '2' as int && Digit(Inverse(c)) == c
    ensures c >= 0x80 ==> Inverse(c) == 0
    ensures Inverse(c) >= 0 <==>
            'A' as int <= c <= 'Z' as int || 'a' as int <= c <= 'z' as int || '2' as int <= c <= '7' as int || c >= 0x80
  {
  }

  /** Decoding is base conversion: the characters are the digits of a number in base 32, most
      significant first, and the bytes its digits in base 256, short of the bits that do not
      fill a byte. */
  lemma DecodingConverts(k: seq<byte>)
    requires AllValid(k)
    ensures |BytesOf(k)| == 5 * |k| / 8
    ensures Number(BytesOf(k), 0x100) == Number(Values(k), 32) / Pow2(5 * |k| % 8)
  {
    hide Flat, Chunk, Pow2, Number, Values, ValueOf;
    var v, d := Values(k), BytesOf(k);
    var bits := Flat(v, 5);
    Pow2Small();
    FlatLength(v, 5);
    FlatLength(d, 8);
    FlatChunk(bits, 8);
    var rest := bits[8 * |d|..];
    assert bits == Flat(d, 8) + rest;
    ValueConcat(Flat(d, 8), rest);
    ValueBound(rest);
    FlatIsNumber(v, 5);
    FlatIsNumber(d, 8);
    ModUnique(Number(v, 32), Pow2(|rest|), Number(d, 0x100), ValueOf(rest));
  }

  /** Which error: the scan stops at the first character outside the table, or once the complete
      bytes before it exceed the destination. */
  lemma FirstErrorWins(src: seq<byte>, cap: nat, n: nat)
    requires var k := Kept(src); n <= |k| && (n < |k| ==> Inverse(k[n]) < 0)
    requires forall i :: 0 <= i < n ==> Inverse(Kept(src)[i]) >= 0
    ensures Outcome(src, cap) ==
            if 5 * n / 8 > cap then Err(ErrDstTooSmall)
            else if n < |Kept(src)| then Err(ErrInvalidSecret) else Ok(5 * n / 8)
    ensures Written(src, cap) == var d := BytesOf(Kept(src)[..n]); if |d| <= cap then d else d[..cap]
  {
    hide Kept;
    PrefixReached(Kept(src), n);
  }

  function Upper(c: byte): byte {
    if 0x61 <= c <= 0x7A then c - 0x20 else c
  }

  /** src spells the text e in any letter case, with any stripped separators interspersed. */
  predicate Spells(src: seq<byte>, e: seq<byte>) {
    |Kept(src)| == |e| && forall i :: 0 <= i < |e| ==> Upper(Kept(src)[i]) == e[i]
  }

  lemma DigitInverse(v: nat, c: byte)
    requires v < 32 && Upper(c) == Digit(v)
    ensures Inverse(c) == v
  {
  }

  /** The groups hold all the bits of the data, then the padding. */
  lemma GroupsFlat(data: seq<byte>)
    ensures Flat(Groups(data), 5) == PaddedBits(data)
  {
    hide Flat, Chunk, Pow2;
    FlatLength(data, 8);
    FlatLength(Groups(data), 5);
    FlatChunk(PaddedBits(data), 5);
  }

  lemma GroupsDecode(data: seq<byte>, k: seq<byte>)
    requires AllValid(k) && Values(k) == Groups(data)
    ensures BytesOf(k) == data
  {
    hide Flat, Chunk, Pow2;
    FlatLength(data, 8);
    Pow2Small();
    GroupsFlat(data);
    ChunkFlat(data, 8, Zeros(PaddingLength(8 * |data|)));
  }

  /** Round trip: any spelling of the encoding of data decodes to exactly data. */
  lemma EncodeDecode(data: seq<byte>, src: seq<byte>)
    requires Spells(src, EncodeBase32(data))
    ensures Decoded(src) == Ok(data)
  {
    var k, g := Kept(src), Groups(data);
    forall i | 0 <= i < |k| ensures Inverse(k[i]) == g[i] {
      DigitInverse(g[i], k[i]);
    }
    assert Values(k) == g;
    GroupsDecode(data, k);
  }

  // ---------- canonical secrets ----------

  predicate InAlphabet(c: byte) {
    0x41 <= c <= 0x5A || 0x32 <= c <= 0x37
  }

  /** A check on the text alone: alphabet characters only, a length that leaves fewer than five
      spare bits, and all spare bits zero. */
  predicate IsCanonical(s: seq<byte>) {
    && (forall i :: 0 <= i < |s| ==> InAlphabet(s[i]))
    && 5 * |s| % 8 < 5
    && (s != [] ==> Low(Inverse(s[|s| - 1]), 5 * |s| % 8) == 0)
  }

  lemma {:induction false} KeptOfAlphabet(s: seq<byte>)
    requires forall i :: 0 <= i < |s| ==> InAlphabet(s[i])
    ensures Kept(s) == s && AllValid(s)
  {
    if s != [] {
      KeptOfAlphabet(s[..|s| - 1]);
      assert s == s[..|s| - 1] + [s[|s| - 1]];
    }
  }

  /** Every encoding passes the check, and decodes to its data. */
  lemma EncodingIsCanonical(data: seq<byte>)
    ensures IsCanonical(EncodeBase32(data)) && Decoded(EncodeBase32(data)) == Ok(data)
  {
    hide Groups, Kept, Low;
    var s, g := EncodeBase32(data), Groups(data);
    forall i | 0 <= i < |s| ensures InAlphabet(s[i]) && Inverse(s[i]) == g[i] && Upper(s[i]) == s[i] {
      DigitInverse(g[i], s[i]);
    }
    KeptOfAlphabet(s);
    EncodeDecode(data, s);
    SpareBitsZero(data);
  }

  lemma SpareBitsZero(data: seq<byte>)
    ensures var g := Groups(data);
            5 * |g| % 8 < 5 && (g != [] ==> Low(g[|g| - 1], 5 * |g| % 8) == 0)
  {
    hide Flat, Chunk, BitsOf, Low, Groups;
    var g := Groups(data);
    var z := PaddingLength(8 * |data|);
    assert 5 * |g| % 8 == z;
    if g != [] {
      var bits, last := PaddedBits(data), g[|g| - 1];
      FlatLength(data, 8);
      GroupsFlat(data);
      FlatSnoc(g[..|g| - 1], last, 5);
      assert g == g[..|g| - 1] + [last];
      assert BitsOf(last, 5)[5 - z..] == bits[8 * |data|..] == Zeros(z);
      ZeroTail(last, 5, z);
    }
  }

  /** The check is exact: a text that passes it decodes, and encoding the bytes gives the text back. */
  lemma DecodeEncode(s: seq<byte>)
    requires IsCanonical(s)
    ensures Decoded(s).Ok? && EncodeBase32(Decoded(s).value) == s
    ensures Decoded(s).value == [] <==> s == []
  {
    hide Flat, Chunk, Low, Kept;
    KeptOfAlphabet(s);
    SpareIsPadding(s);
    var d, v := BytesOf(s), Values(s);
    Pow2Small();
    ChunkFlat(v, 5, []);
    assert Flat(v, 5) + [] == Flat(v, 5);
    assert Groups(d) == v;
    assert forall i :: 0 <= i < |s| ==> EncodeBase32(d)[i] == s[i];
  }

  lemma SpareIsPadding(s: seq<byte>)
    requires IsCanonical(s) && AllValid(s)
    ensures PaddedBits(BytesOf(s)) == Flat(Values(s), 5)
  {
    hide Flat, Chunk, BitsOf, Low, Zeros;
    var v, d := Values(s), BytesOf(s);
    var bits := Flat(v, 5);
    FlatLength(v, 5);
    FlatLength(d, 8);
    FlatChunk(bits, 8);
    var z := 5 * |s| % 8;
    PaddingFits(|s|, |d|);
    var spare := bits[8 * |d|..];
    assert |spare| == z;
    if s == [] {
      assert spare == Zeros(0);
    } else {
      var last := v[|v| - 1];
      assert v == v[..|v| - 1] + [last];
      FlatSnoc(v[..|v| - 1], last, 5);
      ZeroTail(last, 5, z);
      assert spare == BitsOf(last, 5)[5 - z..];
    }
    assert bits == Flat(d, 8) + spare;
  }

  lemma PaddingFits(n: nat, m: nat)
    requires m == 5 * n / 8 && 5 * n % 8 < 5
    ensures PaddingLength(8 * m) == 5 * n % 8
  {
  }

  /** Text outside the alphabet is meant to be rejected (tests/base32_test.go). The decoder
      rejects exactly the kept bytes below 0x80 that are no Base32 letter or digit: one high
      byte anywhere is read as the letter 'A'. */
  lemma RejectedExactly(src: seq<byte>)
    ensures Decoded(src) == Err(ErrInvalidSecret) <==>
            exists i :: 0 <= i < |Kept(src)| && Kept(src)[i] < 0x80 && !InAlphabet(Upper(Kept(src)[i]))
    ensures Decoded(src) == Err(ErrInvalidSecret) ||
            forall k | Kept(k) == MapHigh(Kept(src)) :: Decoded(k) == Decoded(src)
  {
    var k := Kept(src);
    assert forall c: byte :: Inverse(c) < 0 <==> c < 0x80 && !InAlphabet(Upper(c));
    if AllValid(k) {
      assert Values(MapHigh(k)) == Values(k);
    } else {
      var i :| 0 <= i < |k| && Inverse(k[i]) < 0;
      assert k[i] < 0x80 && !InAlphabet(Upper(k[i]));
    }
  }

  /** The text with every byte from 0x80 on replaced by 'A'. */
  function MapHigh(k: seq<byte>): (t: seq<byte>)
    ensures |t| == |k|
  {
    seq(|k|, i requires 0 <= i < |k| => if k[i] >= 0x80 then 0x41 else k[i])
  }

  /** Concretely, any two bytes outside ASCII, such as those of U+00E9, decode to one zero byte
      instead of an error. */
  lemma HighBytesAccepted(a: byte, b: byte)
    requires a >= 0x80 && b >= 0x80
    ensures Decoded([a, b]) == Ok([0])
  {
    hide Kept, Flat;
    var s: seq<byte> := [a, b];
    KeptTwo(s);
    NothingConsumed(s);
    Pow2Small();
    PushZero([], 0, s, 0);
    PushZero([], 5, s, 1);
    PopByte([], 0, 2, s, 2);
    assert And(Shr(0, 2), 0xff) == 0 && [] + [0] == [0];
    AllConsumed([0], 0, 2, s, 2, 1);
    assert s[..2] == s;
  }

  lemma KeptTwo(s: seq<byte>)
    requires |s| == 2 && !IsSeparator(s[0]) && !IsSeparator(s[1])
    ensures Kept(s) == s
  {
    assert s[..1] == [s[0]] && s[..1][..0] == [];
    assert Kept([s[0]]) == [s[0]];
    assert s == [s[0]] + [s[1]];
  }

  lemma PushZero(d: seq<byte>, left: nat, k: seq<byte>, i: nat)
    requires left < 8 && i < |k| && Inverse(k[i]) == 0 && Consumed(d, 0, left, k, i)
    ensures Consumed(d, 0, left + 5, k, i + 1)
  {
    hide Consumed;
    ShlZero(5);
    PushGroup(d, 0, left, k, i);
  }
}
