/** Text as Go's standard library reads it: UTF-8 runes, white space and trimming. A string may
    hold any bytes; those that start no valid rune are read one at a time as U+FFFD. */
module Utf8 {
  import opened Words

  // ---------- runes ----------

  predicate IsContinuation(c: byte) {
    0x80 <= c < 0xC0
  }

  /** The length of the rune that s starts with, or 0 if its first byte starts none (the table of
      well-formed byte sequences of the Unicode standard). */
  function RuneLength(s: seq<byte>): (n: nat)
    ensures n <= |s|
  {
    if s == [] then 0
    else if s[0] < 0x80 then 1
    else if 0xC2 <= s[0] < 0xE0 && |s| >= 2 && IsContinuation(s[1]) then 2
    else if 0xE0 <= s[0] < 0xF0 && |s| >= 3 && IsContinuation(s[1]) && IsContinuation(s[2])
            && (s[0] == 0xE0 ==> s[1] >= 0xA0) && (s[0] == 0xED ==> s[1] < 0xA0) then 3
    else if 0xF0 <= s[0] < 0xF5 && |s| >= 4
            && IsContinuation(s[1]) && IsContinuation(s[2]) && IsContinuation(s[3])
            && (s[0] == 0xF0 ==> s[1] >= 0x90) && (s[0] == 0xF4 ==> s[1] < 0x90) then 4
    else 0
  }

  /** A rune is read the same whatever follows it. */
  lemma RuneLocal(r: seq<byte>, s: seq<byte>)
    requires RuneLength(r) > 0
    ensures RuneLength(r + s) == RuneLength(r)
  {
  }

  // ---------- white space ----------

  /** r is the spelling of a white-space rune: the six of ASCII, U+0085, U+00A0, U+1680, U+2000 to
      U+200A, U+2028, U+2029, U+202F, U+205F and U+3000. */
  predicate IsSpace(r: seq<byte>) {
    || (|r| == 1 && (r[0] == 0x20 || 0x09 <= r[0] <= 0x0D))
    || r == [0xC2, 0x85] || r == [0xC2, 0xA0]
    || r == [0xE1, 0x9A, 0x80] || r == [0xE2, 0x81, 0x9F] || r == [0xE3, 0x80, 0x80]
    || (|r| == 3 && r[0] == 0xE2 && r[1] == 0x80 &&
        (0x80 <= r[2] <= 0x8A || r[2] == 0xA8 || r[2] == 0xA9 || r[2] == 0xAF))
  }

  lemma SpaceIsRune(r: seq<byte>)
    requires IsSpace(r)
    ensures RuneLength(r) == |r|
  {
  }

  /** The length of the white-space rune that s starts with, or 0. */
  function LeadingSpace(s: seq<byte>): (n: nat)
    ensures n <= |s|
    ensures n > 0 <==> IsSpace(s[..RuneLength(s)])
    ensures n > 0 ==> n == RuneLength(s)
  {
    if IsSpace(s[..RuneLength(s)]) then RuneLength(s) else 0
  }

  /** The length of the white-space rune that s ends with, or 0. */
  function TrailingSpace(s: seq<byte>): (n: nat)
    ensures n <= |s|
    ensures n > 0 ==> IsSpace(s[|s| - n..])
  {
    if |s| >= 1 && IsSpace(s[|s| - 1..]) then 1
    else if |s| >= 2 && IsSpace(s[|s| - 2..]) then 2
    else if |s| >= 3 && IsSpace(s[|s| - 3..]) then 3
    else 0
  }

  /** A text that ends in the spelling of a space ends in that space. */
  lemma SpaceBack(s: seq<byte>, r: seq<byte>)
    requires IsSpace(r)
    ensures TrailingSpace(s + r) == |r|
  {
    var t := s + r;
    assert t[|s|..] == r;
    assert t[|t| - 1..][0] == r[|r| - 1];
    if |r| == 3 {
      assert t[|t| - 2..][0] == r[1] && t[|t| - 2..][1] == r[2];
    }
  }

  // ---------- trimming ----------

  function TrimLeft(s: seq<byte>): (t: seq<byte>)
    ensures |t| <= |s|
  {
    if LeadingSpace(s) > 0 then TrimLeft(s[LeadingSpace(s)..]) else s
  }

  function TrimRight(s: seq<byte>): (t: seq<byte>)
    ensures |t| <= |s|
  {
    if TrailingSpace(s) > 0 then TrimRight(s[..|s| - TrailingSpace(s)]) else s
  }

  /** strings.TrimSpace. */
  function TrimSpace(s: seq<byte>): (t: seq<byte>)
    ensures |t| <= |s|
  {
    TrimRight(TrimLeft(s))
  }

  predicate AllSpaces(s: seq<byte>) {
    s == [] || (LeadingSpace(s) > 0 && AllSpaces(s[LeadingSpace(s)..]))
  }

  lemma NothingIsAllSpaces()
    ensures AllSpaces([])
  {
  }

  lemma SpaceFront(r: seq<byte>, s: seq<byte>)
    requires IsSpace(r)
    ensures LeadingSpace(r + s) == |r|
  {
    SpaceIsRune(r);
    RuneLocal(r, s);
    assert (r + s)[..|r|] == r;
  }

  lemma SpacesCons(r: seq<byte>, s: seq<byte>)
    requires IsSpace(r) && AllSpaces(s)
    ensures AllSpaces(r + s)
  {
    SpaceFront(r, s);
    assert (r + s)[|r|..] == s;
  }

  lemma {:induction false} SpacesSnoc(s: seq<byte>, r: seq<byte>)
    requires AllSpaces(s) && IsSpace(r)
    ensures AllSpaces(s + r)
  {
    hide IsSpace, RuneLength;
    if s == [] {
      SpacesCons(r, []);
      assert s + r == r + [];
    } else {
      var n := LeadingSpace(s);
      SpacesSnoc(s[n..], r);
      SpacesCons(s[..n], s[n..] + r);
      assert s + r == s[..n] + (s[n..] + r);
    }
  }

  lemma {:induction false} TrimLeftMeans(s: seq<byte>)
    ensures var t := TrimLeft(s); |t| <= |s| && t == s[|s| - |t|..] && LeadingSpace(t) == 0
    ensures AllSpaces(s[..|s| - |TrimLeft(s)|])
  {
    hide IsSpace, RuneLength, AllSpaces, LeadingSpace;
    var n := LeadingSpace(s);
    if n == 0 {
      NothingIsAllSpaces();
      assert s[0..] == s && s[..0] == [];
    } else {
      TrimLeftMeans(s[n..]);
      var k := |s| - |TrimLeft(s)|;
      SpacesCons(s[..n], s[n..][..k - n]);
      assert s[..k] == s[..n] + s[n..][..k - n];
      assert s[n..][k - n..] == s[k..];
    }
  }

  lemma {:induction false} TrimRightMeans(s: seq<byte>)
    ensures var t := TrimRight(s); |t| <= |s| && t == s[..|t|] && TrailingSpace(t) == 0
    ensures AllSpaces(s[|TrimRight(s)|..])
  {
    hide IsSpace, RuneLength, AllSpaces, TrailingSpace;
    var n := TrailingSpace(s);
    if n == 0 {
      NothingIsAllSpaces();
      assert s[|s|..] == [];
    } else {
      var front := s[..|s| - n];
      TrimRightMeans(front);
      SpacesSnoc(front[|TrimRight(s)|..], s[|s| - n..]);
      assert s[|TrimRight(s)|..] == front[|TrimRight(s)|..] + s[|s| - n..];
    }
  }

  lemma NothingIsNoSpace()
    ensures !IsSpace([])
  {
  }

  lemma PrefixSpace(s: seq<byte>, k: nat)
    requires k <= |s| && LeadingSpace(s) == 0
    ensures LeadingSpace(s[..k]) == 0
  {
    hide IsSpace, RuneLength;
    var p := s[..k];
    assert s == p + s[k..];
    if RuneLength(p) > 0 {
      RuneLocal(p, s[k..]);
      assert p[..RuneLength(p)] == s[..RuneLength(s)];
    }
    assert p[..0] == [] && !IsSpace([]) by { NothingIsNoSpace(); }
  }

  /** Trimming cuts out a middle part of which no white-space spelling is a prefix or a suffix,
      and drops white space only. */
  lemma TrimMeans(s: seq<byte>) returns (lo: nat, hi: nat)
    ensures lo <= hi <= |s| && TrimSpace(s) == s[lo..hi]
    ensures forall r, x :: IsSpace(r) ==> r + x != s[lo..hi] && x + r != s[lo..hi]
    ensures AllSpaces(s[..lo]) && AllSpaces(s[hi..])
  {
    hide TrimLeft, TrimRight, IsSpace, RuneLength, LeadingSpace, TrailingSpace, AllSpaces;
    TrimLeftMeans(s);
    var t := TrimLeft(s);
    TrimRightMeans(t);
    lo := |s| - |t|;
    hi := lo + |TrimRight(t)|;
    PrefixSpace(t, hi - lo);
    assert s[hi..] == t[hi - lo..];
    assert s[lo..hi] == t[..hi - lo];
    forall r, x | IsSpace(r) ensures r + x != s[lo..hi] && x + r != s[lo..hi] {
      SpaceFront(r, x);
      SpaceBack(x, r);
      SpaceIsRune(r);
      assert r != [] by { NothingIsNoSpace(); }
    }
  }

  // ---------- code points ----------

  /** The UTF-8 spelling of a code point. */
  function Spelling(cp: nat): seq<byte>
    requires cp < 0x11_0000
  {
    if cp < 0x80 then [cp]
    else if cp < 0x800 then [0xC0 + cp / 0x40, 0x80 + cp % 0x40]
    else if cp < 0x1_0000 then [0xE0 + cp / 0x1000, 0x80 + cp / 0x40 % 0x40, 0x80 + cp % 0x40]
    else [0xF0 + cp / 0x4_0000, 0x80 + cp / 0x1000 % 0x40, 0x80 + cp / 0x40 % 0x40, 0x80 + cp % 0x40]
  }

  /** A code point that is no surrogate. */
  predicate IsScalar(cp: nat) {
    cp < 0x11_0000 && !(0xD800 <= cp < 0xE000)
  }

  /** The code point a spelling stands for. */
  function CodePoint(r: seq<byte>): (cp: nat)
    requires RuneLength(r) == |r| > 0
    ensures IsScalar(cp) && Spelling(cp) == r
  {
    if |r| == 1 then r[0]
    else if |r| == 2 then TwoBytes(r[0], r[1])
    else if |r| == 3 then ThreeBytes(r[0], r[1], r[2])
    else FourBytes(r[0], r[1], r[2], r[3])
  }

  function TwoBytes(a: byte, b: byte): (cp: nat)
    requires 0xC2 <= a < 0xE0 && IsContinuation(b)
    ensures IsScalar(cp) && Spelling(cp) == [a, b]
  {
    (a - 0xC0) * 0x40 + (b - 0x80)
  }

  function ThreeBytes(a: byte, b: byte, c: byte): (cp: nat)
    requires 0xE0 <= a < 0xF0 && IsContinuation(b) && IsContinuation(c)
    requires (a == 0xE0 ==> b >= 0xA0) && (a == 0xED ==> b < 0xA0)
    ensures IsScalar(cp) && Spelling(cp) == [a, b, c]
  {
    SixBits(0, a - 0xE0, b - 0x80, c - 0x80);
    (a - 0xE0) * 0x1000 + (b - 0x80) * 0x40 + (c - 0x80)
  }

  lemma SixBits(a: nat, b: nat, c: nat, d: nat)
    requires b < 0x40 && c < 0x40 && d < 0x40
    ensures var cp := a * 0x4_0000 + b * 0x1000 + c * 0x40 + d;
            && cp % 0x40 == d && cp / 0x40 == a * 0x1000 + b * 0x40 + c
            && cp / 0x40 % 0x40 == c && cp / 0x1000 == a * 0x40 + b
            && cp / 0x1000 % 0x40 == b && cp / 0x4_0000 == a
  {
    var cp := a * 0x4_0000 + b * 0x1000 + c * 0x40 + d;
    ModUnique(cp, 0x40, a * 0x1000 + b * 0x40 + c, d);
    ModUnique(cp / 0x40, 0x40, a * 0x40 + b, c);
    ModUnique(cp, 0x1000, a * 0x40 + b, c * 0x40 + d);
    ModUnique(a * 0x40 + b, 0x40, a, b);
    ModUnique(cp, 0x4_0000, a, b * 0x1000 + c * 0x40 + d);
  }

  function FourBytes(a: byte, b: byte, c: byte, d: byte): (cp: nat)
    requires 0xF0 <= a < 0xF5 && IsContinuation(b) && IsContinuation(c) && IsContinuation(d)
    requires (a == 0xF0 ==> b >= 0x90) && (a == 0xF4 ==> b < 0x90)
    ensures IsScalar(cp) && Spelling(cp) == [a, b, c, d]
  {
    SixBits(a - 0xF0, b - 0x80, c - 0x80, d - 0x80);
    (a - 0xF0) * 0x4_0000 + (b - 0x80) * 0x1000 + (c - 0x80) * 0x40 + (d - 0x80)
  }

  /** A rune is read exactly where the spelling of a code point that is no surrogate stands. */
  lemma RunesAreSpellings(s: seq<byte>)
    ensures RuneLength(s) > 0 ==> IsScalar(CodePoint(FirstRune(s))) && Spelling(CodePoint(FirstRune(s))) <= s
    ensures forall cp :: IsScalar(cp) && Spelling(cp) <= s ==> RuneLength(s) == |Spelling(cp)|
  {
    forall cp | IsScalar(cp) && Spelling(cp) <= s ensures RuneLength(s) == |Spelling(cp)| {
      SpellingIsRune(cp);
      RuneLocal(Spelling(cp), s[|Spelling(cp)|..]);
      assert s == Spelling(cp) + s[|Spelling(cp)|..];
    }
  }

  function FirstRune(s: seq<byte>): (r: seq<byte>)
    requires RuneLength(s) > 0
    ensures RuneLength(r) == |r| > 0 && r <= s
  {
    s[..RuneLength(s)]
  }

  lemma SpellingIsRune(cp: nat)
    requires IsScalar(cp)
    ensures RuneLength(Spelling(cp)) == |Spelling(cp)|
  {
  }

  /** White space is the Unicode property White_Space, which isWhitespace lists. */
  lemma SpacesAre(cp: nat)
    requires IsScalar(cp)
    ensures IsSpace(Spelling(cp)) <==>
            0x09 <= cp <= 0x0D || cp == 0x20 || cp == 0x85 || cp == 0xA0 || cp == 0x1680 ||
            0x2000 <= cp <= 0x200A || cp == 0x2028 || cp == 0x2029 || cp == 0x202F || cp == 0x205F || cp == 0x3000
  {
  }
}
