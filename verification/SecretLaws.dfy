/** What normalising a secret does to what the Base32 decoder makes of it. */
module SecretLaws {
  import opened Wrappers
  import opened Words
  import opened Utf8
  import opened AccountCodec
  import opened Base32

  /** A rune of white space outside ASCII, which normalising strips and the decoder does not. */
  predicate IsWideSpace(r: seq<byte>) {
    |r| > 1 && IsSpace(r)
  }

  /** Valid UTF-8 without white space outside ASCII. */
  predicate Plain(s: seq<byte>) {
    s == [] ||
    var n := RuneLength(s);
    n > 0 && !IsWideSpace(s[..n]) && Plain(s[n..])
  }

  /** Reading s rune by rune meets no white space outside ASCII. */
  predicate NoWideSpace(s: seq<byte>) {
    s == [] ||
    var n := RuneLength(s);
    if n == 0 then NoWideSpace(s[1..]) else !IsWideSpace(s[..n]) && NoWideSpace(s[n..])
  }

  lemma {:induction false} KeptConcat(a: seq<byte>, b: seq<byte>)
    ensures Kept(a + b) == Kept(a) + Kept(b)
  {
    if b == [] {
      assert a + b == a;
    } else {
      var front := b[..|b| - 1];
      KeptConcat(a, front);
      assert (a + b)[..|a + b| - 1] == a + front;
    }
  }

  lemma KeptOne(c: byte)
    ensures Kept([c]) == if IsSeparator(c) then [] else [c]
  {
    assert [c][..0] == [];
  }

  /** The decoder strips ASCII only, so a longer rune is kept whole. */
  lemma {:induction false} KeptWide(r: seq<byte>)
    requires forall i :: 0 <= i < |r| ==> r[i] >= 0x80
    ensures Kept(r) == r
  {
    if r != [] {
      KeptWide(r[..|r| - 1]);
      assert r == r[..|r| - 1] + [r[|r| - 1]];
    }
  }

  lemma RuneIsWide(s: seq<byte>)
    requires RuneLength(s) != 1
    ensures forall i :: 0 <= i < RuneLength(s) ==> s[i] >= 0x80
    ensures forall i :: 1 <= i < RuneLength(s) ==> IsContinuation(s[i])
    ensures s != [] && RuneLength(s) == 0 ==> s[0] >= 0x80
  {
  }

  /** What the decoder keeps of a text, rune by rune. */
  lemma KeptRune(s: seq<byte>)
    requires s != []
    ensures var n := RuneLength(s);
            && (n == 0 ==> Kept(s) == [s[0]] + Kept(s[1..]))
            && (n == 1 ==> Kept(s) == (if IsSeparator(s[0]) then [] else [s[0]]) + Kept(s[1..]))
            && (n > 1 ==> Kept(s) == s[..n] + Kept(s[n..]))
  {
    hide Kept, IsSeparator, RuneLength;
    var n := RuneLength(s);
    if n > 1 {
      RuneIsWide(s);
      KeptConcat(s[..n], s[n..]);
      KeptWide(s[..n]);
      assert s == s[..n] + s[n..];
    } else {
      KeptConcat([s[0]], s[1..]);
      KeptOne(s[0]);
      assert s == [s[0]] + s[1..];
      if n == 0 {
        RuneIsWide(s);
        HighIsKept(s[0]);
      }
    }
  }

  lemma HighIsKept(c: byte)
    requires c >= 0x80
    ensures !IsSeparator(c)
  {
  }

  /** And what it keeps of the normalised text. */
  lemma KeptNormalized(s: seq<byte>)
    requires s != []
    ensures var n := RuneLength(s);
            && (n == 0 ==> Kept(NormalizeSecret(s)) == REPLACEMENT + Kept(NormalizeSecret(s[1..])))
            && (n == 1 ==> Kept(NormalizeSecret(s)) ==
                           (if IsSeparator(s[0]) then [] else [s[0]]) + Kept(NormalizeSecret(s[1..])))
            && (n > 1 ==> Kept(NormalizeSecret(s)) ==
                          (if IsWideSpace(s[..n]) then [] else s[..n]) + Kept(NormalizeSecret(s[n..])))
  {
    hide Kept, RuneLength;
    var n := RuneLength(s);
    var rest := NormalizeSecret(if n == 0 then s[1..] else s[n..]);
    if n == 0 {
      KeptConcat(REPLACEMENT, rest);
      KeptWide(REPLACEMENT);
    } else {
      KeptConcat(s[..n], rest);
      if n > 1 {
        RuneIsWide(s);
        KeptWide(s[..n]);
      } else {
        KeptOne(s[0]);
        assert s[..1] == [s[0]];
      }
    }
  }

  lemma {:induction false} PlainIsKept(s: seq<byte>)
    requires Plain(s)
    ensures Kept(NormalizeSecret(s)) == Kept(s)
  {
    hide Kept, NormalizeSecret, RuneLength, IsSpace;
    if s != [] {
      PlainIsKept(s[RuneLength(s)..]);
      KeptRune(s);
      KeptNormalized(s);
    } else {
      assert NormalizeSecret([]) == [] by { NormalizeNothing(); }
    }
  }

  lemma NormalizeNothing()
    ensures NormalizeSecret([]) == []
  {
  }

  /** Without wide spaces normalising only adds, two bytes for every invalid one. */
  lemma {:induction false} NormalizeAdds(s: seq<byte>)
    requires NoWideSpace(s)
    ensures |Kept(NormalizeSecret(s))| >= |Kept(s)|
    ensures |Kept(NormalizeSecret(s))| == |Kept(s)| ==> Plain(s)
  {
    hide Kept, NormalizeSecret, RuneLength, IsSpace;
    if s != [] {
      var n := RuneLength(s);
      NormalizeAdds(if n == 0 then s[1..] else s[n..]);
      KeptRune(s);
      KeptNormalized(s);
    } else {
      NormalizeNothing();
    }
  }

  /** No suffix of s starts with a wide space. */
  ghost predicate NowhereWide(s: seq<byte>) {
    forall i :: 0 <= i <= |s| ==> !IsWideSpace(s[i..][..RuneLength(s[i..])])
  }

  /** A plain text has no wide space at any byte, because no rune's later bytes start one. */
  lemma {:induction false} PlainNowhereWide(s: seq<byte>)
    requires Plain(s)
    ensures NowhereWide(s)
  {
    hide RuneLength, IsSpace;
    if s == [] {
      assert s[0..] == [];
    } else {
      var n := RuneLength(s);
      PlainNowhereWide(s[n..]);
      forall i | 0 <= i <= |s| ensures !IsWideSpace(s[i..][..RuneLength(s[i..])]) {
        if i == 0 {
          assert s[0..] == s;
        } else if i < n {
          RuneIsWide(s);
          ContinuationIsNoRune(s[i..]);
        } else {
          assert s[i..] == s[n..][i - n..];
        }
      }
    }
  }

  lemma ContinuationIsNoRune(s: seq<byte>)
    requires s != [] && IsContinuation(s[0])
    ensures RuneLength(s) == 0
  {
  }

  lemma NowhereWideTail(s: seq<byte>, n: nat)
    requires n <= |s| && NowhereWide(s)
    ensures NowhereWide(s[n..])
  {
    hide RuneLength, IsSpace;
    forall i | 0 <= i <= |s| - n ensures !IsWideSpace(s[n..][i..][..RuneLength(s[n..][i..])]) {
      assert s[n..][i..] == s[n + i..];
    }
  }

  lemma {:induction false} KeptNowhereWide(s: seq<byte>)
    requires NowhereWide(Kept(s))
    ensures NoWideSpace(s)
  {
    hide Kept, RuneLength, IsSpace;
    if s != [] {
      var n, k := RuneLength(s), Kept(s);
      var rest := if n == 0 then s[1..] else s[n..];
      KeptRune(s);
      assert k[|k| - |Kept(rest)|..] == Kept(rest);
      NowhereWideTail(k, |k| - |Kept(rest)|);
      KeptNowhereWide(rest);
      if n > 1 {
        RuneAgain(s, Kept(rest));
        assert k[0..] == k;
      }
    }
  }

  lemma RuneAgain(s: seq<byte>, t: seq<byte>)
    requires RuneLength(s) > 0
    ensures var r := s[..RuneLength(s)]; RuneLength(r + t) == |r| && (r + t)[..|r|] == r
  {
  }

  /** What is left of a normalised secret is plain. */
  lemma {:induction false} NormalizedIsPlain(s: seq<byte>)
    ensures Plain(Kept(NormalizeSecret(s)))
  {
    hide Kept, NormalizeSecret, RuneLength, IsSpace;
    if s == [] {
      NormalizeNothing();
      assert Kept([]) == [] by { KeptNothing(); }
    } else {
      var n := RuneLength(s);
      var rest := Kept(NormalizeSecret(if n == 0 then s[1..] else s[n..]));
      NormalizedIsPlain(if n == 0 then s[1..] else s[n..]);
      KeptNormalized(s);
      if n == 0 {
        ReplacementIsRune();
        PlainCons(REPLACEMENT, rest);
      } else if n == 1 {
        assert [] + rest == rest;
        AsciiIsRune(s);
        PlainCons([s[0]], rest);
      } else {
        assert [] + rest == rest;
        RuneAgain(s, []);
        assert s[..n] + [] == s[..n];
        if !IsWideSpace(s[..n]) {
          PlainCons(s[..n], rest);
        }
      }
    }
  }

  lemma KeptNothing()
    ensures Kept([]) == []
  {
  }

  lemma ReplacementIsRune()
    ensures RuneLength(REPLACEMENT) == 3 && !IsSpace(REPLACEMENT)
  {
  }

  lemma AsciiIsRune(s: seq<byte>)
    requires RuneLength(s) == 1
    ensures RuneLength([s[0]]) == 1
  {
  }

  lemma PlainCons(r: seq<byte>, s: seq<byte>)
    requires RuneLength(r) == |r| > 0 && !IsWideSpace(r) && Plain(s)
    ensures Plain(r + s)
  {
    hide IsSpace;
    RuneLocal(r, s);
    assert (r + s)[..|r|] == r && (r + s)[|r|..] == s;
  }

  /** Normalising a secret removes only characters the decoder skips anyway, if and only if the
      secret is valid UTF-8 without white space outside ASCII. */
  lemma NormalizeKeepsExactly(s: seq<byte>)
    ensures Kept(NormalizeSecret(s)) == Kept(s) <==> Plain(s)
    ensures Plain(s) ==> Decoded(NormalizeSecret(s)) == Decoded(s)
  {
    hide Kept, NormalizeSecret, NowhereWide, BytesOf;
    if Plain(s) {
      PlainIsKept(s);
    }
    if Kept(NormalizeSecret(s)) == Kept(s) {
      NormalizedIsPlain(s);
      PlainNowhereWide(Kept(s));
      KeptNowhereWide(s);
      NormalizeAdds(s);
    }
  }

  /** Normalising, rune by rune: equals signs and white space go, other runes stay, and a byte that
      starts no rune becomes U+FFFD. */
  lemma NormalizeRunes(r: seq<byte>, s: seq<byte>)
    requires r != []
    ensures RuneLength(r) == |r| ==>
              NormalizeSecret(r + s) == (if r == [0x3D] || IsSpace(r) then [] else r) + NormalizeSecret(s)
    ensures |r| == 1 && RuneLength(r + s) == 0 ==> NormalizeSecret(r + s) == Spelling(0xFFFD) + NormalizeSecret(s)
    ensures NormalizeSecret([]) == []
  {
    hide IsSpace;
    if RuneLength(r) == |r| {
      RuneLocal(r, s);
      assert (r + s)[..|r|] == r && (r + s)[|r|..] == s;
    }
    if |r| == 1 && RuneLength(r + s) == 0 {
      assert (r + s)[1..] == s;
    }
  }

  predicate ValidUtf8(s: seq<byte>) {
    s == [] || (RuneLength(s) > 0 && ValidUtf8(s[RuneLength(s)..]))
  }

  lemma ValidConcat(a: seq<byte>, b: seq<byte>)
    ensures AllValid(a + b) <==> AllValid(a) && AllValid(b)
  {
    var c := a + b;
    if AllValid(c) {
      assert forall i :: 0 <= i < |a| ==> a[i] == c[i];
      assert forall i :: 0 <= i < |b| ==> b[i] == c[|a| + i];
    }
  }

  /** The decoder's table rejects nothing outside ASCII. */
  lemma WideIsValid(r: seq<byte>)
    requires forall i :: 0 <= i < |r| ==> r[i] >= 0x80
    ensures AllValid(r)
  {
  }

  /** Normalising neither hides nor adds a character that the decoder rejects. */
  lemma {:induction false} NormalizeKeepsErrors(s: seq<byte>)
    ensures AllValid(Kept(NormalizeSecret(s))) <==> AllValid(Kept(s))
  {
    hide Kept, NormalizeSecret, RuneLength, IsSpace, AllValid;
    if s == [] {
      NormalizeNothing();
    } else {
      var n := RuneLength(s);
      var tail := if n == 0 then s[1..] else s[n..];
      NormalizeKeepsErrors(tail);
      KeptRune(s);
      KeptNormalized(s);
      if n != 1 {
        RuneIsWide(s);
      }
      var raw, clean := Kept(tail), Kept(NormalizeSecret(tail));
      WideIsValid([]);
      WideIsValid(REPLACEMENT);
      if n == 0 {
        WideIsValid([s[0]]);
        ValidConcat([s[0]], raw);
        ValidConcat(REPLACEMENT, clean);
      } else if n == 1 {
        var one := if IsSeparator(s[0]) then [] else [s[0]];
        ValidConcat(one, raw);
        ValidConcat(one, clean);
      } else {
        WideIsValid(s[..n]);
        ValidConcat(s[..n], raw);
        ValidConcat(s[..n], clean);
        ValidConcat([], clean);
      }
    }
  }

  /** In valid UTF-8 normalising only removes, and at least two bytes unless the text is plain. */
  lemma {:induction false} NormalizeShortens(s: seq<byte>)
    requires ValidUtf8(s)
    ensures |Kept(NormalizeSecret(s))| <= |Kept(s)|
    ensures Plain(s) || |Kept(NormalizeSecret(s))| + 2 <= |Kept(s)|
  {
    hide Kept, NormalizeSecret, RuneLength, IsSpace;
    if s == [] {
      NormalizeNothing();
    } else {
      NormalizeShortens(s[RuneLength(s)..]);
      KeptRune(s);
      KeptNormalized(s);
    }
  }

  /** For valid UTF-8, normalising changes what a secret decodes to if and only if the secret
      decodes at all and holds white space outside ASCII. */
  lemma DecodesSameExactly(s: seq<byte>)
    requires ValidUtf8(s)
    ensures Decoded(NormalizeSecret(s)) == Decoded(s) <==> Plain(s) || Decoded(s).Err?
  {
    hide Kept, NormalizeSecret, AllValid;
    NormalizeKeepsExactly(s);
    NormalizeKeepsErrors(s);
    NormalizeShortens(s);
  }

  /** In other texts the two may balance: here the white space is as long as what the invalid
      byte behind it grows by. */
  lemma BalancedSecret()
    ensures var s := [0xC2, 0xA0, 0xFF]; !Plain(s) && Decoded(NormalizeSecret(s)) == Decoded(s)
  {
    hide Kept, BytesOf;
    var s: seq<byte> := [0xC2, 0xA0, 0xFF];
    BalancedNormalized();
    KeptWide(s);
    KeptWide(REPLACEMENT);
    SameBytes(s, REPLACEMENT);
  }

  lemma BalancedNormalized()
    ensures var s := [0xC2, 0xA0, 0xFF]; !Plain(s) && NormalizeSecret(s) == REPLACEMENT
  {
    var s: seq<byte> := [0xC2, 0xA0, 0xFF];
    assert s[..2] == [0xC2, 0xA0] && s[2..] == [0xFF] && [0xFF][1..] == [];
    assert NormalizeSecret([0xFF]) == REPLACEMENT + NormalizeSecret([0xFF][1..]);
  }

  /** All bytes outside ASCII are the same letter to the decoder. */
  lemma SameBytes(a: seq<byte>, b: seq<byte>)
    requires |a| == |b| && forall i :: 0 <= i < |a| ==> a[i] >= 0x80 && b[i] >= 0x80
    ensures AllValid(a) && AllValid(b) && BytesOf(a) == BytesOf(b)
  {
    assert Values(a) == Values(b);
  }

  /** Concretely, a no-break space is a secret of one zero byte to the decoder, and no secret at
      all after normalising. */
  lemma NoBreakSpaceVanishes()
    ensures Decoded([0xC2, 0xA0]) == Ok([0]) && NormalizeSecret([0xC2, 0xA0]) == []
  {
    HighBytesAccepted(0xC2, 0xA0);
    var s: seq<byte> := [0xC2, 0xA0];
    assert RuneLength(s) == 2 && s[..2] == s && s[2..] == [];
  }
}
