/** Numbers as strings of bits, most significant bit first: the vocabulary in which
    section 6 of RFC 4648 describes Base32. */
module BitStrings {
  import opened Words

  /** The low n bits of v. */
  function BitsOf(v: nat, n: nat): (b: seq<bool>)
    ensures |b| == n
  {
    if n == 0 then [] else BitsOf(v / 2, n - 1) + [v % 2 == 1]
  }

  function ValueOf(b: seq<bool>): nat {
    if b == [] then 0 else 2 * ValueOf(b[..|b| - 1]) + (if b[|b| - 1] then 1 else 0)
  }

  /** Each number of xs written with w bits, one after the other. */
  function Flat(xs: seq<nat>, w: nat): seq<bool> {
    if xs == [] then [] else Flat(xs[..|xs| - 1], w) + BitsOf(xs[|xs| - 1], w)
  }

  /** The bits cut into groups of w, read as numbers; an incomplete last group is dropped. */
  function Chunk(b: seq<bool>, w: nat): seq<nat>
    requires w > 0
  {
    if |b| < w then [] else [ValueOf(b[..w])] + Chunk(b[w..], w)
  }

  function Zeros(n: nat): (z: seq<bool>)
    ensures |z| == n
  {
    seq(n, i => false)
  }

  lemma {:induction false} ValueBound(b: seq<bool>)
    ensures ValueOf(b) < Pow2(|b|)
  {
    if b != [] {
      ValueBound(b[..|b| - 1]);
    }
  }

  lemma {:induction false} BitsOfValue(b: seq<bool>)
    ensures BitsOf(ValueOf(b), |b|) == b
  {
    if b != [] {
      BitsOfValue(b[..|b| - 1]);
      assert ValueOf(b) / 2 == ValueOf(b[..|b| - 1]);
    }
  }

  lemma {:induction false} ValueOfBits(v: nat, n: nat)
    requires v < Pow2(n)
    ensures ValueOf(BitsOf(v, n)) == v
  {
    if n > 0 {
      ValueOfBits(v / 2, n - 1);
      assert BitsOf(v, n)[..n - 1] == BitsOf(v / 2, n - 1);
    }
  }

  /** Placing r below q writes the bits of q, then those of r. */
  lemma {:induction false} BitsJoin(q: nat, r: nat, n: nat, m: nat)
    requires r < Pow2(m)
    ensures BitsOf(Shl(q, m) + r, n + m) == BitsOf(q, n) + BitsOf(r, m)
  {
    if m > 0 {
      BitsJoin(q, r / 2, n, m - 1);
      assert (Shl(q, m) + r) / 2 == Shl(q, m - 1) + r / 2;
    }
  }

  /** A right shift by m drops the low m bits. */
  lemma {:induction false} BitsSplit(v: nat, n: nat, m: nat)
    ensures BitsOf(v, n + m) == BitsOf(Shr(v, m), n) + BitsOf(v, m)
  {
    if m > 0 {
      BitsSplit(v / 2, n, m - 1);
    }
  }

  lemma {:induction false} BitsOfLow(v: nat, n: nat, k: nat)
    requires n <= k
    ensures BitsOf(Low(v, k), n) == BitsOf(v, n)
  {
    if n > 0 {
      BitsOfLow(v / 2, n - 1, k - 1);
    }
  }

  /** The last z bits are zero exactly when the low z bits are the number zero. */
  lemma {:induction false} ZeroTail(v: nat, w: nat, z: nat)
    requires z <= w
    ensures BitsOf(v, w)[w - z..] == Zeros(z) <==> Low(v, z) == 0
  {
    if z > 0 {
      ZeroTail(v / 2, w - 1, z - 1);
      SnocZeros(BitsOf(v / 2, w - 1)[w - z..], v % 2 == 1);
      assert BitsOf(v, w)[w - z..] == BitsOf(v / 2, w - 1)[w - z..] + [v % 2 == 1];
    }
  }

  lemma SnocZeros(t: seq<bool>, b: bool)
    ensures t + [b] == Zeros(|t| + 1) <==> t == Zeros(|t|) && !b
  {
    if t + [b] == Zeros(|t| + 1) {
      assert (t + [b])[|t|] == b;
      assert t == (t + [b])[..|t|];
    }
  }

  lemma {:induction false} FlatLength(xs: seq<nat>, w: nat)
    ensures |Flat(xs, w)| == |xs| * w
  {
    if xs != [] {
      FlatLength(xs[..|xs| - 1], w);
      MulSucc(|xs| - 1, w);
    }
  }

  lemma {:induction false} ChunkLength(b: seq<bool>, w: nat)
    requires w > 0
    ensures |Chunk(b, w)| == |b| / w
    ensures forall i :: 0 <= i < |Chunk(b, w)| ==> Chunk(b, w)[i] < Pow2(w)
  {
    if |b| >= w {
      ChunkLength(b[w..], w);
      ValueBound(b[..w]);
      DivStep(|b|, w);
    }
  }

  lemma FlatSnoc(xs: seq<nat>, x: nat, w: nat)
    ensures Flat(xs + [x], w) == Flat(xs, w) + BitsOf(x, w)
  {
    assert (xs + [x])[..|xs|] == xs;
  }

  lemma {:induction false} FlatCons(x: nat, xs: seq<nat>, w: nat)
    ensures Flat([x] + xs, w) == BitsOf(x, w) + Flat(xs, w)
  {
    hide BitsOf;
    if xs == [] {
      FlatSnoc([], x, w);
      assert [x] + xs == [] + [x];
    } else {
      var front, last := xs[..|xs| - 1], xs[|xs| - 1];
      FlatCons(x, front, w);
      FlatSnoc([x] + front, last, w);
      assert [x] + xs == ([x] + front) + [last];
    }
  }

  lemma {:induction false} FlatPrefix(xs: seq<nat>, n: nat, w: nat)
    requires n <= |xs|
    ensures Flat(xs[..n], w) <= Flat(xs, w)
  {
    if n < |xs| {
      FlatPrefix(xs[..|xs| - 1], n, w);
      assert xs[..|xs| - 1][..n] == xs[..n];
    } else {
      assert xs[..n] == xs;
    }
  }

  /** Cutting inverts flattening, whatever short remainder follows. */
  lemma {:induction false} ChunkFlat(xs: seq<nat>, w: nat, rest: seq<bool>)
    requires w > 0 && |rest| < w
    requires forall i :: 0 <= i < |xs| ==> xs[i] < Pow2(w)
    ensures Chunk(Flat(xs, w) + rest, w) == xs
  {
    hide BitsOf, ValueOf, Pow2;
    var b := Flat(xs, w) + rest;
    if xs == [] {
      assert |b| < w;
    } else {
      FlatCons(xs[0], xs[1..], w);
      assert xs == [xs[0]] + xs[1..];
      assert b == BitsOf(xs[0], w) + (Flat(xs[1..], w) + rest);
      assert b[..w] == BitsOf(xs[0], w) && b[w..] == Flat(xs[1..], w) + rest;
      ValueOfBits(xs[0], w);
      ChunkFlat(xs[1..], w, rest);
    }
  }

  /** What follows whole groups does not change them. */
  lemma {:induction false} ChunkPrefix(xs: seq<nat>, w: nat, b: seq<bool>)
    requires w > 0 && Flat(xs, w) <= b
    requires forall i :: 0 <= i < |xs| ==> xs[i] < Pow2(w)
    ensures xs <= Chunk(b, w)
  {
    hide Flat, BitsOf, ValueOf, Pow2;
    if xs != [] {
      FlatCons(xs[0], xs[1..], w);
      assert xs == [xs[0]] + xs[1..];
      var rest := Flat(xs[1..], w);
      assert BitsOf(xs[0], w) + rest <= b;
      assert b[..w] == BitsOf(xs[0], w) && rest <= b[w..];
      ValueOfBits(xs[0], w);
      ChunkPrefix(xs[1..], w, b[w..]);
    }
  }

  /** Flattening inverts cutting, up to the dropped remainder. */
  lemma {:induction false} FlatChunk(b: seq<bool>, w: nat)
    requires w > 0
    ensures Flat(Chunk(b, w), w) <= b && |b| < |Flat(Chunk(b, w), w)| + w
  {
    if |b| >= w {
      FlatChunk(b[w..], w);
      FlatCons(ValueOf(b[..w]), Chunk(b[w..], w), w);
      BitsOfValue(b[..w]);
      assert b == b[..w] + b[w..];
    }
  }

  // ---------- bit strings as numbers ----------

  /** The number with digits xs, most significant first. */
  function Number(xs: seq<nat>, base: nat): nat {
    if xs == [] then 0 else base * Number(xs[..|xs| - 1], base) + xs[|xs| - 1]
  }

  lemma {:induction false} ValueConcat(a: seq<bool>, b: seq<bool>)
    ensures ValueOf(a + b) == Pow2(|b|) * ValueOf(a) + ValueOf(b)
  {
    if b == [] {
      assert a + b == a;
    } else {
      var front := b[..|b| - 1];
      ValueConcat(a, front);
      assert (a + b)[..|a + b| - 1] == a + front;
      Pow2Step(|front|);
      Doubled(Pow2(|front|), ValueOf(a));
    }
  }

  lemma Doubled(p: nat, v: nat)
    ensures 2 * (p * v) == (2 * p) * v
  {
  }

  /** Numbers written with w bits each are the digits of one number in base 2^w. */
  lemma {:induction false} FlatIsNumber(xs: seq<nat>, w: nat)
    requires forall i :: 0 <= i < |xs| ==> xs[i] < Pow2(w)
    ensures ValueOf(Flat(xs, w)) == Number(xs, Pow2(w))
  {
    hide Pow2, BitsOf, ValueOf;
    if xs == [] {
      NoBits();
    } else {
      var front, last := xs[..|xs| - 1], xs[|xs| - 1];
      FlatIsNumber(front, w);
      ValueConcat(Flat(front, w), BitsOf(last, w));
      ValueOfBits(last, w);
    }
  }

  lemma NoBits()
    ensures ValueOf([]) == 0
  {
  }
}
