/** Laws of the account codec: decoding is a last-wins fold over fields, and the exact
    conditions under which an account survives encoding and decoding. */
module AccountLaws {
  import opened Wrappers
  import opened Words
  import opened Varint
  import opened ProtoFields
  import opened AccountCodec
  import opened Utf8
  import Base32

  function Decode(data: seq<byte>): Result<Account> {
    DecodeFrom(data, FRESH)
  }

  // ---------- decoding is a fold over the fields ----------

  function Fold(fs: seq<Field>, a: Account): Result<Account>
    requires AllWellKinded(AccountMessage, fs)
  {
    if fs == [] then Ok(a)
    else match Fold(fs[..|fs| - 1], a)
         case Err(e) => Err(e)
         case Ok(b) => ApplyField(b, fs[|fs| - 1])
  }

  lemma FoldSnoc(fs: seq<Field>, f: Field, a: Account)
    requires AllWellKinded(AccountMessage, fs) && WellKinded(AccountMessage, f)
    ensures Fold(fs + [f], a) == match Fold(fs, a) case Err(e) => Err(e) case Ok(b) => ApplyField(b, f)
  {
    assert (fs + [f])[..|fs|] == fs;
  }

  lemma {:induction false} FoldCons(f: Field, fs: seq<Field>, a: Account)
    requires AllWellKinded(AccountMessage, fs) && WellKinded(AccountMessage, f)
    ensures Fold([f] + fs, a) == match ApplyField(a, f) case Err(e) => Err(e) case Ok(b) => Fold(fs, b)
  {
    hide ApplyField;
    if fs == [] {
      FoldSnoc([], f, a);
      assert [f] + fs == [] + [f];
      assert forall b :: Fold([], b) == Ok(b);
    } else {
      var front, last := fs[..|fs| - 1], fs[|fs| - 1];
      FoldCons(f, front, a);
      FoldSnoc([f] + front, last, a);
      assert [f] + fs == ([f] + front) + [last];
    }
  }

  function Concluded(r: Result<Account>, complete: bool): Result<Account> {
    match r
    case Err(e) => Err(e)
    case Ok(a) => if complete then Finish(a) else Err(ErrInvalidMigration)
  }

  /** On every byte string the decoder is the fold over the fields scanned, the first error in
      byte order being the one returned. */
  lemma {:induction false} DecodeIsFold(s: seq<byte>, a: Account)
    ensures var r := Scan(AccountMessage, s);
            DecodeFrom(s, a) == Concluded(Fold(r.fields, a), r.complete)
    decreases |s|
  {
    hide ReadField, ApplyField, Finish;
    assert Fold([], a) == Ok(a);
    if s != [] && ReadField(AccountMessage, s).Some? {
      var (f, n) := ReadField(AccountMessage, s).value;
      FoldCons(f, Scan(AccountMessage, s[n..]).fields, a);
      if ApplyField(a, f).Ok? {
        DecodeIsFold(s[n..], ApplyField(a, f).value);
      }
    }
  }

  // ---------- the fold, described field number by field number ----------

  function Last(fs: seq<Field>, num: nat): (r: Option<Field>)
    ensures r.Some? ==> r.value in fs && r.value.num == num
  {
    if fs == [] then None
    else if fs[|fs| - 1].num == num then Some(fs[|fs| - 1])
    else Last(fs[..|fs| - 1], num)
  }

  function FieldError(f: Field): Option<Error>
    requires WellKinded(AccountMessage, f)
  {
    if f.num == 4 && f.value > 3 then Some(ErrInvalidAlgorithm)
    else if f.num == 5 && f.value > 2 then Some(ErrInvalidDigits)
    else None
  }

  function FirstError(fs: seq<Field>): Option<Error>
    requires AllWellKinded(AccountMessage, fs)
  {
    if fs == [] then None
    else
      var e := FirstError(fs[..|fs| - 1]);
      if e.Some? then e else FieldError(fs[|fs| - 1])
  }

  /** The account whose every slot comes from the last field of its number, if there is one. */
  function Overlay(fs: seq<Field>, a: Account): Account
    requires AllWellKinded(AccountMessage, fs)
  {
    a.(secretB32 := var f := Last(fs, 1); if f.Some? then Base32.EncodeBase32(f.value.bytes) else a.secretB32,
       labelText := var f := Last(fs, 2); if f.Some? then f.value.bytes else a.labelText,
       issuer := var f := Last(fs, 3); if f.Some? then f.value.bytes else a.issuer,
       algorithm := var f := Last(fs, 4);
         if f.Some? && f.value.value <= 3 then [SHA1, SHA1, SHA256, SHA512][f.value.value] else a.algorithm,
       digits := var f := Last(fs, 5); if f.Some? then (if f.value.value == 2 then 8 else 6) else a.digits,
       typ := var f := Last(fs, 6); if f.Some? then (if f.value.value == 1 then HotpType else TotpType) else a.typ,
       counter := var f := Last(fs, 7); if f.Some? then f.value.value else a.counter)
  }

  /** Last wins: the fold fails with the first invalid enumeration value, and otherwise only the
      last field of each number matters. */
  lemma {:induction false} FoldIsLastWins(fs: seq<Field>, a: Account)
    requires AllWellKinded(AccountMessage, fs)
    ensures Fold(fs, a) == if FirstError(fs).Some? then Err(FirstError(fs).value) else Ok(Overlay(fs, a))
  {
    hide Base32.EncodeBase32, ApplyField, Overlay, FieldError;
    if fs == [] {
      assert Overlay([], a) == a by { OverlayNone(a); }
    } else {
      var front, last := fs[..|fs| - 1], fs[|fs| - 1];
      FoldIsLastWins(front, a);
      OverlaySnoc(front, last, a);
      assert fs == front + [last];
    }
  }

  lemma OverlayNone(a: Account)
    ensures Overlay([], a) == a
  {
  }

  lemma OverlaySnoc(fs: seq<Field>, f: Field, a: Account)
    requires AllWellKinded(AccountMessage, fs) && WellKinded(AccountMessage, f)
    ensures AllWellKinded(AccountMessage, fs + [f])
    ensures ApplyField(Overlay(fs, a), f) ==
            if FieldError(f).Some? then Err(FieldError(f).value) else Ok(Overlay(fs + [f], a))
  {
    hide Base32.EncodeBase32, Last;
    forall num: nat ensures Last(fs + [f], num) == if f.num == num then Some(f) else Last(fs, num) {
      LastSnoc(fs, f, num);
    }
  }

  lemma LastSnoc(fs: seq<Field>, f: Field, num: nat)
    ensures Last(fs + [f], num) == if f.num == num then Some(f) else Last(fs, num)
  {
    assert (fs + [f])[..|fs|] == fs;
  }

  lemma {:induction false} FirstErrorSome(fs: seq<Field>)
    requires AllWellKinded(AccountMessage, fs)
    ensures FirstError(fs).None? <==> forall f :: f in fs ==> FieldError(f).None?
  {
    if fs != [] {
      FirstErrorSome(fs[..|fs| - 1]);
      assert fs == fs[..|fs| - 1] + [fs[|fs| - 1]];
    }
  }

  /** No two fields share a known number. */
  ghost predicate DistinctNumbers(fs: seq<Field>) {
    forall i, j :: 0 <= i < j < |fs| && Known(AccountMessage, fs[i].num) ==> fs[i].num != fs[j].num
  }

  lemma {:induction false} LastOfDistinct(fs: seq<Field>, f: Field)
    requires DistinctNumbers(fs) && f in fs && Known(AccountMessage, f.num)
    ensures Last(fs, f.num) == Some(f)
  {
    var last := fs[|fs| - 1];
    if f != last {
      var i :| 0 <= i < |fs| && fs[i] == f;
      assert fs[..|fs| - 1][i] == f;
      LastOfDistinct(fs[..|fs| - 1], f);
    }
  }

  lemma SameLast(fs: seq<Field>, gs: seq<Field>, num: nat)
    requires multiset(fs) == multiset(gs) && DistinctNumbers(fs) && DistinctNumbers(gs)
    requires Known(AccountMessage, num)
    ensures Last(fs, num) == Last(gs, num)
  {
    assert forall f :: f in fs <==> f in multiset(fs);
    assert forall f :: f in gs <==> f in multiset(gs);
    if Last(fs, num).Some? {
      LastOfDistinct(gs, Last(fs, num).value);
    } else if Last(gs, num).Some? {
      LastOfDistinct(fs, Last(gs, num).value);
    }
  }

  /** Field order is immaterial: two encodings of the same fields, in any order and with any
      varint spelling, decode alike when no known number is repeated. */
  lemma FieldOrderIrrelevant(s: seq<byte>, t: seq<byte>)
    requires Scan(AccountMessage, s).complete && Scan(AccountMessage, t).complete
    requires var fs, gs := Scan(AccountMessage, s).fields, Scan(AccountMessage, t).fields;
             multiset(fs) == multiset(gs) && DistinctNumbers(fs) && DistinctNumbers(gs)
    ensures Decode(s).Ok? || Decode(t).Ok? ==> Decode(s) == Decode(t)
  {
    hide Scan, Finish, ApplyField, DecodeFrom, Fold, Last, Overlay, FirstError, FieldError;
    var fs, gs := Scan(AccountMessage, s).fields, Scan(AccountMessage, t).fields;
    DecodeIsFold(s, FRESH);
    DecodeIsFold(t, FRESH);
    FoldIsLastWins(fs, FRESH);
    FoldIsLastWins(gs, FRESH);
    FirstErrorSome(fs);
    FirstErrorSome(gs);
    assert forall f :: f in fs <==> f in multiset(fs);
    assert forall f :: f in gs <==> f in multiset(gs);
    forall num | 1 <= num <= 7 ensures Last(fs, num) == Last(gs, num) {
      SameLast(fs, gs, num);
    }
    SameOverlay(fs, gs, FRESH);
  }

  lemma SameOverlay(fs: seq<Field>, gs: seq<Field>, a: Account)
    requires AllWellKinded(AccountMessage, fs) && AllWellKinded(AccountMessage, gs)
    requires forall num :: 1 <= num <= 7 ==> Last(fs, num) == Last(gs, num)
    ensures Overlay(fs, a) == Overlay(gs, a)
  {
    hide Last, Base32.EncodeBase32;
  }

  lemma {:induction false} FoldSkips(fs: seq<Field>, u: Field, gs: seq<Field>, a: Account)
    requires AllWellKinded(AccountMessage, fs) && AllWellKinded(AccountMessage, gs) && !Known(AccountMessage, u.num)
    ensures AllWellKinded(AccountMessage, fs + [u] + gs) && Fold(fs + [u] + gs, a) == Fold(fs + gs, a)
  {
    if gs == [] {
      FoldSnoc(fs, u, a);
      assert fs + [u] + gs == fs + [u] && fs + gs == fs;
    } else {
      var front, last := gs[..|gs| - 1], gs[|gs| - 1];
      FoldSkips(fs, u, front, a);
      FoldSnoc(fs + [u] + front, last, a);
      FoldSnoc(fs + front, last, a);
      assert fs + [u] + gs == (fs + [u] + front) + [last] && fs + gs == (fs + front) + [last];
    }
  }

  /** A readable unknown field may be inserted between any two fields, whatever follows. */
  lemma UnknownFieldIgnored(s: seq<byte>, u: seq<byte>, t: seq<byte>)
    requires Scan(AccountMessage, s).complete
    requires ReadField(AccountMessage, u).Some?
    requires var (f, n) := ReadField(AccountMessage, u).value; n == |u| && !Known(AccountMessage, f.num)
    ensures Decode(s + u + t) == Decode(s + t)
  {
    hide ReadField, Finish, ApplyField, DecodeFrom, Fold;
    var (f, n) := ReadField(AccountMessage, u).value;
    assert u[n..] == [] && Scan(AccountMessage, []) == ScanResult([], true);
    assert Scan(AccountMessage, u) == ScanResult([f], true);
    ScanConcat(AccountMessage, s, u);
    ScanConcat(AccountMessage, s + u, t);
    ScanConcat(AccountMessage, s, t);
    FoldSkips(Scan(AccountMessage, s).fields, f, Scan(AccountMessage, t).fields, FRESH);
    DecodeIsFold(s + u + t, FRESH);
    DecodeIsFold(s + t, FRESH);
  }

  // ---------- decoding what was encoded ----------

  /** The account a decoder sees after encoding a, given the secret's bytes. */
  function Restored(a: Account, secret: seq<byte>): Account {
    var (issuer, labelText) := SplitMigrationLabel(a.issuer, JoinName(a.issuer, a.labelText));
    Account(
      if a.typ == HotpType then HotpType else TotpType, labelText, issuer,
      Base32.EncodeBase32(secret), a.algorithm, if a.digits == 0 then 6 else a.digits, 30,
      if a.typ == HotpType then a.counter else 0)
  }

  lemma FoldOfStrings(a: Account, secret: seq<byte>, fs: seq<Field>)
    requires fs == [Bytes(1, secret), Bytes(2, JoinName(a.issuer, a.labelText))]
                   + (if a.issuer != [] then [Bytes(3, a.issuer)] else [])
    ensures AllWellKinded(AccountMessage, fs)
    ensures Fold(fs, FRESH) == Ok(FRESH.(secretB32 := Base32.EncodeBase32(secret),
                                         labelText := JoinName(a.issuer, a.labelText), issuer := a.issuer))
  {
    hide Base32.EncodeBase32, JoinName, Fold;
    FoldNone(FRESH);
    var f1, f2 := Bytes(1, secret), Bytes(2, JoinName(a.issuer, a.labelText));
    FoldSnoc([], f1, FRESH);
    FoldSnoc([] + [f1], f2, FRESH);
    if a.issuer != [] {
      FoldSnoc([] + [f1] + [f2], Bytes(3, a.issuer), FRESH);
      assert fs == [] + [f1] + [f2] + [Bytes(3, a.issuer)];
    } else {
      assert fs == [] + [f1] + [f2];
    }
  }

  lemma FoldOfFields(a: Account, secret: seq<byte>, algorithm: uint64, digits: uint64)
    requires MigrationAlgorithm(a.algorithm) == Ok(algorithm)
    requires MigrationDigits(if a.digits == 0 then 6 else a.digits) == Ok(digits)
    ensures AllWellKinded(AccountMessage, FieldsOf(a, secret, algorithm, digits))
    ensures Fold(FieldsOf(a, secret, algorithm, digits), FRESH) ==
            Ok(Restored(a, secret).(issuer := a.issuer, labelText := JoinName(a.issuer, a.labelText)))
  {
    hide Base32.EncodeBase32, JoinName, SplitMigrationLabel, Fold;
    var fs := [Bytes(1, secret), Bytes(2, JoinName(a.issuer, a.labelText))]
              + (if a.issuer != [] then [Bytes(3, a.issuer)] else []);
    FoldOfStrings(a, secret, fs);
    var f4, f5, f6 := Scalar(4, algorithm), Scalar(5, digits), Scalar(6, if a.typ == HotpType then 1 else 2);
    FoldSnoc(fs, f4, FRESH);
    FoldSnoc(fs + [f4], f5, FRESH);
    FoldSnoc(fs + [f4] + [f5], f6, FRESH);
    if a.typ == HotpType {
      FoldSnoc(fs + [f4] + [f5] + [f6], Scalar(7, a.counter), FRESH);
      assert FieldsOf(a, secret, algorithm, digits) == fs + [f4] + [f5] + [f6] + [Scalar(7, a.counter)];
    } else {
      assert FieldsOf(a, secret, algorithm, digits) == fs + [f4] + [f5] + [f6];
    }
  }

  lemma FoldNone(a: Account)
    ensures Fold([], a) == Ok(a)
  {
  }

  lemma SecretFits(a: Account)
    requires Fits(a) && SecretOf(a).Ok?
    ensures |SecretOf(a).value| <= MAX_INT
  {
    Base32.KeptLength(NormalizeSecret(a.secretB32));
  }

  /** Decoding an encoded account, for every account that encodes. */
  lemma DecodeEncoded(a: Account)
    requires Fits(a) && Encoded(a).Ok?
    ensures SecretOf(a).Ok?
    ensures Decode(Encoded(a).value) ==
            if SecretOf(a).value == [] || JoinName(a.issuer, a.labelText) == [] then Err(ErrInvalidMigration)
            else Ok(Restored(a, SecretOf(a).value))
  {
    hide Base32.EncodeBase32, Base32.Decoded, NormalizeSecret, Fold, DecodeFrom, WriteFields, ReadField, Scan, Restored;
    var secret, fs := SecretOf(a).value, EncodedFields(a).value;
    SecretFits(a);
    forall f | f in fs ensures Writable(AccountMessage, f) {
    }
    ScanWritten(AccountMessage, fs);
    FoldOfFields(a, secret, MigrationAlgorithm(a.algorithm).value,
                 MigrationDigits(if a.digits == 0 then 6 else a.digits).value);
    DecodeIsFold(WriteFields(fs), FRESH);
    EncodedEmpty(secret);
    RestoredSplit(a, secret);
  }

  lemma RestoredSplit(a: Account, secret: seq<byte>)
    ensures var r := Restored(a, secret).(issuer := a.issuer, labelText := JoinName(a.issuer, a.labelText));
            Finish(r) == if r.secretB32 == [] || r.labelText == [] then Err(ErrInvalidMigration)
                         else Ok(Restored(a, secret))
    ensures Restored(a, secret).secretB32 == Base32.EncodeBase32(secret)
  {
  }

  lemma EncodedEmpty(secret: seq<byte>)
    ensures Base32.EncodeBase32(secret) == [] <==> secret == []
  {
    hide Base32.Groups;
    assert 5 * |Base32.Groups(secret)| == 8 * |secret| + Base32.PaddingLength(8 * |secret|);
  }

  // ---------- the encoding, in numbers ----------

  /** The name written: label, or issuer, colon and label. */
  function WrittenName(a: Account): seq<byte> {
    if a.issuer == [] || a.issuer + [0x3A] <= a.labelText then a.labelText else a.issuer + [0x3A] + a.labelText
  }

  /** The fields of an encoded account: secret, name, issuer if there is one, algorithm 1 to 3,
      digits 1 or 2, type 1 for HOTP and else 2, and the counter of an HOTP account. */
  lemma EncodedFieldsAre(a: Account)
    requires Fits(a) && Encoded(a).Ok?
    ensures a.algorithm in {SHA1, SHA256, SHA512} && a.digits in {0, 6, 8} && SecretOf(a).Ok?
    ensures Scan(AccountMessage, Encoded(a).value) == ScanResult(
              [Bytes(1, SecretOf(a).value), Bytes(2, WrittenName(a))]
              + (if a.issuer != [] then [Bytes(3, a.issuer)] else [])
              + [Scalar(4, if a.algorithm == SHA1 then 1 else if a.algorithm == SHA256 then 2 else 3),
                 Scalar(5, if a.digits == 8 then 2 else 1),
                 Scalar(6, if a.typ == HotpType then 1 else 2)]
              + (if a.typ == HotpType then [Scalar(7, a.counter)] else []), true)
  {
    hide Base32.Decoded, NormalizeSecret, WriteFields, Scan;
    SecretFits(a);
    var fs := EncodedFields(a).value;
    forall f | f in fs ensures Writable(AccountMessage, f) {
    }
    ScanWritten(AccountMessage, fs);
  }

  /** A tag byte, the length and the bytes. */
  function Delimited(tag: byte, b: seq<byte>): seq<byte> {
    [tag] + VarintBytes(|b|) + b
  }

  /** And its bytes: tags 0A, 12 and 1A before lengths and contents, 20, 28, 30 and 38 before
      numbers. */
  lemma EncodedBytesAre(a: Account)
    requires Fits(a) && Encoded(a).Ok?
    ensures SecretOf(a).Ok?
    ensures var secret, name := SecretOf(a).value, WrittenName(a);
            Encoded(a).value ==
              Delimited(0x0A, secret) + Delimited(0x12, name)
              + (if a.issuer != [] then Delimited(0x1A, a.issuer) else [])
              + [0x20, if a.algorithm == SHA1 then 1 else if a.algorithm == SHA256 then 2 else 3,
                 0x28, if a.digits == 8 then 2 else 1, 0x30, if a.typ == HotpType then 1 else 2]
              + (if a.typ == HotpType then [0x38] + VarintBytes(a.counter) else [])
  {
    hide Base32.Decoded, NormalizeSecret, WriteFields, WriteField, VarintBytes, Delimited;
    EncodedFieldsAre(a);
    var secret, name := SecretOf(a).value, WrittenName(a);
    var alg: uint64 := if a.algorithm == SHA1 then 1 else if a.algorithm == SHA256 then 2 else 3;
    var dig: uint64 := if a.digits == 8 then 2 else 1;
    var typ: uint64 := if a.typ == HotpType then 1 else 2;
    var strings := [Bytes(1, secret), Bytes(2, name)] + (if a.issuer != [] then [Bytes(3, a.issuer)] else []);
    var numbers := [Scalar(4, alg), Scalar(5, dig), Scalar(6, typ)];
    var counter := if a.typ == HotpType then [Scalar(7, a.counter)] else [];
    assert EncodedFields(a).value == strings + numbers + counter;
    WriteConcat(strings + numbers, counter);
    WriteConcat(strings, numbers);
    StringsWritten(secret, name, a.issuer);
    NumbersWritten(alg, dig, typ);
    WrittenScalar(7, a.counter);
    WriteOne(Scalar(7, a.counter));
    WriteNone();
  }

  lemma {:induction false} WriteConcat(fs: seq<Field>, gs: seq<Field>)
    ensures WriteFields(fs + gs) == WriteFields(fs) + WriteFields(gs)
  {
    hide WriteField, WriteFields;
    if gs == [] {
      WriteNone();
      assert fs + gs == fs;
    } else {
      var front, last := gs[..|gs| - 1], gs[|gs| - 1];
      WriteConcat(fs, front);
      WriteSnoc(fs + front, last);
      WriteSnoc(front, last);
      assert fs + gs == (fs + front) + [last] && gs == front + [last];
    }
  }

  lemma WriteOne(f: Field)
    ensures WriteFields([f]) == WriteField(f)
  {
    WriteSnoc([], f);
    WriteNone();
    assert [] + [f] == [f];
  }

  lemma StringsWritten(secret: seq<byte>, name: seq<byte>, issuer: seq<byte>)
    ensures WriteFields([Bytes(1, secret), Bytes(2, name)] + (if issuer != [] then [Bytes(3, issuer)] else [])) ==
            Delimited(0x0A, secret) + Delimited(0x12, name) + (if issuer != [] then Delimited(0x1A, issuer) else [])
  {
    hide WriteFields, WriteField, Delimited;
    var f1, f2, f3 := Bytes(1, secret), Bytes(2, name), Bytes(3, issuer);
    WrittenBytes(1, secret);
    WrittenBytes(2, name);
    WriteOne(f1);
    WriteOne(f2);
    WriteConcat([f1], [f2]);
    assert [f1] + [f2] == [f1, f2];
    if issuer == [] {
      assert [f1, f2] + [] == [f1, f2];
      assert WriteFields([f1, f2]) + [] == WriteFields([f1, f2]);
    } else {
      WrittenBytes(3, issuer);
      WriteOne(f3);
      WriteConcat([f1, f2], [f3]);
    }
  }

  lemma NumbersWritten(alg: uint64, dig: uint64, typ: uint64)
    requires alg < 0x80 && dig < 0x80 && typ < 0x80
    ensures WriteFields([Scalar(4, alg), Scalar(5, dig), Scalar(6, typ)]) == [0x20, alg, 0x28, dig, 0x30, typ]
  {
    hide WriteFields, WriteField;
    var f4, f5, f6 := Scalar(4, alg), Scalar(5, dig), Scalar(6, typ);
    WriteConcat([f4], [f5]);
    WriteConcat([f4] + [f5], [f6]);
    assert [f4] + [f5] + [f6] == [f4, f5, f6];
    WriteOne(f4);
    WriteOne(f5);
    WriteOne(f6);
    WrittenSmall(4, alg);
    WrittenSmall(5, dig);
    WrittenSmall(6, typ);
  }

  lemma WrittenBytes(num: nat, b: seq<byte>)
    requires 1 <= num <= 3
    ensures WriteField(Bytes(num, b)) == Delimited(8 * num + 2, b)
  {
    assert VarintBytes(8 * num + 2) == [8 * num + 2];
  }

  lemma WrittenScalar(num: nat, v: uint64)
    requires 1 <= num <= 7
    ensures WriteField(Scalar(num, v)) == [8 * num] + VarintBytes(v)
  {
    assert VarintBytes(8 * num) == [8 * num];
  }

  lemma WrittenSmall(num: nat, v: uint64)
    requires 1 <= num <= 7 && v < 0x80
    ensures WriteField(Scalar(num, v)) == [8 * num, v]
  {
    WrittenScalar(num, v);
  }

  /** Which accounts encode, and the error of the others: the secret is judged first, then the
      algorithm, then the digits. */
  lemma EncodeErrorsAre(a: Account)
    ensures var text := NormalizeSecret(a.secretB32);
            Encoded(a).Err? ==>
              Encoded(a).error == (if text == [] || Base32.Decoded(text).Err? then ErrInvalidSecret
                                   else if a.algorithm !in {SHA1, SHA256, SHA512} then ErrInvalidAlgorithm
                                   else ErrInvalidDigits)
    ensures var text := NormalizeSecret(a.secretB32);
            Encoded(a).Ok? <==>
              text != [] && Base32.Decoded(text).Ok? && a.algorithm in {SHA1, SHA256, SHA512} && a.digits in {0, 6, 8}
  {
    hide Base32.Kept, Base32.BytesOf, NormalizeSecret, WriteFields;
  }

  // ---------- decoding, in numbers ----------

  /** Last picks the field of a number that no other follows. */
  lemma {:induction false} LastIs(fs: seq<Field>, num: nat)
    ensures Last(fs, num).None? <==> forall i :: 0 <= i < |fs| ==> fs[i].num != num
    ensures Last(fs, num).Some? ==>
              exists i :: 0 <= i < |fs| && fs[i] == Last(fs, num).value && fs[i].num == num &&
                          forall j :: i < j < |fs| ==> fs[j].num != num
  {
    if fs != [] && fs[|fs| - 1].num != num {
      var front := fs[..|fs| - 1];
      LastIs(front, num);
      if Last(fs, num).Some? {
        var i :| 0 <= i < |front| && front[i] == Last(fs, num).value && front[i].num == num &&
                 forall j :: i < j < |front| ==> front[j].num != num;
        assert fs[i] == front[i];
        assert forall j :: i < j < |fs| - 1 ==> fs[j] == front[j];
      }
    }
  }

  predicate BadAlgorithm(f: Field) {
    f.Scalar? && f.num == 4 && f.value > 3
  }

  predicate BadDigits(f: Field) {
    f.Scalar? && f.num == 5 && f.value > 2
  }

  /** The first algorithm above 3 or digit count above 2 decides the error. */
  lemma {:induction false} FirstErrorIs(fs: seq<Field>, n: nat)
    requires AllWellKinded(AccountMessage, fs) && n <= |fs|
    requires forall i :: 0 <= i < n ==> !BadAlgorithm(fs[i]) && !BadDigits(fs[i])
    ensures n == |fs| ==> FirstError(fs) == None
    ensures n < |fs| && BadAlgorithm(fs[n]) ==> FirstError(fs) == Some(ErrInvalidAlgorithm)
    ensures n < |fs| && BadDigits(fs[n]) ==> FirstError(fs) == Some(ErrInvalidDigits)
  {
    if fs != [] {
      var front, last := fs[..|fs| - 1], fs[|fs| - 1];
      assert last in fs && forall f :: f in front ==> f in fs;
      FirstErrorIs(front, if n <= |front| then n else |front|);
    }
  }

  /** What decoding returns for every scannable byte string without such a field: the last secret
      and name, if neither is missing or empty, and the last of the other fields, with TOTP, SHA1,
      six digits, no issuer and counter zero where there is none; always a period of 30. */
  lemma DecodedIs(data: seq<byte>)
    requires var fs := Scan(AccountMessage, data).fields;
             forall i :: 0 <= i < |fs| ==> !BadAlgorithm(fs[i]) && !BadDigits(fs[i])
    ensures var fs := Scan(AccountMessage, data).fields;
            var secret, name, issuer := Last(fs, 1), Last(fs, 2), Last(fs, 3);
            var alg, dig, typ, counter := Last(fs, 4), Last(fs, 5), Last(fs, 6), Last(fs, 7);
            Decode(data) ==
              if !Scan(AccountMessage, data).complete || secret.None? || name.None?
                 || secret.value.bytes == [] || name.value.bytes == [] then Err(ErrInvalidMigration)
              else
                var parts := SplitMigrationLabel(if issuer.Some? then issuer.value.bytes else [], name.value.bytes);
                Ok(Account(
                  if typ.Some? && typ.value.value == 1 then HotpType else TotpType,
                  parts.1, parts.0, Base32.EncodeBase32(secret.value.bytes),
                  if alg.None? || alg.value.value <= 1 then SHA1 else if alg.value.value == 2 then SHA256 else SHA512,
                  if dig.None? || dig.value.value <= 1 then 6 else 8,
                  30,
                  if counter.Some? then counter.value.value else 0))
  {
    hide Scan, DecodeFrom, Fold, Last, FirstError, Base32.EncodeBase32, SplitMigrationLabel;
    var fs := Scan(AccountMessage, data).fields;
    DecodeIsFold(data, FRESH);
    FoldIsLastWins(fs, FRESH);
    FirstErrorIs(fs, |fs|);
    if Last(fs, 1).Some? {
      EncodedEmpty(Last(fs, 1).value.bytes);
    }
  }

  /** With such a field, its error is returned, unless an unreadable field comes first. */
  lemma DecodeErrorIs(data: seq<byte>, n: nat)
    requires var fs := Scan(AccountMessage, data).fields;
             && n < |fs| && (BadAlgorithm(fs[n]) || BadDigits(fs[n]))
             && forall i :: 0 <= i < n ==> !BadAlgorithm(fs[i]) && !BadDigits(fs[i])
    ensures var fs := Scan(AccountMessage, data).fields;
            Decode(data) == Err(if BadAlgorithm(fs[n]) then ErrInvalidAlgorithm else ErrInvalidDigits)
  {
    hide Scan, DecodeFrom, Fold, FirstError;
    var fs := Scan(AccountMessage, data).fields;
    DecodeIsFold(data, FRESH);
    FoldIsLastWins(fs, FRESH);
    FirstErrorIs(fs, n);
  }

  // ---------- which accounts survive ----------

  /** Checks on the account alone. */
  predicate Canonical(a: Account) {
    && a.secretB32 != [] && Base32.IsCanonical(a.secretB32)
    && (a.typ == HotpType || (a.typ == TotpType && a.counter == 0))
    && a.algorithm in {SHA1, SHA256, SHA512}
    && a.digits in {6, 8}
    && a.period == 30
    && CanonicalLabel(a.issuer, a.labelText)
  }

  predicate CanonicalLabel(issuer: seq<byte>, labelText: seq<byte>) {
    if issuer != [] then !(issuer + [0x3A] <= labelText) && TrimSpace(labelText) == labelText
    else labelText != [] && (0x3A in labelText ==> labelText[0] == 0x3A)
  }

  /** Joining then splitting gives issuer and label back exactly for canonical labels. */
  lemma LabelRoundTrip(issuer: seq<byte>, labelText: seq<byte>)
    ensures JoinName(issuer, labelText) != [] &&
            SplitMigrationLabel(issuer, JoinName(issuer, labelText)) == (issuer, labelText) <==>
            CanonicalLabel(issuer, labelText)
  {
    hide TrimSpace;
    var name := JoinName(issuer, labelText);
    if issuer != [] {
      if issuer + [COLON] <= labelText {
        assert |TrimSpace(name[|issuer| + 1..])| < |labelText|;
      } else {
        assert name[|issuer| + 1..] == labelText;
      }
    } else {
      var idx := IndexByte(labelText, COLON);
      if idx > 0 {
        assert labelText[idx] == COLON && labelText[0] != COLON;
        assert |TrimSpace(name[idx + 1..])| < |labelText|;
      }
    }
  }

  /** Splitting a name: at the issuer given apart, else at the first colon past the start, else
      not at all. */
  lemma SplitMeans(issuer: seq<byte>, head: seq<byte>, tail: seq<byte>)
    ensures issuer != [] ==>
              SplitMigrationLabel(issuer, issuer + [0x3A] + tail) == (issuer, TrimSpace(tail))
    ensures var name := head + [0x3A] + tail;
            head != [] && 0x3A !in head && !(issuer != [] && issuer + [0x3A] <= name) ==>
              SplitMigrationLabel(issuer, name) == (TrimSpace(head), TrimSpace(tail))
    ensures 0x3A !in head ==> SplitMigrationLabel(issuer, head) == (issuer, head)
  {
    hide TrimSpace;
    var own := issuer + [0x3A] + tail;
    assert own[|issuer| + 1..] == tail;
    assert (issuer + [0x3A])[|issuer|] == 0x3A;
    var name := head + [0x3A] + tail;
    if 0x3A !in head {
      var idx := IndexByte(name, COLON);
      assert name[|head|] == 0x3A;
      assert forall j :: 0 <= j < |head| ==> name[j] == head[j];
      assert idx == |head| && name[..idx] == head && name[idx + 1..] == tail;
    }
  }

  lemma {:induction false} NormalizeCanonical(s: seq<byte>)
    requires forall i :: 0 <= i < |s| ==> Base32.InAlphabet(s[i])
    ensures NormalizeSecret(s) == s
  {
    if s != [] {
      NormalizeCanonical(s[1..]);
      assert s == [s[0]] + s[1..];
    }
  }

  lemma CanonicalSecret(a: Account)
    requires a.secretB32 != [] && Base32.IsCanonical(a.secretB32)
    ensures SecretOf(a).Ok? && SecretOf(a).value != [] && Base32.EncodeBase32(SecretOf(a).value) == a.secretB32
  {
    NormalizeCanonical(a.secretB32);
    Base32.DecodeEncode(a.secretB32);
  }

  /** Round trip, exactly: an account encodes and decodes to itself if and only if it is
      canonical. */
  lemma RoundTripExactly(a: Account)
    requires Fits(a)
    ensures Encoded(a).Ok? && Decode(Encoded(a).value) == Ok(a) <==> Canonical(a)
  {
    hide DecodeFrom, WriteFields, NormalizeSecret, Base32.EncodeBase32, Base32.Decoded, Base32.IsCanonical,
      JoinName, SplitMigrationLabel, CanonicalLabel;
    LabelRoundTrip(a.issuer, a.labelText);
    if Encoded(a).Ok? {
      DecodeEncoded(a);
      var secret := SecretOf(a).value;
      EncodedEmpty(secret);
      Base32.EncodingIsCanonical(secret);
    }
    if Canonical(a) {
      CanonicalSecret(a);
      assert Encoded(a).Ok?;
    }
  }
}
