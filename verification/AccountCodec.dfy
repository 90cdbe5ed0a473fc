/** migration.go: one account of a migration payload, encoded and decoded. */
module AccountCodec {
  import opened Wrappers
  import opened Words
  import opened Varint
  import opened ProtoFields
  import opened Utf8
  import Base32

  datatype Algorithm = SHA1 | SHA256 | SHA512 | UnknownAlgorithm(code: int)

  datatype OtpType = HotpType | TotpType | UnknownType(code: int)

  datatype Account = Account(
    typ: OtpType,
    labelText: seq<byte>,
    issuer: seq<byte>,
    secretB32: seq<byte>,
    algorithm: Algorithm,
    digits: uint32,
    period: uint64,
    counter: uint64)

  const COLON: byte := 0x3A

  // ---------- strings ----------

  function IndexByte(s: seq<byte>, c: byte): (i: int)
    ensures -1 <= i < |s|
    ensures i >= 0 ==> s[i] == c
    ensures forall j :: 0 <= j < (if i < 0 then |s| else i) ==> s[j] != c
  {
    if s == [] then -1
    else if s[0] == c then 0
    else var i := IndexByte(s[1..], c); if i < 0 then -1 else i + 1
  }

  /** The spelling of U+FFFD, which an invalid byte is read as and written back as. */
  const REPLACEMENT: seq<byte> := [0xEF, 0xBF, 0xBD]

  /** normalizeBase32Secret: rune by rune, without padding and white space. */
  function NormalizeSecret(s: seq<byte>): seq<byte> {
    if s == [] then []
    else
      var n := RuneLength(s);
      if n == 0 then REPLACEMENT + NormalizeSecret(s[1..])
      else if s[..n] == [0x3D] || IsSpace(s[..n]) then NormalizeSecret(s[n..])
      else s[..n] + NormalizeSecret(s[n..])
  }

  function SplitMigrationLabel(issuer: seq<byte>, name: seq<byte>): (seq<byte>, seq<byte>) {
    if issuer != [] && issuer + [COLON] <= name then
      (issuer, TrimSpace(name[|issuer| + 1..]))
    else
      var idx := IndexByte(name, COLON);
      if idx > 0 then (TrimSpace(name[..idx]), TrimSpace(name[idx + 1..]))
      else (issuer, name)
  }

  /** The name field: the label, prefixed with the issuer unless it is already. */
  function JoinName(issuer: seq<byte>, labelText: seq<byte>): seq<byte> {
    if issuer != [] && !(issuer + [COLON] <= labelText) then issuer + [COLON] + labelText else labelText
  }

  // ---------- enumerations ----------

  function MigrationAlgorithm(a: Algorithm): Result<uint64> {
    match a
    case SHA1 => Ok(1)
    case SHA256 => Ok(2)
    case SHA512 => Ok(3)
    case UnknownAlgorithm(_) => Err(ErrInvalidAlgorithm)
  }

  function AlgorithmFromMigration(v: uint64): Result<Algorithm> {
    if v <= 1 then Ok(SHA1) else if v == 2 then Ok(SHA256) else if v == 3 then Ok(SHA512)
    else Err(ErrInvalidAlgorithm)
  }

  function MigrationDigits(d: uint32): Result<uint64> {
    if d == 6 then Ok(1) else if d == 8 then Ok(2) else Err(ErrInvalidDigits)
  }

  function DigitsFromMigration(v: uint64): Result<uint32> {
    if v <= 1 then Ok(6) else if v == 2 then Ok(8) else Err(ErrInvalidDigits)
  }

  function OtpTypeFromMigration(v: uint64): OtpType {
    if v == 1 then HotpType else TotpType
  }

  // ---------- decoding, as a function of the remaining bytes ----------

  const FRESH: Account := Account(TotpType, [], [], [], SHA1, 6, 30, 0)

  /** What one field does to the account being decoded. */
  function ApplyField(a: Account, f: Field): Result<Account>
    requires WellKinded(AccountMessage, f)
  {
    match f.num
    case 1 => Ok(a.(secretB32 := Base32.EncodeBase32(f.bytes)))
    case 2 => Ok(a.(labelText := f.bytes))
    case 3 => Ok(a.(issuer := f.bytes))
    case 4 => (match AlgorithmFromMigration(f.value) case Ok(x) => Ok(a.(algorithm := x)) case Err(e) => Err(e))
    case 5 => (match DigitsFromMigration(f.value) case Ok(x) => Ok(a.(digits := x)) case Err(e) => Err(e))
    case 6 => Ok(a.(typ := OtpTypeFromMigration(f.value)))
    case 7 => Ok(a.(counter := f.value))
    case _ => Ok(a)
  }

  function Finish(a: Account): Result<Account> {
    if a.secretB32 == [] || a.labelText == [] then Err(ErrInvalidMigration)
    else
      var (issuer, labelText) := SplitMigrationLabel(a.issuer, a.labelText);
      Ok(a.(issuer := issuer, labelText := labelText))
  }

  function DecodeFrom(s: seq<byte>, a: Account): Result<Account>
    decreases |s|
  {
    if s == [] then Finish(a)
    else match ReadField(AccountMessage, s)
         case None => Err(ErrInvalidMigration)
         case Some((f, n)) =>
           match ApplyField(a, f)
           case Err(e) => Err(e)
           case Ok(b) => DecodeFrom(s[n..], b)
  }

  lemma DecodeUnfolds(s: seq<byte>, a: Account)
    ensures s == [] ==> DecodeFrom(s, a) == Finish(a)
    ensures s != [] ==>
              var r := ReadField(AccountMessage, s);
              if r.None? then DecodeFrom(s, a) == Err(ErrInvalidMigration)
              else if ApplyField(a, r.value.0).Err? then DecodeFrom(s, a) == Err(ApplyField(a, r.value.0).error)
              else DecodeFrom(s, a) == DecodeFrom(s[r.value.1..], ApplyField(a, r.value.0).value)
  {
  }

  method DecodeMigrationAccount(data: seq<byte>) returns (r: Result<Account>)
    requires |data| <= MAX_INT
    ensures r == DecodeFrom(data, FRESH)
  {
    hide DecodeFrom, ReadVarint, ReadDelimited, Base32.EncodeBase32, SplitMigrationLabel,
      AlgorithmFromMigration, DigitsFromMigration;
    var account := FRESH;
    var i := 0;
    while i < |data|
      invariant 0 <= i <= |data|
      invariant DecodeFrom(data[i..], account) == DecodeFrom(data, FRESH)
    {
      DecodeUnfolds(data[i..], account);
      var head := ReadProtoVarint(data, i);
      if head.Err? {
        return Err(ErrInvalidMigration);
      }
      ghost var start := i;
      var (tag, afterTag) := head.value;
      var fieldNum, wireType := tag / 8, tag % 8;
      assert data[start..][afterTag - start..] == data[afterTag..];
      if 1 <= fieldNum <= 3 {
        var value := ReadProtoBytes(data, afterTag);
        if value.Err? {
          return Err(ErrInvalidMigration);
        }
        if fieldNum == 1 {
          account := account.(secretB32 := Base32.EncodeBase32(value.value.0));
        } else if fieldNum == 2 {
          account := account.(labelText := value.value.0);
        } else {
          account := account.(issuer := value.value.0);
        }
        i := value.value.1;
      } else if 4 <= fieldNum <= 7 {
        var value := ReadProtoScalar(data, afterTag, wireType);
        if value.Err? {
          return Err(ErrInvalidMigration);
        }
        if fieldNum == 4 {
          var algorithm := AlgorithmFromMigration(value.value.0);
          if algorithm.Err? {
            return Err(algorithm.error);
          }
          account := account.(algorithm := algorithm.value);
        } else if fieldNum == 5 {
          var digits := DigitsFromMigration(value.value.0);
          if digits.Err? {
            return Err(digits.error);
          }
          account := account.(digits := digits.value);
        } else if fieldNum == 6 {
          account := account.(typ := OtpTypeFromMigration(value.value.0));
        } else {
          account := account.(counter := value.value.0);
        }
        i := value.value.1;
      } else {
        var next := SkipProtoField(data, afterTag, wireType);
        assert next == match ReadContents(UnknownMode(wireType), fieldNum, data[afterTag..])
                       case Some(p) => Ok(afterTag + p.1)
                       case None => Err(ErrInvalidMigration);
        if next.Err? {
          return Err(ErrInvalidMigration);
        }
        i := next.value;
      }
      assert data[start..][i - start..] == data[i..];
    }
    DecodeUnfolds(data[i..], account);
    if account.secretB32 == [] || account.labelText == [] {
      return Err(ErrInvalidMigration);
    }
    var (issuer, labelText) := SplitMigrationLabel(account.issuer, account.labelText);
    return Ok(account.(issuer := issuer, labelText := labelText));
  }

  // ---------- encoding ----------

  /** The fields written for an account whose secret has the given bytes. */
  function FieldsOf(a: Account, secret: seq<byte>, algorithm: uint64, digits: uint64): seq<Field> {
    [Bytes(1, secret), Bytes(2, JoinName(a.issuer, a.labelText))]
    + (if a.issuer != [] then [Bytes(3, a.issuer)] else [])
    + [Scalar(4, algorithm), Scalar(5, digits), Scalar(6, if a.typ == HotpType then 1 else 2)]
    + (if a.typ == HotpType then [Scalar(7, a.counter)] else [])
  }

  function SecretOf(a: Account): Result<seq<byte>> {
    var normalized := NormalizeSecret(a.secretB32);
    if normalized == [] then Err(ErrInvalidSecret) else Base32.Decoded(normalized)
  }

  /** The checks of the encoder, in its order, and the fields it then writes. */
  function EncodedFields(a: Account): Result<seq<Field>> {
    match SecretOf(a)
    case Err(e) => Err(e)
    case Ok(secret) =>
      match MigrationAlgorithm(a.algorithm)
      case Err(e) => Err(e)
      case Ok(algorithm) =>
        match MigrationDigits(if a.digits == 0 then 6 else a.digits)
        case Err(e) => Err(e)
        case Ok(digits) => Ok(FieldsOf(a, secret, algorithm, digits))
  }

  function Encoded(a: Account): Result<seq<byte>> {
    match EncodedFields(a)
    case Err(e) => Err(e)
    case Ok(fs) => Ok(WriteFields(fs))
  }

  /** The account's strings are Go strings, also after normalising and joining. */
  predicate Fits(a: Account) {
    |NormalizeSecret(a.secretB32)| <= MAX_INT && |a.issuer| + 1 + |a.labelText| <= MAX_INT
  }

  lemma WriteSnoc(fs: seq<Field>, f: Field)
    ensures WriteFields(fs + [f]) == WriteFields(fs) + WriteField(f)
  {
    assert (fs + [f])[..|fs|] == fs;
  }

  method EncodeMigrationAccount(account: Account) returns (r: Result<seq<byte>>)
    requires Fits(account)
    ensures r == Encoded(account)
  {
    hide Base32.Outcome, Base32.Written, Base32.Decoded, Base32.BytesOf, NormalizeSecret, WriteField, WriteFields;
    var normalizedSecret := NormalizeSecret(account.secretB32);
    if normalizedSecret == [] {
      return Err(ErrInvalidSecret);
    }
    var secretBuf := new byte[|normalizedSecret| * 5 / 8 + 1];
    var n := Base32.DecodeBase32(secretBuf, normalizedSecret);
    Base32.BufferSuffices(normalizedSecret, secretBuf.Length);
    if n.Err? {
      return Err(n.error);
    }
    var digits := account.digits;
    if digits == 0 {
      digits := 6;
    }
    var algorithmEnum := MigrationAlgorithm(account.algorithm);
    if algorithmEnum.Err? {
      return Err(algorithmEnum.error);
    }
    var digitEnum := MigrationDigits(digits);
    if digitEnum.Err? {
      return Err(digitEnum.error);
    }
    var otpTypeEnum := 2;
    if account.typ == HotpType {
      otpTypeEnum := 1;
    }
    var name := account.labelText;
    if account.issuer != [] && !(account.issuer + [COLON] <= name) {
      name := account.issuer + [COLON] + account.labelText;
    }
    var msg := AppendAccountFields(account, secretBuf[..n.value], name,
                                   algorithmEnum.value, digitEnum.value, otpTypeEnum);
    return Ok(msg);
  }

  /** The appends at the end of the encoder. */
  method AppendAccountFields(account: Account, secret: seq<byte>, name: seq<byte>,
                             algorithmEnum: uint64, digitEnum: uint64, otpTypeEnum: uint64)
    returns (msg: seq<byte>)
    requires |secret| <= MAX_INT && |name| <= MAX_INT && |account.issuer| <= MAX_INT
    requires name == JoinName(account.issuer, account.labelText)
    requires otpTypeEnum == if account.typ == HotpType then 1 else 2
    ensures msg == WriteFields(FieldsOf(account, secret, algorithmEnum, digitEnum))
  {
    hide WriteField, WriteFields;
    ghost var fs: seq<Field> := [Bytes(1, secret)];
    WriteNone();
    msg := AppendProtoBytesField([], 1, secret);
    WriteSnoc([], Bytes(1, secret));
    assert [] + fs == fs;
    WriteSnoc(fs, Bytes(2, name));
    msg := AppendProtoBytesField(msg, 2, name);
    fs := fs + [Bytes(2, name)];
    if account.issuer != [] {
      WriteSnoc(fs, Bytes(3, account.issuer));
      msg := AppendProtoBytesField(msg, 3, account.issuer);
      fs := fs + [Bytes(3, account.issuer)];
    }
    WriteSnoc(fs, Scalar(4, algorithmEnum));
    msg := AppendProtoVarintField(msg, 4, algorithmEnum);
    fs := fs + [Scalar(4, algorithmEnum)];
    WriteSnoc(fs, Scalar(5, digitEnum));
    msg := AppendProtoVarintField(msg, 5, digitEnum);
    fs := fs + [Scalar(5, digitEnum)];
    WriteSnoc(fs, Scalar(6, otpTypeEnum));
    msg := AppendProtoVarintField(msg, 6, otpTypeEnum);
    fs := fs + [Scalar(6, otpTypeEnum)];
    if account.typ == HotpType && account.counter != 0 {
      WriteSnoc(fs, Scalar(7, account.counter));
      msg := AppendProtoVarintField(msg, 7, account.counter);
      fs := fs + [Scalar(7, account.counter)];
    }
    if account.typ == HotpType && account.counter == 0 {
      WriteSnoc(fs, Scalar(7, 0));
      msg := AppendProtoVarintField(msg, 7, 0);
      fs := fs + [Scalar(7, 0)];
    }
    assert fs == FieldsOf(account, secret, algorithmEnum, digitEnum);
  }

  lemma WriteNone()
    ensures WriteFields([]) == []
  {
  }
}
