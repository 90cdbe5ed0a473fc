/** migration.go: the migration payload, as the byte string inside the URI's data parameter. */
module PayloadCodec {
  import opened Wrappers
  import opened Words
  import opened Varint
  import opened ProtoFields
  import opened AccountCodec

  const MAX_INT32: nat := 0x7FFF_FFFF

  datatype Options = Options(version: int32, batchSize: int32, batchIndex: int32, batchID: int32)

  datatype Payload = Payload(
    accounts: seq<Account>, version: int32, batchSize: int32, batchIndex: int32, batchID: int32)

  const EMPTY: Payload := Payload([], 0, 0, 0, 0)

  // ---------- building ----------

  /** The options in force: version 1 unless a positive one is given, batch fields as given. */
  function Effective(opts: Option<Options>): Options {
    match opts
    case None => Options(1, 0, 0, 0)
    case Some(o) => o.(version := if o.version > 0 then o.version else 1)
  }

  /** uint64(v) of an int32: negative values are sign-extended. */
  function Word(v: int32): uint64 {
    if v < 0 then v + TWO_64 else v
  }

  function EncodedAccounts(accounts: seq<Account>): Result<seq<Field>> {
    if accounts == [] then Ok([])
    else match EncodedAccounts(accounts[..|accounts| - 1])
         case Err(e) => Err(e)
         case Ok(fs) =>
           match Encoded(accounts[|accounts| - 1])
           case Err(e) => Err(e)
           case Ok(b) => Ok(fs + [Bytes(1, b)])
  }

  function Optional(num: nat, v: int32): seq<Field> {
    if v != 0 then [Scalar(num, Word(v))] else []
  }

  function Trailer(o: Options): seq<Field> {
    [Scalar(2, Word(o.version))] + Optional(3, o.batchSize) + Optional(4, o.batchIndex) + Optional(5, o.batchID)
  }

  /** The payload bytes, or the error of the first account that does not encode. */
  function Built(accounts: seq<Account>, opts: Option<Options>): Result<seq<byte>> {
    match EncodedAccounts(accounts)
    case Err(e) => Err(e)
    case Ok(fs) => Ok(WriteFields(fs + Trailer(Effective(opts))))
  }

  /** Every account's strings and encoding are within the size of a Go slice. */
  predicate AllFit(accounts: seq<Account>) {
    forall a :: a in accounts ==> Fits(a) && (Encoded(a).Ok? ==> |Encoded(a).value| <= MAX_INT)
  }

  method BuildPayload(accounts: seq<Account>, opts: Option<Options>) returns (r: Result<seq<byte>>)
    requires AllFit(accounts)
    ensures r == Built(accounts, opts)
  {
    hide Encoded, WriteField, WriteFields;
    var payload: seq<byte> := [];
    ghost var fs: seq<Field> := [];
    WriteNone();
    for i := 0 to |accounts|
      invariant EncodedAccounts(accounts[..i]) == Ok(fs) && payload == WriteFields(fs)
    {
      assert accounts[..i + 1][..i] == accounts[..i];
      var accountBytes := EncodeMigrationAccount(accounts[i]);
      if accountBytes.Err? {
        FirstFailure(accounts, i);
        return Err(accountBytes.error);
      }
      WriteSnoc(fs, Bytes(1, accountBytes.value));
      payload := AppendProtoBytesField(payload, 1, accountBytes.value);
      fs := fs + [Bytes(1, accountBytes.value)];
    }
    assert accounts[..|accounts|] == accounts;
    payload := AppendTrailer(payload, opts, fs);
    return Ok(payload);
  }

  lemma {:induction false} FirstFailure(accounts: seq<Account>, i: nat)
    requires i < |accounts| && EncodedAccounts(accounts[..i]).Ok? && Encoded(accounts[i]).Err?
    ensures EncodedAccounts(accounts) == Err(Encoded(accounts[i]).error)
  {
    hide Encoded;
    var front := accounts[..|accounts| - 1];
    if i < |front| {
      assert front[..i] == accounts[..i];
      FirstFailure(front, i);
    }
  }

  /** The appends after the accounts. */
  method AppendTrailer(dst: seq<byte>, opts: Option<Options>, ghost before: seq<Field>) returns (payload: seq<byte>)
    requires dst == WriteFields(before)
    ensures payload == WriteFields(before + Trailer(Effective(opts)))
  {
    hide WriteField, WriteFields;
    var version: int32 := 1;
    var batchSize, batchIndex, batchID: int32 := 0, 0, 0;
    if opts.Some? {
      if opts.value.version > 0 {
        version := opts.value.version;
      }
      batchSize, batchIndex, batchID := opts.value.batchSize, opts.value.batchIndex, opts.value.batchID;
    }
    ghost var fs := before;
    WriteSnoc(fs, Scalar(2, Word(version)));
    payload := AppendProtoVarintField(dst, 2, Word(version));
    fs := fs + [Scalar(2, Word(version))];
    if batchSize != 0 {
      WriteSnoc(fs, Scalar(3, Word(batchSize)));
      payload := AppendProtoVarintField(payload, 3, Word(batchSize));
      fs := fs + [Scalar(3, Word(batchSize))];
    }
    if batchIndex != 0 {
      WriteSnoc(fs, Scalar(4, Word(batchIndex)));
      payload := AppendProtoVarintField(payload, 4, Word(batchIndex));
      fs := fs + [Scalar(4, Word(batchIndex))];
    }
    if batchID != 0 {
      WriteSnoc(fs, Scalar(5, Word(batchID)));
      payload := AppendProtoVarintField(payload, 5, Word(batchID));
      fs := fs + [Scalar(5, Word(batchID))];
    }
    assert fs == before + Trailer(Effective(opts));
  }

  // ---------- parsing, as a function of the remaining bytes ----------

  function ToInt32(v: uint64): Result<int32> {
    if v > MAX_INT32 then Err(ErrInvalidMigration) else Ok(v)
  }

  function ApplyPayloadField(p: Payload, f: Field): Result<Payload>
    requires WellKinded(PayloadMessage, f)
  {
    if f.num == 1 then
      match DecodeFrom(f.bytes, FRESH)
      case Err(e) => Err(e)
      case Ok(a) => Ok(p.(accounts := p.accounts + [a]))
    else if 2 <= f.num <= 5 then
      match ToInt32(f.value)
      case Err(e) => Err(e)
      case Ok(v) => Ok(if f.num == 2 then p.(version := v)
                       else if f.num == 3 then p.(batchSize := v)
                       else if f.num == 4 then p.(batchIndex := v)
                       else p.(batchID := v))
    else Ok(p)
  }

  function ParseFrom(s: seq<byte>, p: Payload): Result<Payload>
    decreases |s|
  {
    if s == [] then Ok(p)
    else match ReadField(PayloadMessage, s)
         case None => Err(ErrInvalidMigration)
         case Some((f, n)) =>
           match ApplyPayloadField(p, f)
           case Err(e) => Err(e)
           case Ok(q) => ParseFrom(s[n..], q)
  }

  lemma ParseUnfolds(s: seq<byte>, p: Payload)
    ensures s == [] ==> ParseFrom(s, p) == Ok(p)
    ensures s != [] ==>
              var r := ReadField(PayloadMessage, s);
              if r.None? then ParseFrom(s, p) == Err(ErrInvalidMigration)
              else if ApplyPayloadField(p, r.value.0).Err? then
                ParseFrom(s, p) == Err(ApplyPayloadField(p, r.value.0).error)
              else ParseFrom(s, p) == ParseFrom(s[r.value.1..], ApplyPayloadField(p, r.value.0).value)
  {
  }

  method ParsePayload(decoded: seq<byte>) returns (r: Result<Payload>)
    requires |decoded| <= MAX_INT
    ensures r == ParseFrom(decoded, EMPTY)
  {
    hide ParseFrom, ReadVarint, ReadDelimited, DecodeFrom;
    var payload := EMPTY;
    var i := 0;
    while i < |decoded|
      invariant 0 <= i <= |decoded|
      invariant ParseFrom(decoded[i..], payload) == ParseFrom(decoded, EMPTY)
    {
      ParseUnfolds(decoded[i..], payload);
      var head := ReadProtoVarint(decoded, i);
      if head.Err? {
        return Err(ErrInvalidMigration);
      }
      ghost var start := i;
      var (tag, afterTag) := head.value;
      var fieldNum, wireType := tag / 8, tag % 8;
      assert decoded[start..][afterTag - start..] == decoded[afterTag..];
      if fieldNum == 1 {
        if wireType != 2 {
          return Err(ErrInvalidMigration);
        }
        var value := ReadProtoBytes(decoded, afterTag);
        if value.Err? {
          return Err(ErrInvalidMigration);
        }
        var account := DecodeMigrationAccount(value.value.0);
        if account.Err? {
          return Err(account.error);
        }
        payload := payload.(accounts := payload.accounts + [account.value]);
        i := value.value.1;
      } else if 2 <= fieldNum <= 5 {
        var value := ReadProtoScalar(decoded, afterTag, wireType);
        if value.Err? {
          return Err(ErrInvalidMigration);
        }
        var v := ToInt32(value.value.0);
        if v.Err? {
          return Err(ErrInvalidMigration);
        }
        if fieldNum == 2 {
          payload := payload.(version := v.value);
        } else if fieldNum == 3 {
          payload := payload.(batchSize := v.value);
        } else if fieldNum == 4 {
          payload := payload.(batchIndex := v.value);
        } else {
          payload := payload.(batchID := v.value);
        }
        i := value.value.1;
      } else {
        var next := SkipProtoField(decoded, afterTag, wireType);
        assert next == match ReadContents(UnknownMode(wireType), fieldNum, decoded[afterTag..])
                       case Some(p) => Ok(afterTag + p.1)
                       case None => Err(ErrInvalidMigration);
        if next.Err? {
          return Err(ErrInvalidMigration);
        }
        i := next.value;
      }
      assert decoded[start..][i - start..] == decoded[i..];
    }
    ParseUnfolds(decoded[i..], payload);
    return Ok(payload);
  }
}
