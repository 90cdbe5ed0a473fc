/** Laws of the payload codec: parsing composes over concatenation, and the exact conditions
    under which accounts and options survive building and parsing. */
module PayloadLaws {
  import opened Wrappers
  import opened Words
  import opened Varint
  import opened ProtoFields
  import opened AccountCodec
  import opened PayloadCodec
  import AccountLaws

  function Parse(s: seq<byte>): Result<Payload> {
    ParseFrom(s, EMPTY)
  }

  // ---------- parsing is a fold over the fields ----------

  function Fold(fs: seq<Field>, p: Payload): Result<Payload>
    requires AllWellKinded(PayloadMessage, fs)
  {
    if fs == [] then Ok(p)
    else match Fold(fs[..|fs| - 1], p)
         case Err(e) => Err(e)
         case Ok(q) => ApplyPayloadField(q, fs[|fs| - 1])
  }

  lemma FoldNone(p: Payload)
    ensures Fold([], p) == Ok(p)
  {
  }

  lemma FoldSnoc(fs: seq<Field>, f: Field, p: Payload)
    requires AllWellKinded(PayloadMessage, fs) && WellKinded(PayloadMessage, f)
    ensures Fold(fs + [f], p) == match Fold(fs, p) case Err(e) => Err(e) case Ok(q) => ApplyPayloadField(q, f)
  {
    assert (fs + [f])[..|fs|] == fs;
  }

  lemma {:induction false} FoldConcat(fs: seq<Field>, gs: seq<Field>, p: Payload)
    requires AllWellKinded(PayloadMessage, fs) && AllWellKinded(PayloadMessage, gs)
    ensures Fold(fs + gs, p) == match Fold(fs, p) case Err(e) => Err(e) case Ok(q) => Fold(gs, q)
  {
    hide ApplyPayloadField;
    if gs == [] {
      assert fs + gs == fs;
      if Fold(fs, p).Ok? {
        FoldNone(Fold(fs, p).value);
      }
    } else {
      var front, last := gs[..|gs| - 1], gs[|gs| - 1];
      FoldConcat(fs, front, p);
      FoldSnoc(fs + front, last, p);
      assert fs + gs == (fs + front) + [last];
    }
  }

  /** On every byte string the parser is the fold over the fields scanned; an unreadable field
      is an error after the fields before it. */
  lemma {:induction false} ParseIsFold(s: seq<byte>, p: Payload)
    ensures var r := Scan(PayloadMessage, s);
            ParseFrom(s, p) == match Fold(r.fields, p)
                               case Err(e) => Err(e)
                               case Ok(q) => if r.complete then Ok(q) else Err(ErrInvalidMigration)
    decreases |s|
  {
    hide ReadField, ApplyPayloadField, Fold;
    FoldNone(p);
    if s != [] && ReadField(PayloadMessage, s).Some? {
      var (f, n) := ReadField(PayloadMessage, s).value;
      FoldConcat([f], Scan(PayloadMessage, s[n..]).fields, p);
      FoldSnoc([], f, p);
      assert [] + [f] == [f];
      if ApplyPayloadField(p, f).Ok? {
        ParseIsFold(s[n..], ApplyPayloadField(p, f).value);
      }
    }
  }

  // ---------- concatenation ----------

  ghost predicate Has(fs: seq<Field>, num: nat) {
    exists f :: f in fs && f.num == num
  }

  /** q read after p: accounts appended, each scalar the last one given. */
  ghost function Merged(p: Payload, q: Payload, fs: seq<Field>): Payload {
    Payload(p.accounts + q.accounts,
            if Has(fs, 2) then q.version else p.version,
            if Has(fs, 3) then q.batchSize else p.batchSize,
            if Has(fs, 4) then q.batchIndex else p.batchIndex,
            if Has(fs, 5) then q.batchID else p.batchID)
  }

  lemma HasSnoc(fs: seq<Field>, f: Field, num: nat)
    ensures Has(fs + [f], num) <==> Has(fs, num) || f.num == num
  {
    assert f in fs + [f];
    assert forall g :: g in fs ==> g in fs + [f];
  }

  /** Folding onto p is folding onto the empty payload and merging. */
  lemma {:induction false} FoldOnto(fs: seq<Field>, p: Payload)
    requires AllWellKinded(PayloadMessage, fs)
    ensures Fold(fs, p) == match Fold(fs, EMPTY) case Err(e) => Err(e) case Ok(q) => Ok(Merged(p, q, fs))
  {
    hide DecodeFrom;
    if fs == [] {
      assert p.accounts + [] == p.accounts;
    } else {
      var front, last := fs[..|fs| - 1], fs[|fs| - 1];
      FoldOnto(front, p);
      assert fs == front + [last];
      forall num ensures Has(fs, num) <==> Has(front, num) || last.num == num {
        HasSnoc(front, last, num);
      }
      if Fold(front, EMPTY).Ok? {
        MergeStep(p, Fold(front, EMPTY).value, front, last);
      }
    }
  }

  lemma MergeStep(p: Payload, q: Payload, front: seq<Field>, last: Field)
    requires WellKinded(PayloadMessage, last)
    ensures ApplyPayloadField(Merged(p, q, front), last) ==
            match ApplyPayloadField(q, last)
            case Err(e) => Err(e)
            case Ok(r) => Ok(Merged(p, r, front + [last]))
  {
    hide DecodeFrom, Has;
    forall num ensures Has(front + [last], num) <==> Has(front, num) || last.num == num {
      HasSnoc(front, last, num);
    }
    if last.num == 1 && DecodeFrom(last.bytes, FRESH).Ok? {
      var a := DecodeFrom(last.bytes, FRESH).value;
      assert (p.accounts + q.accounts) + [a] == p.accounts + (q.accounts + [a]);
    }
  }

  /** Payloads concatenate: after a payload that parses, another one parses to the appended
      accounts with last-wins scalars, and fails with the error it fails with alone. */
  lemma ParseConcat(s: seq<byte>, t: seq<byte>)
    requires Parse(s).Ok?
    ensures Parse(s + t) == match Parse(t)
                            case Err(e) => Err(e)
                            case Ok(q) => Ok(Merged(Parse(s).value, q, Scan(PayloadMessage, t).fields))
  {
    hide Scan, ParseFrom, Fold;
    ParseIsFold(s, EMPTY);
    ParseIsFold(t, EMPTY);
    ParseIsFold(s + t, EMPTY);
    ScanConcat(PayloadMessage, s, t);
    var fs, gs := Scan(PayloadMessage, s).fields, Scan(PayloadMessage, t).fields;
    FoldConcat(fs, gs, EMPTY);
    FoldOnto(gs, Parse(s).value);
  }

  /** A readable unknown field may be inserted between any two fields, whatever follows. */
  lemma UnknownFieldIgnored(s: seq<byte>, u: seq<byte>, t: seq<byte>)
    requires Scan(PayloadMessage, s).complete
    requires ReadField(PayloadMessage, u).Some?
    requires var (f, n) := ReadField(PayloadMessage, u).value; n == |u| && !Known(PayloadMessage, f.num)
    ensures Parse(s + u + t) == Parse(s + t)
  {
    hide ReadField, ApplyPayloadField, ParseFrom, Fold;
    var (f, n) := ReadField(PayloadMessage, u).value;
    assert u[n..] == [] && Scan(PayloadMessage, []) == ScanResult([], true);
    assert Scan(PayloadMessage, u) == ScanResult([f], true);
    ScanConcat(PayloadMessage, s, u);
    ScanConcat(PayloadMessage, s + u, t);
    ScanConcat(PayloadMessage, s, t);
    ParseIsFold(s + u + t, EMPTY);
    ParseIsFold(s + t, EMPTY);
    var fs, gs := Scan(PayloadMessage, s).fields, Scan(PayloadMessage, t).fields;
    FoldSnoc(fs, f, EMPTY);
    SkippedField(f);
    FoldConcat(fs + [f], gs, EMPTY);
    FoldConcat(fs, gs, EMPTY);
  }

  lemma SkippedField(f: Field)
    requires !Known(PayloadMessage, f.num)
    ensures forall p :: ApplyPayloadField(p, f) == Ok(p)
  {
  }

  // ---------- parsing what was built ----------

  /** Each account encoded and decoded again, up to the first that fails to decode. */
  function Redecoded(accounts: seq<Account>): Result<seq<Account>>
    requires EncodedAccounts(accounts).Ok?
  {
    if accounts == [] then Ok([])
    else match Redecoded(accounts[..|accounts| - 1])
         case Err(e) => Err(e)
         case Ok(rs) =>
           match AccountLaws.Decode(Encoded(accounts[|accounts| - 1]).value)
           case Err(e) => Err(e)
           case Ok(a) => Ok(rs + [a])
  }

  lemma {:induction false} FoldOfAccounts(accounts: seq<Account>)
    requires EncodedAccounts(accounts).Ok?
    ensures AllWellKinded(PayloadMessage, EncodedAccounts(accounts).value)
    ensures Fold(EncodedAccounts(accounts).value, EMPTY) ==
            match Redecoded(accounts) case Err(e) => Err(e) case Ok(rs) => Ok(EMPTY.(accounts := rs))
  {
    hide Encoded, DecodeFrom;
    if accounts != [] {
      var front, last := accounts[..|accounts| - 1], accounts[|accounts| - 1];
      FoldOfAccounts(front);
      FoldSnoc(EncodedAccounts(front).value, Bytes(1, Encoded(last).value), EMPTY);
    }
  }

  lemma {:induction false} RedecodedExactly(accounts: seq<Account>)
    requires EncodedAccounts(accounts).Ok? && AllFit(accounts)
    ensures Redecoded(accounts) == Ok(accounts) <==> forall a :: a in accounts ==> AccountLaws.Canonical(a)
    ensures Redecoded(accounts).Ok? ==> |Redecoded(accounts).value| == |accounts|
  {
    hide Encoded, AccountLaws.Decode, AccountLaws.Canonical;
    if accounts != [] {
      var front, last := accounts[..|accounts| - 1], accounts[|accounts| - 1];
      assert accounts == front + [last];
      RedecodedExactly(front);
      AccountLaws.RoundTripExactly(last);
      if Redecoded(front).Ok? && AccountLaws.Decode(Encoded(last).value).Ok? {
        var rs, a := Redecoded(front).value, AccountLaws.Decode(Encoded(last).value).value;
        assert rs + [a] == accounts <==> rs == front && a == last by {
          if rs + [a] == accounts {
            assert (rs + [a])[..|rs|] == rs && (rs + [a])[|rs|] == a;
          }
        }
      }
    }
  }

  lemma {:induction false} CanonicalEncode(accounts: seq<Account>)
    requires AllFit(accounts) && forall a :: a in accounts ==> AccountLaws.Canonical(a)
    ensures EncodedAccounts(accounts).Ok?
  {
    hide Encoded, AccountLaws.Decode, AccountLaws.Canonical;
    if accounts != [] {
      CanonicalEncode(accounts[..|accounts| - 1]);
      AccountLaws.RoundTripExactly(accounts[|accounts| - 1]);
    }
  }

  lemma FoldOptional(num: nat, v: int32, p: Payload)
    requires 3 <= num <= 5
    ensures AllWellKinded(PayloadMessage, Optional(num, v))
    ensures Fold(Optional(num, v), p) ==
            if v < 0 then Err(ErrInvalidMigration)
            else if v == 0 then Ok(p)
            else Ok(if num == 3 then p.(batchSize := v) else if num == 4 then p.(batchIndex := v) else p.(batchID := v))
  {
    FoldNone(p);
    FoldSnoc([], Scalar(num, Word(v)), p);
    assert [] + [Scalar(num, Word(v))] == [Scalar(num, Word(v))];
  }

  predicate NonNegative(o: Options) {
    o.batchSize >= 0 && o.batchIndex >= 0 && o.batchID >= 0
  }

  lemma FoldOfTrailer(o: Options, rs: seq<Account>)
    requires o.version > 0
    ensures AllWellKinded(PayloadMessage, Trailer(o))
    ensures Fold(Trailer(o), EMPTY.(accounts := rs)) ==
            if NonNegative(o) then Ok(Payload(rs, o.version, o.batchSize, o.batchIndex, o.batchID))
            else Err(ErrInvalidMigration)
  {
    hide Fold, Optional;
    var p := EMPTY.(accounts := rs);
    var f2 := Scalar(2, Word(o.version));
    FoldNone(p);
    FoldSnoc([], f2, p);
    assert [] + [f2] == [f2];
    var p2 := p.(version := o.version);
    var p3 := p2.(batchSize := o.batchSize);
    var p4 := p3.(batchIndex := o.batchIndex);
    FoldOptional(3, o.batchSize, p2);
    FoldOptional(4, o.batchIndex, p3);
    FoldOptional(5, o.batchID, p4);
    FoldConcat([f2], Optional(3, o.batchSize), p);
    FoldConcat([f2] + Optional(3, o.batchSize), Optional(4, o.batchIndex), p);
    FoldConcat([f2] + Optional(3, o.batchSize) + Optional(4, o.batchIndex), Optional(5, o.batchID), p);
  }

  /** Parsing a built payload, for any accounts and options that build. */
  lemma ParseBuilt(accounts: seq<Account>, opts: Option<Options>)
    requires AllFit(accounts) && EncodedAccounts(accounts).Ok?
    ensures var o := Effective(opts);
            Parse(Built(accounts, opts).value) ==
            match Redecoded(accounts)
            case Err(e) => Err(e)
            case Ok(rs) => if NonNegative(o) then Ok(Payload(rs, o.version, o.batchSize, o.batchIndex, o.batchID))
                           else Err(ErrInvalidMigration)
  {
    hide Fold, Trailer, WriteFields, ParseFrom, Scan, Encoded, Redecoded;
    var fs, o := EncodedAccounts(accounts).value, Effective(opts);
    FoldOfAccounts(accounts);
    AllWritable(accounts, o);
    ScanWritten(PayloadMessage, fs + Trailer(o));
    ParseIsFold(WriteFields(fs + Trailer(o)), EMPTY);
    if Redecoded(accounts).Ok? {
      FoldOfTrailer(o, Redecoded(accounts).value);
    } else {
      FoldOfTrailer(o, []);
    }
    FoldConcat(fs, Trailer(o), EMPTY);
  }

  lemma {:induction false} AllWritable(accounts: seq<Account>, o: Options)
    requires AllFit(accounts) && EncodedAccounts(accounts).Ok?
    ensures forall f :: f in EncodedAccounts(accounts).value + Trailer(o) ==> Writable(PayloadMessage, f)
  {
    hide Encoded;
    if accounts != [] {
      AllWritable(accounts[..|accounts| - 1], o);
    }
  }

  /** Build then parse returns exactly the accounts and the options in force, if and only if
      every account is canonical and no batch field is negative. */
  lemma BuildParseExactly(accounts: seq<Account>, opts: Option<Options>)
    requires AllFit(accounts)
    ensures var o := if opts.Some? then opts.value else Options(0, 0, 0, 0);
            (Built(accounts, opts).Ok? &&
             Parse(Built(accounts, opts).value) ==
             Ok(Payload(accounts, if o.version >= 1 then o.version else 1, o.batchSize, o.batchIndex, o.batchID)))
            <==> (forall a :: a in accounts ==> AccountLaws.Canonical(a)) && NonNegative(o)
  {
    hide Trailer, WriteFields, ParseFrom, Encoded, Redecoded, AccountLaws.Canonical;
    if EncodedAccounts(accounts).Ok? {
      ParseBuilt(accounts, opts);
      RedecodedExactly(accounts);
    } else if forall a :: a in accounts ==> AccountLaws.Canonical(a) {
      CanonicalEncode(accounts);
    }
  }

  /** Concretely, a negative batch identifier builds and then does not parse. */
  lemma NegativeBatchDoesNotParse()
    ensures var opts := Some(Options(1, 0, 0, -1));
            Built([], opts).Ok? && Parse(Built([], opts).value) == Err(ErrInvalidMigration)
  {
    ParseBuilt([], Some(Options(1, 0, 0, -1)));
  }

  // ---------- the payload's bytes ----------

  /** Each account's encoding behind tag 0A and its length. */
  function AccountsBytes(accounts: seq<Account>): seq<byte>
    requires EncodedAccounts(accounts).Ok?
  {
    if accounts == [] then []
    else AccountsBytes(accounts[..|accounts| - 1]) +
         AccountLaws.Delimited(0x0A, Encoded(accounts[|accounts| - 1]).value)
  }

  /** A batch field is left out when zero; a negative one is sign-extended to 64 bits. */
  function Batch(tag: byte, v: int32): seq<byte> {
    if v == 0 then [] else [tag] + VarintBytes(if v < 0 then v + 0x1_0000_0000_0000_0000 else v)
  }

  /** The bytes of everything that builds: accounts, version behind tag 10, then batch size, index
      and identifier behind tags 18, 20 and 28. */
  lemma BuiltBytesAre(accounts: seq<Account>, opts: Option<Options>)
    requires EncodedAccounts(accounts).Ok?
    ensures var version := if opts.Some? && opts.value.version > 0 then opts.value.version else 1;
            Built(accounts, opts) == Ok(
              AccountsBytes(accounts) + ([0x10] + VarintBytes(version))
              + (if opts.Some? then Batch(0x18, opts.value.batchSize) + Batch(0x20, opts.value.batchIndex)
                                    + Batch(0x28, opts.value.batchID) else []))
  {
    hide Encoded, WriteFields, WriteField, Optional, Batch, AccountsBytes, VarintBytes;
    var fs, o := EncodedAccounts(accounts).value, Effective(opts);
    var f2, f3, f4, f5 := [Scalar(2, Word(o.version))], Optional(3, o.batchSize), Optional(4, o.batchIndex),
                          Optional(5, o.batchID);
    assert fs + Trailer(o) == fs + f2 + f3 + f4 + f5;
    AccountLaws.WriteConcat(fs + f2 + f3 + f4, f5);
    AccountLaws.WriteConcat(fs + f2 + f3, f4);
    AccountLaws.WriteConcat(fs + f2, f3);
    AccountLaws.WriteConcat(fs, f2);
    AccountsWritten(accounts);
    AccountLaws.WriteOne(Scalar(2, Word(o.version)));
    AccountLaws.WrittenScalar(2, Word(o.version));
    BatchWritten(3, 0x18, o.batchSize);
    BatchWritten(4, 0x20, o.batchIndex);
    BatchWritten(5, 0x28, o.batchID);
    if opts.None? {
      NoBatch();
    }
    var head := AccountsBytes(accounts) + ([0x10] + VarintBytes(o.version));
    var b3, b4, b5 := Batch(0x18, o.batchSize), Batch(0x20, o.batchIndex), Batch(0x28, o.batchID);
    assert head + b3 + b4 + b5 == head + (b3 + b4 + b5);
  }

  lemma NoBatch()
    ensures forall tag: byte :: Batch(tag, 0) == []
  {
  }

  lemma BatchWritten(num: nat, tag: byte, v: int32)
    requires 3 <= num <= 5 && tag == 8 * num
    ensures WriteFields(Optional(num, v)) == Batch(tag, v)
  {
    hide WriteFields, WriteField, VarintBytes;
    WriteNone();
    AccountLaws.WriteOne(Scalar(num, Word(v)));
    AccountLaws.WrittenScalar(num, Word(v));
  }

  lemma {:induction false} AccountsWritten(accounts: seq<Account>)
    requires EncodedAccounts(accounts).Ok?
    ensures WriteFields(EncodedAccounts(accounts).value) == AccountsBytes(accounts)
  {
    hide Encoded, WriteFields, WriteField, AccountLaws.Delimited;
    WriteNone();
    if accounts != [] {
      var front, last := accounts[..|accounts| - 1], accounts[|accounts| - 1];
      AccountsWritten(front);
      WriteSnoc(EncodedAccounts(front).value, Bytes(1, Encoded(last).value));
      AccountLaws.WrittenBytes(1, Encoded(last).value);
    }
  }

  /** Building fails with the error of the first account that does not encode. */
  lemma BuildErrorIs(accounts: seq<Account>, opts: Option<Options>, i: nat)
    requires i <= |accounts| && forall j :: 0 <= j < i ==> Encoded(accounts[j]).Ok?
    requires i < |accounts| ==> Encoded(accounts[i]).Err?
    ensures if i < |accounts| then Built(accounts, opts) == Err(Encoded(accounts[i]).error)
            else Built(accounts, opts).Ok?
  {
    hide Encoded, WriteFields;
    PrefixEncodes(accounts, i);
    if i < |accounts| {
      FirstFailure(accounts, i);
    } else {
      assert accounts[..i] == accounts;
    }
  }

  lemma {:induction false} PrefixEncodes(accounts: seq<Account>, i: nat)
    requires i <= |accounts| && forall j :: 0 <= j < i ==> Encoded(accounts[j]).Ok?
    ensures EncodedAccounts(accounts[..i]).Ok?
  {
    hide Encoded;
    if i > 0 {
      PrefixEncodes(accounts, i - 1);
      assert accounts[..i][..i - 1] == accounts[..i - 1];
    }
  }

  // ---------- the parsed payload, field by field ----------

  /** A field that the parser rejects: an account that does not decode, or a number above the
      largest 32-bit integer. */
  predicate Unacceptable(f: Field) {
    (f.num == 1 && f.Bytes? && AccountLaws.Decode(f.bytes).Err?) ||
    (2 <= f.num <= 5 && f.Scalar? && f.value > 0x7FFF_FFFF)
  }

  /** The accounts of fields numbered 1, in order. */
  function AccountsOf(fs: seq<Field>): seq<Account>
    requires forall f :: f in fs ==> WellKinded(PayloadMessage, f) && !Unacceptable(f)
  {
    if fs == [] then []
    else
      var last := fs[|fs| - 1];
      assert WellKinded(PayloadMessage, last) && !Unacceptable(last);
      AccountsOf(fs[..|fs| - 1]) + (if last.num == 1 then [AccountLaws.Decode(last.bytes).value] else [])
  }

  function LastNumber(fs: seq<Field>, num: nat): nat
    requires AllWellKinded(PayloadMessage, fs) && 2 <= num <= 5
  {
    match AccountLaws.Last(fs, num)
    case None => 0
    case Some(f) => f.value
  }

  lemma {:induction false} FoldIs(fs: seq<Field>)
    requires AllWellKinded(PayloadMessage, fs)
    ensures Fold(fs, EMPTY).Ok? <==> forall f :: f in fs ==> !Unacceptable(f)
    ensures (forall f :: f in fs ==> !Unacceptable(f)) ==>
              LastNumber(fs, 2) <= 0x7FFF_FFFF && LastNumber(fs, 3) <= 0x7FFF_FFFF &&
              LastNumber(fs, 4) <= 0x7FFF_FFFF && LastNumber(fs, 5) <= 0x7FFF_FFFF &&
              Fold(fs, EMPTY) == Ok(Payload(AccountsOf(fs), LastNumber(fs, 2), LastNumber(fs, 3),
                                            LastNumber(fs, 4), LastNumber(fs, 5)))
  {
    hide DecodeFrom, AccountLaws.Last;
    if fs == [] {
      assert forall num :: AccountLaws.Last([], num) == None by { LastNone(); }
    } else {
      var front, last := fs[..|fs| - 1], fs[|fs| - 1];
      assert fs == front + [last];
      assert last in fs && forall f :: f in fs <==> f in front || f == last;
      FoldIs(front);
      FoldSnoc(front, last, EMPTY);
      forall num: nat ensures AccountLaws.Last(fs, num) ==
                              if last.num == num then Some(last) else AccountLaws.Last(front, num) {
        AccountLaws.LastSnoc(front, last, num);
      }
      if forall f :: f in fs ==> !Unacceptable(f) {
        assert !Unacceptable(last);
        forall num | 2 <= num <= 5
          ensures LastNumber(fs, num) == if last.num == num then last.value else LastNumber(front, num)
        {
        }
        var accounts := AccountsOf(front);
        assert AccountsOf(fs) ==
               if last.num == 1 then accounts + [AccountLaws.Decode(last.bytes).value] else accounts;
      }
    }
  }

  lemma LastNone()
    ensures forall num :: AccountLaws.Last([], num) == None
  {
  }

  /** What parsing returns, for every byte string: it succeeds exactly when every field is readable
      and acceptable, with the accounts in order and the last number of each kind, zero where
      there is none. */
  lemma ParsedIs(s: seq<byte>)
    ensures var r := Scan(PayloadMessage, s);
            (Parse(s).Ok? <==> r.complete && forall f :: f in r.fields ==> !Unacceptable(f))
    ensures Parse(s).Ok? ==>
              var fs := Scan(PayloadMessage, s).fields;
              && (forall f :: f in fs ==> !Unacceptable(f))
              && Parse(s).value.accounts == AccountsOf(fs) && Parse(s).value.version == LastNumber(fs, 2)
              && Parse(s).value.batchSize == LastNumber(fs, 3) && Parse(s).value.batchIndex == LastNumber(fs, 4)
              && Parse(s).value.batchID == LastNumber(fs, 5)
  {
    hide Scan, ParseFrom, Fold, AccountLaws.Decode, LastNumber, AccountsOf;
    ParseIsFold(s, EMPTY);
    FoldIs(Scan(PayloadMessage, s).fields);
  }
}
