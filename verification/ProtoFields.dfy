/** migration.go: Protocol Buffers fields. A message is scanned one tagged field at a time; how
    a field is read depends on its number, its wire type and the message it belongs to. */
module ProtoFields {
  import opened Wrappers
  import opened Words
  import opened Varint

  datatype Field =
    | Scalar(num: nat, value: uint64)
    | Bytes(num: nat, bytes: seq<byte>)

  datatype Message = AccountMessage | PayloadMessage

  datatype Mode = ReadScalar | ReadBytes | Reject

  function UnknownMode(wire: nat): Mode {
    if wire == 0 then ReadScalar else if wire == 2 then ReadBytes else Reject
  }

  /** The reader each `switch` picks. An account reads fields 1 to 3 as bytes whatever their
      wire type; a payload checks that field 1 has wire type 2. */
  function FieldMode(m: Message, num: nat, wire: nat): Mode {
    match m
    case AccountMessage =>
      if 1 <= num <= 3 then ReadBytes
      else if 4 <= num <= 7 then (if wire == 0 then ReadScalar else Reject)
      else UnknownMode(wire)
    case PayloadMessage =>
      if num == 1 then (if wire == 2 then ReadBytes else Reject)
      else if 2 <= num <= 5 then (if wire == 0 then ReadScalar else Reject)
      else UnknownMode(wire)
  }

  predicate Known(m: Message, num: nat) {
    match m
    case AccountMessage => 1 <= num <= 7
    case PayloadMessage => 1 <= num <= 5
  }

  /** A field whose kind its message accepts for its number. */
  predicate WellKinded(m: Message, f: Field) {
    match m
    case AccountMessage => (1 <= f.num <= 3 ==> f.Bytes?) && (4 <= f.num <= 7 ==> f.Scalar?)
    case PayloadMessage => (f.num == 1 ==> f.Bytes?) && (2 <= f.num <= 5 ==> f.Scalar?)
  }

  ghost predicate AllWellKinded(m: Message, fs: seq<Field>) {
    forall f :: f in fs ==> WellKinded(m, f)
  }

  // ---------- reading, as functions of the bytes from the current offset on ----------

  function ReadDelimited(s: seq<byte>): (r: Option<(seq<byte>, nat)>)
    ensures r.Some? ==> 1 <= r.value.1 <= |s|
  {
    match ReadVarint(s)
    case None => None
    case Some((size, n)) =>
      if size > MAX_INT || n + size > |s| then None else Some((s[n..n + size], n + size))
  }

  /** The contents of a field read in a given mode, and the length. */
  function ReadContents(mode: Mode, num: nat, s: seq<byte>): (r: Option<(Field, nat)>)
    ensures r.Some? ==> 1 <= r.value.1 <= |s| && r.value.0.num == num
    ensures r.Some? ==> (r.value.0.Bytes? <==> mode == ReadBytes) && (r.value.0.Scalar? <==> mode == ReadScalar)
  {
    match mode
    case ReadScalar => (
      match ReadVarint(s)
      case None => None
      case Some((v, n)) => Some((Scalar(num, v), n)))
    case ReadBytes => (
      match ReadDelimited(s)
      case None => None
      case Some((b, n)) => Some((Bytes(num, b), n)))
    case Reject => None
  }

  /** The field at the head of s and its length, tag included. */
  function ReadField(m: Message, s: seq<byte>): (r: Option<(Field, nat)>)
    ensures r.Some? ==> 1 <= r.value.1 <= |s| && WellKinded(m, r.value.0)
  {
    match ReadVarint(s)
    case None => None
    case Some((tag, n)) =>
      match ReadContents(FieldMode(m, tag / 8, tag % 8), tag / 8, s[n..])
      case None => None
      case Some((f, k)) => Some((f, n + k))
  }

  /** All fields read before the end or the first unreadable one. */
  datatype ScanResult = ScanResult(fields: seq<Field>, complete: bool)

  function Scan(m: Message, s: seq<byte>): (r: ScanResult)
    ensures AllWellKinded(m, r.fields)
    decreases |s|
  {
    if s == [] then ScanResult([], true)
    else match ReadField(m, s)
         case None => ScanResult([], false)
         case Some((f, n)) =>
           var rest := Scan(m, s[n..]);
           ScanResult([f] + rest.fields, rest.complete)
  }

  // ---------- writing ----------

  function WriteField(f: Field): seq<byte> {
    match f
    case Scalar(num, v) => VarintBytes(8 * num) + VarintBytes(v)
    case Bytes(num, b) => VarintBytes(8 * num + 2) + VarintBytes(|b|) + b
  }

  function WriteFields(fs: seq<Field>): seq<byte> {
    if fs == [] then [] else WriteFields(fs[..|fs| - 1]) + WriteField(fs[|fs| - 1])
  }

  /** The tag is a 64-bit word, the length a slice length, and the message reads the field in
      the wire type it is written in. */
  predicate Writable(m: Message, f: Field) {
    && 8 * f.num + 2 < TWO_64
    && (f.Bytes? ==> |f.bytes| <= MAX_INT)
    && WellKinded(m, f)
  }

  method AppendProtoBytesField(dst: seq<byte>, field: uint64, value: seq<byte>) returns (r: seq<byte>)
    requires 8 * field + 2 < TWO_64 && |value| <= MAX_INT
    ensures r == dst + WriteField(Bytes(field, value))
    ensures r == dst + (VarintBytes(8 * field + 2) + VarintBytes(|value|) + value)
  {
    hide Or, Shl, VarintBytes;
    TagWord(field);
    r := AppendProtoVarint(dst, Or(Shl64(field, 3), 2));
    r := AppendProtoVarint(r, |value|);
    r := r + value;
  }

  method AppendProtoVarintField(dst: seq<byte>, field: uint64, value: uint64) returns (r: seq<byte>)
    requires 8 * field + 2 < TWO_64
    ensures r == dst + WriteField(Scalar(field, value))
    ensures r == dst + (VarintBytes(8 * field) + VarintBytes(value))
  {
    hide Or, Shl, VarintBytes;
    TagWord(field);
    r := AppendProtoVarint(dst, Shl64(field, 3));
    r := AppendProtoVarint(r, value);
  }

  /** field << 3 | wire. */
  lemma TagWord(field: uint64)
    requires 8 * field + 2 < TWO_64
    ensures Shl64(field, 3) == 8 * field && Or(Shl64(field, 3), 2) == 8 * field + 2
  {
    hide Or;
    assert Shl(field, 1 + 2) == 4 * Shl(field, 1);
    Pow2Small();
    OrDisjoint(2, field, 3);
  }

  // ---------- the readers of the source ----------

  /** An addition of Go ints. */
  function WrapInt(x: nat): int
    requires x < TWO_64
  {
    if x > MAX_INT then x - TWO_64 else x
  }

  method ReadProtoBytes(data: seq<byte>, offset: nat) returns (r: Result<(seq<byte>, nat)>)
    requires offset <= |data| <= MAX_INT
    ensures r == match ReadDelimited(data[offset..])
                 case Some(p) => Ok((p.0, offset + p.1))
                 case None => Err(ErrInvalidMigration)
    ensures r.Ok? ==> |r.value.0| <= |data|
  {
    var head := ReadProtoVarint(data, offset);
    if head.Err? {
      return Err(head.error);
    }
    var (size, next) := head.value;
    if size > MAX_INT {
      return Err(ErrInvalidMigration);
    }
    var end := WrapInt(next + size);
    if end < next || end > |data| {
      return Err(ErrInvalidMigration);
    }
    assert data[offset..][next - offset..end - offset] == data[next..end];
    return Ok((data[next..end], end));
  }

  method ReadProtoScalar(data: seq<byte>, offset: nat, wireType: nat) returns (r: Result<(uint64, nat)>)
    requires offset <= |data|
    ensures r == if wireType != 0 then Err(ErrInvalidMigration) else
                 match ReadVarint(data[offset..])
                 case Some(p) => Ok((p.0, offset + p.1))
                 case None => Err(ErrInvalidMigration)
  {
    if wireType != 0 {
      return Err(ErrInvalidMigration);
    }
    r := ReadProtoVarint(data, offset);
  }

  method SkipProtoField(data: seq<byte>, offset: nat, wireType: nat) returns (r: Result<nat>)
    requires offset <= |data| <= MAX_INT
    ensures forall num :: r == match ReadContents(UnknownMode(wireType), num, data[offset..])
                               case Some(p) => Ok(offset + p.1)
                               case None => Err(ErrInvalidMigration)
  {
    if wireType == 0 {
      var v := ReadProtoVarint(data, offset);
      return if v.Ok? then Ok(v.value.1) else Err(v.error);
    } else if wireType == 2 {
      var b := ReadProtoBytes(data, offset);
      return if b.Ok? then Ok(b.value.1) else Err(b.error);
    } else {
      return Err(ErrInvalidMigration);
    }
  }

  // ---------- locality, concatenation, round trip ----------

  lemma ContentsLocal(mode: Mode, num: nat, s: seq<byte>, t: seq<byte>)
    requires ReadContents(mode, num, s).Some?
    ensures ReadContents(mode, num, s + t) == ReadContents(mode, num, s)
  {
    hide ReadVarint;
    ReadLocal(s, t);
    if mode == ReadBytes {
      var (size, n) := ReadVarint(s).value;
      assert (s + t)[n..n + size] == s[n..n + size];
    }
  }

  /** A field that reads successfully reads the same with anything behind it. */
  lemma FieldLocal(m: Message, s: seq<byte>, t: seq<byte>)
    requires ReadField(m, s).Some?
    ensures ReadField(m, s + t) == ReadField(m, s)
  {
    hide ReadVarint, ReadContents;
    ReadLocal(s, t);
    var (tag, n) := ReadVarint(s).value;
    ContentsLocal(FieldMode(m, tag / 8, tag % 8), tag / 8, s[n..], t);
    assert (s + t)[n..] == s[n..] + t;
  }

  lemma ScanUnfolds(m: Message, s: seq<byte>)
    ensures s == [] ==> Scan(m, s) == ScanResult([], true)
    ensures s != [] && Scan(m, s).complete ==> ReadField(m, s).Some?
    ensures s != [] && ReadField(m, s).Some? ==>
              var (f, n) := ReadField(m, s).value;
              var rest := Scan(m, s[n..]);
              Scan(m, s) == ScanResult([f] + rest.fields, rest.complete)
  {
    hide ReadField, AllWellKinded;
  }

  /** Scanning is a homomorphism: the fields of a concatenation are the concatenated fields. */
  lemma {:induction false} ScanConcat(m: Message, s: seq<byte>, t: seq<byte>)
    requires Scan(m, s).complete
    ensures Scan(m, s + t) == ScanResult(Scan(m, s).fields + Scan(m, t).fields, Scan(m, t).complete)
    decreases |s|
  {
    hide ReadField, AllWellKinded, Scan;
    ScanUnfolds(m, s);
    if s == [] {
      assert s + t == t;
    } else {
      FieldLocal(m, s, t);
      ScanUnfolds(m, s + t);
      var (f, n) := ReadField(m, s).value;
      ScanConcat(m, s[n..], t);
      assert (s + t)[n..] == s[n..] + t;
      assert [f] + Scan(m, s[n..]).fields + Scan(m, t).fields == [f] + (Scan(m, s[n..]).fields + Scan(m, t).fields);
    }
  }

  /** How a field with a given tag is read, for every number and wire type. Strings of an account
      are read as delimited bytes whatever their wire type, its other fields need wire type 0; a
      payload's accounts need wire type 2 and its other fields wire type 0. Unknown fields may
      have wire type 0 or 2, and everything else is unreadable. */
  lemma ReadByTag(m: Message, num: nat, wire: nat, rest: seq<byte>)
    requires wire < 8 && 8 * num + wire < TWO_64
    ensures var delimited := if m == AccountMessage then 1 <= num <= 3 || (wire == 2 && num !in {4, 5, 6, 7})
                             else wire == 2 && num !in {2, 3, 4, 5};
            var scalar := wire == 0 && (if m == AccountMessage then num !in {1, 2, 3} else num != 1);
            ReadField(m, VarintBytes(8 * num + wire) + rest) ==
              if delimited && ReadDelimited(rest).Some? then
                Some((Bytes(num, ReadDelimited(rest).value.0),
                      |VarintBytes(8 * num + wire)| + ReadDelimited(rest).value.1))
              else if scalar && ReadVarint(rest).Some? then
                Some((Scalar(num, ReadVarint(rest).value.0),
                      |VarintBytes(8 * num + wire)| + ReadVarint(rest).value.1))
              else None
  {
    hide ReadVarint, VarintBytes, ReadDelimited, ReadField;
    TagReads(m, 8 * num + wire, rest);
    assert (8 * num + wire) / 8 == num && (8 * num + wire) % 8 == wire;
  }

  /** Delimited bytes: a length, and that many bytes after it, if there are. */
  lemma DelimitedAre(s: seq<byte>)
    ensures ReadDelimited(s).Some? <==>
            ReadVarint(s).Some? && ReadVarint(s).value.0 + ReadVarint(s).value.1 <= |s| &&
            ReadVarint(s).value.0 <= 0x7FFF_FFFF_FFFF_FFFF
    ensures ReadDelimited(s).Some? ==>
              var (size, n) := ReadVarint(s).value;
              ReadDelimited(s).value == (s[n..n + size], n + size)
  {
    hide ReadVarint;
  }

  lemma TagReads(m: Message, tag: uint64, rest: seq<byte>)
    ensures ReadField(m, VarintBytes(tag) + rest) ==
            match ReadContents(FieldMode(m, tag / 8, tag % 8), tag / 8, rest)
            case None => None
            case Some((f, k)) => Some((f, |VarintBytes(tag)| + k))
  {
    hide ReadVarint, VarintBytes, ReadContents, FieldMode;
    ReadBack(tag, rest);
    assert (VarintBytes(tag) + rest)[|VarintBytes(tag)|..] == rest;
  }

  lemma DelimitedReads(b: seq<byte>, rest: seq<byte>)
    requires |b| <= MAX_INT
    ensures ReadDelimited(VarintBytes(|b|) + b + rest) == Some((b, |VarintBytes(|b|) + b|))
  {
    hide ReadVarint, VarintBytes;
    var size := VarintBytes(|b|);
    ReadBack(|b|, b + rest);
    assert size + b + rest == size + (b + rest);
    assert (size + b + rest)[|size|..|size| + |b|] == b;
  }

  /** A written field reads back as itself, with its exact length, whatever follows. */
  lemma ReadWritten(m: Message, f: Field, suffix: seq<byte>)
    requires Writable(m, f)
    ensures ReadField(m, WriteField(f) + suffix) == Some((f, |WriteField(f)|))
  {
    hide ReadVarint, VarintBytes, ReadDelimited, ReadField;
    match f {
      case Scalar(num, v) =>
        var body := VarintBytes(v);
        TagReads(m, 8 * num, body + suffix);
        ReadBack(v, suffix);
        assert WriteField(f) + suffix == VarintBytes(8 * num) + (body + suffix);
      case Bytes(num, b) =>
        var body := VarintBytes(|b|) + b;
        TagReads(m, 8 * num + 2, body + suffix);
        DelimitedReads(b, suffix);
        assert (8 * num + 2) / 8 == num && (8 * num + 2) % 8 == 2;
        assert WriteField(f) + suffix == VarintBytes(8 * num + 2) + (body + suffix);
    }
  }

  /** Round trip: scanning written fields returns exactly those fields. */
  lemma {:induction false} ScanWritten(m: Message, fs: seq<Field>)
    requires forall f :: f in fs ==> Writable(m, f)
    ensures Scan(m, WriteFields(fs)) == ScanResult(fs, true)
  {
    hide ReadField, WriteField;
    if fs != [] {
      var front, last := fs[..|fs| - 1], fs[|fs| - 1];
      ScanWritten(m, front);
      ScanOne(m, last);
      ScanConcat(m, WriteFields(front), WriteField(last));
      assert fs == front + [last];
    }
  }

  lemma ScanOne(m: Message, f: Field)
    requires Writable(m, f)
    ensures Scan(m, WriteField(f)) == ScanResult([f], true)
  {
    hide ReadField, WriteField;
    ReadWritten(m, f, []);
    var s := WriteField(f);
    assert s + [] == s && s[|s|..] == [];
    assert Scan(m, []) == ScanResult([], true);
  }
}
