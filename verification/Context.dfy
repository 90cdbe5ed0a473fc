/** context.go: the canonical bytes of a context, built from a map of fields. */
module Context {
  import opened Words
  import opened Verifier

  type Text = seq<byte>

  const MAX_FIELD_LENGTH: nat := 256
  const EQUALS: byte := 0x3D
  const NUL: byte := 0
  /** "x-". */
  const CUSTOM_PREFIX: Text := [0x78, 0x2D]

  // ---------- the order of keys ----------

  /** The byte order of Go strings. */
  predicate Less(a: Text, b: Text) {
    b != [] && (a == [] || a[0] < b[0] || (a[0] == b[0] && Less(a[1..], b[1..])))
  }

  lemma {:induction false} LessTransitive(a: Text, b: Text, c: Text)
    requires Less(a, b) && Less(b, c)
    ensures Less(a, c)
  {
    if a != [] && a[0] == b[0] && b[0] == c[0] {
      LessTransitive(a[1..], b[1..], c[1..]);
    }
  }

  lemma {:induction false} LessTotal(a: Text, b: Text)
    ensures Less(a, b) || Less(b, a) || a == b
    ensures !(Less(a, b) && Less(b, a)) && !Less(a, a)
  {
    if a != [] && b != [] {
      LessTotal(a[1..], b[1..]);
      assert a == [a[0]] + a[1..] && b == [b[0]] + b[1..];
    }
    if a != [] {
      LessTotal(a[1..], a[1..]);
    }
  }

  /** The order is the byte order: a proper prefix comes first, and otherwise the key with the
      smaller byte where the two first differ. */
  lemma {:induction false} LessIs(a: Text, b: Text)
    ensures Less(a, b) <==>
            a < b || exists i :: 0 <= i < |a| && i < |b| && a[..i] == b[..i] && a[i] < b[i]
  {
    if a == [] || b == [] {
    } else if a[0] == b[0] {
      LessIs(a[1..], b[1..]);
      assert a == [a[0]] + a[1..] && b == [b[0]] + b[1..];
      if Less(a[1..], b[1..]) && !(a[1..] < b[1..]) {
        var i :| 0 <= i < |a[1..]| && i < |b[1..]| && a[1..][..i] == b[1..][..i] && a[1..][i] < b[1..][i];
        assert a[..i + 1] == [a[0]] + a[1..][..i] && b[..i + 1] == [b[0]] + b[1..][..i];
        assert a[i + 1] < b[i + 1];
      }
      if i :| 0 <= i < |a| && i < |b| && a[..i] == b[..i] && a[i] < b[i] {
        assert i > 0 && a[1..][..i - 1] == a[..i][1..] && b[1..][..i - 1] == b[..i][1..];
        assert a[1..][i - 1] < b[1..][i - 1];
      }
    } else {
      assert a[..0] == b[..0];
      forall i | 0 < i < |a| && i < |b| ensures a[..i] != b[..i] {
        assert a[..i][0] == a[0] && b[..i][0] == b[0];
      }
    }
  }

  ghost predicate Sorted(keys: seq<Text>) {
    forall i, j :: 0 <= i < j < |keys| ==> Less(keys[i], keys[j])
  }

  /** keys lists the set s in increasing order. */
  ghost predicate Lists(keys: seq<Text>, s: set<Text>) {
    Sorted(keys) && forall k :: k in keys <==> k in s
  }

  /** A set has at most one increasing listing. */
  lemma {:induction false} ListingUnique(a: seq<Text>, b: seq<Text>, s: set<Text>)
    requires Lists(a, s) && Lists(b, s)
    ensures a == b
  {
    assert b != [] ==> b[0] in b && b[0] in s;
    if a != [] {
      assert a[0] in b && b != [] && b[0] in a;
      SameHead(a, b);
      ListingTail(a, s);
      ListingTail(b, s);
      ListingUnique(a[1..], b[1..], s - {a[0]});
      assert a == [a[0]] + a[1..] && b == [b[0]] + b[1..];
    }
  }

  lemma SameHead(a: seq<Text>, b: seq<Text>)
    requires Sorted(a) && Sorted(b) && a != [] && b != [] && a[0] in b && b[0] in a
    ensures a[0] == b[0]
  {
    if a[0] != b[0] {
      var i :| 0 <= i < |b| && b[i] == a[0];
      var j :| 0 <= j < |a| && a[j] == b[0];
      LessTotal(a[0], b[0]);
    }
  }

  lemma ListingTail(keys: seq<Text>, s: set<Text>)
    requires Lists(keys, s) && keys != []
    ensures Lists(keys[1..], s - {keys[0]})
  {
    LessTotal(keys[0], keys[0]);
    assert keys == [keys[0]] + keys[1..];
    assert forall k :: k in keys[1..] ==> Less(keys[0], k);
  }

  // ---------- serialisation ----------

  function Entry(k: Text, v: Text): seq<byte> {
    k + [EQUALS] + v + [NUL]
  }

  function Serialize(keys: seq<Text>, fields: map<Text, Text>): seq<byte>
    requires forall k :: k in keys ==> k in fields
  {
    if keys == [] then []
    else Serialize(keys[..|keys| - 1], fields) + Entry(keys[|keys| - 1], fields[keys[|keys| - 1]])
  }

  lemma {:induction false} SerializeCons(k: Text, keys: seq<Text>, fields: map<Text, Text>)
    requires k in fields && forall x :: x in keys ==> x in fields
    ensures Serialize([k] + keys, fields) == Entry(k, fields[k]) + Serialize(keys, fields)
  {
    hide Entry;
    var all := [k] + keys;
    assert all[..|keys|] == if keys == [] then [] else [k] + keys[..|keys| - 1];
    if keys != [] {
      SerializeCons(k, keys[..|keys| - 1], fields);
      assert all[|keys|] == keys[|keys| - 1];
    }
  }

  lemma {:induction false} ListingExists(s: set<Text>)
    ensures exists keys :: Lists(keys, s)
    decreases |s|
  {
    if s == {} {
      assert Lists([], s);
    } else {
      var x :| x in s;
      ListingExists(s - {x});
      var keys :| Lists(keys, s - {x});
      var r := Inserted(keys, x);
      InsertedLists(keys, x, s - {x});
      assert s - {x} + {x} == s;
    }
  }

  /** keys with x inserted before the first larger key. */
  function Inserted(keys: seq<Text>, x: Text): seq<Text> {
    if keys == [] || Less(x, keys[0]) then [x] + keys else [keys[0]] + Inserted(keys[1..], x)
  }

  lemma {:induction false} InsertedMembers(keys: seq<Text>, x: Text)
    ensures forall k :: k in Inserted(keys, x) <==> k in keys || k == x
  {
    if keys != [] && !Less(x, keys[0]) {
      InsertedMembers(keys[1..], x);
      assert keys == [keys[0]] + keys[1..];
    }
  }

  lemma {:induction false} InsertedLists(keys: seq<Text>, x: Text, s: set<Text>)
    requires Lists(keys, s) && x !in s
    ensures Lists(Inserted(keys, x), s + {x})
  {
    InsertedMembers(keys, x);
    if keys != [] {
      if Less(x, keys[0]) {
        forall k | k in keys ensures Less(x, k) {
          if k != keys[0] {
            LessTransitive(x, keys[0], k);
          }
        }
      } else {
        ListingTail(keys, s);
        InsertedLists(keys[1..], x, s - {keys[0]});
        InsertedMembers(keys[1..], x);
        LessTotal(x, keys[0]);
        assert keys[0] in keys;
        HeadBelow(keys[0], Inserted(keys[1..], x));
      }
    }
  }

  lemma HeadBelow(head: Text, tail: seq<Text>)
    requires Sorted(tail) && forall k :: k in tail ==> Less(head, k)
    ensures Sorted([head] + tail)
  {
  }

  /** The canonical bytes of a field map. */
  ghost function ContextBytes(fields: map<Text, Text>): seq<byte> {
    ListingExists(fields.Keys);
    var keys :| Lists(keys, fields.Keys);
    Serialize(keys, fields)
  }

  lemma ContextBytesAre(fields: map<Text, Text>, keys: seq<Text>)
    requires Lists(keys, fields.Keys)
    ensures ContextBytes(fields) == Serialize(keys, fields)
  {
    forall other | Lists(other, fields.Keys) ensures other == keys {
      ListingUnique(other, keys, fields.Keys);
    }
  }

  // ---------- the builder ----------

  /** What setField does to the fields. */
  function WithField(fields: map<Text, Text>, key: Text, value: Text): map<Text, Text> {
    if |value| <= MAX_FIELD_LENGTH then fields[key := value] else fields
  }

  /** What Custom does: such fields live under "x-", and over-long keys are ignored. */
  function WithCustom(fields: map<Text, Text>, key: Text, value: Text): map<Text, Text> {
    if |key| <= MAX_FIELD_LENGTH then WithField(fields, CUSTOM_PREFIX + key, value) else fields
  }

  class OtpContextBuilder {
    var fields: map<Text, Text>

    constructor ()
      ensures fields == map[]
    {
      fields := map[];
    }

    method SetField(key: Text, value: Text)
      modifies this
      ensures fields == WithField(old(fields), key, value)
      ensures fields == if |value| <= 256 then old(fields)[key := value] else old(fields)
    {
      if |value| <= MAX_FIELD_LENGTH {
        fields := fields[key := value];
      }
    }

    method Custom(key: Text, value: Text)
      modifies this
      ensures fields == WithCustom(old(fields), key, value)
      ensures fields == if |key| <= 256 && |value| <= 256 then old(fields)[[0x78, 0x2D] + key := value] else old(fields)
    {
      if |key| <= MAX_FIELD_LENGTH {
        SetField(CUSTOM_PREFIX + key, value);
      }
    }

    /** The bytes do not depend on the order in which the map yields its keys. */
    method Build() returns (bytes: seq<byte>)
      ensures bytes == ContextBytes(fields)
    {
      hide Less, Entry;
      var keys := SortedKeys(fields.Keys);
      ContextBytesAre(fields, keys);
      bytes := [];
      for i := 0 to |keys|
        invariant bytes == Serialize(keys[..i], fields)
      {
        assert keys[..i + 1][..i] == keys[..i];
        var k := keys[i];
        bytes := bytes + Entry(k, fields[k]);
      }
      assert keys[..|keys|] == keys;
    }
  }

  /** Collecting the keys in the map's arbitrary order and sorting them. */
  method SortedKeys(s: set<Text>) returns (keys: seq<Text>)
    ensures Lists(keys, s)
  {
    hide Less, Inserted;
    keys := [];
    var rest := s;
    while rest != {}
      invariant rest <= s && Lists(keys, s - rest)
      decreases rest
    {
      var k :| k in rest;
      InsertedLists(keys, k, s - rest);
      assert s - (rest - {k}) == (s - rest) + {k};
      keys := Inserted(keys, k);
      rest := rest - {k};
    }
    assert s - rest == s;
  }

  // ---------- what the bytes determine ----------

  /** The fields after a sequence of setter calls. */
  function SetAll(fields: map<Text, Text>, calls: seq<(Text, Text)>): map<Text, Text> {
    if calls == [] then fields
    else WithField(SetAll(fields, calls[..|calls| - 1]), calls[|calls| - 1].0, calls[|calls| - 1].1)
  }

  ghost predicate DistinctKeys(calls: seq<(Text, Text)>) {
    forall i, j :: 0 <= i < j < |calls| ==> calls[i].0 != calls[j].0
  }

  predicate Maps(m: map<Text, Text>, k: Text, v: Text) {
    k in m && m[k] == v
  }

  lemma {:induction false} SetAllMembers(fields: map<Text, Text>, calls: seq<(Text, Text)>, k: Text, v: Text)
    requires DistinctKeys(calls)
    ensures Maps(SetAll(fields, calls), k, v) <==>
            ((k, v) in calls && |v| <= MAX_FIELD_LENGTH) ||
            (Maps(fields, k, v) && forall c :: c in calls && |c.1| <= MAX_FIELD_LENGTH ==> c.0 != k)
  {
    if calls != [] {
      var front, last := calls[..|calls| - 1], calls[|calls| - 1];
      SetAllMembers(fields, front, k, v);
      assert calls == front + [last];
      assert forall c :: c in front ==> c.0 != last.0;
    }
  }

  lemma SameMaps(x: map<Text, Text>, y: map<Text, Text>)
    requires forall k, v :: Maps(x, k, v) <==> Maps(y, k, v)
    ensures x == y
  {
    forall k ensures k in x <==> k in y {
      assert k in x ==> Maps(x, k, x[k]);
      assert k in y ==> Maps(y, k, y[k]);
    }
    forall k | k in x ensures x[k] == y[k] {
      assert Maps(x, k, x[k]);
    }
  }

  /** Setters of distinct fields may be called in any order. */
  lemma SetterOrderIrrelevant(fields: map<Text, Text>, a: seq<(Text, Text)>, b: seq<(Text, Text)>)
    requires multiset(a) == multiset(b) && DistinctKeys(a) && DistinctKeys(b)
    ensures ContextBytes(SetAll(fields, a)) == ContextBytes(SetAll(fields, b))
  {
    hide SetAll, Maps;
    var x, y := SetAll(fields, a), SetAll(fields, b);
    assert forall c :: c in a <==> c in multiset(a);
    assert forall c :: c in b <==> c in multiset(b);
    forall k, v ensures Maps(x, k, v) <==> Maps(y, k, v) {
      SetAllMembers(fields, a, k, v);
      SetAllMembers(fields, b, k, v);
    }
    SameMaps(x, y);
  }

  /** No key holds an equals sign and no value a NUL. */
  ghost predicate Clean(fields: map<Text, Text>) {
    forall k :: k in fields ==> EQUALS !in k && NUL !in fields[k]
  }

  lemma EntrySplits(k: Text, v: Text, r: seq<byte>, k': Text, v': Text, r': seq<byte>)
    requires EQUALS !in k && EQUALS !in k' && NUL !in v && NUL !in v'
    requires Entry(k, v) + r == Entry(k', v') + r'
    ensures k == k' && v == v' && r == r'
  {
    assert Entry(k, v) + r == k + [EQUALS] + (v + [NUL] + r);
    assert Entry(k', v') + r' == k' + [EQUALS] + (v' + [NUL] + r');
    SplitAtFirst(k, v + [NUL] + r, k', v' + [NUL] + r', EQUALS);
    SplitAtFirst(v, r, v', r', NUL);
  }

  lemma {:induction false} SerializeInjective(a: seq<Text>, f: map<Text, Text>, b: seq<Text>, g: map<Text, Text>)
    requires Clean(f) && Clean(g)
    requires (forall k :: k in a ==> k in f) && (forall k :: k in b ==> k in g)
    requires Serialize(a, f) == Serialize(b, g)
    ensures a == b && forall k :: k in a ==> f[k] == g[k]
  {
    hide Serialize;
    if a != [] {
      assert a == [a[0]] + a[1..];
      SerializeCons(a[0], a[1..], f);
    }
    if b != [] {
      assert b == [b[0]] + b[1..];
      SerializeCons(b[0], b[1..], g);
    }
    assert Serialize([], f) == [] && Serialize([], g) == [] by { SerializeNone(f, g); }
    if a != [] && b != [] {
      EntrySplits(a[0], f[a[0]], Serialize(a[1..], f), b[0], g[b[0]], Serialize(b[1..], g));
      SerializeInjective(a[1..], f, b[1..], g);
    }
  }

  lemma SerializeNone(f: map<Text, Text>, g: map<Text, Text>)
    ensures Serialize([], f) == [] && Serialize([], g) == []
  {
  }

  /** Two field maps whose keys hold no equals sign and whose values hold no NUL have the same
      bytes only if they are the same. */
  lemma ContextInjective(f: map<Text, Text>, g: map<Text, Text>)
    requires Clean(f) && Clean(g)
    ensures ContextBytes(f) == ContextBytes(g) <==> f == g
  {
    hide Serialize, Less;
    ListingExists(f.Keys);
    ListingExists(g.Keys);
    var a :| Lists(a, f.Keys);
    var b :| Lists(b, g.Keys);
    ContextBytesAre(f, a);
    ContextBytesAre(g, b);
    if ContextBytes(f) == ContextBytes(g) {
      SerializeInjective(a, f, b, g);
      assert f.Keys == g.Keys;
    }
  }

  /** keys[i]'s field stands in the bytes with the fields of smaller keys before it. */
  lemma {:induction false} SerializedAt(keys: seq<Text>, fields: map<Text, Text>, i: nat)
    requires i < |keys| && forall k :: k in keys ==> k in fields
    ensures exists tail :: Serialize(keys, fields) ==
              Serialize(keys[..i], fields) + Entry(keys[i], fields[keys[i]]) + tail
  {
    hide Entry;
    var front, last := keys[..|keys| - 1], keys[|keys| - 1];
    if i == |keys| - 1 {
      assert Serialize(keys, fields) == Serialize(front, fields) + Entry(last, fields[last]) + [];
    } else {
      SerializedAt(front, fields, i);
      assert front[..i] == keys[..i];
      var head := Serialize(keys[..i], fields) + Entry(keys[i], fields[keys[i]]);
      var tail :| Serialize(front, fields) == head + tail;
      assert Serialize(keys, fields) == head + (tail + Entry(last, fields[last]));
    }
  }

  /** In the canonical bytes every field is its key, an equals sign, its value and a NUL, and of
      two fields the one whose key is a proper prefix, or has the smaller byte where the keys
      first differ, comes first. */
  lemma FieldsInByteOrder(fields: map<Text, Text>, k: Text, l: Text)
    requires k in fields && l in fields
    requires k < l || exists i :: 0 <= i < |k| && i < |l| && k[..i] == l[..i] && k[i] < l[i]
    ensures exists before, between, after ::
              ContextBytes(fields) ==
                before + (k + [0x3D] + fields[k] + [0]) + between + (l + [0x3D] + fields[l] + [0]) + after
  {
    hide Serialize, Less, ContextBytes;
    LessIs(k, l);
    ListingExists(fields.Keys);
    var keys :| Lists(keys, fields.Keys);
    ContextBytesAre(fields, keys);
    assert k in keys && l in keys;
    var p :| 0 <= p < |keys| && keys[p] == k;
    var q :| 0 <= q < |keys| && keys[q] == l;
    LessTotal(k, l);
    assert p < q;
    SerializedAt(keys, fields, q);
    var after :| Serialize(keys, fields) == Serialize(keys[..q], fields) + Entry(l, fields[l]) + after;
    SerializedAt(keys[..q], fields, p);
    assert keys[..q][..p] == keys[..p] && keys[..q][p] == k;
    var between :| Serialize(keys[..q], fields) == Serialize(keys[..p], fields) + Entry(k, fields[k]) + between;
    var before := Serialize(keys[..p], fields);
    assert ContextBytes(fields) ==
           before + (k + [0x3D] + fields[k] + [0]) + between + (l + [0x3D] + fields[l] + [0]) + after;
  }

  /** A context of no field, one field or two, in full. */
  lemma SmallContexts(k: Text, v: Text, l: Text, w: Text)
    ensures ContextBytes(map[]) == []
    ensures ContextBytes(map[k := v]) == k + [0x3D] + v + [0]
    ensures k < l || (exists i :: 0 <= i < |k| && i < |l| && k[..i] == l[..i] && k[i] < l[i]) ==>
              ContextBytes(map[k := v, l := w]) == (k + [0x3D] + v + [0]) + (l + [0x3D] + w + [0])
  {
    hide Less, Serialize, ContextBytes;
    SingleBytes(k, v);
    LessIs(k, l);
    LessTotal(k, l);
    if Less(k, l) {
      PairBytes(k, v, l, w);
    }
    NoFields(map[], []);
  }

  lemma SingleBytes(k: Text, v: Text)
    ensures ContextBytes(map[k := v]) == Entry(k, v)
  {
    var m := map[k := v];
    assert Lists([k], m.Keys);
    ContextBytesAre(m, [k]);
    assert [k][..0] == [];
    assert Serialize([k], m) == [] + Entry(k, v);
  }

  lemma PairBytes(k: Text, v: Text, l: Text, w: Text)
    requires Less(k, l) && k != l
    ensures ContextBytes(map[k := v, l := w]) == Entry(k, v) + Entry(l, w)
  {
    hide Entry, Less, Serialize;
    var m := map[k := v, l := w];
    assert Lists([k] + [l], m.Keys);
    ContextBytesAre(m, [k] + [l]);
    SerializeCons(k, [l], m);
    SerializeCons(l, [], m);
    assert [l] + [] == [l];
    SerializeNone(m, m);
  }

  /** Without the first condition, an equals sign may stand in the key or in the value; */
  lemma EqualsCollides(k: Text, x: Text, v: Text)
    ensures ContextBytes(map[k + [EQUALS] + x := v]) == ContextBytes(map[k := x + [EQUALS] + v])
    ensures map[k + [EQUALS] + x := v] != map[k := x + [EQUALS] + v]
  {
    SingleBytes(k + [EQUALS] + x, v);
    SingleBytes(k, x + [EQUALS] + v);
    assert Entry(k + [EQUALS] + x, v) == Entry(k, x + [EQUALS] + v);
    assert |k + [EQUALS] + x| > |k|;
    assert k in map[k := x + [EQUALS] + v] && k !in map[k + [EQUALS] + x := v];
  }

  /** without the second, a NUL may stand for the end of a field and the start of a later one. */
  lemma NulCollides(k: Text, v: Text, l: Text, w: Text)
    requires Less(k, l)
    ensures ContextBytes(map[k := v + [NUL] + l + [EQUALS] + w]) == ContextBytes(map[k := v, l := w])
    ensures map[k := v + [NUL] + l + [EQUALS] + w] != map[k := v, l := w]
  {
    hide Entry, Less;
    LessTotal(k, l);
    SingleBytes(k, v + [NUL] + l + [EQUALS] + w);
    PairBytes(k, v, l, w);
    EntryJoin(k, v, l, w);
    assert l in map[k := v, l := w] && l !in map[k := v + [NUL] + l + [EQUALS] + w];
  }

  lemma EntryJoin(k: Text, v: Text, l: Text, w: Text)
    ensures Entry(k, v + [NUL] + l + [EQUALS] + w) == Entry(k, v) + Entry(l, w)
  {
    var tail := l + [EQUALS] + w;
    assert v + [NUL] + l + [EQUALS] + w == v + [NUL] + tail;
    assert k + [EQUALS] + (v + [NUL] + tail) + [NUL] == (k + [EQUALS] + v + [NUL]) + (tail + [NUL]);
  }

  // ---------- which contexts are determined by their bytes ----------

  function EqualsSigns(s: seq<byte>): nat {
    if s == [] then 0 else EqualsSigns(s[..|s| - 1]) + (if s[|s| - 1] == EQUALS then 1 else 0)
  }

  lemma {:induction false} EqualsConcat(a: seq<byte>, b: seq<byte>)
    ensures EqualsSigns(a + b) == EqualsSigns(a) + EqualsSigns(b)
  {
    if b == [] {
      assert a + b == a;
    } else {
      EqualsConcat(a, b[..|b| - 1]);
      assert (a + b)[..|a + b| - 1] == a + b[..|b| - 1];
    }
  }

  lemma {:induction false} EqualsNone(s: seq<byte>)
    ensures EqualsSigns(s) == 0 <==> EQUALS !in s
  {
    if s != [] {
      EqualsNone(s[..|s| - 1]);
      assert s == s[..|s| - 1] + [s[|s| - 1]];
    }
  }

  lemma EqualsOfEntry(k: Text, v: Text)
    ensures EqualsSigns(Entry(k, v)) == EqualsSigns(k) + 1 + EqualsSigns(v)
  {
    hide EqualsSigns;
    EqualsConcat(k + [EQUALS] + v, [NUL]);
    EqualsConcat(k + [EQUALS], v);
    EqualsConcat(k, [EQUALS]);
    EqualsOne();
  }

  lemma EqualsOne()
    ensures EqualsSigns([EQUALS]) == 1 && EqualsSigns([NUL]) == 0 && EqualsSigns([]) == 0
  {
    assert [EQUALS][..0] == [] && [NUL][..0] == [];
  }

  /** Every field brings an equals sign. */
  lemma {:induction false} EqualsOfSerialized(keys: seq<Text>, fields: map<Text, Text>)
    requires forall k :: k in keys ==> k in fields
    ensures EqualsSigns(Serialize(keys, fields)) >= |keys|
  {
    hide EqualsSigns, Entry;
    if keys != [] {
      var front, last := keys[..|keys| - 1], keys[|keys| - 1];
      EqualsOfSerialized(front, fields);
      EqualsConcat(Serialize(front, fields), Entry(last, fields[last]));
      EqualsOfEntry(last, fields[last]);
    }
  }

  /** Another field map has the same bytes. */
  ghost predicate Collides(f: map<Text, Text>) {
    exists g :: ContextBytes(g) == ContextBytes(f) && g != f
  }

  /** With at most one equals sign there is at most one field, and its split is forced. */
  lemma FewEqualsDetermine(f: map<Text, Text>, g: map<Text, Text>)
    requires ContextBytes(f) == ContextBytes(g) && EqualsSigns(ContextBytes(f)) <= 1
    ensures f == g
  {
    hide Serialize, Less, Entry, EqualsSigns;
    ListingExists(f.Keys);
    ListingExists(g.Keys);
    var a :| Lists(a, f.Keys);
    var b :| Lists(b, g.Keys);
    ContextBytesAre(f, a);
    ContextBytesAre(g, b);
    EqualsOfSerialized(a, f);
    EqualsOfSerialized(b, g);
    if |a| == 1 {
      OnlyField(f, a);
    } else {
      NoFields(f, a);
    }
    if |b| == 1 {
      OnlyField(g, b);
    } else {
      NoFields(g, b);
    }
    EqualsOne();
    if |a| == 1 && |b| == 1 {
      OneEquals(a[0], f[a[0]], b[0], g[b[0]]);
    }
  }

  lemma OnlyField(f: map<Text, Text>, keys: seq<Text>)
    requires Lists(keys, f.Keys) && |keys| == 1
    ensures keys[0] in f && f == map[keys[0] := f[keys[0]]]
    ensures ContextBytes(f) == Entry(keys[0], f[keys[0]])
    ensures EqualsSigns(ContextBytes(f)) == EqualsSigns(keys[0]) + 1 + EqualsSigns(f[keys[0]])
  {
    hide EqualsSigns, Entry;
    var k := keys[0];
    assert k in keys;
    forall x | x in f ensures x == k {
      assert x in keys;
    }
    assert f == map[k := f[k]];
    SingleBytes(k, f[k]);
    EqualsOfEntry(k, f[k]);
  }

  lemma NoFields(f: map<Text, Text>, keys: seq<Text>)
    requires Lists(keys, f.Keys) && keys == []
    ensures f == map[] && ContextBytes(f) == []
  {
    forall x ensures x !in f {
      assert x !in keys;
    }
    ContextBytesAre(f, keys);
  }

  lemma OneEquals(k: Text, v: Text, l: Text, w: Text)
    requires Entry(k, v) == Entry(l, w) && EqualsSigns(Entry(k, v)) <= 1
    ensures k == l && v == w
  {
    EqualsOfEntry(k, v);
    EqualsOfEntry(l, w);
    EqualsNone(k);
    EqualsNone(l);
    assert Entry(k, v) == k + [EQUALS] + (v + [NUL]) && Entry(l, w) == l + [EQUALS] + (w + [NUL]);
    SplitAtFirst(k, v + [NUL], l, w + [NUL], EQUALS);
    assert v == (v + [NUL])[..|v|] && w == (w + [NUL])[..|w|];
  }

  lemma {:induction false} SerializedEndsInNul(keys: seq<Text>, fields: map<Text, Text>)
    requires keys != [] && forall k :: k in keys ==> k in fields
    ensures var s := Serialize(keys, fields); s != [] && s[|s| - 1] == NUL
  {
  }

  /** The fields after the first can be read as part of its value. */
  lemma ManyFieldsCollide(f: map<Text, Text>, keys: seq<Text>)
    requires Lists(keys, f.Keys) && |keys| >= 2
    ensures Collides(f)
  {
    hide Serialize, Less, Entry;
    var k, tail := keys[0], keys[1..];
    assert k in keys && keys[1] in keys;
    LessTotal(k, keys[1]);
    assert keys == [k] + tail;
    SerializeCons(k, tail, f);
    ContextBytesAre(f, keys);
    var rest := Serialize(tail, f);
    SerializedEndsInNul(tail, f);
    var value := f[k] + [NUL] + rest[..|rest| - 1];
    SingleBytes(k, value);
    assert rest == rest[..|rest| - 1] + [NUL];
    EntryAbsorbs(k, f[k], rest[..|rest| - 1]);
    assert keys[1] in f && keys[1] !in map[k := value];
  }

  lemma EntryAbsorbs(k: Text, v: Text, r: Text)
    ensures Entry(k, v + [NUL] + r) == Entry(k, v) + (r + [NUL])
  {
  }

  /** A second equals sign in the only field may change places with the first. */
  lemma SecondEqualsCollides(k: Text, v: Text)
    requires EQUALS in k || EQUALS in v
    ensures Collides(map[k := v])
  {
    hide Entry;
    if EQUALS in k {
      var i :| 0 <= i < |k| && k[i] == EQUALS;
      assert k == k[..i] + [EQUALS] + k[i + 1..];
      EqualsCollides(k[..i], k[i + 1..], v);
    } else {
      var i :| 0 <= i < |v| && v[i] == EQUALS;
      assert v == v[..i] + [EQUALS] + v[i + 1..];
      EqualsCollides(k, v[..i], v[i + 1..]);
    }
  }

  /** The bytes of a context determine its fields if and only if they hold at most one equals
      sign: no context of two fields or more is determined by its bytes alone. */
  lemma DeterminedExactly(f: map<Text, Text>)
    ensures (forall g :: ContextBytes(g) == ContextBytes(f) ==> g == f) <==> EqualsSigns(ContextBytes(f)) <= 1
  {
    hide Serialize, Less, Entry, EqualsSigns, ContextBytes;
    if EqualsSigns(ContextBytes(f)) <= 1 {
      forall g | ContextBytes(g) == ContextBytes(f) ensures g == f {
        FewEqualsDetermine(f, g);
      }
    } else {
      ListingExists(f.Keys);
      var keys :| Lists(keys, f.Keys);
      if |keys| >= 2 {
        ManyFieldsCollide(f, keys);
      } else if |keys| == 1 {
        OnlyField(f, keys);
        EqualsNone(keys[0]);
        EqualsNone(f[keys[0]]);
        SecondEqualsCollides(keys[0], f[keys[0]]);
      } else {
        NoFields(f, keys);
        EqualsOne();
      }
      assert Collides(f);
    }
  }

  lemma {:induction false} LessPrefix(p: Text, a: Text, b: Text)
    requires Less(a, b)
    ensures Less(p + a, p + b)
  {
    if p == [] {
      assert p + a == a && p + b == b;
    } else {
      LessPrefix(p[1..], a, b);
      assert (p + a)[1..] == p[1..] + a && (p + b)[1..] == p[1..] + b;
    }
  }

  /** Such contexts can be built: one custom field and two of them, within the length limits. */
  lemma CustomFieldsCollide(a: Text, v: Text, b: Text, w: Text)
    requires Less(a, b) && |a| <= MAX_FIELD_LENGTH && |b| <= MAX_FIELD_LENGTH
    requires |v| + |b| + |w| + 4 <= MAX_FIELD_LENGTH
    ensures var one := WithCustom(map[], a, v + [NUL] + CUSTOM_PREFIX + b + [EQUALS] + w);
            var two := WithCustom(WithCustom(map[], a, v), b, w);
            one != two && ContextBytes(one) == ContextBytes(two)
  {
    hide Less;
    LessPrefix(CUSTOM_PREFIX, a, b);
    NulCollides(CUSTOM_PREFIX + a, v, CUSTOM_PREFIX + b, w);
    var tail := b + [EQUALS] + w;
    assert v + [NUL] + CUSTOM_PREFIX + b + [EQUALS] + w == v + [NUL] + (CUSTOM_PREFIX + b) + [EQUALS] + w;
  }
}
