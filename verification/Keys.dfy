/** Row keys: how they are built, taken apart and ordered, and which keys a prefix or a range covers. */
module Keys {
  import opened Basics

  type Key = seq<Byte>

  /** The n low bytes of v, highest first. */
  function BigEndian(v: nat, n: nat): (s: Key)
    ensures |s| == n
  {
    if n == 0 then [] else BigEndian(v / 256, n - 1) + [v % 256]
  }

  function Value(s: Key): nat {
    if s == [] then 0 else Value(s[..|s| - 1]) * 256 + s[|s| - 1]
  }

  /** Numbers of n bytes. */
  function Limit(n: nat): nat { if n == 0 then 1 else 256 * Limit(n - 1) }

  lemma LimitOfEight()
    ensures Limit(8) == MAX_64 + 1
  {
    assert Limit(4) == 256 * Limit(3) && Limit(3) == 256 * Limit(2) && Limit(2) == 256 * Limit(1);
  }

  lemma {:induction false} ValueBack(v: nat, n: nat)
    requires v < Limit(n)
    ensures Value(BigEndian(v, n)) == v
  {
    if n > 0 {
      ValueBack(v / 256, n - 1);
      var s := BigEndian(v, n);
      assert s[..|s| - 1] == BigEndian(v / 256, n - 1);
    }
  }

  lemma {:induction false} BytesBack(s: Key)
    ensures Value(s) < Limit(|s|) && BigEndian(Value(s), |s|) == s
  {
    if s != [] {
      var r := s[..|s| - 1];
      BytesBack(r);
      assert Value(s) / 256 == Value(r) && Value(s) % 256 == s[|s| - 1];
      assert r + [s[|s| - 1]] == s;
    }
  }

  // ---------------------------------------------------------------------------
  // Order

  /** Byte-wise order, a prefix before what extends it. */
  predicate Less(a: Key, b: Key) {
    if b == [] then false
    else if a == [] then true
    else if a[0] != b[0] then a[0] < b[0]
    else Less(a[1..], b[1..])
  }

  lemma {:induction false} LessSplits(a: Key, b: Key)
    ensures a == b || Less(a, b) || Less(b, a)
    ensures !(Less(a, b) && Less(b, a)) && (a == b ==> !Less(a, b))
  {
    if a != [] && b != [] {
      LessSplits(a[1..], b[1..]);
      assert a == [a[0]] + a[1..] && b == [b[0]] + b[1..];
    }
  }

  lemma {:induction false} LessChains(a: Key, b: Key, c: Key)
    requires Less(a, b) && Less(b, c)
    ensures Less(a, c)
  {
    if a != [] && a[0] == b[0] == c[0] { LessChains(a[1..], b[1..], c[1..]); }
  }

  /** After heads of equal length, the heads decide first. */
  lemma {:induction false} LessConcat(a: Key, b: Key, s: Key, t: Key)
    requires |a| == |b|
    ensures Less(a + s, b + t) <==> Less(a, b) || (a == b && Less(s, t))
  {
    if a == [] {
      assert a + s == s && b + t == t;
    } else {
      assert (a + s)[1..] == a[1..] + s && (b + t)[1..] == b[1..] + t;
      LessConcat(a[1..], b[1..], s, t);
      assert a == [a[0]] + a[1..] && b == [b[0]] + b[1..];
    }
  }

  /** Byte order of big-endian numbers is numeric order. */
  lemma {:induction false} BigEndianOrder(v: nat, w: nat, n: nat)
    requires v < Limit(n) && w < Limit(n)
    ensures Less(BigEndian(v, n), BigEndian(w, n)) <==> v < w
  {
    if n > 0 {
      var a, b := BigEndian(v / 256, n - 1), BigEndian(w / 256, n - 1);
      BigEndianOrder(v / 256, w / 256, n - 1);
      LessConcat(a, b, [v % 256], [w % 256]);
      ValueBack(v / 256, n - 1);
      ValueBack(w / 256, n - 1);
      HighThenLow(v, w);
    }
  }

  lemma HighThenLow(v: nat, w: nat)
    ensures v < w <==> v / 256 < w / 256 || (v / 256 == w / 256 && v % 256 < w % 256)
  {
  }

  // ---------------------------------------------------------------------------
  // Keys

  function MetaKey(t: Table): (k: Key)
    ensures |k| == 9
  {
    [t.business] + BigEndian(t.partition, 8)
  }

  function StoredFieldKey(t: Table, id: nat): Key { MetaKey(t) + BigEndian(id, 8) }

  function InvertedKey(t: Table, field: Byte, term: Key): Key { MetaKey(t) + [field] + term }

  function SequenceMetaKey(t: Table): Key { MetaKey(t) + [0] }

  function SequenceMappingKey(t: Table, user: Key): Key { MetaKey(t) + [1] + user }

  /** The bytes of the keys: a byte for the business, eight for the partition and, for stored fields, eight
      for the id; for terms, one for the field and then the term; 0 or 1 and the user for the counter and
      for users. */
  lemma KeyLayout(t: Table, field: Byte, term: Key, id: nat)
    requires id <= MAX_64
    ensures var k := StoredFieldKey(t, id);
      |k| == 17 && k[0] == t.business && Value(k[1..9]) == t.partition && Value(k[9..]) == id
    ensures var k := InvertedKey(t, field, term);
      && |k| == 10 + |term| && k[0] == t.business && Value(k[1..9]) == t.partition && k[9] == field && k[10..] == term
    ensures SequenceMetaKey(t) == InvertedKey(t, 0, []) && SequenceMappingKey(t, term) == InvertedKey(t, 1, term)
  {
    LimitOfEight();
    ValueBack(t.partition, 8);
    ValueBack(id, 8);
    assert StoredFieldKey(t, id)[1..9] == BigEndian(t.partition, 8) && StoredFieldKey(t, id)[9..] == BigEndian(id, 8);
    assert InvertedKey(t, field, term)[1..9] == BigEndian(t.partition, 8);
  }

  /** A key under construction, or being taken apart from the front. */
  class Slice {
    var data: Key

    constructor (data: Key)
      ensures this.data == data
    {
      this.data := data;
    }

    method AppendFixed8(b: Byte)
      modifies this
      ensures data == old(data) + [b]
    {
      data := data + [b];
    }

    method AppendFixed64(v: nat)
      modifies this
      ensures data == old(data) + BigEndian(v, 8)
    {
      data := data + BigEndian(v, 8);
    }

    method AppendBuffer(s: Key)
      modifies this
      ensures data == old(data) + s
    {
      data := data + s;
    }

    method RemoveFixed8() returns (b: Byte)
      requires data != []
      modifies this
      ensures old(data) == [b] + data
    {
      b := data[0];
      data := data[1..];
    }

    method RemoveFixed64() returns (v: nat)
      requires |data| >= 8
      modifies this
      ensures v <= MAX_64 && old(data) == BigEndian(v, 8) + data
    {
      v := Value(data[..8]);
      BytesBack(data[..8]);
      LimitOfEight();
      assert data == data[..8] + data[8..];
      data := data[8..];
    }

    method EncodeStoredFieldKey(t: Table, id: nat)
      modifies this
      ensures data == old(data) + StoredFieldKey(t, id)
    {
      AppendFixed8(t.business);
      AppendFixed64(t.partition);
      AppendFixed64(id);
    }

    method EncodeInvertedKey(t: Table, field: Byte, term: Key)
      modifies this
      ensures data == old(data) + InvertedKey(t, field, term)
    {
      AppendFixed8(t.business);
      AppendFixed64(t.partition);
      AppendFixed8(field);
      AppendBuffer(term);
    }
  }

  /** Succeeds on every key of ten bytes or more, with the parts that encode back to it. */
  method DecodeInvertedKey(key: Key) returns (r: Option<(Table, Byte, Key)>)
    ensures r.Some? <==> |key| >= 10
    ensures r.Some? ==> InvertedKey(r.value.0, r.value.1, r.value.2) == key
  {
    if |key| < 10 {
      return None;
    }
    var slice := new Slice(key);
    var business := slice.RemoveFixed8();
    var partition := slice.RemoveFixed64();
    var field := slice.RemoveFixed8();
    r := Some((Table(business, partition), field, slice.data));
  }

  // ---------------------------------------------------------------------------
  // Which keys are which

  predicate TableBefore(t: Table, u: Table) {
    t.business < u.business || (t.business == u.business && t.partition < u.partition)
  }

  lemma MetaKeyOrder(t: Table, u: Table)
    ensures Less(MetaKey(t), MetaKey(u)) <==> TableBefore(t, u)
    ensures MetaKey(t) == MetaKey(u) <==> t == u
  {
    LimitOfEight();
    BigEndianOrder(t.partition, u.partition, 8);
    LessConcat([t.business], [u.business], BigEndian(t.partition, 8), BigEndian(u.partition, 8));
    if MetaKey(t) == MetaKey(u) {
      assert MetaKey(t)[0] == t.business && MetaKey(u)[0] == u.business;
      assert MetaKey(t)[1..] == BigEndian(t.partition, 8) && MetaKey(u)[1..] == BigEndian(u.partition, 8);
      ValueBack(t.partition, 8);
      ValueBack(u.partition, 8);
    }
  }

  lemma TableOrders(t: Table, u: Table)
    ensures t == u || TableBefore(t, u) || TableBefore(u, t)
  {
  }

  /** Within a table, stored-field keys are ordered as the ids; tables do not mix. */
  lemma StoredFieldKeyOrder(t: Table, i: nat, u: Table, j: nat)
    requires i <= MAX_64 && j <= MAX_64
    ensures Less(StoredFieldKey(t, i), StoredFieldKey(u, j)) <==> TableBefore(t, u) || (t == u && i < j)
    ensures StoredFieldKey(t, i) == StoredFieldKey(u, j) <==> t == u && i == j
  {
    LimitOfEight();
    MetaKeyOrder(t, u);
    BigEndianOrder(i, j, 8);
    LessConcat(MetaKey(t), MetaKey(u), BigEndian(i, 8), BigEndian(j, 8));
    if StoredFieldKey(t, i) == StoredFieldKey(u, j) {
      HeadsEqual(MetaKey(t), MetaKey(u), BigEndian(i, 8), BigEndian(j, 8));
      ValueBack(i, 8);
      ValueBack(j, 8);
    }
  }

  lemma HeadsEqual(a: Key, b: Key, s: Key, t: Key)
    requires |a| == |b| && a + s == b + t
    ensures a == b && s == t
  {
    assert (a + s)[..|a|] == a && (b + t)[..|a|] == b && (a + s)[|a|..] == s && (b + t)[|a|..] == t;
  }

  /** Inverted keys are ordered by table, field, then term. */
  lemma InvertedKeyOrder(t: Table, f: Byte, p: Key, u: Table, g: Byte, q: Key)
    ensures Less(InvertedKey(t, f, p), InvertedKey(u, g, q)) <==>
      TableBefore(t, u) || (t == u && (f < g || (f == g && Less(p, q))))
    ensures InvertedKey(t, f, p) == InvertedKey(u, g, q) <==> t == u && f == g && p == q
  {
    MetaKeyOrder(t, u);
    LessConcat(MetaKey(t) + [f], MetaKey(u) + [g], p, q);
    LessConcat(MetaKey(t), MetaKey(u), [f], [g]);
    if InvertedKey(t, f, p) == InvertedKey(u, g, q) {
      HeadsEqual(MetaKey(t) + [f], MetaKey(u) + [g], p, q);
      HeadsEqual(MetaKey(t), MetaKey(u), [f], [g]);
    }
    if MetaKey(t) + [f] == MetaKey(u) + [g] {
      HeadsEqual(MetaKey(t), MetaKey(u), [f], [g]);
    }
  }

  /** A key extends a prefix key exactly when table and field are the same and the term extends the
      prefix term. */
  lemma InvertedKeyPrefix(t: Table, f: Byte, p: Key, u: Table, g: Byte, q: Key)
    ensures InvertedKey(t, f, p) <= InvertedKey(u, g, q) <==> t == u && f == g && p <= q
  {
    var a, b := InvertedKey(t, f, p), InvertedKey(u, g, q);
    if a <= b {
      assert b == (MetaKey(t) + [f]) + (p + b[|a|..]);
      HeadsEqual(MetaKey(t) + [f], MetaKey(u) + [g], p + b[|a|..], q);
      HeadsEqual(MetaKey(t), MetaKey(u), [f], [g]);
      MetaKeyOrder(t, u);
    }
    if t == u && f == g && p <= q {
      assert q == p + q[|p|..];
      assert b == a + q[|p|..];
    }
  }

  /** Sequence keys: users never clash with one another or with the counter, nor tables with tables. */
  lemma SequenceKeysDistinct(t: Table, a: Key, u: Table, b: Key)
    ensures SequenceMappingKey(t, a) == SequenceMappingKey(u, b) <==> t == u && a == b
    ensures SequenceMetaKey(t) != SequenceMappingKey(u, b)
    ensures SequenceMetaKey(t) == SequenceMetaKey(u) <==> t == u
  {
    InvertedKeyOrder(t, 1, a, u, 1, b);
    InvertedKeyOrder(t, 0, [], u, 1, b);
    InvertedKeyOrder(t, 0, [], u, 0, []);
    assert SequenceMetaKey(t) == InvertedKey(t, 0, []) && SequenceMetaKey(u) == InvertedKey(u, 0, []);
  }

  // ---------------------------------------------------------------------------
  // Dropping a table

  /** Begin is included, end is not. */
  predicate InRange(k: Key, begin: Key, end: Key) { !Less(k, begin) && Less(k, end) }

  function Repeat(b: Byte, n: nat): Key { seq(n, i => b) }

  const MAX_TERM := Repeat(255, 256)

  /** Nothing but its own extensions is at or above a run of 0xFF. */
  lemma {:induction false} BelowMax(s: Key, n: nat)
    ensures Less(s, Repeat(255, n)) <==> !(Repeat(255, n) <= s)
  {
    var m := Repeat(255, n);
    if n > 0 && s != [] && s[0] == 255 {
      assert m[1..] == Repeat(255, n - 1);
      BelowMax(s[1..], n - 1);
      assert s == [255] + s[1..] && m == [255] + m[1..];
      if m <= s { assert m[1..] <= s[1..]; }
    }
  }

  /** The stored-field and doc-value range of a table holds all its rows but id 2^64 - 1, and no other
      table's. */
  lemma DropStoredExact(t: Table, u: Table, id: nat)
    requires id <= MAX_64
    ensures InRange(StoredFieldKey(u, id), StoredFieldKey(t, 0), StoredFieldKey(t, MAX_64)) <==> t == u && id < MAX_64
  {
    StoredFieldKeyOrder(u, id, t, 0);
    StoredFieldKeyOrder(u, id, t, MAX_64);
    TableOrders(t, u);
  }

  /** The inverted range of a table holds all its keys but those of field 255 with a term that begins
      with 256 bytes 0xFF, and no other table's. */
  lemma DropInvertedExact(t: Table, u: Table, field: Byte, term: Key)
    ensures InRange(InvertedKey(u, field, term), InvertedKey(t, 0, []), InvertedKey(t, 255, MAX_TERM)) <==>
      t == u && !(field == 255 && MAX_TERM <= term)
  {
    InvertedKeyOrder(u, field, term, t, 0, []);
    InvertedKeyOrder(u, field, term, t, 255, MAX_TERM);
    BelowMax(term, 256);
    TableOrders(t, u);
  }
}
