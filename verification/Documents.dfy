/** Documents, what storing one keeps of it, and the index terms its fields expand to. */
module Documents {
  import opened Basics
  import Utf8

  type Term = Bytes

  datatype FieldType = UnknownType | Uint32Type | Uint64Type | StringType

  datatype Flags = Flags(tokenize: bool, stored: bool, docValue: bool, suffixBuild: bool, invertIndex: bool,
                         notStoreInvertTerm: bool)

  datatype Field = Field(id: Byte, flags: Flags, ftype: FieldType, numeric: nat, str: Bytes, terms: set<Term>,
                         suffixLen: nat)

  datatype Document = Document(id: nat, fields: seq<Field>)

  /** A field as serialised; absent optional parts read back as empty or zero. */
  datatype StoreIndexField = StoreIndexField(id: Byte, flags: Flags, ftype: FieldType, str: Option<Bytes>,
                                             numeric: Option<nat>, terms: set<Term>, suffixLen: Option<nat>)

  const DEFAULT_SUFFIX_LEN := 5

  // ---------------------------------------------------------------------------
  // Storing a field

  predicate Numeric(t: FieldType) { t.Uint32Type? || t.Uint64Type? }

  /** `asDocValue` selects the doc-value form, which has no terms. */
  function EncodeToStoreField(f: Field, asDocValue: bool): StoreIndexField {
    var needValue := if asDocValue then f.flags.docValue else f.flags.stored;
    StoreIndexField(f.id, f.flags, f.ftype,
                    if needValue && f.ftype.StringType? then Some(f.str) else None,
                    if needValue && Numeric(f.ftype) then Some(f.numeric) else None,
                    if !asDocValue && !f.flags.notStoreInvertTerm then f.terms else {},
                    if f.suffixLen != 0 then Some(f.suffixLen) else None)
  }

  function DecodeFromStoreField(p: StoreIndexField): Field {
    var needValue := p.flags.stored || p.flags.docValue;
    var len := if p.flags.suffixBuild then p.suffixLen.Or(0) else 0;
    Field(p.id, p.flags, p.ftype,
          if needValue && Numeric(p.ftype) then p.numeric.Or(0) else 0,
          if needValue && p.ftype.StringType? then p.str.Or([]) else [],
          p.terms,
          if p.flags.suffixBuild && len == 0 then DEFAULT_SUFFIX_LEN else len)
  }

  /** What reading back a stored field gives. */
  function StoredForm(f: Field): Field { DecodeFromStoreField(EncodeToStoreField(f, false)) }

  /** What reading back a field of a doc-value row gives. */
  function DocValueForm(f: Field): Field { DecodeFromStoreField(EncodeToStoreField(f, true)) }

  function StoredForms(fs: seq<Field>): seq<Field> {
    if fs == [] then [] else [StoredForm(fs[0])] + StoredForms(fs[1..])
  }

  /** The doc-value projection of a list of fields. */
  function DocValueForms(fs: seq<Field>): seq<Field> {
    if fs == [] then []
    else (if fs[0].flags.docValue then [DocValueForm(fs[0])] else []) + DocValueForms(fs[1..])
  }

  predicate HasDocValue(fs: seq<Field>) { exists i :: 0 <= i < |fs| && fs[i].flags.docValue }

  /** A stored field: id, flags and type as given; the value if the field is flagged as stored, otherwise
      what an absent one reads back as; the terms unless flagged not to store them; and with suffix
      building a suffix length that is never 0. */
  lemma StoredFormMeans(f: Field)
    ensures var s := StoredForm(f);
      && s.id == f.id && s.flags == f.flags && s.ftype == f.ftype
      && s.numeric == (if f.flags.stored && (f.ftype.Uint32Type? || f.ftype.Uint64Type?) then f.numeric else 0)
      && s.str == (if f.flags.stored && f.ftype.StringType? then f.str else [])
      && s.terms == (if f.flags.notStoreInvertTerm then {} else f.terms)
      && s.suffixLen == (if !f.flags.suffixBuild then 0 else if f.suffixLen == 0 then 5 else f.suffixLen)
  {
  }

  /** A field of a doc-value row has the value of a field flagged as doc value, and no terms. */
  lemma DocValueFormMeans(f: Field)
    ensures var s := DocValueForm(f);
      && s.id == f.id && s.flags == f.flags && s.ftype == f.ftype && s.terms == {}
      && s.numeric == (if f.flags.docValue && (f.ftype.Uint32Type? || f.ftype.Uint64Type?) then f.numeric else 0)
      && s.str == (if f.flags.docValue && f.ftype.StringType? then f.str else [])
  {
  }

  /** The doc-value fields of a list are its fields flagged so, in order, each in its doc-value form. */
  lemma {:induction false} DocValueFormsMean(fs: seq<Field>)
    ensures |DocValueForms(fs)| == |set i | 0 <= i < |fs| && fs[i].flags.docValue|
    ensures forall i :: 0 <= i < |fs| && fs[i].flags.docValue ==>
      var k := |set j | 0 <= j < i && fs[j].flags.docValue|;
      k < |DocValueForms(fs)| && DocValueForms(fs)[k] == DocValueForm(fs[i])
  {
    DocValueFormsUpTo(fs, |fs|);
    assert fs[..|fs|] == fs;
    forall i | 0 <= i < |fs| && fs[i].flags.docValue
      ensures var k := |set j | 0 <= j < i && fs[j].flags.docValue|;
        k < |DocValueForms(fs)| && DocValueForms(fs)[k] == DocValueForm(fs[i])
    {
      DocValueFormsUpTo(fs, i);
      DocValueFormsConcat(fs[..i], fs[i..]);
      assert fs == fs[..i] + fs[i..];
    }
  }

  lemma {:induction false} DocValueFormsUpTo(fs: seq<Field>, n: nat)
    requires n <= |fs|
    ensures |DocValueForms(fs[..n])| == |set i | 0 <= i < n && fs[i].flags.docValue|
  {
    var here := set i | 0 <= i < n && fs[i].flags.docValue;
    if n > 0 {
      DocValueFormsUpTo(fs, n - 1);
      DocValueFormsConcat(fs[..n - 1], [fs[n - 1]]);
      assert fs[..n] == fs[..n - 1] + [fs[n - 1]];
      var before := set i | 0 <= i < n - 1 && fs[i].flags.docValue;
      assert here == if fs[n - 1].flags.docValue then before + {n - 1} else before;
      assert [fs[n - 1]][1..] == [];
    } else {
      assert here == {};
    }
  }

  lemma {:induction false} DocValueFormsConcat(a: seq<Field>, b: seq<Field>)
    ensures DocValueForms(a + b) == DocValueForms(a) + DocValueForms(b)
  {
    if a == [] {
      assert a + b == b;
    } else {
      DocValueFormsConcat(a[1..], b);
      DocValueFormsCons(a[0], a[1..]);
      DocValueFormsCons(a[0], a[1..] + b);
      assert a == [a[0]] + a[1..] && a + b == [a[0]] + (a[1..] + b);
      Associates(if a[0].flags.docValue then [DocValueForm(a[0])] else [], DocValueForms(a[1..]), DocValueForms(b));
    }
  }

  lemma DocValueFormsCons(f: Field, fs: seq<Field>)
    ensures DocValueForms([f] + fs) == (if f.flags.docValue then [DocValueForm(f)] else []) + DocValueForms(fs)
  {
    assert ([f] + fs)[1..] == fs;
  }

  lemma Associates(a: seq<Field>, b: seq<Field>, c: seq<Field>)
    ensures a + (b + c) == a + b + c
  {
  }

  lemma StoredFormStable(f: Field)
    ensures StoredForm(StoredForm(f)) == StoredForm(f)
  {
  }

  /** Storing keeps a field's doc-value form exactly when the field is stored, is no doc value, or holds
      only what an absent value reads back as. */
  predicate ValueSurvives(f: Field) {
    f.flags.docValue && !f.flags.stored ==>
      (Numeric(f.ftype) ==> f.numeric == 0) && (f.ftype.StringType? ==> f.str == [])
  }

  lemma DocValueSurvives(f: Field)
    requires f.flags.docValue
    ensures DocValueForm(StoredForm(f)) == DocValueForm(f) <==> ValueSurvives(f)
  {
    var s := StoredForm(f);
    assert s.flags == f.flags && s.ftype == f.ftype;
  }

  // ---------------------------------------------------------------------------
  // Index terms

  /** The index terms one term of a field expands to. */
  function Expansion(f: Field, term: Term, maxSuffixTerm: nat): seq<Term> {
    if f.flags.suffixBuild && f.ftype.StringType? && |term| <= maxSuffixTerm
    then Utf8.Suffixes(term, if f.suffixLen != 0 then f.suffixLen else DEFAULT_SUFFIX_LEN)
    else [term]
  }

  function FieldTerms(f: Field, maxSuffixTerm: nat): set<(Byte, Term)> {
    set term, t | term in f.terms && term != [] && t in Expansion(f, term, maxSuffixTerm) :: (f.id, t)
  }

  function IndexTerms(fs: seq<Field>, maxSuffixTerm: nat): set<(Byte, Term)> {
    if fs == [] then {} else FieldTerms(fs[0], maxSuffixTerm) + IndexTerms(fs[1..], maxSuffixTerm)
  }

  lemma {:induction false} IndexTermsIn(fs: seq<Field>, k: (Byte, Term), maxSuffixTerm: nat)
    ensures k in IndexTerms(fs, maxSuffixTerm) <==> exists i :: 0 <= i < |fs| && k in FieldTerms(fs[i], maxSuffixTerm)
  {
    if fs != [] {
      IndexTermsIn(fs[1..], k, maxSuffixTerm);
      if i :| 0 <= i < |fs| && k in FieldTerms(fs[i], maxSuffixTerm) && k !in FieldTerms(fs[0], maxSuffixTerm) {
        assert fs[1..][i - 1] == fs[i];
      }
      if i :| 0 <= i < |fs[1..]| && k in FieldTerms(fs[1..][i], maxSuffixTerm) {
        assert fs[i + 1] == fs[1..][i];
      }
    }
  }

  lemma {:induction false} IndexTermsSnoc(fs: seq<Field>, f: Field, maxSuffixTerm: nat)
    ensures IndexTerms(fs + [f], maxSuffixTerm) == IndexTerms(fs, maxSuffixTerm) + FieldTerms(f, maxSuffixTerm)
  {
    if fs == [] {
      assert [f][1..] == [];
    } else {
      assert (fs + [f])[1..] == fs[1..] + [f];
      IndexTermsSnoc(fs[1..], f, maxSuffixTerm);
    }
  }

  /** A document is listed under a term of a field exactly if one of its fields of that id has a term
      that is this one, or of which this is a suffix: the field builds suffixes and is a string, the term
      is not too long, and the suffix follows whole code points and is as long as the field asks, by
      default 5, if the term is. */
  lemma IndexTermsMean(fs: seq<Field>, id: Byte, t: Term, maxSuffixTerm: nat)
    ensures (id, t) in IndexTerms(fs, maxSuffixTerm) <==>
      exists i, x :: 0 <= i < |fs| && fs[i].id == id && x in fs[i].terms && x != [] &&
        (|| t == x
         || (&& fs[i].flags.suffixBuild && fs[i].ftype.StringType? && |x| <= maxSuffixTerm
             && t != [] && (|t| >= |x| || |t| >= if fs[i].suffixLen != 0 then fs[i].suffixLen else 5)
             && exists cps :: Utf8.Splits(x, cps, t)))
  {
    IndexTermsIn(fs, (id, t), maxSuffixTerm);
    forall i, x | 0 <= i < |fs| && x in fs[i].terms && x != []
      ensures t in Expansion(fs[i], x, maxSuffixTerm) <==>
        (|| t == x
         || (&& fs[i].flags.suffixBuild && fs[i].ftype.StringType? && |x| <= maxSuffixTerm
             && t != [] && (|t| >= |x| || |t| >= if fs[i].suffixLen != 0 then fs[i].suffixLen else 5)
             && exists cps :: Utf8.Splits(x, cps, t)))
    {
      ExpansionMeans(fs[i], x, t, maxSuffixTerm);
    }
  }

  lemma ExpansionMeans(f: Field, x: Term, t: Term, maxSuffixTerm: nat)
    requires x != []
    ensures t in Expansion(f, x, maxSuffixTerm) <==>
      (|| t == x
       || (&& f.flags.suffixBuild && f.ftype.StringType? && |x| <= maxSuffixTerm
           && t != [] && (|t| >= |x| || |t| >= if f.suffixLen != 0 then f.suffixLen else 5)
           && exists cps :: Utf8.Splits(x, cps, t)))
  {
    var len := if f.suffixLen != 0 then f.suffixLen else 5;
    Utf8.SuffixesAreExact(x, len, t);
    if t == x { assert Utf8.Splits(x, [], x); }
  }

  /** The field's terms are stored, or it has none worth storing. */
  predicate TermsSurvive(f: Field) { f.flags.notStoreInvertTerm ==> forall t :: t in f.terms ==> t == [] }

  /** A stored field reads back with the same index terms exactly when its terms are stored or empty:
      suffix building gives the same suffixes before and after. */
  lemma FieldTermsSurvive(f: Field, maxSuffixTerm: nat)
    ensures FieldTerms(StoredForm(f), maxSuffixTerm) == FieldTerms(f, maxSuffixTerm) <==> TermsSurvive(f)
  {
    var s := StoredForm(f);
    assert forall t :: Expansion(s, t, maxSuffixTerm) == Expansion(f, t, maxSuffixTerm);
    if !f.flags.notStoreInvertTerm {
      assert s.terms == f.terms;
    } else if t :| t in f.terms && t != [] {
      assert Expansion(f, t, maxSuffixTerm)[0] == t;
      assert (f.id, t) in FieldTerms(f, maxSuffixTerm);
      assert FieldTerms(s, maxSuffixTerm) == {};
    }
  }

  predicate AllTermsSurvive(fs: seq<Field>) { forall i :: 0 <= i < |fs| ==> TermsSurvive(fs[i]) }

  predicate AllValuesSurvive(fs: seq<Field>) { forall i :: 0 <= i < |fs| ==> ValueSurvives(fs[i]) }

  predicate DistinctFields(fs: seq<Field>) { forall i, j :: 0 <= i < j < |fs| ==> fs[i].id != fs[j].id }

  lemma {:induction false} IndexTermsSurvive(fs: seq<Field>, maxSuffixTerm: nat)
    requires AllTermsSurvive(fs)
    ensures IndexTerms(StoredForms(fs), maxSuffixTerm) == IndexTerms(fs, maxSuffixTerm)
  {
    if fs != [] {
      FieldTermsSurvive(fs[0], maxSuffixTerm);
      IndexTermsSurvive(fs[1..], maxSuffixTerm);
    }
  }

  /** Storing never adds index terms. */
  lemma {:induction false} IndexTermsShrink(fs: seq<Field>, maxSuffixTerm: nat)
    ensures IndexTerms(StoredForms(fs), maxSuffixTerm) <= IndexTerms(fs, maxSuffixTerm)
  {
    if fs != [] {
      var f := fs[0];
      assert forall t :: Expansion(StoredForm(f), t, maxSuffixTerm) == Expansion(f, t, maxSuffixTerm);
      assert FieldTerms(StoredForm(f), maxSuffixTerm) <= FieldTerms(f, maxSuffixTerm);
      IndexTermsShrink(fs[1..], maxSuffixTerm);
    }
  }

  /** With distinct field ids nothing else can make up for a field whose terms were dropped. */
  lemma {:induction false} IndexTermsSurviveExactly(fs: seq<Field>, maxSuffixTerm: nat)
    requires DistinctFields(fs)
    ensures IndexTerms(StoredForms(fs), maxSuffixTerm) == IndexTerms(fs, maxSuffixTerm) <==> AllTermsSurvive(fs)
  {
    if AllTermsSurvive(fs) {
      IndexTermsSurvive(fs, maxSuffixTerm);
    } else {
      var i :| 0 <= i < |fs| && !TermsSurvive(fs[i]);
      TermsLost(fs, i, maxSuffixTerm);
    }
  }

  lemma TermsLost(fs: seq<Field>, i: nat, maxSuffixTerm: nat)
    requires DistinctFields(fs) && i < |fs| && !TermsSurvive(fs[i])
    ensures IndexTerms(StoredForms(fs), maxSuffixTerm) != IndexTerms(fs, maxSuffixTerm)
  {
    var t :| t in fs[i].terms && t != [];
    var k := (fs[i].id, t);
    assert Expansion(fs[i], t, maxSuffixTerm)[0] == t;
    assert k in FieldTerms(fs[i], maxSuffixTerm);
    IndexTermsIn(fs, k, maxSuffixTerm);
    IndexTermsIn(StoredForms(fs), k, maxSuffixTerm);
    StoredFormsAt(fs);
    forall j | 0 <= j < |fs| ensures k !in FieldTerms(StoredForm(fs[j]), maxSuffixTerm) {
      assert if j < i then fs[j].id != fs[i].id else j > i ==> fs[i].id != fs[j].id;
    }
  }

  lemma {:induction false} StoredFormsAt(fs: seq<Field>)
    ensures |StoredForms(fs)| == |fs| && forall i :: 0 <= i < |fs| ==> StoredForms(fs)[i] == StoredForm(fs[i])
  {
    if fs != [] { StoredFormsAt(fs[1..]); }
  }

  lemma StoredFormSurvives(f: Field)
    ensures TermsSurvive(StoredForm(f)) && ValueSurvives(StoredForm(f))
  {
  }

  lemma HasDocValueStored(fs: seq<Field>)
    ensures HasDocValue(StoredForms(fs)) <==> HasDocValue(fs)
  {
    StoredFormsAt(fs);
    if i :| 0 <= i < |fs| && fs[i].flags.docValue {
      assert StoredForms(fs)[i].flags.docValue;
    }
  }

  lemma AllValuesSurviveCons(fs: seq<Field>)
    requires fs != []
    ensures AllValuesSurvive(fs) <==> ValueSurvives(fs[0]) && AllValuesSurvive(fs[1..])
  {
    assert forall i :: 0 < i < |fs| ==> fs[i] == fs[1..][i - 1];
    assert forall i :: 0 <= i < |fs| - 1 ==> fs[1..][i] == fs[i + 1];
  }

  /** Storing keeps the doc-value projection exactly when it keeps every value. */
  lemma {:induction false} DocValuesSurvive(fs: seq<Field>)
    ensures DocValueForms(StoredForms(fs)) == DocValueForms(fs) <==> AllValuesSurvive(fs)
  {
    if fs != [] {
      var r, f := fs[1..], fs[0];
      DocValuesSurvive(r);
      AllValuesSurviveCons(fs);
      assert StoredForms(fs)[0] == StoredForm(f) && StoredForms(fs)[1..] == StoredForms(r);
      if f.flags.docValue {
        DocValueSurvives(f);
        SameHeadTail(DocValueForm(StoredForm(f)), DocValueForms(StoredForms(r)), DocValueForm(f), DocValueForms(r));
      } else {
        assert DocValueForms(fs) == DocValueForms(r);
        assert DocValueForms(StoredForms(fs)) == DocValueForms(StoredForms(r));
      }
    }
  }

  lemma SameHeadTail(a: Field, s: seq<Field>, b: Field, t: seq<Field>)
    ensures [a] + s == [b] + t <==> a == b && s == t
  {
    if [a] + s == [b] + t {
      assert ([a] + s)[0] == a && ([a] + s)[1..] == s && ([b] + t)[1..] == t;
    }
  }

  // ---------------------------------------------------------------------------
  // Merging fields

  predicate HasField(fs: seq<Field>, id: nat) { exists i :: 0 <= i < |fs| && fs[i].id == id }

  /** The new fields, then each old field whose id is not there yet. */
  function MergedFields(fs: seq<Field>, olds: seq<Field>): seq<Field>
    decreases |olds|
  {
    if olds == [] then fs
    else MergedFields(if HasField(fs, olds[0].id) then fs else fs + [olds[0]], olds[1..])
  }

  lemma {:induction false} MergedFieldsFrom(fs: seq<Field>, olds: seq<Field>)
    ensures forall f :: f in MergedFields(fs, olds) ==> f in fs || f in olds
    ensures fs <= MergedFields(fs, olds)
    ensures forall f :: f in olds ==> HasField(MergedFields(fs, olds), f.id)
    decreases |olds|
  {
    if olds != [] {
      var next := if HasField(fs, olds[0].id) then fs else fs + [olds[0]];
      MergedFieldsFrom(next, olds[1..]);
      assert HasField(next, olds[0].id) by {
        if !HasField(fs, olds[0].id) { assert next[|fs|] == olds[0]; }
      }
      PrefixHas(next, MergedFields(fs, olds), olds[0].id);
      forall f | f in olds ensures HasField(MergedFields(fs, olds), f.id) {
        assert f == olds[0] || f in olds[1..];
      }
    }
  }

  /** What is added after the new fields are old fields of other ids. */
  lemma {:induction false} MergedFieldsAdd(fs: seq<Field>, olds: seq<Field>)
    ensures |fs| <= |MergedFields(fs, olds)|
    ensures forall i :: |fs| <= i < |MergedFields(fs, olds)| ==>
      MergedFields(fs, olds)[i] in olds && !HasField(fs, MergedFields(fs, olds)[i].id)
    decreases |olds|
  {
    if olds != [] {
      var next := if HasField(fs, olds[0].id) then fs else fs + [olds[0]];
      MergedFieldsAdd(next, olds[1..]);
      MergedFieldsFrom(next, olds[1..]);
      var all := MergedFields(fs, olds);
      forall i | |fs| <= i < |all| ensures all[i] in olds && !HasField(fs, all[i].id) {
        if i < |next| {
          assert all[i] == next[i] == olds[0];
        } else if HasField(fs, all[i].id) {
          PrefixHas(fs, next, all[i].id);
        }
      }
    }
  }

  lemma PrefixHas(fs: seq<Field>, more: seq<Field>, id: nat)
    requires fs <= more && HasField(fs, id)
    ensures HasField(more, id)
  {
    var i :| 0 <= i < |fs| && fs[i].id == id;
    assert more[i].id == id;
  }

  /** An old field that is taken over: its id is not among the new fields, nor among the old ones before. */
  predicate TakenOver(fs: seq<Field>, olds: seq<Field>, j: nat)
    requires j < |olds|
  {
    (forall i :: 0 <= i < |fs| ==> fs[i].id != olds[j].id) && forall i :: 0 <= i < j ==> olds[i].id != olds[j].id
  }

  /** Merging gives the new fields as they are and after them, in order, the old ones taken over. */
  lemma {:induction false} MergedFieldsMean(fs: seq<Field>, olds: seq<Field>)
    ensures var all := MergedFields(fs, olds);
      fs <= all && |all| == |fs| + |set j | 0 <= j < |olds| && TakenOver(fs, olds, j)|
    ensures forall j :: 0 <= j < |olds| && TakenOver(fs, olds, j) ==>
      var k := |fs| + |set i | 0 <= i < j && TakenOver(fs, olds, i)|;
      k < |MergedFields(fs, olds)| && MergedFields(fs, olds)[k] == olds[j]
  {
    MergedFieldsUpTo(fs, olds, |olds|);
    assert olds[..|olds|] == olds;
    forall j | 0 <= j < |olds| && TakenOver(fs, olds, j)
      ensures var k := |fs| + |set i | 0 <= i < j && TakenOver(fs, olds, i)|;
        k < |MergedFields(fs, olds)| && MergedFields(fs, olds)[k] == olds[j]
    {
      MergedFieldsUpTo(fs, olds, j);
      TakenOverAt(fs, olds, j);
    }
  }

  lemma TakenOverAt(fs: seq<Field>, olds: seq<Field>, j: nat)
    requires j < |olds| && TakenOver(fs, olds, j)
    ensures var k := |MergedFields(fs, olds[..j])|;
      k < |MergedFields(fs, olds)| && MergedFields(fs, olds)[k] == olds[j]
  {
    MergedFieldsNext(fs, olds, j);
    MergedFieldsConcat(fs, olds[..j + 1], olds[j + 1..]);
    MergedFieldsFrom(MergedFields(fs, olds[..j + 1]), olds[j + 1..]);
    assert olds == olds[..j + 1] + olds[j + 1..];
  }

  lemma {:induction false} MergedFieldsConcat(fs: seq<Field>, a: seq<Field>, b: seq<Field>)
    ensures MergedFields(fs, a + b) == MergedFields(MergedFields(fs, a), b)
    decreases |a|
  {
    if a == [] {
      assert a + b == b;
    } else {
      assert (a + b)[1..] == a[1..] + b;
      MergedFieldsConcat(if HasField(fs, a[0].id) then fs else fs + [a[0]], a[1..], b);
    }
  }

  /** One more old field is added exactly if it is taken over. */
  lemma MergedFieldsNext(fs: seq<Field>, olds: seq<Field>, n: nat)
    requires n < |olds|
    ensures var before := MergedFields(fs, olds[..n]);
      MergedFields(fs, olds[..n + 1]) == if TakenOver(fs, olds, n) then before + [olds[n]] else before
  {
    var before, id := MergedFields(fs, olds[..n]), olds[n].id;
    MergedFieldsConcat(fs, olds[..n], [olds[n]]);
    assert olds[..n + 1] == olds[..n] + [olds[n]] && [olds[n]][1..] == [];
    MergedFieldsFrom(fs, olds[..n]);
    if HasField(before, id) {
      var i :| 0 <= i < |before| && before[i].id == id;
      assert before[i] in fs || before[i] in olds[..n];
    } else {
      forall i | 0 <= i < |fs| ensures fs[i].id != id { assert before[i] == fs[i]; }
      forall i | 0 <= i < n ensures olds[i].id != id { assert olds[i] in olds[..n]; }
    }
  }

  lemma {:induction false} MergedFieldsUpTo(fs: seq<Field>, olds: seq<Field>, n: nat)
    requires n <= |olds|
    ensures var all := MergedFields(fs, olds[..n]);
      fs <= all && |all| == |fs| + |set j | 0 <= j < n && TakenOver(fs, olds, j)|
  {
    if n > 0 {
      MergedFieldsUpTo(fs, olds, n - 1);
      MergedFieldsNext(fs, olds, n - 1);
    }
    TakenOverNext(fs, olds, n);
  }

  lemma TakenOverNext(fs: seq<Field>, olds: seq<Field>, n: nat)
    requires n <= |olds|
    ensures |set j | 0 <= j < n && TakenOver(fs, olds, j)| ==
      if n == 0 then 0
      else |set j | 0 <= j < n - 1 && TakenOver(fs, olds, j)| + if TakenOver(fs, olds, n - 1) then 1 else 0
  {
    var here := set j | 0 <= j < n && TakenOver(fs, olds, j);
    if n == 0 {
      assert here == {};
    } else {
      var before := set j | 0 <= j < n - 1 && TakenOver(fs, olds, j);
      assert here == if TakenOver(fs, olds, n - 1) then before + {n - 1} else before;
    }
  }

  lemma {:induction false} MergedFieldsDistinct(fs: seq<Field>, olds: seq<Field>)
    requires DistinctFields(fs)
    ensures DistinctFields(MergedFields(fs, olds))
    decreases |olds|
  {
    if olds != [] {
      MergedFieldsDistinct(if HasField(fs, olds[0].id) then fs else fs + [olds[0]], olds[1..]);
    }
  }
}
