/** What filters and sorting see of a document: its doc-value row, which is the projection of its stored
    fields. */
module Loading {
  import opened Basics
  import opened Documents
  import opened Database
  import opened Batches
  import C = Collector
  import S = Sorting

  function ValueOf(f: Field): S.FieldValue {
    if Numeric(f.ftype) then S.Numeric(f.numeric) else if f.ftype.StringType? then S.Text(f.str) else S.OtherType
  }

  /** A row's fields by id, the first of each. */
  function ByID(fs: seq<Field>): map<nat, S.FieldValue> {
    if fs == [] then map[] else ByID(fs[1..])[fs[0].id := ValueOf(fs[0])]
  }

  /** The doc values among a document's own fields. */
  function DocValues(fs: seq<Field>): map<nat, S.FieldValue> {
    if fs == [] then map[]
    else if fs[0].flags.docValue then DocValues(fs[1..])[fs[0].id := ValueOf(fs[0])] else DocValues(fs[1..])
  }

  /** Loading a document reads its doc-value row, if there is one; a read may fail. */
  ghost predicate LoadsRows(o: C.Options, s: Store, table: Table) {
    forall id :: o.load(id).Failed? ||
      o.load(id) == if DocKey(table, id) in s.docValues then C.Loaded(ByID(s.docValues[DocKey(table, id)].fields)) else C.Missing
  }

  /** The same options with the stored documents' own doc values in place of the rows. */
  ghost function FromStored(o: C.Options, s: Store, table: Table): C.Options {
    o.(load := (id: nat) => if o.load(id).Failed? then C.Failed
                     else C.Loaded(DocValues(if DocKey(table, id) in s.stored then s.stored[DocKey(table, id)].fields else [])))
  }

  /** A doc-value projection holds a document's own doc values. */
  lemma {:induction false} ProjectionValues(fs: seq<Field>)
    ensures ByID(DocValueForms(fs)) == DocValues(fs)
  {
    if fs != [] {
      ProjectionValues(fs[1..]);
      if fs[0].flags.docValue {
        assert DocValueForms(fs) == [DocValueForm(fs[0])] + DocValueForms(fs[1..]);
        assert DocValueForms(fs)[1..] == DocValueForms(fs[1..]);
        assert ValueOf(DocValueForm(fs[0])) == ValueOf(fs[0]);
      } else {
        assert DocValueForms(fs) == DocValueForms(fs[1..]);
      }
    }
  }

  predicate IsDocValue(fs: seq<Field>, i: nat, id: nat)
    requires i < |fs|
  {
    fs[i].flags.docValue && fs[i].id == id
  }

  /** A document has a doc value under the ids of its fields flagged so, that of the first of each: its
      number if it is of a number type, its text if it is a string, and else one that never compares. */
  lemma {:induction false} DocValuesMean(fs: seq<Field>, id: nat)
    ensures id in DocValues(fs) <==> exists i :: 0 <= i < |fs| && IsDocValue(fs, i, id)
    ensures forall i :: 0 <= i < |fs| && IsDocValue(fs, i, id) && (forall j :: 0 <= j < i ==> !IsDocValue(fs, j, id)) ==>
      id in DocValues(fs) && DocValues(fs)[id] ==
        if fs[i].ftype.Uint32Type? || fs[i].ftype.Uint64Type? then S.Numeric(fs[i].numeric)
        else if fs[i].ftype.StringType? then S.Text(fs[i].str)
        else S.OtherType
  {
    if fs != [] {
      var r := fs[1..];
      DocValuesMean(r, id);
      forall i | 0 <= i < |r| ensures IsDocValue(fs, i + 1, id) <==> IsDocValue(r, i, id) {
      }
      if id in DocValues(fs) && !IsDocValue(fs, 0, id) {
        var i :| 0 <= i < |r| && IsDocValue(r, i, id);
        assert IsDocValue(fs, i + 1, id);
      }
      if i :| 0 < i < |fs| && IsDocValue(fs, i, id) {
        assert IsDocValue(r, i - 1, id);
      }
      forall i | 0 < i < |fs| && IsDocValue(fs, i, id) && (forall j :: 0 <= j < i ==> !IsDocValue(fs, j, id))
        ensures IsDocValue(r, i - 1, id) && forall j :: 0 <= j < i - 1 ==> !IsDocValue(r, j, id)
      {
        forall j | 0 <= j < i - 1 ensures !IsDocValue(r, j, id) { assert !IsDocValue(fs, j + 1, id); }
      }
    }
  }

  lemma {:induction false} NoDocValues(fs: seq<Field>)
    requires !HasDocValue(fs)
    ensures DocValues(fs) == map[]
  {
    if fs != [] {
      assert forall i :: 0 <= i < |fs[1..]| ==> fs[1..][i] == fs[i + 1];
      NoDocValues(fs[1..]);
    }
  }

  /** Where the doc-value column agrees, a loaded document is the stored one's projection. */
  lemma LoadedIsStored(o: C.Options, s: Store, table: Table, id: nat)
    requires DocValuesAgreeAt(s, DocKey(table, id)) && LoadsRows(o, s, table)
    ensures var f := FromStored(o, s, table);
      f.DocOf(id) == o.DocOf(id) && f.Readable(id) == o.Readable(id)
  {
    var k := DocKey(table, id);
    var fs := if k in s.stored then s.stored[k].fields else [];
    ProjectionValues(fs);
    if !HasDocValue(fs) { NoDocValues(fs); }
  }

  lemma {:induction false} SameHits(o: C.Options, s: Store, table: Table, ids: seq<nat>)
    requires (forall k :: DocValuesAgreeAt(s, k)) && LoadsRows(o, s, table)
    ensures FromStored(o, s, table).Hits(ids) == o.Hits(ids)
    ensures C.AllReadable(FromStored(o, s, table), ids) <==> C.AllReadable(o, ids)
  {
    forall id ensures FromStored(o, s, table).Readable(id) == o.Readable(id) {
      LoadedIsStored(o, s, table, id);
    }
    if ids != [] {
      SameHits(o, s, table, ids[..|ids| - 1]);
      LoadedIsStored(o, s, table, ids[|ids| - 1]);
      SameMatches(o, s, table, o.DocOf(ids[|ids| - 1]));
    }
  }

  lemma SameMatches(o: C.Options, s: Store, table: Table, d: S.Doc)
    ensures FromStored(o, s, table).Matches(d) == o.Matches(d)
  {
    if o.filter.Some? { SameCount(o, s, table, o.filter.value, d); }
  }

  lemma {:induction false} SameCount(o: C.Options, s: Store, table: Table, rules: seq<C.Rule>, d: S.Doc)
    ensures FromStored(o, s, table).MatchCount(rules, d) == o.MatchCount(rules, d)
  {
    if rules != [] { SameCount(o, s, table, rules[1..], d); }
  }

  lemma AnswerFromStored(o: C.Options, s: Store, table: Table, ids: seq<nat>, ok: bool, docs: seq<nat>, total: nat)
    requires (forall k :: DocValuesAgreeAt(s, k)) && LoadsRows(o, s, table) && C.Answer(o, ids, ok, docs, total)
    ensures C.Answer(FromStored(o, s, table), ids, ok, docs, total)
  {
    SameHits(o, s, table, ids);
    if ok {
      var n: nat :| C.ReadEnough(o, ids, n);
      SameHits(o, s, table, ids[..n]);
      assert C.ReadEnough(FromStored(o, s, table), ids, n);
    }
  }
}
