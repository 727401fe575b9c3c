/** The three columns of the store, write buffers, and what one batch of changes does to each column. */
module Database {
  import opened Basics
  import opened Documents
  import opened Compaction
  import P = Postings

  datatype DocKey = DocKey(table: Table, id: nat)

  datatype TermKey = TermKey(table: Table, field: Byte, term: Term)

  datatype Store = Store(stored: map<DocKey, Document>, postings: map<TermKey, Cell>,
                         docValues: map<DocKey, Document>)

  const NO_LISTS := Cell(None, [])

  function CellOf(postings: map<TermKey, Cell>, k: TermKey): Cell {
    if k in postings then postings[k] else NO_LISTS
  }

  function Extend(c: Cell, ls: seq<P.PostingList>): Cell { Cell(c.base, c.ops + ls) }

  datatype Op =
    | PutStored(key: DocKey, doc: Document)
    | DeleteStored(key: DocKey)
    | Merge(term: TermKey, l: P.PostingList)
    | PutDocValue(key: DocKey, doc: Document)
    | DeleteDocValue(key: DocKey)

  // ---------------------------------------------------------------------------
  // What a list of operations does to each column

  function StoredAfter(m: map<DocKey, Document>, ops: seq<Op>): map<DocKey, Document> {
    if ops == [] then m
    else
      var before, op := StoredAfter(m, ops[..|ops| - 1]), ops[|ops| - 1];
      match op
      case PutStored(k, d) => before[k := d]
      case DeleteStored(k) => before - {k}
      case _ => before
  }

  function DocValuesAfter(m: map<DocKey, Document>, ops: seq<Op>): map<DocKey, Document> {
    if ops == [] then m
    else
      var before, op := DocValuesAfter(m, ops[..|ops| - 1]), ops[|ops| - 1];
      match op
      case PutDocValue(k, d) => before[k := d]
      case DeleteDocValue(k) => before - {k}
      case _ => before
  }

  function PostingsAfter(m: map<TermKey, Cell>, ops: seq<Op>): map<TermKey, Cell> {
    if ops == [] then m
    else
      var before, op := PostingsAfter(m, ops[..|ops| - 1]), ops[|ops| - 1];
      if op.Merge? then before[op.term := Extend(CellOf(before, op.term), [op.l])] else before
  }

  function ApplyAll(s: Store, ops: seq<Op>): Store {
    Store(StoredAfter(s.stored, ops), PostingsAfter(s.postings, ops), DocValuesAfter(s.docValues, ops))
  }

  /** The operands written for one key, in order. */
  function MergesFor(ops: seq<Op>, k: TermKey): seq<P.PostingList> {
    if ops == [] then []
    else
      var op := ops[|ops| - 1];
      MergesFor(ops[..|ops| - 1], k) + if op.Merge? && op.term == k then [op.l] else []
  }

  lemma {:induction false} PostingsAt(m: map<TermKey, Cell>, ops: seq<Op>, k: TermKey)
    ensures CellOf(PostingsAfter(m, ops), k) == Extend(CellOf(m, k), MergesFor(ops, k))
    ensures k in PostingsAfter(m, ops) <==> k in m || MergesFor(ops, k) != []
  {
    if ops == [] {
      assert CellOf(m, k).ops + [] == CellOf(m, k).ops;
    } else {
      PostingsAt(m, ops[..|ops| - 1], k);
    }
  }

  lemma {:induction false} MergesForConcat(a: seq<Op>, b: seq<Op>, k: TermKey)
    ensures MergesFor(a + b, k) == MergesFor(a, k) + MergesFor(b, k)
  {
    if b == [] {
      assert a + b == a;
    } else {
      var r := b[..|b| - 1];
      assert (a + b)[..|a + b| - 1] == a + r;
      MergesForConcat(a, r, k);
    }
  }

  predicate NoStored(ops: seq<Op>) { forall i :: 0 <= i < |ops| ==> !ops[i].PutStored? && !ops[i].DeleteStored? }

  predicate NoDocValues(ops: seq<Op>) {
    forall i :: 0 <= i < |ops| ==> !ops[i].PutDocValue? && !ops[i].DeleteDocValue?
  }

  predicate NoMerges(ops: seq<Op>) { forall i :: 0 <= i < |ops| ==> !ops[i].Merge? }

  lemma {:induction false} StoredIgnores(m: map<DocKey, Document>, a: seq<Op>, b: seq<Op>)
    requires NoStored(b)
    ensures StoredAfter(m, a + b) == StoredAfter(m, a)
  {
    if b == [] {
      assert a + b == a;
    } else {
      assert (a + b)[..|a + b| - 1] == a + b[..|b| - 1];
      StoredIgnores(m, a, b[..|b| - 1]);
    }
  }

  lemma {:induction false} DocValuesIgnore(m: map<DocKey, Document>, a: seq<Op>, b: seq<Op>)
    requires NoDocValues(a)
    ensures DocValuesAfter(m, a + b) == DocValuesAfter(m, b)
  {
    if b == [] {
      assert a + b == a;
      if a != [] {
        var r := a[..|a| - 1];
        DocValuesIgnore(m, r, []);
        assert r + [] == r;
      }
    } else {
      assert (a + b)[..|a + b| - 1] == a + b[..|b| - 1];
      DocValuesIgnore(m, a, b[..|b| - 1]);
    }
  }

  lemma {:induction false} NoMergesFor(ops: seq<Op>, k: TermKey)
    requires NoMerges(ops)
    ensures MergesFor(ops, k) == []
  {
    if ops != [] { NoMergesFor(ops[..|ops| - 1], k); }
  }

  // ---------------------------------------------------------------------------
  // Changes

  /** What a batch does to one document: the fields it had and the fields it gets. */
  datatype Change = Change(active: bool, id: nat, del: bool, olds: seq<Field>, news: seq<Field>)

  function StoredOp(table: Table, c: Change): seq<Op> {
    if !c.active then []
    else if c.del then [DeleteStored(DocKey(table, c.id))]
    else [PutStored(DocKey(table, c.id), Document(c.id, StoredForms(c.news)))]
  }

  /** The row is replaced if the new fields have doc values, and removed if only the old ones had. */
  function DocValueOp(table: Table, c: Change): seq<Op> {
    if !c.active then []
    else if !c.del && HasDocValue(c.news) then
      [PutDocValue(DocKey(table, c.id), Document(c.id, DocValueForms(c.news)))]
    else if HasDocValue(c.olds) then [DeleteDocValue(DocKey(table, c.id))]
    else []
  }

  function NewTerms(c: Change, maxSuffixTerm: nat): set<(Byte, Term)> {
    if c.del then {} else IndexTerms(c.news, maxSuffixTerm)
  }

  function OldTerms(c: Change, maxSuffixTerm: nat): set<(Byte, Term)> { IndexTerms(c.olds, maxSuffixTerm) }

  /** A term gained gets the document, a term lost gets its tombstone, any other gets nothing. */
  function Wanted(table: Table, c: Change, k: TermKey, maxSuffixTerm: nat): seq<P.PostingList> {
    var t := (k.field, k.term);
    if !c.active || k.table != table then []
    else if t in NewTerms(c, maxSuffixTerm) && t !in OldTerms(c, maxSuffixTerm) then [[P.Entry(c.id, 0)]]
    else if t in OldTerms(c, maxSuffixTerm) && t !in NewTerms(c, maxSuffixTerm) then [[P.Entry(c.id, P.DELETED)]]
    else []
  }

  function StoredOps(table: Table, cs: seq<Change>): seq<Op> {
    if cs == [] then [] else StoredOps(table, cs[..|cs| - 1]) + StoredOp(table, cs[|cs| - 1])
  }

  function DocValueOps(table: Table, cs: seq<Change>): seq<Op> {
    if cs == [] then [] else DocValueOps(table, cs[..|cs| - 1]) + DocValueOp(table, cs[|cs| - 1])
  }

  function WantedAll(table: Table, cs: seq<Change>, k: TermKey, maxSuffixTerm: nat): seq<P.PostingList> {
    if cs == [] then []
    else WantedAll(table, cs[..|cs| - 1], k, maxSuffixTerm) + Wanted(table, cs[|cs| - 1], k, maxSuffixTerm)
  }

  function TouchedKeys(table: Table, cs: seq<Change>, maxSuffixTerm: nat): set<TermKey> {
    if cs == [] then {}
    else
      TouchedKeys(table, cs[..|cs| - 1], maxSuffixTerm)
      + set t | t in NewTerms(cs[|cs| - 1], maxSuffixTerm) + OldTerms(cs[|cs| - 1], maxSuffixTerm)
          :: TermKey(table, t.0, t.1)
  }

  /** The store after a batch. */
  function Changed(s: Store, table: Table, cs: seq<Change>, maxSuffixTerm: nat): Store {
    Store(StoredAfter(s.stored, StoredOps(table, cs)),
          map k | k in s.postings.Keys + TouchedKeys(table, cs, maxSuffixTerm)
                  && (k in s.postings || WantedAll(table, cs, k, maxSuffixTerm) != [])
            :: Extend(CellOf(s.postings, k), WantedAll(table, cs, k, maxSuffixTerm)),
          DocValuesAfter(s.docValues, DocValueOps(table, cs)))
  }

  lemma {:induction false} WantedTouches(table: Table, cs: seq<Change>, k: TermKey, maxSuffixTerm: nat)
    requires WantedAll(table, cs, k, maxSuffixTerm) != []
    ensures k in TouchedKeys(table, cs, maxSuffixTerm)
  {
    var c, r := cs[|cs| - 1], cs[..|cs| - 1];
    if Wanted(table, c, k, maxSuffixTerm) == [] {
      WantedTouches(table, r, k, maxSuffixTerm);
    } else {
      var t := (k.field, k.term);
      assert t in NewTerms(c, maxSuffixTerm) + OldTerms(c, maxSuffixTerm) && k == TermKey(table, t.0, t.1);
    }
  }

  /** After a batch, each cell has gained the operands wanted for it. */
  lemma ChangedCell(s: Store, table: Table, cs: seq<Change>, k: TermKey, maxSuffixTerm: nat)
    ensures CellOf(Changed(s, table, cs, maxSuffixTerm).postings, k)
         == Extend(CellOf(s.postings, k), WantedAll(table, cs, k, maxSuffixTerm))
  {
    if WantedAll(table, cs, k, maxSuffixTerm) != [] {
      WantedTouches(table, cs, k, maxSuffixTerm);
    } else {
      assert CellOf(s.postings, k).ops + [] == CellOf(s.postings, k).ops;
    }
  }

  lemma {:induction false} StoredOpsOnly(table: Table, cs: seq<Change>)
    ensures NoMerges(StoredOps(table, cs)) && NoDocValues(StoredOps(table, cs))
  {
    if cs != [] { StoredOpsOnly(table, cs[..|cs| - 1]); }
  }

  lemma {:induction false} DocValueOpsOnly(table: Table, cs: seq<Change>)
    ensures NoMerges(DocValueOps(table, cs)) && NoStored(DocValueOps(table, cs))
  {
    if cs != [] { DocValueOpsOnly(table, cs[..|cs| - 1]); }
  }

  lemma MergesOfBatch(table: Table, cs: seq<Change>, merges: seq<Op>, k: TermKey)
    ensures MergesFor(StoredOps(table, cs) + merges + DocValueOps(table, cs), k) == MergesFor(merges, k)
  {
    var a, b := StoredOps(table, cs), DocValueOps(table, cs);
    StoredOpsOnly(table, cs);
    DocValueOpsOnly(table, cs);
    MergesForConcat(a + merges, b, k);
    MergesForConcat(a, merges, k);
    NoMergesFor(a, k);
    NoMergesFor(b, k);
    assert [] + MergesFor(merges, k) + [] == MergesFor(merges, k);
  }

  /** Each key has gained exactly what the changes want for it. */
  ghost predicate Provides(ops: seq<Op>, table: Table, cs: seq<Change>, maxSuffixTerm: nat) {
    forall k {:trigger MergesFor(ops, k)} :: MergesFor(ops, k) == WantedAll(table, cs, k, maxSuffixTerm)
  }

  lemma PostingsOfBatch(s: Store, table: Table, cs: seq<Change>, ops: seq<Op>, maxSuffixTerm: nat)
    requires Provides(ops, table, cs, maxSuffixTerm)
    ensures PostingsAfter(s.postings, ops) == Changed(s, table, cs, maxSuffixTerm).postings
  {
    var p, q := PostingsAfter(s.postings, ops), Changed(s, table, cs, maxSuffixTerm).postings;
    forall k ensures (k in p <==> k in q) && CellOf(p, k) == CellOf(q, k) {
      PostingsAt(s.postings, ops, k);
      ChangedCell(s, table, cs, k, maxSuffixTerm);
      assert MergesFor(ops, k) == WantedAll(table, cs, k, maxSuffixTerm);
      if WantedAll(table, cs, k, maxSuffixTerm) != [] { WantedTouches(table, cs, k, maxSuffixTerm); }
    }
    SameCells(p, q);
  }

  lemma SameCells(p: map<TermKey, Cell>, q: map<TermKey, Cell>)
    requires forall k :: (k in p <==> k in q) && CellOf(p, k) == CellOf(q, k)
    ensures p == q
  {
    assert forall k :: k in p ==> p[k] == CellOf(p, k) && q[k] == CellOf(q, k);
  }

  /** Stored-field operations, then any merges that give each key what it wants, then doc-value
      operations: together they make the batch. */
  lemma OpsMakeChange(s: Store, table: Table, cs: seq<Change>, merges: seq<Op>, maxSuffixTerm: nat)
    requires NoStored(merges) && NoDocValues(merges) && Provides(merges, table, cs, maxSuffixTerm)
    ensures ApplyAll(s, StoredOps(table, cs) + merges + DocValueOps(table, cs)) == Changed(s, table, cs, maxSuffixTerm)
  {
    var a, b := StoredOps(table, cs), DocValueOps(table, cs);
    var ops := a + merges + b;
    StoredOpsOnly(table, cs);
    DocValueOpsOnly(table, cs);
    StoredIgnores(s.stored, a + merges, b);
    StoredIgnores(s.stored, a, merges);
    DocValuesIgnore(s.docValues, a + merges, b);
    assert Provides(ops, table, cs, maxSuffixTerm) by {
      forall k ensures MergesFor(ops, k) == WantedAll(table, cs, k, maxSuffixTerm) {
        MergesOfBatch(table, cs, merges, k);
        assert MergesFor(merges, k) == WantedAll(table, cs, k, maxSuffixTerm);
      }
    }
    PostingsOfBatch(s, table, cs, ops, maxSuffixTerm);
  }

  // ---------------------------------------------------------------------------
  // One document's rows after a batch

  /** Change j is an active one for this id. */
  predicate Of(cs: seq<Change>, j: nat, id: nat) { j < |cs| && cs[j].active && cs[j].id == id }

  /** No later change is for the same id. */
  predicate Last(cs: seq<Change>, m: nat) {
    m < |cs| && cs[m].active && forall j :: m < j < |cs| && cs[j].active ==> cs[j].id != cs[m].id
  }

  lemma {:induction false} LastExists(cs: seq<Change>, j: nat, id: nat) returns (m: nat)
    requires Of(cs, j, id)
    ensures Last(cs, m) && cs[m].id == id
    decreases |cs| - j
  {
    m := j;
    if i :| j < i < |cs| && cs[i].active && cs[i].id == id {
      m := LastExists(cs, i, id);
    }
  }

  predicate Untouched(cs: seq<Change>, id: nat) { forall i :: 0 <= i < |cs| ==> cs[i].active ==> cs[i].id != id }

  function PutOne(m: map<DocKey, Document>, ops: seq<Op>): map<DocKey, Document> {
    if ops == [] then m
    else if ops[0].PutStored? || ops[0].PutDocValue? then m[ops[0].key := ops[0].doc]
    else if ops[0].Merge? then m
    else m - {ops[0].key}
  }

  /** The rows of one key agree. */
  predicate SameRow(m: map<DocKey, Document>, n: map<DocKey, Document>, k: DocKey) {
    (k in m <==> k in n) && (k in m ==> m[k] == n[k])
  }

  /** A row holds the document, or is absent if there is none. */
  predicate RowIs(m: map<DocKey, Document>, k: DocKey, d: Option<Document>) {
    (k in m <==> d.Some?) && (k in m ==> m[k] == d.value)
  }

  function StoredRow(c: Change): Option<Document> {
    if c.del then None else Some(Document(c.id, StoredForms(c.news)))
  }

  function DocValueRow(c: Change): Option<Document> {
    if !c.del && HasDocValue(c.news) then Some(Document(c.id, DocValueForms(c.news))) else None
  }

  lemma StoredMore(m: map<DocKey, Document>, a: seq<Op>, table: Table, c: Change)
    ensures StoredAfter(m, a + StoredOp(table, c)) == PutOne(StoredAfter(m, a), StoredOp(table, c))
  {
    var op := StoredOp(table, c);
    if op == [] {
      assert a + op == a;
    } else {
      assert (a + op)[..|a + op| - 1] == a;
    }
  }

  lemma DocValuesMore(m: map<DocKey, Document>, a: seq<Op>, table: Table, c: Change)
    ensures DocValuesAfter(m, a + DocValueOp(table, c)) == PutOne(DocValuesAfter(m, a), DocValueOp(table, c))
  {
    var op := DocValueOp(table, c);
    if op == [] {
      assert a + op == a;
    } else {
      assert (a + op)[..|a + op| - 1] == a;
    }
  }

  lemma PutOther(m: map<DocKey, Document>, table: Table, c: Change, k: DocKey)
    requires c.active ==> k != DocKey(table, c.id)
    ensures SameRow(PutOne(m, StoredOp(table, c)), m, k) && SameRow(PutOne(m, DocValueOp(table, c)), m, k)
  {
  }

  lemma PutThis(m: map<DocKey, Document>, v: map<DocKey, Document>, table: Table, c: Change)
    requires c.active
    ensures RowIs(PutOne(m, StoredOp(table, c)), DocKey(table, c.id), StoredRow(c))
    ensures DocValueRow(c).Some? || HasDocValue(c.olds) || DocKey(table, c.id) !in v ==>
      RowIs(PutOne(v, DocValueOp(table, c)), DocKey(table, c.id), DocValueRow(c))
  {
  }

  lemma {:induction false} UntouchedRows(s: Store, table: Table, cs: seq<Change>, k: DocKey)
    requires k.table != table || Untouched(cs, k.id)
    ensures SameRow(StoredAfter(s.stored, StoredOps(table, cs)), s.stored, k)
    ensures SameRow(DocValuesAfter(s.docValues, DocValueOps(table, cs)), s.docValues, k)
  {
    if cs != [] {
      var r, c := cs[..|cs| - 1], cs[|cs| - 1];
      UntouchedRows(s, table, r, k);
      StoredMore(s.stored, StoredOps(table, r), table, c);
      DocValuesMore(s.docValues, DocValueOps(table, r), table, c);
      PutOther(StoredAfter(s.stored, StoredOps(table, r)), table, c, k);
      PutOther(DocValuesAfter(s.docValues, DocValueOps(table, r)), table, c, k);
    }
  }

  /** The last change of an id decides its stored row, and its doc-value row too if it has doc values
      to put or knows of a row to remove. */
  lemma {:induction false} LastRows(s: Store, table: Table, cs: seq<Change>, m: nat)
    requires Last(cs, m)
    ensures RowIs(StoredAfter(s.stored, StoredOps(table, cs)), DocKey(table, cs[m].id), StoredRow(cs[m]))
    ensures DocValueRow(cs[m]).Some? || HasDocValue(cs[m].olds) ==>
      RowIs(DocValuesAfter(s.docValues, DocValueOps(table, cs)), DocKey(table, cs[m].id), DocValueRow(cs[m]))
  {
    var r, c, k := cs[..|cs| - 1], cs[|cs| - 1], DocKey(table, cs[m].id);
    var a, v := StoredAfter(s.stored, StoredOps(table, r)), DocValuesAfter(s.docValues, DocValueOps(table, r));
    StoredMore(s.stored, StoredOps(table, r), table, c);
    DocValuesMore(s.docValues, DocValueOps(table, r), table, c);
    if m < |r| {
      LastRows(s, table, r, m);
      PutOther(a, table, c, k);
      PutOther(v, table, c, k);
    } else {
      PutThis(a, v, table, c);
    }
  }

  /** Some change of the id puts a doc-value row. */
  ghost predicate SomePut(cs: seq<Change>, id: nat) { exists j: nat :: Of(cs, j, id) && DocValueRow(cs[j]).Some? }

  lemma SomePutMore(cs: seq<Change>, id: nat)
    requires cs != []
    ensures var n := |cs| - 1;
      SomePut(cs, id) <==> SomePut(cs[..n], id) || (Of(cs, n, id) && DocValueRow(cs[n]).Some?)
  {
    var n := |cs| - 1;
    if j: nat :| Of(cs[..n], j, id) && DocValueRow(cs[..n][j]).Some? {
      assert Of(cs, j, id) && DocValueRow(cs[j]).Some?;
    }
    if j: nat :| Of(cs, j, id) && DocValueRow(cs[j]).Some? && j < n {
      assert Of(cs[..n], j, id) && DocValueRow(cs[..n][j]).Some?;
    }
  }

  /** With no change of an id knowing of a row, a row stays or is put, never removed. */
  lemma {:induction false} RowsStay(s: Store, table: Table, cs: seq<Change>, id: nat)
    requires forall j: nat :: Of(cs, j, id) ==> !HasDocValue(cs[j].olds)
    ensures DocKey(table, id) in DocValuesAfter(s.docValues, DocValueOps(table, cs)) <==>
      DocKey(table, id) in s.docValues || SomePut(cs, id)
  {
    if cs != [] {
      var r, c, n := cs[..|cs| - 1], cs[|cs| - 1], |cs| - 1;
      assert forall j: nat :: Of(r, j, id) ==> Of(cs, j, id) && r[j] == cs[j];
      RowsStay(s, table, r, id);
      DocValuesMore(s.docValues, DocValueOps(table, r), table, c);
      SomePutMore(cs, id);
      var v := DocValuesAfter(s.docValues, DocValueOps(table, r));
      if !Of(cs, n, id) {
        PutOther(v, table, c, DocKey(table, id));
      } else if DocValueRow(c).Some? {
        PutThis(v, v, table, c);
      } else {
        assert DocValueOp(table, c) == [];
      }
    }
  }
}
