/** A query against the store: its terms' posting lists are read, its tree evaluated, the hits filtered
    and sorted by their doc-value rows and the answer windowed.  What comes back are the stored documents
    whose fields satisfy the query, filtered and sorted by their own fields. */
module EndToEnd {
  import opened Basics
  import opened Documents
  import opened Database
  import opened Batches
  import opened Loading
  import opened Queries
  import opened QueryEval
  import Compaction
  import H = HeapMerge
  import I = Iterators
  import Keys
  import P = Postings
  import Scan
  import C = Collector

  /** No posting list is too long to be read whole, and ids are 64-bit. */
  ghost predicate Readable(s: Store, max: nat) {
    && ListsFine(s)
    && (forall k :: Compaction.FullFits(CellOf(s.postings, k).Lists(), max))
    && forall k :: k in s.stored ==> k.id <= I.MAX_DOCID
  }

  function IdsOf(l: P.PostingList): seq<nat> { seq(|l|, i requires 0 <= i < |l| => l[i].id) }

  lemma IdsOfExact(l: P.PostingList)
    requires P.Descending(l)
    ensures I.Decreasing(IdsOf(l)) && forall id :: id in IdsOf(l) <==> id in P.ToMap(l)
  {
    forall id ensures id in IdsOf(l) <==> id in P.ToMap(l) {
      P.ToMapIn(l, id);
      if P.Mentions(l, id) {
        var k :| 0 <= k < |l| && l[k].id == id;
        assert IdsOf(l)[k] == id;
      }
    }
  }

  /** The full merge of a term's lists: the ids of the documents whose stored fields have the term. */
  method ReadTerm(s: Store, k: TermKey, max: nat, ghost maxSuffixTerm: nat) returns (ids: seq<nat>)
    requires Agrees(s, maxSuffixTerm) && Readable(s, max) && max > 0
    ensures I.Decreasing(ids) && I.IdRange(ids)
    ensures forall id :: id in ids <==> Matches(s, k.table, TermQuery(k.field, k.term), id, maxSuffixTerm)
  {
    var cell := CellOf(s.postings, k);
    var list: P.PostingList := [];
    if cell.base.Some? || cell.ops != [] {
      assert P.AllWellFormed(cell.Lists());
      var merger := new H.OptimizeMerger(max);
      list := merger.FullMergeV2(cell.base, cell.ops);
    } else {
      assert cell.Lists() == [];
    }
    ids := IdsOf(list);
    MergedShows(cell, list, max);
    IdsOfExact(list);
    forall id ensures id in ids <==> Matches(s, k.table, TermQuery(k.field, k.term), id, maxSuffixTerm) {
      ShownIsMatch(s, k, id, maxSuffixTerm);
    }
    forall i | 0 <= i < |ids| ensures 0 < ids[i] <= I.MAX_DOCID {
      assert ids[i] in ids;
      assert StoredAt(s, DocKey(k.table, ids[i]));
    }
  }

  lemma MergedShows(cell: Compaction.Cell, list: P.PostingList, max: nat)
    requires Compaction.FullFits(cell.Lists(), max)
    requires if cell.Lists() == [] then list == [] else list == H.FullMerge(cell.Lists(), max)
    ensures P.Descending(list) && P.ToMap(list) == Compaction.Visible(cell)
  {
    Compaction.FullMergeExact(cell.Lists(), max);
    Compaction.FullMergeMeaning(cell.Lists(), max);
  }

  lemma ShownIsMatch(s: Store, k: TermKey, id: nat, maxSuffixTerm: nat)
    requires Agrees(s, maxSuffixTerm)
    ensures id in Compaction.Visible(CellOf(s.postings, k)) <==>
            Matches(s, k.table, TermQuery(k.field, k.term), id, maxSuffixTerm)
  {
    assert IndexAgreesAt(s, DocKey(k.table, id), maxSuffixTerm);
    assert Shows(s, TermKey(k.table, k.field, k.term), id) <==>
      (k.field, k.term) in TermsAt(s, DocKey(k.table, id), maxSuffixTerm);
  }

  /** The plan stands for what the query finds. */
  ghost predicate Stands(p: Plan, s: Store, rows: seq<Scan.Row>, table: Table, q: Query, maxSuffixTerm: nat) {
    Good(p) && forall id :: Holds(p, id) <==> Finds(s, rows, table, q, id, maxSuffixTerm)
  }

  /** The scorer tree of a query, and whether some scan reported its limit. */
  method Compile(s: Store, rows: seq<Scan.Row>, table: Table, q: Query, max: nat, ghost maxSuffixTerm: nat)
    returns (p: Plan, limited: bool)
    requires Agrees(s, maxSuffixTerm) && Readable(s, max) && max > 0 && RowsOf(rows, s)
    ensures Stands(p, s, rows, table, q, maxSuffixTerm) && (limited <==> AnyLimited(rows, table, q))
    decreases q, 1
  {
    if q.TermQuery? {
      var ids := ReadTerm(s, TermKey(table, q.field, q.term), max, maxSuffixTerm);
      p, limited := Leaf(ids), false;
    } else if q.PrefixQuery? {
      p, limited := CompilePrefix(s, rows, table, q, max, maxSuffixTerm);
    } else {
      var ps;
      ps, limited := CompileAll(s, rows, table, q, q.subs, max, maxSuffixTerm);
      p := if q.AndQuery? then AndOf(ps) else OrOf(ps);
      CombinedStands(s, rows, table, q, ps, maxSuffixTerm);
    }
  }

  method CompileAll(s: Store, rows: seq<Scan.Row>, table: Table, ghost q: Query, qs: seq<Query>, max: nat,
                    ghost maxSuffixTerm: nat)
    returns (ps: seq<Plan>, limited: bool)
    requires Agrees(s, maxSuffixTerm) && Readable(s, max) && max > 0 && RowsOf(rows, s)
    requires forall i :: 0 <= i < |qs| ==> qs[i] < q
    ensures |ps| == |qs| && forall i :: 0 <= i < |ps| ==> Stands(ps[i], s, rows, table, qs[i], maxSuffixTerm)
    ensures limited <==> exists i :: 0 <= i < |qs| && AnyLimited(rows, table, qs[i])
    decreases q, 0
  {
    ps, limited := [], false;
    for i := 0 to |qs|
      invariant |ps| == i && forall j :: 0 <= j < i ==> Stands(ps[j], s, rows, table, qs[j], maxSuffixTerm)
      invariant limited <==> exists j :: 0 <= j < i && AnyLimited(rows, table, qs[j])
    {
      var p, more := Compile(s, rows, table, qs[i], max, maxSuffixTerm);
      ps := ps + [p];
      limited := limited || more;
    }
  }

  lemma CombinedStands(s: Store, rows: seq<Scan.Row>, table: Table, q: Query, ps: seq<Plan>, maxSuffixTerm: nat)
    requires (q.AndQuery? || q.OrQuery?) && |ps| == |q.subs|
    requires forall i :: 0 <= i < |ps| ==> Stands(ps[i], s, rows, table, q.subs[i], maxSuffixTerm)
    ensures Stands(if q.AndQuery? then AndOf(ps) else OrOf(ps), s, rows, table, q, maxSuffixTerm)
  {
    forall id ensures Holds(if q.AndQuery? then AndOf(ps) else OrOf(ps), id) <==> Finds(s, rows, table, q, id, maxSuffixTerm) {
      CombinedHolds(s, rows, table, q, ps, id, maxSuffixTerm);
    }
  }

  lemma CombinedHolds(s: Store, rows: seq<Scan.Row>, table: Table, q: Query, ps: seq<Plan>, id: nat, maxSuffixTerm: nat)
    requires (q.AndQuery? || q.OrQuery?) && |ps| == |q.subs|
    requires forall i :: 0 <= i < |ps| ==> Stands(ps[i], s, rows, table, q.subs[i], maxSuffixTerm)
    ensures Holds(if q.AndQuery? then AndOf(ps) else OrOf(ps), id) <==> Finds(s, rows, table, q, id, maxSuffixTerm)
  {
    forall i | 0 <= i < |ps| ensures Holds(ps[i], id) <==> Finds(s, rows, table, q.subs[i], id, maxSuffixTerm) {
      assert Stands(ps[i], s, rows, table, q.subs[i], maxSuffixTerm);
    }
    if q.AndQuery? {
      if Holds(AndOf(ps), id) {
        assert Holds(ps[0], id);
        assert forall i :: 0 <= i < |ps| ==> Finds(s, rows, table, q.subs[i], id, maxSuffixTerm);
      }
      if Finds(s, rows, table, q, id, maxSuffixTerm) {
        assert forall i :: 0 <= i < |ps| ==> Finds(s, rows, table, q.subs[i], id, maxSuffixTerm);
      }
    } else {
      if i :| 0 <= i < |ps| && Holds(ps[i], id) {
        assert Finds(s, rows, table, q.subs[i], id, maxSuffixTerm);
      }
      if Finds(s, rows, table, q, id, maxSuffixTerm) {
        var terms := IndexTerms(s.stored[DocKey(table, id)].fields, maxSuffixTerm);
        var i :| 0 <= i < |ps| && FindsIn(terms, rows, table, q.subs[i]);
        assert Holds(ps[i], id);
      }
    }
  }

  /** One reader for each row the scan finds, joined by Or. */
  method CompilePrefix(s: Store, rows: seq<Scan.Row>, table: Table, q: Query, max: nat, ghost maxSuffixTerm: nat)
    returns (p: Plan, limited: bool)
    requires Agrees(s, maxSuffixTerm) && Readable(s, max) && max > 0 && RowsOf(rows, s) && q.PrefixQuery?
    ensures Stands(p, s, rows, table, q, maxSuffixTerm) && (limited <==> AnyLimited(rows, table, q))
  {
    var found;
    found, limited := Scan.CollectPrefix(rows, Keys.InvertedKey(table, q.field, q.prefix), q.maxDocListSize);
    forall i | 0 <= i < |found| ensures IsKeyOf(found[i].key, table, q.field) {
      FoundRow(rows, s, table, q, i);
    }
    var ps := ReadRows(s, rows, table, q.field, found, max, maxSuffixTerm);
    p := OrOf(ps);
    PrefixStands(s, rows, table, q, ps, maxSuffixTerm);
  }

  /** The plan stands for the term of a row. */
  ghost predicate RowStands(p: Plan, s: Store, rows: seq<Scan.Row>, table: Table, f: Byte, key: Keys.Key, maxSuffixTerm: nat) {
    exists t: Term :: key == Keys.InvertedKey(table, f, t) && Stands(p, s, rows, table, TermQuery(f, t), maxSuffixTerm)
  }

  method ReadRows(s: Store, ghost rows: seq<Scan.Row>, table: Table, f: Byte, found: seq<Scan.Row>, max: nat,
                  ghost maxSuffixTerm: nat)
    returns (ps: seq<Plan>)
    requires Agrees(s, maxSuffixTerm) && Readable(s, max) && max > 0
    requires forall i :: 0 <= i < |found| ==> IsKeyOf(found[i].key, table, f)
    ensures |ps| == |found|
    ensures forall i :: 0 <= i < |ps| ==> RowStands(ps[i], s, rows, table, f, found[i].key, maxSuffixTerm)
  {
    ps := [];
    for i := 0 to |found|
      invariant |ps| == i
      invariant forall j :: 0 <= j < i ==> RowStands(ps[j], s, rows, table, f, found[j].key, maxSuffixTerm)
    {
      var p := ReadRow(s, rows, table, f, found[i].key, max, maxSuffixTerm);
      ps := ps + [p];
    }
  }

  /** The list in a row; the row's key says which. */
  method ReadRow(s: Store, ghost rows: seq<Scan.Row>, table: Table, f: Byte, key: Keys.Key, max: nat, ghost maxSuffixTerm: nat)
    returns (p: Plan)
    requires Agrees(s, maxSuffixTerm) && Readable(s, max) && max > 0 && IsKeyOf(key, table, f)
    ensures RowStands(p, s, rows, table, f, key, maxSuffixTerm)
  {
    var parts := Keys.DecodeInvertedKey(key);
    var k := TermKey(parts.value.0, parts.value.1, parts.value.2);
    SameRow(k, table, f, key);
    var ids := ReadTerm(s, k, max, maxSuffixTerm);
    p := Leaf(ids);
    assert Stands(p, s, rows, table, TermQuery(f, k.term), maxSuffixTerm);
  }

  lemma SameRow(k: TermKey, table: Table, f: Byte, key: Keys.Key)
    requires RowKey(k) == key && IsKeyOf(key, table, f)
    ensures k.table == table && k.field == f
  {
    var t: Term :| key == Keys.InvertedKey(table, f, t);
    Keys.InvertedKeyOrder(k.table, k.field, k.term, table, f, t);
  }

  lemma PrefixStands(s: Store, rows: seq<Scan.Row>, table: Table, q: Query, ps: seq<Plan>, maxSuffixTerm: nat)
    requires q.PrefixQuery? && |ps| == |FoundBy(rows, table, q)|
    requires forall i :: 0 <= i < |ps| ==> RowStands(ps[i], s, rows, table, q.field, FoundBy(rows, table, q)[i].key, maxSuffixTerm)
    ensures Stands(OrOf(ps), s, rows, table, q, maxSuffixTerm)
  {
    forall i | 0 <= i < |ps| ensures Good(ps[i]) {
      assert RowStands(ps[i], s, rows, table, q.field, FoundBy(rows, table, q)[i].key, maxSuffixTerm);
    }
    forall id ensures Holds(OrOf(ps), id) <==> Finds(s, rows, table, q, id, maxSuffixTerm) {
      PrefixHolds(s, rows, table, q, ps, FoundBy(rows, table, q), id, maxSuffixTerm);
    }
  }

  lemma PrefixHolds(s: Store, rows: seq<Scan.Row>, table: Table, q: Query, ps: seq<Plan>, found: seq<Scan.Row>, id: nat,
                    maxSuffixTerm: nat)
    requires q.PrefixQuery? && found == FoundBy(rows, table, q) && |ps| == |found|
    requires forall i :: 0 <= i < |ps| ==> RowStands(ps[i], s, rows, table, q.field, found[i].key, maxSuffixTerm)
    ensures Holds(OrOf(ps), id) <==> Finds(s, rows, table, q, id, maxSuffixTerm)
  {
    if i :| 0 <= i < |ps| && Holds(ps[i], id) {
      assert RowStands(ps[i], s, rows, table, q.field, found[i].key, maxSuffixTerm);
      var t: Term :| found[i].key == Keys.InvertedKey(table, q.field, t)
        && Stands(ps[i], s, rows, table, TermQuery(q.field, t), maxSuffixTerm);
      assert Finds(s, rows, table, TermQuery(q.field, t), id, maxSuffixTerm);
      assert HasRow(found, TermKey(table, q.field, t));
    }
    if Finds(s, rows, table, q, id, maxSuffixTerm) {
      var terms := IndexTerms(s.stored[DocKey(table, id)].fields, maxSuffixTerm);
      var t: Term :| (q.field, t) in terms && HasRow(found, TermKey(table, q.field, t));
      var i :| 0 <= i < |found| && found[i].key == RowKey(TermKey(table, q.field, t));
      assert RowStands(ps[i], s, rows, table, q.field, found[i].key, maxSuffixTerm);
      var u: Term :| found[i].key == Keys.InvertedKey(table, q.field, u)
        && Stands(ps[i], s, rows, table, TermQuery(q.field, u), maxSuffixTerm);
      Keys.InvertedKeyOrder(table, q.field, t, table, q.field, u);
      assert Finds(s, rows, table, TermQuery(q.field, u), id, maxSuffixTerm);
    }
  }

  /** A set of ids, largest first. */
  ghost function Listed(ids: set<nat>): (l: seq<nat>)
    ensures I.Decreasing(l) && (forall id :: id in l <==> id in ids) && I.IdsFrom(l, 0) == ids
  {
    if ids == {} then []
    else
      var top := I.Top(ids);
      ListedStep(ids, top, Listed(ids - {top}));
      [top] + Listed(ids - {top})
  }

  lemma ListedStep(ids: set<nat>, top: nat, rest: seq<nat>)
    requires top in ids && (forall id :: id in ids ==> id <= top)
    requires I.Decreasing(rest) && forall id :: id in rest <==> id in ids - {top}
    ensures var l := [top] + rest; I.Decreasing(l) && (forall id :: id in l <==> id in ids) && I.IdsFrom(l, 0) == ids
  {
    var l := [top] + rest;
    assert forall i :: 0 < i < |l| ==> l[i] in rest;
    assert forall id :: id in l <==> id == top || id in rest;
    assert forall id: nat :: id in I.IdsFrom(l, 0) <==> id in l;
  }

  /** The stored documents that satisfy the query, in decreasing order. */
  ghost function MatchingIds(s: Store, table: Table, q: Query, maxSuffixTerm: nat): (ids: seq<nat>)
    ensures I.Decreasing(ids) && forall id :: id in ids <==> Matches(s, table, q, id, maxSuffixTerm)
  {
    var all := set k | k in s.stored.Keys && k.table == table && Matches(s, table, q, k.id, maxSuffixTerm) :: k.id;
    assert forall id :: Matches(s, table, q, id, maxSuffixTerm) ==> DocKey(table, id) in s.stored.Keys;
    Listed(all)
  }

  /** Those the query finds. */
  ghost function FoundIds(s: Store, rows: seq<Scan.Row>, table: Table, q: Query, maxSuffixTerm: nat): (ids: seq<nat>)
    ensures I.Decreasing(ids) && forall id :: id in ids <==> Finds(s, rows, table, q, id, maxSuffixTerm)
  {
    var all := set k | k in s.stored.Keys && k.table == table && Finds(s, rows, table, q, k.id, maxSuffixTerm) :: k.id;
    assert forall id :: Finds(s, rows, table, q, id, maxSuffixTerm) ==> DocKey(table, id) in s.stored.Keys;
    Listed(all)
  }

  /** A search answers with the window of what the query finds, filtered and sorted by the documents' own
      doc values.  If no scan reports its limit, that is every stored document that satisfies the query. */
  method Search(s: Store, rows: seq<Scan.Row>, table: Table, q: Query, o: C.Options, max: nat, ghost maxSuffixTerm: nat)
    returns (ok: bool, limited: bool, docs: seq<nat>, total: nat)
    requires Agrees(s, maxSuffixTerm) && Readable(s, max) && max > 0 && RowsOf(rows, s) && LoadsRows(o, s, table)
    ensures var f := FromStored(o, s, table);
      && C.Answer(f, C.Considered(f, FoundIds(s, rows, table, q, maxSuffixTerm)), ok, docs, total)
      && (!limited ==> C.Answer(f, C.Considered(f, MatchingIds(s, table, q, maxSuffixTerm)), ok, docs, total))
    ensures limited <==> AnyLimited(rows, table, q)
  {
    var p;
    p, limited := Compile(s, rows, table, q, max, maxSuffixTerm);
    var it := Build(p);
    ghost var ids := FoundIds(s, rows, table, q, maxSuffixTerm);
    forall id: nat ensures id in it.Rest <==> id in I.IdsFrom(ids, 0) {
      MeaningIsFormula(p, id);
      assert Holds(p, id) <==> Finds(s, rows, table, q, id, maxSuffixTerm);
      assert id in ids <==> id in I.IdsFrom(ids, 0);
    }
    ok, docs, total := C.DoQuery(it, o, ids);
    AnswerFromStored(o, s, table, C.Considered(o, ids), ok, docs, total);
    if !limited { FoundAll(s, rows, table, q, maxSuffixTerm); }
  }

  lemma FoundAll(s: Store, rows: seq<Scan.Row>, table: Table, q: Query, maxSuffixTerm: nat)
    requires Agrees(s, maxSuffixTerm) && RowsOf(rows, s) && !AnyLimited(rows, table, q)
    ensures FoundIds(s, rows, table, q, maxSuffixTerm) == MatchingIds(s, table, q, maxSuffixTerm)
  {
    forall id ensures Finds(s, rows, table, q, id, maxSuffixTerm) <==> Matches(s, table, q, id, maxSuffixTerm) {
      FindsMatches(s, rows, table, q, id, maxSuffixTerm);
    }
    DecreasingUnique(FoundIds(s, rows, table, q, maxSuffixTerm), MatchingIds(s, table, q, maxSuffixTerm));
  }

  lemma {:induction false} DecreasingUnique(a: seq<nat>, b: seq<nat>)
    requires I.Decreasing(a) && I.Decreasing(b) && forall id :: id in a <==> id in b
    ensures a == b
  {
    assert a != [] ==> a[0] in b;
    assert b != [] ==> b[0] in a;
    if a != [] {
      forall id ensures id in a[1..] <==> id in b[1..] {
        RestOf(a, id);
        RestOf(b, id);
      }
      DecreasingUnique(a[1..], b[1..]);
    }
  }

  lemma RestOf(a: seq<nat>, id: nat)
    requires I.Decreasing(a) && a != []
    ensures id in a[1..] <==> id in a && id != a[0]
  {
    assert a == [a[0]] + a[1..];
    assert forall i :: 0 <= i < |a[1..]| ==> a[1..][i] == a[i + 1];
  }

  /** The stored documents that have a term. */
  function TermDocs(s: Store, k: TermKey, maxSuffixTerm: nat): set<DocKey> {
    set d | d in s.stored && d.table == k.table && (k.field, k.term) in TermsAt(s, d, maxSuffixTerm)
  }

  /** A term's list can be read whole exactly when the documents that have the term fit the limit. */
  lemma ListFits(s: Store, k: TermKey, max: nat, maxSuffixTerm: nat)
    requires Agrees(s, maxSuffixTerm)
    ensures Compaction.FullFits(CellOf(s.postings, k).Lists(), max) <==> |TermDocs(s, k, maxSuffixTerm)| <= max
  {
    var cell := CellOf(s.postings, k);
    var shown := P.LiveOnly(P.Merged(cell.Lists()));
    Compaction.MergedMeaning(cell.Lists());
    Compaction.MapSize(shown);
    var ids := Compaction.Visible(cell).Keys;
    forall id ensures id in ids <==> DocKey(k.table, id) in TermDocs(s, k, maxSuffixTerm) {
      ShownIsMatch(s, k, id, maxSuffixTerm);
    }
    assert TermDocs(s, k, maxSuffixTerm) == KeysOf(k.table, ids);
    KeysAsMany(k.table, ids);
  }

  function KeysOf(table: Table, ids: set<nat>): set<DocKey> { set id | id in ids :: DocKey(table, id) }

  lemma {:induction false} KeysAsMany(table: Table, ids: set<nat>)
    ensures |KeysOf(table, ids)| == |ids|
  {
    if ids != {} {
      var id :| id in ids;
      KeysAsMany(table, ids - {id});
      assert KeysOf(table, ids) == KeysOf(table, ids - {id}) + {DocKey(table, id)};
    }
  }

  /** Any store reached by a run can be searched, exactly when every term's documents fit a read and
      their ids are 64-bit. */
  lemma ReachedIsSearchable(run: seq<Event>, maxSuffixTerm: nat, max: nat)
    requires RunAllowed(EMPTY, run, maxSuffixTerm, max)
    ensures var s := AfterRun(EMPTY, run, maxSuffixTerm, max);
      && Agrees(s, maxSuffixTerm)
      && (Readable(s, max) <==>
           (forall k :: |TermDocs(s, k, maxSuffixTerm)| <= max) && forall k :: k in s.stored ==> k.id <= I.MAX_DOCID)
  {
    AgreementOverRuns(run, maxSuffixTerm, max);
    assert forall k :: CellOf(EMPTY.postings, k).Lists() == [];
    RunKeepsLists(EMPTY, run, maxSuffixTerm, max);
    var s := AfterRun(EMPTY, run, maxSuffixTerm, max);
    forall k ensures Compaction.FullFits(CellOf(s.postings, k).Lists(), max) <==> |TermDocs(s, k, maxSuffixTerm)| <= max {
      ListFits(s, k, max, maxSuffixTerm);
    }
  }
}
