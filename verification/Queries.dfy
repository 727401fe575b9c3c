/** What a query asks of the stored documents, and what a scan limit lets it find.  A prefix query walks
    the index's rows in key order and may have to stop; conjunction and disjunction pass on what their
    parts find. */
module Queries {
  import opened Basics
  import opened Documents
  import opened Database
  import opened Batches
  import Keys
  import Scan
  import Utf8

  datatype Query =
    | TermQuery(field: Byte, term: Term)
    | PrefixQuery(field: Byte, prefix: Term, maxDocListSize: nat)
    | AndQuery(subs: seq<Query>)
    | OrQuery(subs: seq<Query>)

  /** What a query asks of a document's index terms. */
  ghost predicate Satisfies(terms: set<(Byte, Term)>, q: Query) {
    match q
    case TermQuery(f, t) => (f, t) in terms
    case PrefixQuery(f, p, _) => exists t: Term :: (f, t) in terms && p <= t
    case AndQuery(qs) => qs != [] && forall i :: 0 <= i < |qs| ==> Satisfies(terms, qs[i])
    case OrQuery(qs) => exists i :: 0 <= i < |qs| && Satisfies(terms, qs[i])
  }

  /** A stored document whose fields satisfy the query. */
  ghost predicate Matches(s: Store, table: Table, q: Query, id: nat, maxSuffixTerm: nat) {
    DocKey(table, id) in s.stored && Satisfies(IndexTerms(s.stored[DocKey(table, id)].fields, maxSuffixTerm), q)
  }

  /** What each query asks of a stored document.  A term query: a field of that id with that term, or with
      a term it is a suffix of, as suffixes are listed.  A prefix query: some term query for a term with
      the prefix.  A conjunction of at least one part: all parts.  A disjunction: some part. */
  lemma MatchesMeans(s: Store, table: Table, q: Query, id: nat, maxSuffixTerm: nat)
    ensures q.TermQuery? ==> (Matches(s, table, q, id, maxSuffixTerm) <==>
      && DocKey(table, id) in s.stored
      && var fs := s.stored[DocKey(table, id)].fields;
        exists i, x :: 0 <= i < |fs| && fs[i].id == q.field && x in fs[i].terms && x != [] &&
          (|| q.term == x
           || (&& fs[i].flags.suffixBuild && fs[i].ftype.StringType? && |x| <= maxSuffixTerm
               && q.term != [] && (|q.term| >= |x| || |q.term| >= if fs[i].suffixLen != 0 then fs[i].suffixLen else 5)
               && exists cps :: Utf8.Splits(x, cps, q.term))))
    ensures q.PrefixQuery? ==> (Matches(s, table, q, id, maxSuffixTerm) <==>
      exists t: Term :: q.prefix <= t && Matches(s, table, TermQuery(q.field, t), id, maxSuffixTerm))
    ensures q.AndQuery? ==> (Matches(s, table, q, id, maxSuffixTerm) <==>
      |q.subs| > 0 && forall i :: 0 <= i < |q.subs| ==> Matches(s, table, q.subs[i], id, maxSuffixTerm))
    ensures q.OrQuery? ==> (Matches(s, table, q, id, maxSuffixTerm) <==>
      exists i :: 0 <= i < |q.subs| && Matches(s, table, q.subs[i], id, maxSuffixTerm))
  {
    if DocKey(table, id) in s.stored {
      var fs := s.stored[DocKey(table, id)].fields;
      match q
      case TermQuery(f, t) => IndexTermsMean(fs, f, t, maxSuffixTerm);
      case PrefixQuery(f, p, _) =>
        if Matches(s, table, q, id, maxSuffixTerm) {
          var t :| (f, t) in IndexTerms(fs, maxSuffixTerm) && p <= t;
          assert p <= t && Matches(s, table, TermQuery(f, t), id, maxSuffixTerm);
        }
      case AndQuery(qs) =>
      case OrQuery(qs) =>
    } else if q.AndQuery? && q.subs != [] {
      assert !Matches(s, table, q.subs[0], id, maxSuffixTerm);
    }
  }

  // ---------------------------------------------------------------------------
  // The index as rows in key order

  function RowKey(k: TermKey): Keys.Key { Keys.InvertedKey(k.table, k.field, k.term) }

  ghost predicate HasRow(rows: seq<Scan.Row>, k: TermKey) { exists i :: 0 <= i < |rows| && rows[i].key == RowKey(k) }

  ghost predicate ListedRow(s: Store, rows: seq<Scan.Row>, i: nat)
    requires i < |rows|
  {
    exists k :: k in s.postings && rows[i].key == RowKey(k)
  }

  /** The rows are the store's posting lists, in key order; how a list is serialised is left open. */
  ghost predicate RowsOf(rows: seq<Scan.Row>, s: Store) {
    && Scan.Sorted(rows)
    && (forall k :: k in s.postings ==> HasRow(rows, k))
    && (forall i :: 0 <= i < |rows| ==> ListedRow(s, rows, i))
  }

  /** The rows a prefix query's scan finds. */
  function FoundBy(rows: seq<Scan.Row>, table: Table, q: Query): seq<Scan.Row>
    requires q.PrefixQuery?
  {
    Scan.Found(rows, Keys.InvertedKey(table, q.field, q.prefix), q.maxDocListSize)
  }

  /** Some prefix query's scan reports its limit. */
  predicate AnyLimited(rows: seq<Scan.Row>, table: Table, q: Query) {
    match q
    case TermQuery(_, _) => false
    case PrefixQuery(f, p, max) => Scan.Limited(rows, Keys.InvertedKey(table, f, p), max)
    case AndQuery(qs) => exists i :: 0 <= i < |qs| && AnyLimited(rows, table, qs[i])
    case OrQuery(qs) => exists i :: 0 <= i < |qs| && AnyLimited(rows, table, qs[i])
  }

  /** One of the queries a query is made of. */
  ghost predicate PartOf(p: Query, q: Query)
    decreases q
  {
    || p == q
    || ((q.AndQuery? || q.OrQuery?) && exists i :: 0 <= i < |q.subs| && PartOf(p, q.subs[i]))
  }

  /** The limit is reported exactly if a prefix query among the parts stops on a row with its limit
      reached by the rows it found. */
  lemma {:induction false} AnyLimitedMeans(rows: seq<Scan.Row>, table: Table, q: Query)
    ensures AnyLimited(rows, table, q) <==> exists p :: PartOf(p, q) && StopsAtLimit(rows, table, p)
    decreases q, 1
  {
    match q
    case TermQuery(_, _) =>
    case PrefixQuery(_, _, _) => assert PartOf(q, q);
    case AndQuery(qs) => LimitOfParts(rows, table, q);
    case OrQuery(qs) => LimitOfParts(rows, table, q);
  }

  ghost predicate StopsAtLimit(rows: seq<Scan.Row>, table: Table, p: Query) {
    && p.PrefixQuery? && Scan.SumSizes(FoundBy(rows, table, p)) >= p.maxDocListSize
    && Scan.Lo(rows, Keys.InvertedKey(table, p.field, p.prefix)) + |FoundBy(rows, table, p)| < |rows|
  }

  lemma {:induction false} LimitOfParts(rows: seq<Scan.Row>, table: Table, q: Query)
    requires q.AndQuery? || q.OrQuery?
    ensures AnyLimited(rows, table, q) <==> exists p :: PartOf(p, q) && StopsAtLimit(rows, table, p)
    decreases q, 0
  {
    forall i | 0 <= i < |q.subs|
      ensures AnyLimited(rows, table, q.subs[i]) <==> exists p :: PartOf(p, q.subs[i]) && StopsAtLimit(rows, table, p)
    {
      AnyLimitedMeans(rows, table, q.subs[i]);
    }
    if AnyLimited(rows, table, q) {
      var i :| 0 <= i < |q.subs| && AnyLimited(rows, table, q.subs[i]);
      var p :| PartOf(p, q.subs[i]) && StopsAtLimit(rows, table, p);
      assert PartOf(p, q);
    }
  }

  /** Every prefix query's scan finds all the rows of its prefix. */
  predicate AllFound(rows: seq<Scan.Row>, table: Table, q: Query) {
    match q
    case TermQuery(_, _) => true
    case PrefixQuery(f, p, max) => FoundBy(rows, table, q) == Scan.Block(rows, Keys.InvertedKey(table, f, p))
    case AndQuery(qs) => forall i :: 0 <= i < |qs| ==> AllFound(rows, table, qs[i])
    case OrQuery(qs) => forall i :: 0 <= i < |qs| ==> AllFound(rows, table, qs[i])
  }

  // ---------------------------------------------------------------------------
  // What the scans let a query find

  ghost predicate FindsIn(terms: set<(Byte, Term)>, rows: seq<Scan.Row>, table: Table, q: Query) {
    match q
    case TermQuery(f, t) => (f, t) in terms
    case PrefixQuery(f, p, _) => exists t: Term :: (f, t) in terms && HasRow(FoundBy(rows, table, q), TermKey(table, f, t))
    case AndQuery(qs) => qs != [] && forall i :: 0 <= i < |qs| ==> FindsIn(terms, rows, table, qs[i])
    case OrQuery(qs) => exists i :: 0 <= i < |qs| && FindsIn(terms, rows, table, qs[i])
  }

  /** A stored document the query finds. */
  ghost predicate Finds(s: Store, rows: seq<Scan.Row>, table: Table, q: Query, id: nat, maxSuffixTerm: nat) {
    && DocKey(table, id) in s.stored
    && FindsIn(IndexTerms(s.stored[DocKey(table, id)].fields, maxSuffixTerm), rows, table, q)
  }

  /** A row of a prefix query's block is one of a term with the prefix. */
  lemma InBlock(rows: seq<Scan.Row>, table: Table, f: Byte, p: Term, k: TermKey)
    requires Scan.Sorted(rows)
    ensures var block := Scan.Block(rows, Keys.InvertedKey(table, f, p));
      HasRow(block, k) <==> HasRow(rows, k) && k.table == table && k.field == f && p <= k.term
  {
    var prefix := Keys.InvertedKey(table, f, p);
    var block := Scan.Block(rows, prefix);
    Scan.BlockExact(rows, prefix);
    Keys.InvertedKeyPrefix(table, f, p, k.table, k.field, k.term);
    if i :| 0 <= i < |block| && block[i].key == RowKey(k) {
      assert rows[Scan.Lo(rows, prefix) + i].key == RowKey(k);
    }
    if HasRow(rows, k) && k.table == table && k.field == f && p <= k.term {
      var i :| 0 <= i < |rows| && rows[i].key == RowKey(k);
      assert prefix <= rows[i].key;
      assert block[i - Scan.Lo(rows, prefix)].key == RowKey(k);
    }
  }

  lemma FoundInBlock(rows: seq<Scan.Row>, table: Table, q: Query, k: TermKey)
    requires q.PrefixQuery? && HasRow(FoundBy(rows, table, q), k)
    ensures HasRow(Scan.Block(rows, Keys.InvertedKey(table, q.field, q.prefix)), k)
  {
    var i :| 0 <= i < |FoundBy(rows, table, q)| && FoundBy(rows, table, q)[i].key == RowKey(k);
    assert Scan.Block(rows, Keys.InvertedKey(table, q.field, q.prefix))[i].key == RowKey(k);
  }

  /** The key of a term of this table and field. */
  ghost predicate IsKeyOf(key: Keys.Key, table: Table, f: Byte) {
    |key| >= 10 && exists t: Term :: key == Keys.InvertedKey(table, f, t)
  }

  lemma FoundRow(rows: seq<Scan.Row>, s: Store, table: Table, q: Query, i: nat)
    requires RowsOf(rows, s) && q.PrefixQuery? && i < |FoundBy(rows, table, q)|
    ensures IsKeyOf(FoundBy(rows, table, q)[i].key, table, q.field)
  {
    var key := FoundBy(rows, table, q)[i].key;
    FromColumn(rows, s, Keys.InvertedKey(table, q.field, q.prefix), q.maxDocListSize, i);
    var k :| k in s.postings && key == RowKey(k);
    assert HasRow(FoundBy(rows, table, q), k);
    FoundInBlock(rows, table, q, k);
    InBlock(rows, table, q.field, q.prefix, k);
    assert key == Keys.InvertedKey(table, q.field, k.term);
  }

  lemma FromColumn(rows: seq<Scan.Row>, s: Store, prefix: Keys.Key, max: nat, i: nat)
    requires RowsOf(rows, s) && i < |Scan.Found(rows, prefix, max)|
    ensures exists k :: k in s.postings && Scan.Found(rows, prefix, max)[i].key == RowKey(k)
  {
    var j := Scan.Lo(rows, prefix) + i;
    assert Scan.Found(rows, prefix, max)[i] == rows[j];
    assert ListedRow(s, rows, j);
    var k :| k in s.postings && rows[j].key == RowKey(k);
  }

  ghost predicate AllHaveRows(terms: set<(Byte, Term)>, rows: seq<Scan.Row>, table: Table) {
    forall f: Byte, t: Term :: (f, t) in terms ==> HasRow(rows, TermKey(table, f, t))
  }

  /** What is found satisfies the query; all that does is found if every scan finds all its rows. */
  lemma {:induction false} FindsSatisfies(terms: set<(Byte, Term)>, rows: seq<Scan.Row>, table: Table, q: Query)
    requires Scan.Sorted(rows) && AllHaveRows(terms, rows, table)
    ensures FindsIn(terms, rows, table, q) ==> Satisfies(terms, q)
    ensures AllFound(rows, table, q) && Satisfies(terms, q) ==> FindsIn(terms, rows, table, q)
    decreases q
  {
    match q
    case TermQuery(_, _) =>
    case PrefixQuery(f, p, _) =>
      forall t: Term | (f, t) in terms
        ensures HasRow(FoundBy(rows, table, q), TermKey(table, f, t)) ==> p <= t
        ensures AllFound(rows, table, q) && p <= t ==> HasRow(FoundBy(rows, table, q), TermKey(table, f, t))
      {
        InBlock(rows, table, f, p, TermKey(table, f, t));
        if HasRow(FoundBy(rows, table, q), TermKey(table, f, t)) { FoundInBlock(rows, table, q, TermKey(table, f, t)); }
      }
    case AndQuery(qs) => forall i | 0 <= i < |qs| { FindsSatisfies(terms, rows, table, qs[i]); }
    case OrQuery(qs) => forall i | 0 <= i < |qs| { FindsSatisfies(terms, rows, table, qs[i]); }
  }

  /** No scan misses a row without reporting its limit. */
  lemma {:induction false} NothingMissedSilently(rows: seq<Scan.Row>, table: Table, q: Query)
    requires Scan.Sorted(rows)
    ensures AllFound(rows, table, q) || AnyLimited(rows, table, q)
    decreases q
  {
    match q
    case TermQuery(_, _) =>
    case PrefixQuery(f, p, max) => Scan.FoundExact(rows, Keys.InvertedKey(table, f, p), max);
    case AndQuery(qs) => forall i | 0 <= i < |qs| { NothingMissedSilently(rows, table, qs[i]); }
    case OrQuery(qs) => forall i | 0 <= i < |qs| { NothingMissedSilently(rows, table, qs[i]); }
  }

  /** Where the columns agree, every index term of a stored document has its row. */
  lemma StoredTermsHaveRows(s: Store, rows: seq<Scan.Row>, key: DocKey, maxSuffixTerm: nat)
    requires IndexAgreesAt(s, key, maxSuffixTerm) && RowsOf(rows, s) && key in s.stored
    ensures AllHaveRows(IndexTerms(s.stored[key].fields, maxSuffixTerm), rows, key.table)
  {
    forall f: Byte, t: Term | (f, t) in IndexTerms(s.stored[key].fields, maxSuffixTerm)
      ensures HasRow(rows, TermKey(key.table, f, t))
    {
      ShownHasRow(s, rows, TermKey(key.table, f, t), key, maxSuffixTerm);
    }
  }

  lemma ShownHasRow(s: Store, rows: seq<Scan.Row>, k: TermKey, key: DocKey, maxSuffixTerm: nat)
    requires IndexAgreesAt(s, key, maxSuffixTerm) && RowsOf(rows, s)
    requires k.table == key.table && (k.field, k.term) in TermsAt(s, key, maxSuffixTerm)
    ensures HasRow(rows, k)
  {
    assert Shows(s, TermKey(key.table, k.field, k.term), key.id) <==>
      (k.field, k.term) in TermsAt(s, key, maxSuffixTerm);
    ShownIsKey(s, k, key.id);
  }

  /** Over a store whose columns agree, a query finds only what matches, and all of it unless a scan
      misses rows, which is reported. */
  lemma FindsMatches(s: Store, rows: seq<Scan.Row>, table: Table, q: Query, id: nat, maxSuffixTerm: nat)
    requires IndexAgreesAt(s, DocKey(table, id), maxSuffixTerm) && RowsOf(rows, s)
    ensures Finds(s, rows, table, q, id, maxSuffixTerm) ==> Matches(s, table, q, id, maxSuffixTerm)
    ensures AllFound(rows, table, q) || !AnyLimited(rows, table, q) ==>
      (Finds(s, rows, table, q, id, maxSuffixTerm) <==> Matches(s, table, q, id, maxSuffixTerm))
  {
    var key := DocKey(table, id);
    if key in s.stored {
      StoredTermsHaveRows(s, rows, key, maxSuffixTerm);
      FindsSatisfies(IndexTerms(s.stored[key].fields, maxSuffixTerm), rows, table, q);
    }
    NothingMissedSilently(rows, table, q);
  }
}
