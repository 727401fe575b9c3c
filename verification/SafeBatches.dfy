/** When a batch is safe, in terms of what its caller can see: careful batches always are, and for batches
    that are not careful the exact conditions. */
module SafeBatches {
  import opened Basics
  import opened Documents
  import opened Database
  import opened Batches
  import P = Postings

  // ---------------------------------------------------------------------------
  // Careful batches

  predicate DistinctDocs(b: Batch) { forall i, j :: 0 <= i < j < |b.docs| ==> b.docs[i].id != b.docs[j].id }

  /** The mode that skips reading is only used for documents that are not there. */
  predicate ReadsIfPresent(s: Store, b: Batch) {
    b.mode.AddWithoutRead? ==> forall i :: 0 <= i < |b.docs| ==> DocKey(b.table, b.docs[i].id) !in s.stored
  }

  function GivenFields(b: Batch, i: nat, env: Env): seq<Field>
    requires i < |b.docs|
  {
    env.tokenize(b.docs[i].fields).Or([])
  }

  predicate GivenSurvive(b: Batch, env: Env) {
    forall i :: 0 <= i < |b.docs| && !b.mode.Delete? ==>
      AllTermsSurvive(GivenFields(b, i, env)) && AllValuesSurvive(GivenFields(b, i, env))
  }

  lemma {:induction false} NoDocValueForms(fs: seq<Field>)
    ensures HasDocValue(fs) <==> DocValueForms(fs) != []
    ensures !HasDocValue(fs) ==> AllValuesSurvive(fs)
  {
    if fs != [] {
      NoDocValueForms(fs[1..]);
      if i :| 0 <= i < |fs| && fs[i].flags.docValue && !fs[0].flags.docValue {
        assert fs[1..][i - 1].flags.docValue;
      }
      if i :| 0 <= i < |fs[1..]| && fs[1..][i].flags.docValue {
        assert fs[i + 1].flags.docValue;
      }
    }
  }

  /** Fields taken over from the stored document survive storing again; so the rest decides. */
  lemma MergedSurvive(fs: seq<Field>, olds: seq<Field>)
    requires forall f :: f in olds ==> StoredForm(f) == f
    ensures AllTermsSurvive(MergedFields(fs, olds)) <==> AllTermsSurvive(fs)
    ensures AllValuesSurvive(MergedFields(fs, olds)) <==> AllValuesSurvive(fs)
  {
    var all := MergedFields(fs, olds);
    MergedFieldsFrom(fs, olds);
    forall i | 0 <= i < |all| && all[i] in olds ensures TermsSurvive(all[i]) && ValueSurvives(all[i]) {
      StoredFormSurvives(all[i]);
    }
    forall i | 0 <= i < |fs| ensures all[i] == fs[i] {}
    forall i | 0 <= i < |all| ensures all[i] in fs || all[i] in olds {
      assert all[i] in all;
    }
  }

  lemma NewsSurvive(s: Store, b: Batch, i: nat, env: Env)
    requires i < |b.docs| && StoredAt(s, DocKey(b.table, b.docs[i].id)) && !b.mode.Delete?
    ensures var c, fs := ChangeFor(s, b, i, env), GivenFields(b, i, env);
      (AllTermsSurvive(c.news) <==> AllTermsSurvive(fs)) && (AllValuesSurvive(c.news) <==> AllValuesSurvive(fs))
  {
    MergedSurvive(GivenFields(b, i, env), ChangeFor(s, b, i, env).olds);
  }

  /** With distinct ids a change stands alone. */
  lemma Alone(s: Store, b: Batch, env: Env, i: nat)
    requires DistinctDocs(b) && i < |b.docs| && ChangeFor(s, b, i, env).active
    ensures var cs := Changes(s, b, env);
      cs[i] == ChangeFor(s, b, i, env) && Last(cs, i) && forall j: nat :: Of(cs, j, b.docs[i].id) <==> j == i
  {
    var cs := Changes(s, b, env);
    forall j | 0 <= j < |b.docs| && j != i ensures cs[j].id != cs[i].id {
      assert if j < i then b.docs[j].id != b.docs[i].id else b.docs[i].id != b.docs[j].id;
    }
  }

  /** Changes that read what is there start from what is listed. */
  lemma KnowsWhatIsListed(s: Store, b: Batch, env: Env, i: nat)
    requires Accepted(s, b, env) && ReadsIfPresent(s, b) && i < |b.docs|
    ensures OldTerms(Changes(s, b, env)[i], env.maxSuffixTerm)
         == TermsAt(s, DocKey(b.table, b.docs[i].id), env.maxSuffixTerm)
    ensures Changes(s, b, env)[i].olds
         == if DocKey(b.table, b.docs[i].id) in s.stored then s.stored[DocKey(b.table, b.docs[i].id)].fields else []
  {
    ChangesInformed(s, b, env, i);
    assert DocumentAccepted(s, b, i, env);
  }

  /** Alone and reading: the index stays exactly when storing keeps the terms, the doc values exactly when
      it keeps the values. */
  lemma AloneStays(s: Store, b: Batch, env: Env, i: nat)
    requires Agrees(s, env.maxSuffixTerm) && Accepted(s, b, env) && DistinctDocs(b) && ReadsIfPresent(s, b)
    requires i < |b.docs| && ChangeFor(s, b, i, env).active
    ensures var cs, k := Changes(s, b, env), DocKey(b.table, b.docs[i].id);
      && (IndexStays(cs, i, TermsAt(s, k, env.maxSuffixTerm), env.maxSuffixTerm) <==>
            NewTerms(cs[i], env.maxSuffixTerm) == KeptTerms(cs[i], env.maxSuffixTerm))
      && (DocValuesStay(s, b.table, cs, i) <==> cs[i].del || AllValuesSurvive(cs[i].news))
  {
    var cs, k, max := Changes(s, b, env), DocKey(b.table, b.docs[i].id), env.maxSuffixTerm;
    var c, olds := cs[i], OldTerms(cs[i], max);
    Alone(s, b, env, i);
    KnowsWhatIsListed(s, b, env, i);
    assert DocValuesAgreeAt(s, k);
    if !c.del { IndexTermsShrink(c.news, max); }
    NoDocValueForms(c.news);
    assert forall t :: AllKeep(cs, c.id, t, max) <==> t in NewTerms(c, max) by {
      assert Of(cs, i, c.id);
    }
    if IndexStays(cs, i, TermsAt(s, k, max), max) {
      assert Of(cs, i, c.id);
      forall t | t in NewTerms(c, max) ensures t in KeptTerms(c, max) {
        if t in olds { assert AllKeep(cs, c.id, t, max); }
      }
    }
  }

  /** A batch with distinct ids, that reads what is there, and whose terms and values are stored, is safe. */
  lemma CarefulIsSafe(s: Store, b: Batch, env: Env)
    requires Agrees(s, env.maxSuffixTerm) && Accepted(s, b, env)
    requires DistinctDocs(b) && ReadsIfPresent(s, b) && GivenSurvive(b, env)
    ensures Safe(s, b, env)
  {
    var cs := Changes(s, b, env);
    forall m | 0 <= m < |cs| && Last(cs, m) ensures SafeAt(s, b, env, m) {
      AloneStays(s, b, env, m);
      assert StoredAt(s, DocKey(b.table, b.docs[m].id));
      if !b.mode.Delete? {
        NewsSurvive(s, b, m, env);
        IndexTermsSurvive(cs[m].news, env.maxSuffixTerm);
      }
    }
  }

  /** A careful batch, or a merge within its limits. */
  ghost predicate CarefulEvent(s: Store, e: Event, maxSuffixTerm: nat, max: nat) {
    match e
    case Write(b, env) => env.maxSuffixTerm == maxSuffixTerm && DistinctDocs(b) && ReadsIfPresent(s, b) && GivenSurvive(b, env)
    case Compact(_, _) => EventAllowed(s, e, maxSuffixTerm, max)
  }

  lemma CarefulIsAllowed(s: Store, e: Event, maxSuffixTerm: nat, max: nat)
    requires Agrees(s, maxSuffixTerm) && CarefulEvent(s, e, maxSuffixTerm, max)
    ensures EventAllowed(s, e, maxSuffixTerm, max) && Agrees(After(s, e, maxSuffixTerm, max), maxSuffixTerm)
  {
    if e.Write? && Accepted(s, e.batch, e.env) { CarefulIsSafe(s, e.batch, e.env); }
    EventKeepsAgreement(s, e, maxSuffixTerm, max);
  }

  ghost predicate CarefulRun(s: Store, run: seq<Event>, maxSuffixTerm: nat, max: nat)
    requires Agrees(s, maxSuffixTerm)
    decreases |run|
  {
    run == [] || (CarefulEvent(s, run[0], maxSuffixTerm, max) && (CarefulIsAllowed(s, run[0], maxSuffixTerm, max);
      CarefulRun(After(s, run[0], maxSuffixTerm, max), run[1..], maxSuffixTerm, max)))
  }

  /** Every run of careful batches, accepted or failed, and of merges keeps the columns in agreement. */
  lemma {:induction false} CarefulRunsAgree(s: Store, run: seq<Event>, maxSuffixTerm: nat, max: nat)
    requires Agrees(s, maxSuffixTerm) && CarefulRun(s, run, maxSuffixTerm, max)
    ensures RunAllowed(s, run, maxSuffixTerm, max) && Agrees(AfterRun(s, run, maxSuffixTerm, max), maxSuffixTerm)
    decreases |run|
  {
    if run != [] {
      CarefulIsAllowed(s, run[0], maxSuffixTerm, max);
      CarefulRunsAgree(After(s, run[0], maxSuffixTerm, max), run[1..], maxSuffixTerm, max);
    }
  }

  /** With distinct ids and reading, for each document: its index entries agree afterwards exactly when the
      terms it was given are stored, and its doc values exactly when the values it was given are. */
  lemma DistinctExact(s: Store, b: Batch, env: Env, i: nat)
    requires Agrees(s, env.maxSuffixTerm) && Accepted(s, b, env) && DistinctDocs(b) && ReadsIfPresent(s, b)
    requires i < |b.docs| && !b.mode.Delete? && DistinctFields(GivenFields(b, i, env))
    ensures var s', k := AfterBatch(s, b, env), DocKey(b.table, b.docs[i].id);
      && (IndexAgreesAt(s', k, env.maxSuffixTerm) <==> AllTermsSurvive(GivenFields(b, i, env)))
      && (DocValuesAgreeAt(s', k) <==> AllValuesSurvive(GivenFields(b, i, env)))
  {
    var c := ChangeFor(s, b, i, env);
    Alone(s, b, env, i);
    AloneStays(s, b, env, i);
    BatchAgreementAt(s, b, env, i);
    assert StoredAt(s, DocKey(b.table, b.docs[i].id));
    NewsSurvive(s, b, i, env);
    MergedFieldsDistinct(GivenFields(b, i, env), c.olds);
    IndexTermsSurviveExactly(c.news, env.maxSuffixTerm);
  }

  // ---------------------------------------------------------------------------
  // Adding without reading

  /** Adding without reading, for each document: the index agrees exactly when the given terms are stored
      and none listed before is lost; the doc values agree exactly when the given values are stored and
      either there are some or no row is left over. */
  lemma AddWithoutReadExact(s: Store, b: Batch, env: Env, i: nat)
    requires Agrees(s, env.maxSuffixTerm) && Accepted(s, b, env) && DistinctDocs(b) && b.mode.AddWithoutRead?
    requires i < |b.docs| && DistinctFields(GivenFields(b, i, env))
    ensures var s', k, given := AfterBatch(s, b, env), DocKey(b.table, b.docs[i].id), GivenFields(b, i, env);
      && (IndexAgreesAt(s', k, env.maxSuffixTerm) <==>
            AllTermsSurvive(given) && TermsAt(s, k, env.maxSuffixTerm) <= IndexTerms(given, env.maxSuffixTerm))
      && (DocValuesAgreeAt(s', k) <==>
            AllValuesSurvive(given) && (HasDocValue(given) || k !in s.docValues))
  {
    var cs, k, given, max := Changes(s, b, env), DocKey(b.table, b.docs[i].id), GivenFields(b, i, env), env.maxSuffixTerm;
    Alone(s, b, env, i);
    assert cs[i].olds == [] && cs[i].news == given;
    BatchAgreementAt(s, b, env, i);
    UnreadIndex(cs, i, TermsAt(s, k, max), max);
    IndexTermsSurviveExactly(given, max);
    UnreadValues(s, b.table, cs, i);
  }

  ghost predicate OnlyChange(cs: seq<Change>, i: nat)
    requires i < |cs|
  {
    Of(cs, i, cs[i].id) && forall j: nat :: Of(cs, j, cs[i].id) ==> j == i
  }

  lemma UnreadIndex(cs: seq<Change>, i: nat, listed: set<(Byte, Term)>, max: nat)
    requires i < |cs| && OnlyChange(cs, i) && cs[i].olds == [] && !cs[i].del
    ensures IndexStays(cs, i, listed, max) <==>
      IndexTerms(StoredForms(cs[i].news), max) == IndexTerms(cs[i].news, max) && listed <= IndexTerms(cs[i].news, max)
  {
    IndexTermsShrink(cs[i].news, max);
    assert OldTerms(cs[i], max) == {};
  }

  lemma UnreadValues(s: Store, table: Table, cs: seq<Change>, i: nat)
    requires i < |cs| && OnlyChange(cs, i) && cs[i].olds == [] && !cs[i].del
    ensures DocValuesStay(s, table, cs, i) <==>
      AllValuesSurvive(cs[i].news) && (HasDocValue(cs[i].news) || DocKey(table, cs[i].id) !in s.docValues)
  {
    NoDocValueForms(cs[i].news);
  }

  /** So a document's row is left over when it is added again, without reading, with no doc value. */
  lemma AddWithoutReadLeavesRow(s: Store, b: Batch, env: Env)
    requires Agrees(s, env.maxSuffixTerm) && Accepted(s, b, env)
    requires b.mode.AddWithoutRead? && |b.docs| == 1 && DocKey(b.table, b.docs[0].id) in s.docValues
    requires !HasDocValue(GivenFields(b, 0, env)) && DistinctFields(GivenFields(b, 0, env))
    ensures !DocValuesAgreeAt(AfterBatch(s, b, env), DocKey(b.table, b.docs[0].id))
  {
    AddWithoutReadExact(s, b, env, 0);
  }

  const COUNT := Field(1, Flags(false, true, true, false, false, false), Uint32Type, 7, [], {}, 0)
  const SOME_KEY := DocKey(Table(0, 0), 1)
  const ONE_DOCUMENT := Store(map[SOME_KEY := Document(1, [COUNT])], map[], map[SOME_KEY := Document(1, [COUNT])])

  /** A store with such a document: one numeric field, stored and a doc value. */
  lemma OneDocumentAgrees()
    ensures Agrees(ONE_DOCUMENT, 0) && SOME_KEY in ONE_DOCUMENT.docValues
  {
    assert StoredForm(COUNT) == COUNT && DocValueForm(COUNT) == COUNT;
    assert [COUNT][1..] == [];
    assert DocValueForms([COUNT]) == [COUNT] && HasDocValue([COUNT]);
    assert IndexTerms([COUNT], 0) == {};
    assert NO_LISTS.Lists() == [];
    assert forall k, id :: !Shows(ONE_DOCUMENT, k, id);
  }

  // ---------------------------------------------------------------------------
  // Repeated ids

  /** No document of the id has a new term the last one lacks, and all have each old term it has. */
  ghost predicate RepeatsFit(cs: seq<Change>, m: nat, listed: set<(Byte, Term)>, maxSuffixTerm: nat)
    requires m < |cs|
  {
    forall j :: 0 <= j < |cs| && Of(cs, j, cs[m].id) ==>
      && IndexTerms(cs[j].news, maxSuffixTerm) - listed <= IndexTerms(cs[m].news, maxSuffixTerm)
      && IndexTerms(cs[m].news, maxSuffixTerm) * listed <= IndexTerms(cs[j].news, maxSuffixTerm)
  }

  lemma RepeatsFitExactly(cs: seq<Change>, m: nat, listed: set<(Byte, Term)>, maxSuffixTerm: nat)
    requires Last(cs, m) && (forall j :: 0 <= j < |cs| ==> !cs[j].del)
    requires OldTerms(cs[m], maxSuffixTerm) == listed
    requires KeptTerms(cs[m], maxSuffixTerm) == IndexTerms(cs[m].news, maxSuffixTerm)
    ensures IndexStays(cs, m, listed, maxSuffixTerm) <==> RepeatsFit(cs, m, listed, maxSuffixTerm)
  {
    assert Of(cs, m, cs[m].id);
    forall j | 0 <= j < |cs| ensures NewTerms(cs[j], maxSuffixTerm) == IndexTerms(cs[j].news, maxSuffixTerm) {}
  }

  /** An id given any number of times, to a mode that reads: the index agrees exactly when its documents
      fit the last one. */
  lemma RepeatedIdExact(s: Store, b: Batch, env: Env, m: nat)
    requires Agrees(s, env.maxSuffixTerm) && Accepted(s, b, env) && ReadsIfPresent(s, b) && !b.mode.Delete?
    requires Last(Changes(s, b, env), m) && AllTermsSurvive(Changes(s, b, env)[m].news)
    ensures var k := DocKey(b.table, b.docs[m].id);
      IndexAgreesAt(AfterBatch(s, b, env), k, env.maxSuffixTerm) <==>
      RepeatsFit(Changes(s, b, env), m, TermsAt(s, k, env.maxSuffixTerm), env.maxSuffixTerm)
  {
    var cs, k, max := Changes(s, b, env), DocKey(b.table, b.docs[m].id), env.maxSuffixTerm;
    BatchAgreementAt(s, b, env, m);
    KnowsWhatIsListed(s, b, env, m);
    IndexTermsSurvive(cs[m].news, max);
    forall j | 0 <= j < |cs| ensures !cs[j].del {
      assert cs[j] == ChangeFor(s, b, j, env);
    }
    RepeatsFitExactly(cs, m, TermsAt(s, k, max), max);
  }

  /** So it does not when a new document is added twice and the first has a term the second lacks. */
  lemma RepeatedIdDisagrees(s: Store, b: Batch, env: Env, t: (Byte, Term))
    requires Agrees(s, env.maxSuffixTerm) && Accepted(s, b, env)
    requires b.mode.Add? && |b.docs| == 2 && b.docs[0].id == b.docs[1].id
    requires t in IndexTerms(GivenFields(b, 0, env), env.maxSuffixTerm)
    requires t !in IndexTerms(GivenFields(b, 1, env), env.maxSuffixTerm)
    ensures !IndexAgreesAt(AfterBatch(s, b, env), DocKey(b.table, b.docs[0].id), env.maxSuffixTerm)
  {
    var cs, max := Changes(s, b, env), env.maxSuffixTerm;
    assert cs[0] == ChangeFor(s, b, 0, env) && cs[1] == ChangeFor(s, b, 1, env);
    assert Last(cs, 1) && Of(cs, 0, b.docs[1].id);
    BatchAgreementAt(s, b, env, 1);
    IndexTermsShrink(cs[1].news, max);
    assert t in NewTerms(cs[0], max) - OldTerms(cs[1], max);
  }

  /** Nor do the doc values when the first has some and the second none. */
  lemma RepeatedIdLeavesRow(s: Store, b: Batch, env: Env)
    requires Agrees(s, env.maxSuffixTerm) && Accepted(s, b, env)
    requires b.mode.Add? && |b.docs| == 2 && b.docs[0].id == b.docs[1].id
    requires HasDocValue(GivenFields(b, 0, env)) && !HasDocValue(GivenFields(b, 1, env))
    ensures !DocValuesAgreeAt(AfterBatch(s, b, env), DocKey(b.table, b.docs[0].id))
  {
    var cs := Changes(s, b, env);
    assert cs[0] == ChangeFor(s, b, 0, env) && cs[1] == ChangeFor(s, b, 1, env);
    assert Last(cs, 1) && Of(cs, 0, b.docs[1].id);
    BatchAgreementAt(s, b, env, 1);
    assert DocValueRow(cs[0]).Some?;
  }
}
