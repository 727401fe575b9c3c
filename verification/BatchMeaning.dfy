/** What a batch does, said of its documents and of what is stored: when it is accepted, and what it
    leaves stored. */
module BatchMeaning {
  import opened Basics
  import opened Documents
  import opened Database
  import opened Batches
  import P = Postings

  /** A batch is accepted exactly if every id is not 0, every document that is not to be removed
      tokenizes, the batch is not too large and its flush works, no read fails unless the mode does not
      read, adding finds none of its documents and updating finds all of them. */
  lemma AcceptedMeans(s: Store, b: Batch, env: Env)
    ensures Accepted(s, b, env) <==>
      && !env.tooLarge && !env.flushFails
      && (forall i :: 0 <= i < |b.docs| ==> b.docs[i].id != 0)
      && (b.mode != Delete ==> forall i :: 0 <= i < |b.docs| ==> env.tokenize(b.docs[i].fields).Some?)
      && (b.mode != AddWithoutRead ==> forall i :: 0 <= i < |b.docs| ==> i !in env.readFaults)
      && (b.mode == Add ==> forall i :: 0 <= i < |b.docs| ==> DocKey(b.table, b.docs[i].id) !in s.stored)
      && (b.mode == Update ==> forall i :: 0 <= i < |b.docs| ==> DocKey(b.table, b.docs[i].id) in s.stored)
  {
    forall i | 0 <= i < |b.docs|
      ensures DocumentAccepted(s, b, i, env) <==>
        && b.docs[i].id != 0
        && (b.mode != Delete ==> env.tokenize(b.docs[i].fields).Some?)
        && (b.mode != AddWithoutRead ==> i !in env.readFaults)
        && (b.mode == Add ==> DocKey(b.table, b.docs[i].id) !in s.stored)
        && (b.mode == Update ==> DocKey(b.table, b.docs[i].id) in s.stored)
    {
    }
  }

  /** The batch gets as far as tokenizing: no id is 0, no read fails that the mode makes, adding finds none
      of its documents and updating finds all. */
  predicate Goes(s: Store, b: Batch, env: Env) {
    && (forall i :: 0 <= i < |b.docs| ==> b.docs[i].id != 0)
    && (b.mode != AddWithoutRead ==> forall i :: 0 <= i < |b.docs| ==> i !in env.readFaults)
    && (b.mode == Add ==> forall i :: 0 <= i < |b.docs| ==> DocKey(b.table, b.docs[i].id) !in s.stored)
    && (b.mode == Update ==> forall i :: 0 <= i < |b.docs| ==> DocKey(b.table, b.docs[i].id) in s.stored)
  }

  lemma GoesIsInOrder(s: Store, b: Batch, env: Env)
    ensures InOrder(s, b, env) <==> Goes(s, b, env)
  {
    forall i | 0 <= i < |b.docs|
      ensures b.docs[i].id != 0 && Permits(b.mode, ReadStatus(s, b, i, env)) <==>
        && b.docs[i].id != 0
        && (b.mode != AddWithoutRead ==> i !in env.readFaults)
        && (b.mode == Add ==> DocKey(b.table, b.docs[i].id) !in s.stored)
        && (b.mode == Update ==> DocKey(b.table, b.docs[i].id) in s.stored)
    {
    }
  }

  /** The status of a document when some document of the batch stops it from being written.  A failed
      read shows, then that a document to add is there or one to update is not; a document to remove
      that is not there says so, even so; then an id of 0; any other says that others failed. */
  lemma RefusedMeans(s: Store, b: Batch, i: nat, env: Env)
    requires i < |b.docs| && !Goes(s, b, env)
    ensures var there, status := DocKey(b.table, b.docs[i].id) in s.stored, Outcome(s, b, i, env);
      status ==
        if b.mode != AddWithoutRead && i in env.readFaults then RocksDBError
        else if b.mode == Add && there then DocumentExist
        else if (b.mode == Update || b.mode == Delete) && !there then DocumentNotExist
        else if b.docs[i].id == 0 then IDCanNotZero
        else OtherDocumentError
  {
    GoesIsInOrder(s, b, env);
  }

  /** The status of a document of a batch that goes: the first that does not tokenize says so and the
      others that others failed; when the batch is too large or its flush fails every document says that
      others failed, but for one to remove that is not there, which says that or that the flush failed;
      otherwise all is well, except that a document to remove was not there. */
  lemma OutcomeMeans(s: Store, b: Batch, i: nat, env: Env)
    requires i < |b.docs| && Goes(s, b, env)
    ensures var there, status := DocKey(b.table, b.docs[i].id) in s.stored, Outcome(s, b, i, env);
      status ==
        if b.mode != Delete && exists j :: 0 <= j < |b.docs| && env.tokenize(b.docs[j].fields).None? then
          if env.tokenize(b.docs[i].fields).None? && forall j :: 0 <= j < i ==> env.tokenize(b.docs[j].fields).Some?
          then TokenizerError else OtherDocumentError
        else if env.tooLarge then (if b.mode == Delete && !there then DocumentNotExist else OtherDocumentError)
        else if env.flushFails then (if b.mode == Delete && !there then RocksDBError else OtherDocumentError)
        else if b.mode == Delete && !there then DocumentNotExist
        else OK
  {
    GoesIsInOrder(s, b, env);
    assert Permits(b.mode, ReadStatus(s, b, i, env));
    forall j | 0 <= j < |b.docs|
      ensures Tokenizes(b.mode, b.docs[j], env) <==> b.mode == Delete || env.tokenize(b.docs[j].fields).Some?
    {
    }
  }

  /** A field as one is stored: the value if it is flagged as stored, the terms unless flagged not to. */
  predicate StoredAs(r: Field, f: Field) {
    && r.id == f.id && r.flags == f.flags && r.ftype == f.ftype
    && r.numeric == (if f.flags.stored && (f.ftype.Uint32Type? || f.ftype.Uint64Type?) then f.numeric else 0)
    && r.str == (if f.flags.stored && f.ftype.StringType? then f.str else [])
    && r.terms == (if f.flags.notStoreInvertTerm then {} else f.terms)
    && r.suffixLen == (if !f.flags.suffixBuild then 0 else if f.suffixLen == 0 then 5 else f.suffixLen)
  }

  /** The fields given come first, in order. */
  predicate GivenFirst(row: seq<Field>, given: seq<Field>) {
    |given| <= |row| && forall i :: 0 <= i < |given| ==> StoredAs(row[i], given[i])
  }

  /** Then come old fields whose ids were not given. */
  ghost predicate OthersOld(row: seq<Field>, given: seq<Field>, olds: seq<Field>) {
    forall i :: |given| <= i < |row| ==>
      && (exists j :: 0 <= j < |olds| && StoredAs(row[i], olds[j]))
      && (forall j :: 0 <= j < |given| ==> given[j].id != row[i].id)
  }

  /** No old id is left out. */
  predicate AllThere(row: seq<Field>, olds: seq<Field>) {
    forall j :: 0 <= j < |olds| ==> exists i :: 0 <= i < |row| && row[i].id == olds[j].id
  }

  /** What an accepted batch leaves stored of an id, by the last document given for it.  Removing leaves
      nothing.  Otherwise its fields as tokenized come first; updating, with or without adding, goes on
      with the old fields whose ids were not given; any other mode with none. */
  lemma RowMeans(s: Store, b: Batch, env: Env, m: nat)
    requires Accepted(s, b, env) && m < |b.docs|
    requires forall j :: m < j < |b.docs| ==> b.docs[j].id != b.docs[m].id
    ensures var s', k := AfterBatch(s, b, env), DocKey(b.table, b.docs[m].id);
      if b.mode == Delete then k !in s'.stored
      else
        var given := env.tokenize(b.docs[m].fields).Or([]);
        var olds := if (b.mode == Update || b.mode == AddOrUpdate) && k in s.stored then s.stored[k].fields else [];
        && k in s'.stored && s'.stored[k].id == b.docs[m].id
        && GivenFirst(s'.stored[k].fields, given)
        && OthersOld(s'.stored[k].fields, given, olds) && AllThere(s'.stored[k].fields, olds)
  {
    var cs, k := Changes(s, b, env), DocKey(b.table, b.docs[m].id);
    assert cs[m] == ChangeFor(s, b, m, env) && DocumentAccepted(s, b, m, env);
    if cs[m].active {
      BatchRows(s, b, env, m);
      if b.mode != Delete {
        var given := env.tokenize(b.docs[m].fields).Or([]);
        var olds := if (b.mode == Update || b.mode == AddOrUpdate) && k in s.stored then s.stored[k].fields else [];
        assert OldFields(b.mode, ReadStatus(s, b, m, env), s, k) == olds || b.mode == Replace;
        MergedRow(given, olds);
      }
    } else {
      forall i | 0 <= i < |cs| ensures cs[i].active ==> cs[i].id != k.id {
        assert cs[i] == ChangeFor(s, b, i, env) && DocumentAccepted(s, b, i, env);
      }
      OthersUntouched(s, b.table, cs, k, env.maxSuffixTerm);
    }
  }

  /** And what it leaves in the doc-value row of that id: what its fields then hold of doc values if they
      hold any; otherwise no row, in a mode that reads, if its old fields had any. */
  lemma DocValueRowMeans(s: Store, b: Batch, env: Env, m: nat)
    requires Accepted(s, b, env) && m < |b.docs|
    requires forall j :: m < j < |b.docs| ==> b.docs[j].id != b.docs[m].id
    ensures var s', k := AfterBatch(s, b, env), DocKey(b.table, b.docs[m].id);
      var given := env.tokenize(b.docs[m].fields).Or([]);
      var olds := if k in s.stored then s.stored[k].fields else [];
      var news := if b.mode == Update || b.mode == AddOrUpdate then MergedFields(given, olds) else given;
      if b.mode != Delete && exists i :: 0 <= i < |news| && news[i].flags.docValue
      then k in s'.docValues && s'.docValues[k] == Document(b.docs[m].id, DocValueForms(news))
      else b.mode != Add && b.mode != AddWithoutRead && (exists i :: 0 <= i < |olds| && olds[i].flags.docValue) ==>
        k !in s'.docValues
  {
    var cs, k := Changes(s, b, env), DocKey(b.table, b.docs[m].id);
    assert cs[m] == ChangeFor(s, b, m, env) && DocumentAccepted(s, b, m, env);
    if cs[m].active {
      LastRows(s, b.table, cs, m);
    }
  }

  lemma MergedRow(given: seq<Field>, olds: seq<Field>)
    ensures var row := StoredForms(MergedFields(given, olds));
      GivenFirst(row, given) && OthersOld(row, given, olds) && AllThere(row, olds)
  {
    var all := MergedFields(given, olds);
    var row := StoredForms(all);
    MergedFieldsFrom(given, olds);
    MergedFieldsAdd(given, olds);
    StoredFormsAt(all);
    forall i | 0 <= i < |row| ensures StoredAs(row[i], all[i]) {
      StoredFormMeans(all[i]);
    }
    forall i | 0 <= i < |given| ensures all[i] == given[i] {
    }
    forall i | |given| <= i < |row| ensures exists j :: 0 <= j < |olds| && StoredAs(row[i], olds[j]) {
      var j :| 0 <= j < |olds| && olds[j] == all[i];
    }
    forall j | 0 <= j < |olds| ensures exists i :: 0 <= i < |row| && row[i].id == olds[j].id {
      assert olds[j] in olds;
      var i :| 0 <= i < |all| && all[i].id == olds[j].id;
      assert row[i].id == olds[j].id;
    }
  }

  // ---------------------------------------------------------------------------
  // What is written to the lists of a term

  /** A document that stays or comes has a term it did not have. */
  predicate Gains(c: Change, t: (Byte, Term), maxSuffixTerm: nat) {
    c.active && !c.del && t in IndexTerms(c.news, maxSuffixTerm) && t !in IndexTerms(c.olds, maxSuffixTerm)
  }

  /** A document had a term and is removed or has it no more. */
  predicate Loses(c: Change, t: (Byte, Term), maxSuffixTerm: nat) {
    c.active && t in IndexTerms(c.olds, maxSuffixTerm) && (c.del || t !in IndexTerms(c.news, maxSuffixTerm))
  }

  /** What one document adds to the lists of a term. */
  function ListsOf(c: Change, t: (Byte, Term), maxSuffixTerm: nat): seq<P.PostingList> {
    if Gains(c, t, maxSuffixTerm) then [[P.Entry(c.id, 0)]]
    else if Loses(c, t, maxSuffixTerm) then [[P.Entry(c.id, 1)]]
    else []
  }

  function Joined(ls: seq<seq<P.PostingList>>): seq<P.PostingList> {
    if ls == [] then [] else Joined(ls[..|ls| - 1]) + ls[|ls| - 1]
  }

  function ListsOfAll(cs: seq<Change>, t: (Byte, Term), maxSuffixTerm: nat): seq<seq<P.PostingList>> {
    seq(|cs|, i requires 0 <= i < |cs| => ListsOf(cs[i], t, maxSuffixTerm))
  }

  /** A batch adds to the lists of a term of its table, in order, one list of one entry for each document
      that gains or loses it: the id with state 0, or with state 1; and nothing for any other table. */
  lemma OperandsMean(s: Store, table: Table, cs: seq<Change>, k: TermKey, maxSuffixTerm: nat)
    ensures var before, after := CellOf(s.postings, k), CellOf(Changed(s, table, cs, maxSuffixTerm).postings, k);
      && after.base == before.base
      && after.ops == before.ops
           + if k.table == table then Joined(ListsOfAll(cs, (k.field, k.term), maxSuffixTerm)) else []
  {
    ChangedCell(s, table, cs, k, maxSuffixTerm);
    if k.table == table {
      WantedMeans(table, cs, k, maxSuffixTerm);
    } else {
      NothingWanted(table, cs, k, maxSuffixTerm);
    }
  }

  lemma {:induction false} WantedMeans(table: Table, cs: seq<Change>, k: TermKey, maxSuffixTerm: nat)
    requires k.table == table
    ensures WantedAll(table, cs, k, maxSuffixTerm) == Joined(ListsOfAll(cs, (k.field, k.term), maxSuffixTerm))
  {
    if cs != [] {
      var r, c, all := cs[..|cs| - 1], cs[|cs| - 1], ListsOfAll(cs, (k.field, k.term), maxSuffixTerm);
      WantedMeans(table, r, k, maxSuffixTerm);
      WantedOne(table, c, k, maxSuffixTerm);
      assert all[..|all| - 1] == ListsOfAll(r, (k.field, k.term), maxSuffixTerm);
    }
  }

  lemma WantedOne(table: Table, c: Change, k: TermKey, maxSuffixTerm: nat)
    requires k.table == table
    ensures Wanted(table, c, k, maxSuffixTerm) == ListsOf(c, (k.field, k.term), maxSuffixTerm)
  {
  }

  lemma {:induction false} NothingWanted(table: Table, cs: seq<Change>, k: TermKey, maxSuffixTerm: nat)
    requires k.table != table
    ensures WantedAll(table, cs, k, maxSuffixTerm) == []
  {
    if cs != [] { NothingWanted(table, cs[..|cs| - 1], k, maxSuffixTerm); }
  }
}
