/** What a batch of documents means: which batches are accepted, what they change, and that the three
    columns keep agreeing over any run of batches and merges. */
module Batches {
  import opened Basics
  import opened Documents
  import opened Database
  import opened Compaction
  import P = Postings

  datatype Mode = Add | Update | AddOrUpdate | Delete | Replace | AddWithoutRead

  /** What the surroundings do to one call: the tokenizer, reads that fail, a batch over the size limit,
      a flush that fails; and the configured longest term that gets suffixes. */
  datatype Env = Env(tokenize: seq<Field> -> Option<seq<Field>>, readFaults: set<nat>, tooLarge: bool,
                     flushFails: bool, maxSuffixTerm: nat)

  datatype Batch = Batch(table: Table, mode: Mode, docs: seq<Document>)

  // ---------------------------------------------------------------------------
  // Meaning of a batch

  function ReadStatus(s: Store, b: Batch, i: nat, env: Env): Status
    requires i < |b.docs|
  {
    if i in env.readFaults then RocksDBError
    else if DocKey(b.table, b.docs[i].id) in s.stored then OK
    else DocumentNotExist
  }

  /** Whether a mode goes ahead on what was read. */
  predicate Permits(mode: Mode, read: Status) {
    match mode
    case Add => read == DocumentNotExist
    case Update => read == OK
    case AddWithoutRead => true
    case _ => read == OK || read == DocumentNotExist
  }

  /** The status a refused document is left with. */
  function Refusal(mode: Mode, read: Status): Status { if mode.Add? && read == OK then DocumentExist else read }

  /** A refused document says why; one to delete that is not there says so; any other keeps its status. */
  function StatusAfter(mode: Mode, read: Status, was: Status): Status {
    if !Permits(mode, read) then Refusal(mode, read)
    else if mode.Delete? && read == DocumentNotExist then DocumentNotExist
    else was
  }

  predicate Tokenizes(mode: Mode, d: Document, env: Env) { mode.Delete? || env.tokenize(d.fields).Some? }

  predicate DocumentAccepted(s: Store, b: Batch, i: nat, env: Env)
    requires i < |b.docs|
  {
    b.docs[i].id != 0 && Permits(b.mode, ReadStatus(s, b, i, env)) && Tokenizes(b.mode, b.docs[i], env)
  }

  /** One document that cannot go ahead stops the whole batch. */
  predicate Accepted(s: Store, b: Batch, env: Env) {
    (forall i :: 0 <= i < |b.docs| ==> DocumentAccepted(s, b, i, env)) && !env.tooLarge && !env.flushFails
  }

  /** Ids and reads are in order, so that the batch gets to be written. */
  predicate InOrder(s: Store, b: Batch, env: Env) {
    forall i :: 0 <= i < |b.docs| ==> b.docs[i].id != 0 && Permits(b.mode, ReadStatus(s, b, i, env))
  }

  /** In a batch that failed, a document with nothing wrong says that others had. */
  function Marked(status: Status): Status { if status == OK then OtherDocumentError else status }

  /** The status each document of a batch ends with. */
  function Outcome(s: Store, b: Batch, i: nat, env: Env): Status
    requires i < |b.docs|
  {
    var status := StatusAfter(b.mode, ReadStatus(s, b, i, env), if b.docs[i].id == 0 then IDCanNotZero else OK);
    if !InOrder(s, b, env) then Marked(status)
    else if exists j :: 0 <= j < |b.docs| && !Tokenizes(b.mode, b.docs[j], env) then
      if !Tokenizes(b.mode, b.docs[i], env) && forall j :: 0 <= j < i ==> Tokenizes(b.mode, b.docs[j], env)
      then TokenizerError else Marked(status)
    else if env.tooLarge then Marked(status)
    else if env.flushFails then Marked(if status == OK then OK else RocksDBError)
    else status
  }

  predicate Reads(mode: Mode) { !mode.Add? && !mode.AddWithoutRead? }

  function OldFields(mode: Mode, read: Status, s: Store, k: DocKey): seq<Field> {
    if Reads(mode) && read == OK && k in s.stored then s.stored[k].fields else []
  }

  function NewFields(mode: Mode, d: Document, olds: seq<Field>, env: Env): seq<Field> {
    if mode.Delete? then d.fields
    else if mode.Replace? then env.tokenize(d.fields).Or([])
    else MergedFields(env.tokenize(d.fields).Or([]), olds)
  }

  function ChangeFor(s: Store, b: Batch, i: nat, env: Env): Change
    requires i < |b.docs|
  {
    var d, read := b.docs[i], ReadStatus(s, b, i, env);
    var olds := OldFields(b.mode, read, s, DocKey(b.table, d.id));
    Change(!(b.mode.Delete? && read == DocumentNotExist), d.id, b.mode.Delete?, olds,
           NewFields(b.mode, d, olds, env))
  }

  function Changes(s: Store, b: Batch, env: Env): seq<Change> {
    seq(|b.docs|, i requires 0 <= i < |b.docs| => ChangeFor(s, b, i, env))
  }

  function AfterBatch(s: Store, b: Batch, env: Env): Store {
    if Accepted(s, b, env) then Changed(s, b.table, Changes(s, b, env), env.maxSuffixTerm) else s
  }

  // ---------------------------------------------------------------------------
  // Agreement of the columns

  function TermsAt(s: Store, k: DocKey, maxSuffixTerm: nat): set<(Byte, Term)> {
    if k in s.stored then IndexTerms(s.stored[k].fields, maxSuffixTerm) else {}
  }

  /** The posting list of a term shows the document. */
  ghost predicate Shows(s: Store, k: TermKey, id: nat) { id in Visible(CellOf(s.postings, k)) }

  /** A document is listed under exactly the terms its stored fields expand to. */
  ghost predicate IndexAgreesAt(s: Store, k: DocKey, maxSuffixTerm: nat) {
    forall f: Byte, t: Term :: Shows(s, TermKey(k.table, f, t), k.id) <==> (f, t) in TermsAt(s, k, maxSuffixTerm)
  }

  lemma ShownIsKey(s: Store, k: TermKey, id: nat)
    requires Shows(s, k, id)
    ensures k in s.postings
  {
    assert NO_LISTS.Lists() == [];
  }

  function Projection(s: Store, k: DocKey): Option<Document> {
    if k in s.stored && HasDocValue(s.stored[k].fields)
    then Some(Document(k.id, DocValueForms(s.stored[k].fields))) else None
  }

  /** The doc-value row is the projection of the stored document, absent if that has no doc value. */
  predicate DocValuesAgreeAt(s: Store, k: DocKey) { RowIs(s.docValues, k, Projection(s, k)) }

  /** Stored fields are what storing leaves, and no document has id 0. */
  predicate StoredAt(s: Store, k: DocKey) {
    k in s.stored ==> k.id != 0 && forall f :: f in s.stored[k].fields ==> StoredForm(f) == f
  }

  ghost predicate Agrees(s: Store, maxSuffixTerm: nat) {
    forall k :: IndexAgreesAt(s, k, maxSuffixTerm) && DocValuesAgreeAt(s, k) && StoredAt(s, k)
  }

  lemma ExtendShows(c: Cell, ls: seq<P.PostingList>, id: nat)
    ensures id !in P.Overlay(ls) ==> (id in Visible(Extend(c, ls)) <==> id in Visible(c))
    ensures id in P.Overlay(ls) ==> (id in Visible(Extend(c, ls)) <==> P.Overlay(ls)[id] != P.DELETED)
  {
    assert Extend(c, ls).Lists() == c.Lists() + ls;
    P.OverlayConcat(c.Lists(), ls);
  }

  /** Operands one after another. */
  function Flat(ws: seq<seq<P.PostingList>>): seq<P.PostingList> {
    if ws == [] then [] else Flat(ws[..|ws| - 1]) + ws[|ws| - 1]
  }

  /** No operand, or one with a single entry, for this id. */
  predicate Single(w: seq<P.PostingList>, id: nat) { w == [] || (|w| == 1 && |w[0]| == 1 && w[0][0].id == id) }

  predicate AllSingle(ws: seq<seq<P.PostingList>>, ids: seq<nat>) {
    |ws| == |ids| && forall i :: 0 <= i < |ws| ==> Single(ws[i], ids[i])
  }

  lemma OverlaySingle(ls: seq<P.PostingList>, w: seq<P.PostingList>, id: nat)
    requires Single(w, id)
    ensures P.Overlay(ls + w) == if w == [] then P.Overlay(ls) else P.Overlay(ls)[id := w[0][0].state]
  {
    if w == [] {
      assert ls + w == ls;
    } else {
      var l := w[0];
      assert w == [l] && l == [l[0]];
      P.OverlayConcat(ls, [l]);
      P.OverlayOne(l);
      OneEntryMap(l[0]);
    }
  }

  lemma OneEntryMap(e: P.Entry)
    ensures P.ToMap([e]) == map[e.id := e.state]
  {
    assert [e][1..] == [];
  }

  lemma SingleFront(ws: seq<seq<P.PostingList>>, ids: seq<nat>)
    requires AllSingle(ws, ids) && ws != []
    ensures AllSingle(ws[..|ws| - 1], ids[..|ids| - 1])
  {
  }

  lemma FlatStep(ws: seq<seq<P.PostingList>>, ids: seq<nat>)
    requires AllSingle(ws, ids) && ws != []
    ensures AllSingle(ws[..|ws| - 1], ids[..|ids| - 1])
    ensures var before: map<nat, nat> := P.Overlay(Flat(ws[..|ws| - 1]));
      var w: seq<P.PostingList> := ws[|ws| - 1];
      P.Overlay(Flat(ws)) == if w == [] then before else before[ids[|ws| - 1] := w[0][0].state]
  {
    SingleFront(ws, ids);
    OverlaySingle(Flat(ws[..|ws| - 1]), ws[|ws| - 1], ids[|ws| - 1]);
  }

  lemma {:induction false} FlatUntouched(ws: seq<seq<P.PostingList>>, ids: seq<nat>, id: nat)
    requires AllSingle(ws, ids) && forall i :: 0 <= i < |ws| ==> ws[i] == [] || ids[i] != id
    ensures id !in P.Overlay(Flat(ws))
  {
    if ws != [] {
      FlatStep(ws, ids);
      FlatUntouched(ws[..|ws| - 1], ids[..|ids| - 1], id);
    }
  }

  /** Operands for an id that all carry one state give it that state, if there are any. */
  lemma {:induction false} FlatUniform(ws: seq<seq<P.PostingList>>, ids: seq<nat>, id: nat, state: nat, i: nat)
    requires AllSingle(ws, ids) && i < |ws| && ids[i] == id && ws[i] != []
    requires forall j :: 0 <= j < |ws| && ids[j] == id && ws[j] != [] ==> ws[j][0][0].state == state
    ensures id in P.Overlay(Flat(ws)) && P.Overlay(Flat(ws))[id] == state
  {
    var n := |ws| - 1;
    FlatStep(ws, ids);
    if i < n {
      FlatUniform(ws[..n], ids[..n], id, state, i);
    }
  }

  function WantedEach(table: Table, cs: seq<Change>, k: TermKey, maxSuffixTerm: nat): seq<seq<P.PostingList>> {
    seq(|cs|, i requires 0 <= i < |cs| => Wanted(table, cs[i], k, maxSuffixTerm))
  }

  function IdsOfChanges(cs: seq<Change>): seq<nat> { seq(|cs|, i requires 0 <= i < |cs| => cs[i].id) }

  lemma {:induction false} WantedIsFlat(table: Table, cs: seq<Change>, k: TermKey, maxSuffixTerm: nat)
    ensures WantedAll(table, cs, k, maxSuffixTerm) == Flat(WantedEach(table, cs, k, maxSuffixTerm))
    ensures AllSingle(WantedEach(table, cs, k, maxSuffixTerm), IdsOfChanges(cs))
  {
    if cs != [] {
      var r := cs[..|cs| - 1];
      WantedIsFlat(table, r, k, maxSuffixTerm);
      assert WantedEach(table, cs, k, maxSuffixTerm)[..|r|] == WantedEach(table, r, k, maxSuffixTerm);
    }
  }

  lemma OverlayUntouched(table: Table, cs: seq<Change>, k: TermKey, id: nat, maxSuffixTerm: nat)
    requires k.table != table || Untouched(cs, id)
    ensures id !in P.Overlay(WantedAll(table, cs, k, maxSuffixTerm))
  {
    WantedIsFlat(table, cs, k, maxSuffixTerm);
    FlatUntouched(WantedEach(table, cs, k, maxSuffixTerm), IdsOfChanges(cs), id);
  }

  /** Every change of the id starts from the same old terms: those of the stored document, or none. */
  ghost predicate SameOld(cs: seq<Change>, id: nat, olds: set<(Byte, Term)>, maxSuffixTerm: nat) {
    forall j: nat :: Of(cs, j, id) ==> OldTerms(cs[j], maxSuffixTerm) == olds
  }

  predicate SomeGains(cs: seq<Change>, id: nat, t: (Byte, Term), maxSuffixTerm: nat) {
    exists j :: 0 <= j < |cs| && Of(cs, j, id) && t in NewTerms(cs[j], maxSuffixTerm)
  }

  predicate AllKeep(cs: seq<Change>, id: nat, t: (Byte, Term), maxSuffixTerm: nat) {
    forall j :: 0 <= j < |cs| && Of(cs, j, id) ==> t in NewTerms(cs[j], maxSuffixTerm)
  }

  /** Any number of changes of one id, together: a term they knew stays listed if all of them keep it; any
      other becomes listed if some of them gain it, and is otherwise left as it was. */
  lemma ShowsExactly(s: Store, table: Table, cs: seq<Change>, id: nat, olds: set<(Byte, Term)>, f: Byte, t: Term,
                     maxSuffixTerm: nat)
    requires SameOld(cs, id, olds, maxSuffixTerm)
    ensures Shows(Changed(s, table, cs, maxSuffixTerm), TermKey(table, f, t), id) <==>
      if (f, t) in olds then Shows(s, TermKey(table, f, t), id) && AllKeep(cs, id, (f, t), maxSuffixTerm)
      else Shows(s, TermKey(table, f, t), id) || SomeGains(cs, id, (f, t), maxSuffixTerm)
  {
    var k := TermKey(table, f, t);
    ChangedCell(s, table, cs, k, maxSuffixTerm);
    ExtendShows(CellOf(s.postings, k), WantedAll(table, cs, k, maxSuffixTerm), id);
    OverlayExactly(table, cs, id, olds, k, maxSuffixTerm);
  }

  lemma WantedOf(table: Table, cs: seq<Change>, id: nat, olds: set<(Byte, Term)>, k: TermKey, j: nat, maxSuffixTerm: nat)
    requires SameOld(cs, id, olds, maxSuffixTerm) && k.table == table && j < |cs| && cs[j].id == id
    ensures var t, w := (k.field, k.term), Wanted(table, cs[j], k, maxSuffixTerm);
      && (w != [] <==> Of(cs, j, id) && (t in NewTerms(cs[j], maxSuffixTerm) <==> t !in olds))
      && (w != [] ==> w[0][0].state == if t in olds then P.DELETED else 0)
  {
    assert Of(cs, j, id) ==> OldTerms(cs[j], maxSuffixTerm) == olds;
  }

  /** The operands written for an id: tombstones if a known term is dropped somewhere, entries if an
      unknown one is gained somewhere. */
  lemma OverlayExactly(table: Table, cs: seq<Change>, id: nat, olds: set<(Byte, Term)>, k: TermKey, maxSuffixTerm: nat)
    requires SameOld(cs, id, olds, maxSuffixTerm) && k.table == table
    ensures var t: (Byte, Term), m := (k.field, k.term), P.Overlay(WantedAll(table, cs, k, maxSuffixTerm));
      && (id in m <==> if t in olds then !AllKeep(cs, id, t, maxSuffixTerm) else SomeGains(cs, id, t, maxSuffixTerm))
      && (id in m ==> m[id] == if t in olds then P.DELETED else 0)
  {
    var t, ids := (k.field, k.term), IdsOfChanges(cs);
    var ws: seq<seq<P.PostingList>> := WantedEach(table, cs, k, maxSuffixTerm);
    WantedIsFlat(table, cs, k, maxSuffixTerm);
    forall j | 0 <= j < |cs| && cs[j].id == id
      ensures ws[j] != [] <==> Of(cs, j, id) && (t in NewTerms(cs[j], maxSuffixTerm) <==> t !in olds)
      ensures ws[j] != [] ==> ws[j][0][0].state == if t in olds then P.DELETED else 0
    {
      WantedOf(table, cs, id, olds, k, j, maxSuffixTerm);
    }
    if i :| 0 <= i < |ws| && ids[i] == id && ws[i] != [] {
      FlatUniform(ws, ids, id, if t in olds then P.DELETED else 0, i);
      assert Of(cs, i, id) && (t in NewTerms(cs[i], maxSuffixTerm) <==> t !in olds);
    } else {
      FlatUntouched(ws, ids, id);
      assert forall j :: 0 <= j < |cs| && Of(cs, j, id) ==> !(t in NewTerms(cs[j], maxSuffixTerm) <==> t !in olds);
    }
  }

  lemma OthersUntouched(s: Store, table: Table, cs: seq<Change>, k: DocKey, maxSuffixTerm: nat)
    requires k.table != table || Untouched(cs, k.id)
    ensures var s' := Changed(s, table, cs, maxSuffixTerm);
      && SameRow(s'.stored, s.stored, k) && SameRow(s'.docValues, s.docValues, k)
      && forall f: Byte, t: Term :: Shows(s', TermKey(k.table, f, t), k.id) <==> Shows(s, TermKey(k.table, f, t), k.id)
  {
    var s' := Changed(s, table, cs, maxSuffixTerm);
    UntouchedRows(s, table, cs, k);
    forall f: Byte, t: Term ensures Shows(s', TermKey(k.table, f, t), k.id) <==> Shows(s, TermKey(k.table, f, t), k.id) {
      var tk := TermKey(k.table, f, t);
      ChangedCell(s, table, cs, tk, maxSuffixTerm);
      ExtendShows(CellOf(s.postings, tk), WantedAll(table, cs, tk, maxSuffixTerm), k.id);
      OverlayUntouched(table, cs, tk, k.id, maxSuffixTerm);
    }
  }

  /** The index terms of what a change leaves stored. */
  function KeptTerms(c: Change, maxSuffixTerm: nat): set<(Byte, Term)> {
    if c.del then {} else IndexTerms(StoredForms(c.news), maxSuffixTerm)
  }

  /** What changes of one id must satisfy for the index to agree with the last of them: nothing listed
      before is lost unknown to them, nothing one of them gains is missing from the last, nothing one of
      them drops is in the last, and nothing all of them keep is. */
  ghost predicate IndexStays(cs: seq<Change>, m: nat, listed: set<(Byte, Term)>, maxSuffixTerm: nat)
    requires m < |cs|
  {
    var olds, kept := OldTerms(cs[m], maxSuffixTerm), KeptTerms(cs[m], maxSuffixTerm);
    && listed - olds <= kept
    && (forall j :: 0 <= j < |cs| && Of(cs, j, cs[m].id) ==>
          NewTerms(cs[j], maxSuffixTerm) - olds <= kept && kept * olds <= NewTerms(cs[j], maxSuffixTerm))
    && (forall t :: t in olds && AllKeep(cs, cs[m].id, t, maxSuffixTerm) ==> t in kept)
  }

  /** After any changes, the index agrees on a document exactly when they satisfy that. */
  lemma IndexAfterLast(s: Store, table: Table, cs: seq<Change>, m: nat, maxSuffixTerm: nat)
    requires Last(cs, m) && SameOld(cs, cs[m].id, OldTerms(cs[m], maxSuffixTerm), maxSuffixTerm)
    requires IndexAgreesAt(s, DocKey(table, cs[m].id), maxSuffixTerm)
    requires OldTerms(cs[m], maxSuffixTerm) <= TermsAt(s, DocKey(table, cs[m].id), maxSuffixTerm)
    ensures IndexAgreesAt(Changed(s, table, cs, maxSuffixTerm), DocKey(table, cs[m].id), maxSuffixTerm) <==>
      IndexStays(cs, m, TermsAt(s, DocKey(table, cs[m].id), maxSuffixTerm), maxSuffixTerm)
  {
    var c, id, k := cs[m], cs[m].id, DocKey(table, cs[m].id);
    var s', listed, olds, kept := Changed(s, table, cs, maxSuffixTerm), TermsAt(s, k, maxSuffixTerm),
      OldTerms(c, maxSuffixTerm), KeptTerms(c, maxSuffixTerm);
    LastRows(s, table, cs, m);
    assert TermsAt(s', k, maxSuffixTerm) == kept;
    if !c.del { IndexTermsShrink(c.news, maxSuffixTerm); }
    assert Of(cs, m, id) && kept <= NewTerms(c, maxSuffixTerm);
    forall f: Byte, t: Term
      ensures Shows(s', TermKey(table, f, t), id) <==> ListedAfter(cs, id, olds, listed, (f, t), maxSuffixTerm)
    {
      ShowsExactly(s, table, cs, id, olds, f, t, maxSuffixTerm);
      assert Shows(s, TermKey(table, f, t), id) <==> (f, t) in listed;
    }
    if IndexAgreesAt(s', k, maxSuffixTerm) {
      forall t: (Byte, Term) ensures ListedAfter(cs, id, olds, listed, t, maxSuffixTerm) <==> t in kept {
        assert Shows(s', TermKey(table, t.0, t.1), id) <==> (t.0, t.1) in kept;
      }
    }
    ListedAfterStays(cs, m, listed, maxSuffixTerm);
  }

  ghost predicate ListedAfter(cs: seq<Change>, id: nat, olds: set<(Byte, Term)>, listed: set<(Byte, Term)>, t: (Byte, Term),
                        maxSuffixTerm: nat) {
    if t in olds then t in listed && AllKeep(cs, id, t, maxSuffixTerm)
    else t in listed || SomeGains(cs, id, t, maxSuffixTerm)
  }

  lemma ListedAfterStays(cs: seq<Change>, m: nat, listed: set<(Byte, Term)>, maxSuffixTerm: nat)
    requires Last(cs, m) && OldTerms(cs[m], maxSuffixTerm) <= listed
    requires KeptTerms(cs[m], maxSuffixTerm) <= NewTerms(cs[m], maxSuffixTerm)
    ensures IndexStays(cs, m, listed, maxSuffixTerm) <==>
      forall t: (Byte, Term) :: ListedAfter(cs, cs[m].id, OldTerms(cs[m], maxSuffixTerm), listed, t, maxSuffixTerm)
        <==> t in KeptTerms(cs[m], maxSuffixTerm)
  {
    var id, olds, kept := cs[m].id, OldTerms(cs[m], maxSuffixTerm), KeptTerms(cs[m], maxSuffixTerm);
    assert Of(cs, m, id);
    if IndexStays(cs, m, listed, maxSuffixTerm) {
      forall t: (Byte, Term) ensures ListedAfter(cs, id, olds, listed, t, maxSuffixTerm) <==> t in kept {
        if t in kept && t !in olds {
          assert t in NewTerms(cs[m], maxSuffixTerm);
        }
      }
    }
    if forall t: (Byte, Term) :: ListedAfter(cs, id, olds, listed, t, maxSuffixTerm) <==> t in kept {
      forall t | t in listed - olds ensures t in kept {
        assert ListedAfter(cs, id, olds, listed, t, maxSuffixTerm);
      }
      forall j | 0 <= j < |cs| && Of(cs, j, id)
        ensures NewTerms(cs[j], maxSuffixTerm) - olds <= kept && kept * olds <= NewTerms(cs[j], maxSuffixTerm)
      {
        forall t | t in NewTerms(cs[j], maxSuffixTerm) - olds ensures t in kept {
          assert ListedAfter(cs, id, olds, listed, t, maxSuffixTerm);
        }
        forall t | t in kept * olds ensures t in NewTerms(cs[j], maxSuffixTerm) {
          assert ListedAfter(cs, id, olds, listed, t, maxSuffixTerm);
        }
      }
      forall t | t in olds && AllKeep(cs, id, t, maxSuffixTerm) ensures t in kept {
        assert ListedAfter(cs, id, olds, listed, t, maxSuffixTerm);
      }
    }
  }

  /** What changes of one id must satisfy for the doc-value row to agree with the last of them: storing
      keeps its doc values; or it has none, and there is no row left over that it knows nothing of. */
  predicate DocValuesStay(s: Store, table: Table, cs: seq<Change>, m: nat)
    requires m < |cs|
  {
    if DocValueRow(cs[m]).Some? then AllValuesSurvive(cs[m].news)
    else
      HasDocValue(cs[m].olds)
      || (&& DocKey(table, cs[m].id) !in s.docValues
          && forall j :: 0 <= j < |cs| && Of(cs, j, cs[m].id) ==> DocValueRow(cs[j]).None?)
  }

  /** After any changes, the doc values agree on a document exactly when they satisfy that. */
  lemma DocValuesAfterLast(s: Store, table: Table, cs: seq<Change>, m: nat, maxSuffixTerm: nat)
    requires Last(cs, m) && forall j: nat :: Of(cs, j, cs[m].id) ==> cs[j].olds == cs[m].olds
    ensures DocValuesAgreeAt(Changed(s, table, cs, maxSuffixTerm), DocKey(table, cs[m].id)) <==>
      DocValuesStay(s, table, cs, m)
  {
    var c := cs[m];
    LastRows(s, table, cs, m);
    DocValuesSurvive(c.news);
    HasDocValueStored(c.news);
    if DocValueRow(c).None? && !HasDocValue(c.olds) {
      RowsStay(s, table, cs, c.id);
    }
  }

  // ---------------------------------------------------------------------------
  // Which batches keep the columns in agreement

  /** The batch leaves index and doc values agreeing with each document it stores or removes. */
  ghost predicate Safe(s: Store, b: Batch, env: Env) {
    var cs := Changes(s, b, env);
    forall m :: 0 <= m < |cs| && Last(cs, m) ==> SafeAt(s, b, env, m)
  }

  ghost predicate SafeAt(s: Store, b: Batch, env: Env, m: nat)
    requires m < |b.docs|
  {
    var cs, k := Changes(s, b, env), DocKey(b.table, b.docs[m].id);
    IndexStays(cs, m, TermsAt(s, k, env.maxSuffixTerm), env.maxSuffixTerm) && DocValuesStay(s, b.table, cs, m)
  }

  /** All changes of one id in an accepted batch start from the same fields: the stored ones, or none if
      the mode does not read. */
  lemma ChangesInformed(s: Store, b: Batch, env: Env, m: nat)
    requires Accepted(s, b, env) && m < |b.docs|
    ensures var k := DocKey(b.table, b.docs[m].id);
      Changes(s, b, env)[m].olds == if Reads(b.mode) && k in s.stored then s.stored[k].fields else []
    ensures forall j: nat :: Of(Changes(s, b, env), j, b.docs[m].id) ==>
      Changes(s, b, env)[j].olds == Changes(s, b, env)[m].olds
  {
    var cs := Changes(s, b, env);
    assert DocumentAccepted(s, b, m, env) && cs[m] == ChangeFor(s, b, m, env);
    forall j: nat | Of(cs, j, b.docs[m].id) ensures cs[j].olds == cs[m].olds {
      assert DocumentAccepted(s, b, j, env) && cs[j] == ChangeFor(s, b, j, env);
    }
  }

  /** For the document of the last place of an id in an accepted batch: both agreements, exactly. */
  lemma BatchAgreementAt(s: Store, b: Batch, env: Env, m: nat)
    requires Agrees(s, env.maxSuffixTerm) && Accepted(s, b, env) && Last(Changes(s, b, env), m)
    ensures var s', k, cs := AfterBatch(s, b, env), DocKey(b.table, b.docs[m].id), Changes(s, b, env);
      && (IndexAgreesAt(s', k, env.maxSuffixTerm) <==>
            IndexStays(cs, m, TermsAt(s, k, env.maxSuffixTerm), env.maxSuffixTerm))
      && (DocValuesAgreeAt(s', k) <==> DocValuesStay(s, b.table, cs, m))
      && StoredAt(s', k)
  {
    var cs, k := Changes(s, b, env), DocKey(b.table, b.docs[m].id);
    assert cs[m] == ChangeFor(s, b, m, env) && DocumentAccepted(s, b, m, env);
    assert IndexAgreesAt(s, k, env.maxSuffixTerm);
    ChangesInformed(s, b, env, m);
    IndexAfterLast(s, b.table, cs, m, env.maxSuffixTerm);
    DocValuesAfterLast(s, b.table, cs, m, env.maxSuffixTerm);
    LastRows(s, b.table, cs, m);
    StoredFormsStored(cs[m].news);
  }

  lemma StoredFormsStored(fs: seq<Field>)
    ensures forall f :: f in StoredForms(fs) ==> StoredForm(f) == f
  {
    StoredFormsAt(fs);
    forall f | f in StoredForms(fs) ensures StoredForm(f) == f {
      var i :| 0 <= i < |StoredForms(fs)| && StoredForms(fs)[i] == f;
      StoredFormStable(fs[i]);
    }
  }

  lemma AgreesOnOthers(s: Store, table: Table, cs: seq<Change>, k: DocKey, maxSuffixTerm: nat)
    requires IndexAgreesAt(s, k, maxSuffixTerm) && DocValuesAgreeAt(s, k) && StoredAt(s, k)
    requires k.table != table || Untouched(cs, k.id)
    ensures var s' := Changed(s, table, cs, maxSuffixTerm);
      IndexAgreesAt(s', k, maxSuffixTerm) && DocValuesAgreeAt(s', k) && StoredAt(s', k)
  {
    OthersUntouched(s, table, cs, k, maxSuffixTerm);
  }

  /** Any accepted batch, in any mode, with ids repeated or not, keeps the three columns in agreement
      exactly when it is safe. */
  lemma BatchAgreementExact(s: Store, b: Batch, env: Env)
    requires Agrees(s, env.maxSuffixTerm) && Accepted(s, b, env)
    ensures Agrees(AfterBatch(s, b, env), env.maxSuffixTerm) <==> Safe(s, b, env)
  {
    var s', cs := AfterBatch(s, b, env), Changes(s, b, env);
    if Agrees(s', env.maxSuffixTerm) {
      forall m | 0 <= m < |cs| && Last(cs, m) ensures SafeAt(s, b, env, m) {
        BatchAgreementAt(s, b, env, m);
        assert IndexAgreesAt(s', DocKey(b.table, b.docs[m].id), env.maxSuffixTerm);
      }
    }
    if Safe(s, b, env) {
      forall k ensures IndexAgreesAt(s', k, env.maxSuffixTerm) && DocValuesAgreeAt(s', k) && StoredAt(s', k) {
        SafeAgreesAt(s, b, env, k);
      }
    }
  }

  lemma SafeAgreesAt(s: Store, b: Batch, env: Env, k: DocKey)
    requires Agrees(s, env.maxSuffixTerm) && Accepted(s, b, env) && Safe(s, b, env)
    ensures var s' := AfterBatch(s, b, env);
      IndexAgreesAt(s', k, env.maxSuffixTerm) && DocValuesAgreeAt(s', k) && StoredAt(s', k)
  {
    var cs := Changes(s, b, env);
    if k.table != b.table || Untouched(cs, k.id) {
      AgreesOnOthers(s, b.table, cs, k, env.maxSuffixTerm);
    } else {
      var j :| 0 <= j < |cs| && cs[j].active && cs[j].id == k.id;
      var m := LastExists(cs, j, k.id);
      assert SafeAt(s, b, env, m);
      BatchAgreementAt(s, b, env, m);
    }
  }

  /** What a batch leaves stored: of an id's last place, the given fields and, unless replacing or not
      reading, each old field whose id was not given; or nothing, when deleting. */
  lemma BatchRows(s: Store, b: Batch, env: Env, m: nat)
    requires Accepted(s, b, env) && Last(Changes(s, b, env), m)
    ensures var k := DocKey(b.table, b.docs[m].id);
      var olds := if Reads(b.mode) && k in s.stored then s.stored[k].fields else [];
      var given := env.tokenize(b.docs[m].fields).Or([]);
      RowIs(AfterBatch(s, b, env).stored, k,
            if b.mode.Delete? then None
            else Some(Document(k.id, StoredForms(if b.mode.Replace? then given else MergedFields(given, olds)))))
  {
    ChangesInformed(s, b, env, m);
    assert Changes(s, b, env)[m] == ChangeFor(s, b, m, env);
    LastRows(s, b.table, Changes(s, b, env), m);
  }

  // ---------------------------------------------------------------------------
  // Runs

  /** A batch, or a merge the store decides on for one term. */
  datatype Event = Write(batch: Batch, env: Env) | Compact(key: TermKey, action: Action)

  ghost predicate EventAllowed(s: Store, e: Event, maxSuffixTerm: nat, max: nat) {
    match e
    case Write(b, env) => env.maxSuffixTerm == maxSuffixTerm && (Accepted(s, b, env) ==> Safe(s, b, env))
    case Compact(k, a) => !a.Write? && Allowed(CellOf(s.postings, k), a) && Roomy(CellOf(s.postings, k), a, max)
  }

  ghost function After(s: Store, e: Event, maxSuffixTerm: nat, max: nat): Store
    requires EventAllowed(s, e, maxSuffixTerm, max)
  {
    match e
    case Write(b, env) => AfterBatch(s, b, env)
    case Compact(k, a) => s.(postings := s.postings[k := Do(CellOf(s.postings, k), a, max)])
  }

  ghost predicate RunAllowed(s: Store, run: seq<Event>, maxSuffixTerm: nat, max: nat)
    decreases |run|
  {
    run == [] || (&& EventAllowed(s, run[0], maxSuffixTerm, max)
                  && RunAllowed(After(s, run[0], maxSuffixTerm, max), run[1..], maxSuffixTerm, max))
  }

  ghost function AfterRun(s: Store, run: seq<Event>, maxSuffixTerm: nat, max: nat): Store
    requires RunAllowed(s, run, maxSuffixTerm, max)
    decreases |run|
  {
    if run == [] then s
    else AfterRun(After(s, run[0], maxSuffixTerm, max), run[1..], maxSuffixTerm, max)
  }

  const EMPTY := Store(map[], map[], map[])

  lemma CompactShows(s: Store, k: TermKey, a: Action, maxSuffixTerm: nat, max: nat, q: TermKey, id: nat)
    requires EventAllowed(s, Compact(k, a), maxSuffixTerm, max)
    ensures Shows(After(s, Compact(k, a), maxSuffixTerm, max), q, id) <==> Shows(s, q, id)
  {
    MergeInvisible(CellOf(s.postings, k), a, max);
  }

  lemma CompactKeepsAgreement(s: Store, k: TermKey, a: Action, maxSuffixTerm: nat, max: nat)
    requires Agrees(s, maxSuffixTerm) && EventAllowed(s, Compact(k, a), maxSuffixTerm, max)
    ensures Agrees(After(s, Compact(k, a), maxSuffixTerm, max), maxSuffixTerm)
  {
    var s' := After(s, Compact(k, a), maxSuffixTerm, max);
    forall q, id ensures Shows(s', q, id) <==> Shows(s, q, id) {
      CompactShows(s, k, a, maxSuffixTerm, max, q, id);
    }
    forall d ensures IndexAgreesAt(s', d, maxSuffixTerm) && DocValuesAgreeAt(s', d) && StoredAt(s', d) {
      assert IndexAgreesAt(s, d, maxSuffixTerm) && DocValuesAgreeAt(s, d) && StoredAt(s, d);
    }
  }

  lemma EventKeepsAgreement(s: Store, e: Event, maxSuffixTerm: nat, max: nat)
    requires Agrees(s, maxSuffixTerm) && EventAllowed(s, e, maxSuffixTerm, max)
    ensures Agrees(After(s, e, maxSuffixTerm, max), maxSuffixTerm)
  {
    match e
    case Write(b, env) => if Accepted(s, b, env) { BatchAgreementExact(s, b, env); }
    case Compact(k, a) => CompactKeepsAgreement(s, k, a, maxSuffixTerm, max);
  }

  /** After any run of merges and of batches that failed or were safe: every document is listed under
      exactly the terms its stored fields expand to, and its doc-value row is the projection of its
      stored fields. */
  lemma {:induction false} RunKeepsAgreement(s: Store, run: seq<Event>, maxSuffixTerm: nat, max: nat)
    requires Agrees(s, maxSuffixTerm) && RunAllowed(s, run, maxSuffixTerm, max)
    ensures Agrees(AfterRun(s, run, maxSuffixTerm, max), maxSuffixTerm)
    decreases |run|
  {
    if run != [] {
      EventKeepsAgreement(s, run[0], maxSuffixTerm, max);
      RunKeepsAgreement(After(s, run[0], maxSuffixTerm, max), run[1..], maxSuffixTerm, max);
    }
  }

  lemma EmptyAgrees(maxSuffixTerm: nat)
    ensures Agrees(EMPTY, maxSuffixTerm)
  {
    assert NO_LISTS.Lists() == [];
    assert forall k, id :: !Shows(EMPTY, k, id);
  }

  /** Index and doc-value agreement over every run from the empty store. */
  lemma AgreementOverRuns(run: seq<Event>, maxSuffixTerm: nat, max: nat)
    requires RunAllowed(EMPTY, run, maxSuffixTerm, max)
    ensures Agrees(AfterRun(EMPTY, run, maxSuffixTerm, max), maxSuffixTerm)
  {
    EmptyAgrees(maxSuffixTerm);
    RunKeepsAgreement(EMPTY, run, maxSuffixTerm, max);
  }

  // ---------------------------------------------------------------------------
  // Posting lists stay well formed

  ghost predicate ListsFine(s: Store) { forall k :: P.AllWellFormed(CellOf(s.postings, k).Lists()) }

  lemma {:induction false} WantedFine(table: Table, cs: seq<Change>, k: TermKey, maxSuffixTerm: nat)
    requires forall i :: 0 <= i < |cs| ==> cs[i].id > 0
    ensures P.AllWellFormed(WantedAll(table, cs, k, maxSuffixTerm))
  {
    if cs != [] { WantedFine(table, cs[..|cs| - 1], k, maxSuffixTerm); }
  }

  lemma ExtendFine(c: Cell, ls: seq<P.PostingList>)
    requires P.AllWellFormed(c.Lists()) && P.AllWellFormed(ls)
    ensures P.AllWellFormed(Extend(c, ls).Lists())
  {
    assert Extend(c, ls).Lists() == c.Lists() + ls;
  }

  lemma BatchKeepsLists(s: Store, b: Batch, env: Env)
    requires ListsFine(s)
    ensures ListsFine(AfterBatch(s, b, env))
  {
    if Accepted(s, b, env) {
      var cs := Changes(s, b, env);
      forall i | 0 <= i < |cs| ensures cs[i].id > 0 {
        assert DocumentAccepted(s, b, i, env);
      }
      forall k ensures P.AllWellFormed(CellOf(AfterBatch(s, b, env).postings, k).Lists()) {
        ChangedCell(s, b.table, cs, k, env.maxSuffixTerm);
        WantedFine(b.table, cs, k, env.maxSuffixTerm);
        ExtendFine(CellOf(s.postings, k), WantedAll(b.table, cs, k, env.maxSuffixTerm));
      }
    }
  }

  lemma {:induction false} RunKeepsLists(s: Store, run: seq<Event>, maxSuffixTerm: nat, max: nat)
    requires ListsFine(s) && RunAllowed(s, run, maxSuffixTerm, max)
    ensures ListsFine(AfterRun(s, run, maxSuffixTerm, max))
    decreases |run|
  {
    if run != [] {
      var s' := After(s, run[0], maxSuffixTerm, max);
      match run[0] {
        case Write(b, env) => BatchKeepsLists(s, b, env);
        case Compact(k, a) => {
          assert P.AllWellFormed(CellOf(s.postings, k).Lists());
          CellStaysWellFormed(CellOf(s.postings, k), a, max);
          assert forall q :: q != k ==> CellOf(s'.postings, q) == CellOf(s.postings, q);
        }
      }
      RunKeepsLists(s', run[1..], maxSuffixTerm, max);
    }
  }
}
