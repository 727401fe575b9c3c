/** The write path as it runs: updaters are filled from what is stored, tokenized, merged with their old
    fields, and written to the three columns through one buffer that is flushed as a whole. */
module WritePath {
  import opened Basics
  import opened Documents
  import opened Database
  import opened Batches
  import P = Postings
  import Utf8

  class DocumentUpdater {
    var status: Status
    var oldDoc: seq<Field>
    var newDoc: Document
    var oldDocValue: seq<Field>
    var newDocValue: seq<Field>
    var mode: Mode

    constructor (d: Document)
      ensures Fresh() && newDoc == d
    {
      status, oldDoc, newDoc, oldDocValue, newDocValue, mode := OK, [], d, [], [], Add;
    }

    /** Neither the status nor the old fields are ever reset, so an updater serves one call. */
    predicate Fresh()
      reads this
    {
      status == OK && oldDoc == [] && oldDocValue == [] && newDocValue == []
    }

    /** The change that will be written as the updater stands. */
    function Pending(): Change
      reads `status, `newDoc, `mode, `oldDoc
    {
      Change(status == OK, newDoc.id, mode.Delete?, oldDoc, newDoc.fields)
    }

    predicate Has(status: Status, oldDoc: seq<Field>)
      reads `status, `oldDoc
    {
      this.status == status && this.oldDoc == oldDoc
    }

    predicate NeedMergeDocValue()
      reads this
    {
      mode.Update? || mode.AddOrUpdate?
    }
  }

  predicate Distinct(us: seq<DocumentUpdater>) { forall i, j :: 0 <= i < j < |us| ==> us[i] != us[j] }

  function Given(us: seq<DocumentUpdater>): seq<Document>
    reads us`newDoc
  {
    if us == [] then [] else Given(us[..|us| - 1]) + [us[|us| - 1].newDoc]
  }

  lemma {:induction false} GivenAt(us: seq<DocumentUpdater>)
    ensures |Given(us)| == |us| && forall i :: 0 <= i < |us| ==> Given(us)[i] == us[i].newDoc
  {
    if us != [] { GivenAt(us[..|us| - 1]); }
  }

  function AllPending(us: seq<DocumentUpdater>): seq<Change>
    reads us`status, us`newDoc, us`mode, us`oldDoc
  {
    if us == [] then [] else AllPending(us[..|us| - 1]) + [us[|us| - 1].Pending()]
  }

  ghost predicate ArePending(us: seq<DocumentUpdater>, cs: seq<Change>)
    reads us`status, us`newDoc, us`mode, us`oldDoc
  {
    |cs| == |us| && forall i :: 0 <= i < |us| ==> cs[i] == us[i].Pending()
  }

  lemma Regroup(a: seq<Op>, b: seq<Op>, c: seq<Op>)
    ensures a + b + c == a + (b + c)
  {
  }

  lemma {:induction false} PendingAt(us: seq<DocumentUpdater>)
    ensures |AllPending(us)| == |us| && forall i :: 0 <= i < |us| ==> AllPending(us)[i] == us[i].Pending()
  {
    if us != [] { PendingAt(us[..|us| - 1]); }
  }

  class WriteBuffer {
    var ops: seq<Op>

    constructor ()
      ensures ops == []
    {
      ops := [];
    }

    method Append(op: Op)
      modifies this
      ensures ops == old(ops) + [op]
    {
      ops := ops + [op];
    }
  }

  class VirtualDB {
    var state: Store

    constructor ()
      ensures state == EMPTY
    {
      state := EMPTY;
    }

    /** Reads a row for each key; the value is present exactly when the status is OK. */
    method MultiGet(keys: seq<DocKey>, docValueColumn: bool, faults: set<nat>)
      returns (values: seq<Document>, statuses: seq<Status>)
      ensures |values| == |statuses| == |keys|
      ensures forall i :: 0 <= i < |keys| ==>
        var rows := if docValueColumn then state.docValues else state.stored;
        && statuses[i] == (if i in faults then RocksDBError else if keys[i] in rows then OK else DocumentNotExist)
        && values[i] == if statuses[i] == OK then rows[keys[i]] else Document(0, [])
    {
      values, statuses := [], [];
      var rows := if docValueColumn then state.docValues else state.stored;
      for i := 0 to |keys|
        invariant |values| == |statuses| == i
        invariant forall j :: 0 <= j < i ==>
          && statuses[j] == (if j in faults then RocksDBError else if keys[j] in rows then OK else DocumentNotExist)
          && values[j] == if statuses[j] == OK then rows[keys[j]] else Document(0, [])
      {
        if i in faults {
          values, statuses := values + [Document(0, [])], statuses + [RocksDBError];
        } else if keys[i] in rows {
          values, statuses := values + [rows[keys[i]]], statuses + [OK];
        } else {
          values, statuses := values + [Document(0, [])], statuses + [DocumentNotExist];
        }
      }
    }

    /** All of the buffer or none of it. */
    method FlushBuffer(buffer: WriteBuffer, fails: bool) returns (status: Status)
      modifies this
      ensures status == if fails then RocksDBError else OK
      ensures state == if fails then old(state) else ApplyAll(old(state), buffer.ops)
    {
      if fails {
        return RocksDBError;
      }
      state := ApplyAll(state, buffer.ops);
      status := OK;
    }
  }

  // ---------------------------------------------------------------------------
  // Term flags: 1 for a term of the new document, 2 for a term of the old one

  type TermFlags = map<(Byte, Term), nat>

  function SetBit(v: nat, bit: nat): nat {
    if (if bit == 1 then v % 2 else v / 2 % 2) == 0 then v + bit else v
  }

  lemma SetBitTwice(v: nat, bit: nat)
    requires bit == 1 || bit == 2
    ensures SetBit(SetBit(v, bit), bit) == SetBit(v, bit)
  {
  }

  function FlagOf(m: TermFlags, k: (Byte, Term)): nat { if k in m then m[k] else 0 }

  /** Exactly these keys have the bit set, beyond what was there. */
  ghost predicate IsMarked(m: TermFlags, was: TermFlags, keys: set<(Byte, Term)>, bit: nat) {
    && m.Keys == was.Keys + keys
    && forall k :: k in m ==> m[k] == if k in keys then SetBit(FlagOf(was, k), bit) else FlagOf(was, k)
  }

  lemma MarkedTwice(m: TermFlags, mid: TermFlags, was: TermFlags, a: set<(Byte, Term)>, b: set<(Byte, Term)>, bit: nat)
    requires (bit == 1 || bit == 2) && IsMarked(mid, was, a, bit) && IsMarked(m, mid, b, bit)
    ensures IsMarked(m, was, a + b, bit)
  {
    forall k | k in m ensures m[k] == if k in a + b then SetBit(FlagOf(was, k), bit) else FlagOf(was, k) {
      SetBitTwice(FlagOf(was, k), bit);
    }
  }

  /** The index keys of one term of a field. */
  function TermKeys(f: Field, term: Term, maxSuffixTerm: nat): set<(Byte, Term)> {
    if term == [] then {} else KeysOf(f.id, Expansion(f, term, maxSuffixTerm))
  }

  function KeysOf(field: Byte, ts: seq<Term>): set<(Byte, Term)> { set t | t in ts :: (field, t) }

  lemma KeysOfNext(field: Byte, ts: seq<Term>, i: nat)
    requires i < |ts|
    ensures KeysOf(field, ts[..i + 1]) == KeysOf(field, ts[..i]) + {(field, ts[i])}
  {
    assert ts[..i + 1] == ts[..i] + [ts[i]];
  }

  lemma FieldTermsAdd(f: Field, done: set<Term>, term: Term, maxSuffixTerm: nat)
    ensures FieldTerms(f.(terms := done + {term}), maxSuffixTerm)
         == FieldTerms(f.(terms := done), maxSuffixTerm) + TermKeys(f, term, maxSuffixTerm)
  {
    var a, b := f.(terms := done), f.(terms := done + {term});
    assert forall t :: Expansion(a, t, maxSuffixTerm) == Expansion(f, t, maxSuffixTerm);
    assert forall t :: Expansion(b, t, maxSuffixTerm) == Expansion(f, t, maxSuffixTerm);
  }

  method MarkTerm(f: Field, term: Term, bit: nat, was: TermFlags, maxSuffixTerm: nat) returns (flags: TermFlags)
    requires bit == 1 || bit == 2
    ensures IsMarked(flags, was, TermKeys(f, term, maxSuffixTerm), bit)
  {
    flags := was;
    if term == [] {
      return;
    }
    var expansion := [term];
    if f.flags.suffixBuild && f.ftype.StringType? && |term| <= maxSuffixTerm {
      expansion := Utf8.CollectSuffixes(term, if f.suffixLen != 0 then f.suffixLen else DEFAULT_SUFFIX_LEN);
    }
    flags := MarkAll(f.id, expansion, bit, was);
  }

  method MarkAll(field: Byte, ts: seq<Term>, bit: nat, was: TermFlags) returns (flags: TermFlags)
    requires bit == 1 || bit == 2
    ensures IsMarked(flags, was, KeysOf(field, ts), bit)
  {
    flags := was;
    for i := 0 to |ts|
      invariant IsMarked(flags, was, KeysOf(field, ts[..i]), bit)
    {
      ghost var before := flags;
      flags := flags[(field, ts[i]) := SetBit(FlagOf(flags, (field, ts[i])), bit)];
      MarkedTwice(flags, before, was, KeysOf(field, ts[..i]), {(field, ts[i])}, bit);
      KeysOfNext(field, ts, i);
    }
    assert ts[..|ts|] == ts;
  }

  method MarkField(f: Field, bit: nat, was: TermFlags, maxSuffixTerm: nat) returns (flags: TermFlags)
    requires bit == 1 || bit == 2
    ensures IsMarked(flags, was, FieldTerms(f, maxSuffixTerm), bit)
  {
    flags := was;
    var todo := f.terms;
    ghost var done: set<Term> := {};
    while todo != {}
      invariant done + todo == f.terms
      invariant IsMarked(flags, was, FieldTerms(f.(terms := done), maxSuffixTerm), bit)
      decreases todo
    {
      var term :| term in todo;
      todo := todo - {term};
      ghost var before := flags;
      flags := MarkTerm(f, term, bit, flags, maxSuffixTerm);
      MarkedTwice(flags, before, was, FieldTerms(f.(terms := done), maxSuffixTerm), TermKeys(f, term, maxSuffixTerm), bit);
      FieldTermsAdd(f, done, term, maxSuffixTerm);
      done := done + {term};
    }
    assert f.(terms := done) == f;
  }

  method MarkTerms(fs: seq<Field>, bit: nat, was: TermFlags, maxSuffixTerm: nat) returns (flags: TermFlags)
    requires bit == 1 || bit == 2
    ensures IsMarked(flags, was, IndexTerms(fs, maxSuffixTerm), bit)
  {
    flags := was;
    for i := 0 to |fs|
      invariant IsMarked(flags, was, IndexTerms(fs[..i], maxSuffixTerm), bit)
    {
      ghost var before := flags;
      flags := MarkField(fs[i], bit, flags, maxSuffixTerm);
      MarkedTwice(flags, before, was, IndexTerms(fs[..i], maxSuffixTerm), FieldTerms(fs[i], maxSuffixTerm), bit);
      IndexTermsSnoc(fs[..i], fs[i], maxSuffixTerm);
      assert fs[..i + 1] == fs[..i] + [fs[i]];
    }
    assert fs[..|fs|] == fs;
  }

  /** After both markings a flag is 1 for a gained term, 2 for a lost one, 3 for a kept one. */
  lemma FlagsTell(m: TermFlags, mid: TermFlags, news: set<(Byte, Term)>, olds: set<(Byte, Term)>, k: (Byte, Term))
    requires IsMarked(mid, map[], news, 1) && IsMarked(m, mid, olds, 2)
    ensures FlagOf(m, k) == (if k in news then 1 else 0) + (if k in olds then 2 else 0)
  {
  }

  // ---------------------------------------------------------------------------
  // The document writer

  /** The fields an updater has after tokenizing. */
  function Tokenized(c: Change, env: Env): seq<Field> {
    if c.del || !c.active then c.news else env.tokenize(c.news).Or(c.news)
  }

  function MergedChange(mode: Mode, c: Change): Change {
    if mode.Delete? || mode.Replace? then c else c.(news := MergedFields(c.news, c.olds))
  }

  /** The change that is written for an updater handed to the writer. */
  function Prepared(mode: Mode, c: Change, env: Env): Change {
    MergedChange(mode, c.(news := Tokenized(c, env)))
  }

  /** Appends each old field not found, by looking it up among all fields so far. */
  method MergeFields(fs: seq<Field>, olds: seq<Field>) returns (all: seq<Field>)
    ensures all == MergedFields(fs, olds)
  {
    all := fs;
    for i := 0 to |olds|
      invariant MergedFields(all, olds[i..]) == MergedFields(fs, olds)
    {
      assert olds[i..][0] == olds[i] && olds[i..][1..] == olds[i + 1..];
      var found := FindField(all, olds[i].id);
      if !found {
        all := all + [olds[i]];
      }
    }
  }

  method FindField(fs: seq<Field>, id: nat) returns (found: bool)
    ensures found <==> HasField(fs, id)
  {
    for i := 0 to |fs|
      invariant forall j :: 0 <= j < i ==> fs[j].id != id
    {
      if fs[i].id == id {
        return true;
      }
    }
    return false;
  }

  /** The fields of a document flagged as doc values. */
  function DocValueFields(fs: seq<Field>): seq<Field> {
    if fs == [] then [] else (if fs[0].flags.docValue then [fs[0]] else []) + DocValueFields(fs[1..])
  }

  method BuildDocValue(fs: seq<Field>) returns (built: seq<Field>)
    ensures built == DocValueFields(fs)
  {
    built := [];
    for i := 0 to |fs|
      invariant built + DocValueFields(fs[i..]) == DocValueFields(fs)
    {
      assert fs[i..][0] == fs[i] && fs[i..][1..] == fs[i + 1..];
      if fs[i].flags.docValue {
        assert built + ([fs[i]] + DocValueFields(fs[i + 1..])) == built + [fs[i]] + DocValueFields(fs[i + 1..]);
        built := built + [fs[i]];
      }
    }
  }

  lemma {:induction false} BuiltDocValue(fs: seq<Field>)
    ensures DocValueForms(DocValueFields(fs)) == DocValueForms(fs)
    ensures HasDocValue(DocValueFields(fs)) <==> HasDocValue(fs)
  {
    if fs != [] {
      var r, d := DocValueFields(fs[1..]), DocValueFields(fs);
      BuiltDocValue(fs[1..]);
      if fs[0].flags.docValue {
        assert d[0].flags.docValue && d[1..] == r;
      } else {
        assert d == r;
        assert forall i :: 0 < i < |fs| ==> fs[i] == fs[1..][i - 1];
        assert forall i :: 0 <= i < |fs| - 1 ==> fs[1..][i] == fs[i + 1];
      }
    }
  }

  /** What flags make of a key: a flag of 1 alone adds, of 2 alone removes. */
  function Flagged(table: Table, id: nat, flags: TermFlags, k: TermKey): seq<P.PostingList> {
    if k.table != table then []
    else if FlagOf(flags, (k.field, k.term)) == 1 then [[P.Entry(id, 0)]]
    else if FlagOf(flags, (k.field, k.term)) == 2 then [[P.Entry(id, P.DELETED)]]
    else []
  }

  function FlagOps(table: Table, id: nat, t: (Byte, Term), v: nat): seq<Op> {
    if v == 1 || v == 2 then [Merge(TermKey(table, t.0, t.1), [P.Entry(id, if v == 1 then 0 else P.DELETED)])] else []
  }

  lemma FlaggedOne(table: Table, id: nat, done: TermFlags, t: (Byte, Term), v: nat, k: TermKey)
    requires t !in done
    ensures Flagged(table, id, done[t := v], k)
         == Flagged(table, id, done, k) + MergesFor(FlagOps(table, id, t, v), k)
  {
    var more := FlagOps(table, id, t, v);
    if more != [] { assert more[..0] == []; }
    assert k == TermKey(table, t.0, t.1) <==> k.table == table && (k.field, k.term) == t;
  }

  lemma FlaggedNext(table: Table, id: nat, done: TermFlags, t: (Byte, Term), v: nat, merges: seq<Op>)
    requires t !in done && AreFlagged(merges, table, id, done)
    ensures AreFlagged(merges + FlagOps(table, id, t, v), table, id, done[t := v])
  {
    var more := FlagOps(table, id, t, v);
    forall k ensures MergesFor(merges + more, k) == Flagged(table, id, done[t := v], k) {
      MergesForConcat(merges, more, k);
      FlaggedOne(table, id, done, t, v, k);
    }
  }

  ghost predicate AreFlagged(merges: seq<Op>, table: Table, id: nat, flags: TermFlags) {
    forall k {:trigger MergesFor(merges, k)} :: MergesFor(merges, k) == Flagged(table, id, flags, k)
  }

  lemma WantedNext(table: Table, cs: seq<Change>, i: nat, merges: seq<Op>, more: seq<Op>, maxSuffixTerm: nat)
    requires i < |cs| && Provides(merges, table, cs[..i], maxSuffixTerm)
    requires forall k {:trigger MergesFor(more, k)} :: MergesFor(more, k) == Wanted(table, cs[i], k, maxSuffixTerm)
    ensures Provides(merges + more, table, cs[..i + 1], maxSuffixTerm)
  {
    assert cs[..i + 1][..i] == cs[..i];
    forall k ensures MergesFor(merges + more, k) == WantedAll(table, cs[..i + 1], k, maxSuffixTerm) {
      MergesForConcat(merges, more, k);
      assert MergesFor(merges, k) == WantedAll(table, cs[..i], k, maxSuffixTerm);
    }
  }

  class DocumentWriter {
    const env: Env

    constructor (env: Env)
      ensures this.env == env
    {
      this.env := env;
    }

    /** Removed documents are not tokenized; the first failure ends the batch. */
    method RunTokenizer(us: seq<DocumentUpdater>, ghost cs: seq<Change>) returns (ok: bool)
      requires Distinct(us) && ArePending(us, cs)
      modifies us`newDoc, us`status
      ensures ok <==> AllTokenize(cs, env)
      ensures ok ==> forall i :: 0 <= i < |us| ==> us[i].status == old(us[i].status)
      ensures ok ==> forall i :: 0 <= i < |us| ==> us[i].Pending() == cs[i].(news := Tokenized(cs[i], env))
      ensures forall i :: 0 <= i < |us| ==>
        us[i].status == if IsFirstBad(cs, env, i) then TokenizerError else old(us[i].status)
      ensures forall i :: 0 <= i < |us| ==>
        us[i].newDoc.fields == cs[i].news || Some(us[i].newDoc.fields) == env.tokenize(cs[i].news)
    {
      for i := 0 to |us|
        invariant forall j :: 0 <= j < i ==> CanTokenize(cs[j], env)
        invariant forall j :: 0 <= j < |us| ==> us[j].status == old(us[j].status)
        invariant forall j :: 0 <= j < i ==> us[j].Pending() == cs[j].(news := Tokenized(cs[j], env))
        invariant forall j :: i <= j < |us| ==> us[j].Pending() == cs[j]
      {
        ok := TokenizeOne(us[i], cs[i]);
        if !ok {
          return;
        }
      }
      return true;
    }

    method TokenizeOne(u: DocumentUpdater, ghost c: Change) returns (ok: bool)
      requires c == u.Pending()
      modifies u`newDoc, u`status
      ensures ok <==> CanTokenize(c, env)
      ensures u.status == if ok then old(u.status) else TokenizerError
      ensures ok ==> u.Pending() == c.(news := Tokenized(c, env))
      ensures !ok ==> u.newDoc == old(u.newDoc)
    {
      if !u.mode.Delete? && u.status == OK {
        var tokens := env.tokenize(u.newDoc.fields);
        if tokens.None? {
          u.status := TokenizerError;
          return false;
        }
        u.newDoc := u.newDoc.(fields := tokens.value);
      }
      return true;
    }

    /** Old fields the new document does not have are taken over, except when removing or replacing. */
    method MergeOldField(us: seq<DocumentUpdater>)
      requires Distinct(us)
      modifies us`newDoc
      ensures forall i :: 0 <= i < |us| ==> us[i].Pending() == MergedChange(us[i].mode, old(us[i].Pending()))
    {
      for i := 0 to |us|
        invariant forall j :: 0 <= j < i ==> us[j].Pending() == MergedChange(us[j].mode, old(us[j].Pending()))
        invariant forall j :: i <= j < |us| ==> us[j].Pending() == old(us[j].Pending())
      {
        var u := us[i];
        if !u.mode.Delete? && !u.mode.Replace? {
          var fields := MergeFields(u.newDoc.fields, u.oldDoc);
          u.newDoc := u.newDoc.(fields := fields);
        }
      }
    }

    method WriteStoredField(table: Table, us: seq<DocumentUpdater>, buffer: WriteBuffer, ghost cs: seq<Change>)
      requires ArePending(us, cs)
      modifies buffer
      ensures buffer.ops == old(buffer.ops) + StoredOps(table, cs)
    {
      assert old(buffer.ops) + [] == old(buffer.ops);
      for i := 0 to |us|
        invariant buffer.ops == old(buffer.ops) + StoredOps(table, cs[..i])
      {
        assert cs[..i + 1][..i] == cs[..i];
        WriteOneStored(table, us[i], buffer);
        Regroup(old(buffer.ops), StoredOps(table, cs[..i]), StoredOp(table, cs[i]));
      }
      assert cs[..|us|] == cs;
    }

    method WriteOneStored(table: Table, u: DocumentUpdater, buffer: WriteBuffer)
      modifies buffer
      ensures buffer.ops == old(buffer.ops) + StoredOp(table, u.Pending())
    {
      if u.status == OK {
        var key := DocKey(table, u.newDoc.id);
        if !u.mode.Delete? {
          buffer.Append(PutStored(key, Document(u.newDoc.id, StoredForms(u.newDoc.fields))));
        } else {
          buffer.Append(DeleteStored(key));
        }
      }
    }

    method WriteInvertedIndex(table: Table, us: seq<DocumentUpdater>, buffer: WriteBuffer, ghost cs: seq<Change>)
      returns (ghost merges: seq<Op>)
      requires ArePending(us, cs)
      modifies buffer
      ensures buffer.ops == old(buffer.ops) + merges && NoStored(merges) && NoDocValues(merges)
      ensures Provides(merges, table, cs, env.maxSuffixTerm)
    {
      merges := [];
      for i := 0 to |us|
        invariant buffer.ops == old(buffer.ops) + merges && NoStored(merges) && NoDocValues(merges)
        invariant Provides(merges, table, cs[..i], env.maxSuffixTerm)
      {
        ghost var more := WriteTerms(table, us[i], buffer);
        Regroup(old(buffer.ops), merges, more);
        WantedNext(table, cs, i, merges, more, env.maxSuffixTerm);
        merges := merges + more;
      }
      assert cs[..|us|] == cs;
    }

    /** The terms of a document are flagged 1 if new and 2 if old; a flag of 1 alone writes the document
        to the term's list, 2 alone its tombstone. */
    method WriteTerms(table: Table, u: DocumentUpdater, buffer: WriteBuffer) returns (ghost merges: seq<Op>)
      modifies buffer
      ensures buffer.ops == old(buffer.ops) + merges && NoStored(merges) && NoDocValues(merges)
      ensures forall k {:trigger MergesFor(merges, k)} :: MergesFor(merges, k) == Wanted(table, u.Pending(), k, env.maxSuffixTerm)
    {
      merges := [];
      if u.status == OK {
        var flags: TermFlags := map[];
        if !u.mode.Delete? {
          flags := MarkTerms(u.newDoc.fields, 1, flags, env.maxSuffixTerm);
        }
        ghost var mid, c := flags, u.Pending();
        flags := MarkTerms(u.oldDoc, 2, flags, env.maxSuffixTerm);
        merges := EmitTerms(table, u.newDoc.id, flags, buffer);
        forall k ensures Flagged(table, c.id, flags, k) == Wanted(table, c, k, env.maxSuffixTerm) {
          FlagsTell(flags, mid, NewTerms(c, env.maxSuffixTerm), OldTerms(c, env.maxSuffixTerm), (k.field, k.term));
        }
      }
    }

    method EmitTerms(table: Table, id: nat, flags: TermFlags, buffer: WriteBuffer) returns (ghost merges: seq<Op>)
      modifies buffer
      ensures buffer.ops == old(buffer.ops) + merges && NoStored(merges) && NoDocValues(merges)
      ensures AreFlagged(merges, table, id, flags)
    {
      merges := [];
      var todo := flags.Keys;
      ghost var done: TermFlags := map[];
      while todo != {}
        invariant todo + done.Keys == flags.Keys && todo !! done.Keys
        invariant forall t :: t in done ==> done[t] == flags[t]
        invariant buffer.ops == old(buffer.ops) + merges && NoStored(merges) && NoDocValues(merges)
        invariant AreFlagged(merges, table, id, done)
        decreases todo
      {
        var t :| t in todo;
        todo := todo - {t};
        FlaggedNext(table, id, done, t, flags[t], merges);
        if flags[t] == 1 || flags[t] == 2 {
          buffer.Append(Merge(TermKey(table, t.0, t.1), [P.Entry(id, if flags[t] == 1 then 0 else P.DELETED)]));
        }
        merges := merges + FlagOps(table, id, t, flags[t]);
        done := done[t := flags[t]];
      }
      assert done == flags;
    }

    method WriteDocValue(table: Table, us: seq<DocumentUpdater>, buffer: WriteBuffer, ghost cs: seq<Change>)
      requires Distinct(us) && forall i :: 0 <= i < |us| ==> us[i].oldDocValue == [] && us[i].newDocValue == []
      requires ArePending(us, cs)
      modifies buffer, us`newDocValue
      ensures buffer.ops == old(buffer.ops) + DocValueOps(table, cs)
    {
      assert old(buffer.ops) + [] == old(buffer.ops);
      for i := 0 to |us|
        invariant forall j :: i <= j < |us| ==> us[j].newDocValue == []
        invariant buffer.ops == old(buffer.ops) + DocValueOps(table, cs[..i])
      {
        assert cs[..i + 1][..i] == cs[..i];
        ghost var before := buffer.ops;
        if us[i].status == OK {
          BuiltDocValue(us[i].newDoc.fields);
          WriteOneDocValue(table, us[i], buffer);
        }
        Regroup(old(buffer.ops), DocValueOps(table, cs[..i]), DocValueOp(table, cs[i]));
      }
      assert cs[..|us|] == cs;
    }

    /** Updating, with or without adding, also takes over old doc values that are not given. */
    method WriteOneDocValue(table: Table, u: DocumentUpdater, buffer: WriteBuffer)
      requires u.status == OK && u.newDocValue == []
      modifies buffer, u`newDocValue
      ensures u.newDocValue ==
        MergedFields(DocValueFields(u.newDoc.fields), if u.NeedMergeDocValue() then u.oldDocValue else [])
      ensures buffer.ops == old(buffer.ops) +
        if !u.mode.Delete? && HasDocValue(u.newDocValue)
        then [PutDocValue(DocKey(table, u.newDoc.id), Document(u.newDoc.id, DocValueForms(u.newDocValue)))]
        else if HasDocValue(u.oldDoc) then [DeleteDocValue(DocKey(table, u.newDoc.id))]
        else []
    {
      var key := DocKey(table, u.newDoc.id);
      var built := BuildDocValue(u.newDoc.fields);
      if u.NeedMergeDocValue() {
        built := MergeFields(built, u.oldDocValue);
      }
      u.newDocValue := built;
      if !u.mode.Delete? && HasDocValue(built) {
        buffer.Append(PutDocValue(key, Document(u.newDoc.id, DocValueForms(built))));
      } else if HasDocValue(u.oldDoc) {
        buffer.Append(DeleteDocValue(key));
      }
    }

    method WriteColumns(table: Table, us: seq<DocumentUpdater>, buffer: WriteBuffer, ghost cs: seq<Change>, ghost s: Store)
      requires Distinct(us) && forall i :: 0 <= i < |us| ==> us[i].oldDocValue == [] && us[i].newDocValue == []
      requires buffer.ops == [] && cs == AllPending(us)
      modifies buffer, us`newDocValue
      ensures ApplyAll(s, buffer.ops) == Changed(s, table, cs, env.maxSuffixTerm)
    {
      PendingAt(us);
      WriteStoredField(table, us, buffer, cs);
      ghost var merges := WriteInvertedIndex(table, us, buffer, cs);
      assert [] + StoredOps(table, cs) == StoredOps(table, cs);
      WriteDocValue(table, us, buffer, cs);
      OpsMakeChange(s, table, cs, merges, env.maxSuffixTerm);
    }

    method Prepare(us: seq<DocumentUpdater>, ghost cs: seq<Change>) returns (ok: bool)
      requires Distinct(us) && cs == AllPending(us)
      modifies us`newDoc, us`status
      ensures ok <==> AllTokenize(cs, env)
      ensures |cs| == |us|
      ensures forall i :: 0 <= i < |us| ==>
        us[i].status == if IsFirstBad(cs, env, i) then TokenizerError else old(us[i].status)
      ensures ok ==> forall i :: 0 <= i < |us| ==> us[i].Pending() == Prepared(us[i].mode, cs[i], env)
      ensures !ok ==> forall i :: 0 <= i < |us| ==>
        us[i].newDoc.fields == cs[i].news || Some(us[i].newDoc.fields) == env.tokenize(cs[i].news)
    {
      PendingAt(us);
      ok := RunTokenizer(us, cs);
      if ok {
        MergeOldField(us);
      }
    }

    /** Writes all columns to one buffer, checks its size and flushes it. */
    method Commit(table: Table, us: seq<DocumentUpdater>, db: VirtualDB, ghost cs: seq<Change>) returns (ok: bool)
      requires Distinct(us) && forall i :: 0 <= i < |us| ==> us[i].oldDocValue == [] && us[i].newDocValue == []
      requires cs == AllPending(us)
      modifies us`status, us`newDocValue, db
      ensures ok <==> !env.tooLarge && !env.flushFails
      ensures db.state == if ok then Changed(old(db.state), table, cs, env.maxSuffixTerm) else old(db.state)
      ensures forall i :: 0 <= i < |us| ==> us[i].status == Committed(old(us[i].status), env)
    {
      var buffer := new WriteBuffer();
      WriteColumns(table, us, buffer, cs, db.state);
      if env.tooLarge {
        MarkFailed(us);
        return false;
      }
      var status := db.FlushBuffer(buffer, env.flushFails);
      ok := status == OK;
      if !ok {
        Reset(us, status);
      }
    }

    /** Tokenizes, merges and writes all documents, and flushes the buffer unless something went wrong. */
    method UpdateDocuments(table: Table, us: seq<DocumentUpdater>, db: VirtualDB, ghost start: seq<Change>)
      returns (ok: bool, ghost cs: seq<Change>)
      requires Distinct(us) && forall i :: 0 <= i < |us| ==> us[i].oldDocValue == [] && us[i].newDocValue == []
      requires start == AllPending(us)
      modifies us`newDoc, us`status, us`newDocValue, db
      ensures ok <==> !env.tooLarge && !env.flushFails && AllTokenize(start, env)
      ensures db.state == if ok then Changed(old(db.state), table, cs, env.maxSuffixTerm) else old(db.state)
      ensures forall i :: 0 <= i < |us| ==> us[i].status == Written(old(us[i].status), start, i, env)
      ensures |start| == |us| && (ok ==> |cs| == |us|)
      ensures ok ==> forall i :: 0 <= i < |us| ==> cs[i] == Prepared(us[i].mode, start[i], env)
    {
      cs := [];
      ok := Prepare(us, start);
      if !ok {
        MarkFailed(us);
        return;
      }
      PendingAt(us);
      cs := AllPending(us);
      ok := Commit(table, us, db, cs);
    }
  }

  predicate CanTokenize(c: Change, env: Env) { c.active && !c.del ==> env.tokenize(c.news).Some? }

  /** The first change that does not tokenize. */
  predicate IsFirstBad(cs: seq<Change>, env: Env, i: nat) {
    i < |cs| && !CanTokenize(cs[i], env) && forall j :: 0 <= j < i ==> CanTokenize(cs[j], env)
  }

  /** A status after an attempt to write the batch: too large, or with a flush that fails, or neither. */
  function Committed(was: Status, env: Env): Status {
    if env.tooLarge then Marked(was)
    else if env.flushFails && was != OK then RocksDBError
    else was
  }

  function Written(was: Status, cs: seq<Change>, i: nat, env: Env): Status {
    if AllTokenize(cs, env) then Committed(was, env) else if IsFirstBad(cs, env, i) then TokenizerError else Marked(was)
  }

  predicate AllTokenize(cs: seq<Change>, env: Env) { forall i :: 0 <= i < |cs| ==> CanTokenize(cs[i], env) }

  /** After a failed flush only the statuses that were already bad are replaced. */
  method Reset(us: seq<DocumentUpdater>, status: Status)
    requires status != OK
    modifies us`status
    ensures forall u :: u in us ==> u.status == if old(u.status) != OK then status else OK
  {
    for i := 0 to |us|
      invariant forall j :: 0 <= j < i ==> us[j].status == if old(us[j].status) != OK then status else OK
      invariant forall u :: u in us ==> u.status == old(u.status) || (u.status == status && old(u.status) != OK)
    {
      if us[i].status != OK {
        us[i].status := status;
      }
    }
  }

  method MarkFailed(us: seq<DocumentUpdater>)
    modifies us`status
    ensures forall u :: u in us ==> u.status == Marked(old(u.status))
  {
    for i := 0 to |us|
      invariant forall j :: 0 <= j < i ==> us[j].status == Marked(old(us[j].status))
      invariant forall u :: u in us ==> u.status == old(u.status) || u.status == Marked(old(u.status))
    {
      if us[i].status == OK {
        us[i].status := OtherDocumentError;
      }
    }
  }

  // ---------------------------------------------------------------------------
  // The index writer

  /** The change an updater stands for once what is stored has been read into it. */
  function Filled(mode: Mode, d: Document, read: Status, olds: seq<Field>): Change {
    Change(!(mode.Delete? && read == DocumentNotExist), d.id, mode.Delete?, olds, d.fields)
  }

  lemma PreparedIsChange(s: Store, b: Batch, i: nat, env: Env)
    requires i < |b.docs| && Tokenizes(b.mode, b.docs[i], env)
    ensures Prepared(b.mode, FilledFor(s, b, i, env), env) == ChangeFor(s, b, i, env)
  {
  }

  function FilledFor(s: Store, b: Batch, i: nat, env: Env): Change
    requires i < |b.docs|
  {
    var read := ReadStatus(s, b, i, env);
    Filled(b.mode, b.docs[i], read, OldFields(b.mode, read, s, DocKey(b.table, b.docs[i].id)))
  }

  /** Once ids and reads are in order, what is left to fail is tokenizing, the size and the flush. */
  lemma AcceptedWhen(s: Store, b: Batch, env: Env, start: seq<Change>)
    requires |start| == |b.docs| && forall i :: 0 <= i < |b.docs| ==> start[i] == FilledFor(s, b, i, env)
    requires InOrder(s, b, env)
    ensures Accepted(s, b, env) <==> AllTokenize(start, env) && !env.tooLarge && !env.flushFails
  {
    forall i | 0 <= i < |b.docs|
      ensures DocumentAccepted(s, b, i, env) <==> (start[i].active && !start[i].del ==> env.tokenize(start[i].news).Some?)
    {
      assert start[i] == FilledFor(s, b, i, env);
    }
  }

  lemma AcceptedFills(s: Store, b: Batch, env: Env)
    requires Accepted(s, b, env)
    ensures InOrder(s, b, env)
  {
    forall i | 0 <= i < |b.docs| ensures b.docs[i].id != 0 && Permits(b.mode, ReadStatus(s, b, i, env)) {
      assert DocumentAccepted(s, b, i, env);
    }
  }

  /** What writing makes of the statuses is their outcome, once those of a failed batch are marked. */
  lemma OutcomeWritten(s: Store, b: Batch, env: Env, start: seq<Change>)
    requires |start| == |b.docs| && forall i :: 0 <= i < |b.docs| ==> start[i] == FilledFor(s, b, i, env)
    requires InOrder(s, b, env)
    ensures forall i :: 0 <= i < |b.docs| ==>
      var was := StatusAfter(b.mode, ReadStatus(s, b, i, env), OK);
      var now := Written(was, start, i, env);
      (if AllTokenize(start, env) && !env.tooLarge && !env.flushFails then now else Marked(now)) == Outcome(s, b, i, env)
  {
    forall i | 0 <= i < |b.docs| ensures CanTokenize(start[i], env) <==> Tokenizes(b.mode, b.docs[i], env) {
      assert start[i] == FilledFor(s, b, i, env);
    }
    forall i | 0 <= i < |b.docs|
      ensures IsFirstBad(start, env, i) <==>
        !Tokenizes(b.mode, b.docs[i], env) && forall j :: 0 <= j < i ==> Tokenizes(b.mode, b.docs[j], env)
    {
    }
  }

  /** All that writing a batch comes to. */
  lemma WrittenIsOutcome(s: Store, b: Batch, env: Env, start: seq<Change>, was: seq<Status>, ok: bool, cs: seq<Change>)
    requires InOrder(s, b, env) && IsReadInto(start, was, s, b, env)
    requires ok <==> !env.tooLarge && !env.flushFails && AllTokenize(start, env)
    requires ok ==> |cs| == |start| && forall i :: 0 <= i < |cs| ==> cs[i] == Prepared(b.mode, start[i], env)
    ensures ok <==> Accepted(s, b, env)
    ensures ok ==> cs == Changes(s, b, env)
    ensures forall i :: 0 <= i < |b.docs| ==>
      var now := Written(was[i], start, i, env);
      (if ok then now else Marked(now)) == Outcome(s, b, i, env)
  {
    AcceptedWhen(s, b, env, start);
    OutcomeWritten(s, b, env, start);
    if ok { PreparedAreChanges(s, b, env, start, cs); }
  }

  lemma PreparedAreChanges(s: Store, b: Batch, env: Env, start: seq<Change>, cs: seq<Change>)
    requires Accepted(s, b, env) && |start| == |cs| == |b.docs|
    requires forall i :: 0 <= i < |cs| ==> start[i] == FilledFor(s, b, i, env) && cs[i] == Prepared(b.mode, start[i], env)
    ensures cs == Changes(s, b, env)
  {
    forall i | 0 <= i < |cs| ensures cs[i] == ChangeFor(s, b, i, env) {
      assert DocumentAccepted(s, b, i, env);
      PreparedIsChange(s, b, i, env);
    }
  }

  /** The fields of a doc-value row that an update goes by: it has got that far and the row is marked as
      there, which MultiGet never does. */
  function RowTaken(ok: bool, mode: Mode, statuses: seq<Status>, rows: seq<Document>, rowStatuses: seq<Status>, i: nat): seq<Field>
    requires i < |statuses| && (mode.Update? || mode.AddOrUpdate? ==> |rows| == |rowStatuses| == |statuses|)
  {
    if && ok && (forall j :: 0 <= j <= i ==> Permits(mode, statuses[j]))
       && (mode.Update? || mode.AddOrUpdate?) && statuses[i] == OK && rowStatuses[i] == DocumentExist
    then rows[i].fields else []
  }

  function FieldsAfter(mode: Mode, read: Status, value: Document): seq<Field> {
    if Reads(mode) && read == OK then value.fields else []
  }

  /** Changes and statuses of updaters into which what is stored has been read. */
  predicate IsReadInto(start: seq<Change>, was: seq<Status>, s: Store, b: Batch, env: Env) {
    |start| == |was| == |b.docs| && forall i :: 0 <= i < |b.docs| ==>
      (&& start[i] == FilledFor(s, b, i, env)
       && was[i] == StatusAfter(b.mode, ReadStatus(s, b, i, env), OK))
  }

  /** The updaters hold that, and nothing else. */
  ghost predicate ReadInto(us: seq<DocumentUpdater>, s: Store, b: Batch, env: Env)
    reads us
  {
    |us| == |b.docs| && forall i :: 0 <= i < |us| ==>
      (&& us[i].mode == b.mode && us[i].oldDocValue == [] && us[i].newDocValue == []
       && us[i].Pending() == FilledFor(s, b, i, env)
       && us[i].status == StatusAfter(b.mode, ReadStatus(s, b, i, env), OK))
  }

  function Statuses(us: seq<DocumentUpdater>): (ss: seq<Status>)
    reads us`status
    ensures |ss| == |us| && forall i :: 0 <= i < |us| ==> ss[i] == us[i].status
  {
    if us == [] then [] else Statuses(us[..|us| - 1]) + [us[|us| - 1].status]
  }

  lemma ReadIntoAt(us: seq<DocumentUpdater>, s: Store, b: Batch, env: Env)
    requires ReadInto(us, s, b, env)
    ensures IsReadInto(AllPending(us), Statuses(us), s, b, env)
  {
    PendingAt(us);
  }

  lemma FilledIsReadInto(us: seq<DocumentUpdater>, s: Store, b: Batch, env: Env)
    requires |us| == |b.docs| && InOrder(s, b, env)
    requires forall i :: 0 <= i < |us| ==> us[i].mode == b.mode && us[i].newDoc == b.docs[i]
    requires forall i :: 0 <= i < |us| ==> us[i].oldDocValue == [] && us[i].newDocValue == []
    requires forall i :: 0 <= i < |us| ==>
      us[i].oldDoc == OldFields(b.mode, ReadStatus(s, b, i, env), s, DocKey(b.table, b.docs[i].id))
    requires forall i :: 0 <= i < |us| ==> us[i].status == StatusAfter(b.mode, ReadStatus(s, b, i, env), OK)
    ensures ReadInto(us, s, b, env)
  {
  }

  /** A mode that does not read goes by the ids alone. */
  lemma NothingRead(s: Store, b: Batch, env: Env)
    requires b.mode.AddWithoutRead?
    ensures InOrder(s, b, env) <==> forall i :: 0 <= i < |b.docs| ==> b.docs[i].id != 0
    ensures forall i, was :: 0 <= i < |b.docs| ==> StatusAfter(b.mode, ReadStatus(s, b, i, env), was) == was
  {
  }

  class IndexWriter {
    const writer: DocumentWriter
    const db: VirtualDB

    constructor (env: Env, db: VirtualDB)
      ensures this.db == db && writer.env == env && fresh(writer)
    {
      this.db := db;
      writer := new DocumentWriter(env);
    }

    /** Turns what was read into statuses and old fields, by mode. */
    method UpdateDocumentStatus(us: seq<DocumentUpdater>, ok: bool, mode: Mode, values: seq<Document>,
                                statuses: seq<Status>, docValues: seq<Document>, docValueStatuses: seq<Status>)
      returns (good: bool)
      requires Distinct(us) && |us| == |values| == |statuses|
      requires mode.Update? || mode.AddOrUpdate? ==> |docValues| == |docValueStatuses| == |us|
      requires forall i :: 0 <= i < |us| ==> us[i].oldDoc == []
      modifies us`status, us`oldDoc, us`oldDocValue
      ensures good <==> ok && forall i :: 0 <= i < |us| ==> Permits(mode, statuses[i])
      ensures forall i :: 0 <= i < |us| ==> us[i].status == StatusAfter(mode, statuses[i], old(us[i].status))
      ensures forall i :: 0 <= i < |us| ==> us[i].oldDoc == FieldsAfter(mode, statuses[i], values[i])
      ensures forall i :: 0 <= i < |us| ==>
        us[i].oldDocValue == old(us[i].oldDocValue) + RowTaken(ok, mode, statuses, docValues, docValueStatuses, i)
    {
      good := ok;
      if mode.AddWithoutRead? {
        return;
      }
      ghost var was := Statuses(us);
      for i := 0 to |us|
        invariant good <==> ok && forall j :: 0 <= j < i ==> Permits(mode, statuses[j])
        invariant forall j :: 0 <= j < i ==>
          us[j].Has(StatusAfter(mode, statuses[j], was[j]), FieldsAfter(mode, statuses[j], values[j]))
        invariant forall j :: i <= j < |us| ==> us[j].Has(was[j], [])
        invariant forall j :: 0 <= j < i ==>
          us[j].oldDocValue == old(us[j].oldDocValue) + RowTaken(ok, mode, statuses, docValues, docValueStatuses, j)
        invariant forall j :: i <= j < |us| ==> us[j].oldDocValue == old(us[j].oldDocValue)
      {
        good := FillBoth(us[i], good, mode, values[i], statuses[i], docValues, docValueStatuses, i);
      }
    }

    /** What was read of both columns for one updater; a doc-value row counts only if marked as there. */
    method FillBoth(u: DocumentUpdater, ok: bool, mode: Mode, value: Document, read: Status, rows: seq<Document>,
                    rowStatuses: seq<Status>, i: nat)
      returns (good: bool)
      requires !mode.AddWithoutRead? && u.oldDoc == []
      requires mode.Update? || mode.AddOrUpdate? ==> i < |rows| == |rowStatuses|
      modifies u`status, u`oldDoc, u`oldDocValue
      ensures good <==> ok && Permits(mode, read)
      ensures u.status == StatusAfter(mode, read, old(u.status)) && u.oldDoc == FieldsAfter(mode, read, value)
      ensures u.oldDocValue == old(u.oldDocValue) +
        if good && (mode.Update? || mode.AddOrUpdate?) && read == OK && rowStatuses[i] == DocumentExist
        then rows[i].fields else []
    {
      good := FillOne(u, ok, mode, value, read);
      if good && (mode.Update? || mode.AddOrUpdate?) && read == OK && rowStatuses[i] == DocumentExist {
        u.oldDocValue := u.oldDocValue + rows[i].fields;
      }
    }

    /** The status and old fields of one updater, by mode. */
    method FillOne(u: DocumentUpdater, ok: bool, mode: Mode, value: Document, read: Status) returns (good: bool)
      requires !mode.AddWithoutRead? && u.oldDoc == []
      modifies u`status, u`oldDoc
      ensures good <==> ok && Permits(mode, read)
      ensures u.status == StatusAfter(mode, read, old(u.status)) && u.oldDoc == FieldsAfter(mode, read, value)
    {
      good := ok;
      if mode.Add? {
        if read != DocumentNotExist {
          good := false;
          u.status := if read == OK then DocumentExist else read;
        }
      } else if read == OK {
        u.oldDoc := u.oldDoc + value.fields;
      } else if mode.Delete? && read == DocumentNotExist {
        u.status := read;
      } else if mode.Update? || read != DocumentNotExist {
        good := false;
        u.status := read;
      }
    }

    /** Ids must not be zero; the mode is recorded in each updater. */
    method Check(table: Table, us: seq<DocumentUpdater>, mode: Mode) returns (ok: bool, keys: seq<DocKey>)
      requires Distinct(us)
      modifies us`mode, us`status
      ensures ok <==> forall i :: 0 <= i < |us| ==> us[i].newDoc.id != 0
      ensures forall i :: 0 <= i < |us| ==>
        us[i].status == if us[i].newDoc.id == 0 then IDCanNotZero else old(us[i].status)
      ensures |keys| == |us| && forall i :: 0 <= i < |us| ==> us[i].mode == mode && keys[i] == DocKey(table, us[i].newDoc.id)
    {
      ok, keys := true, [];
      for i := 0 to |us|
        invariant ok <==> forall j :: 0 <= j < i ==> us[j].newDoc.id != 0
        invariant forall j :: 0 <= j < i ==>
          us[j].status == if us[j].newDoc.id == 0 then IDCanNotZero else old(us[j].status)
        invariant forall j :: i <= j < |us| ==> us[j].status == old(us[j].status)
        invariant |keys| == i && forall j :: 0 <= j < i ==> us[j].mode == mode && keys[j] == DocKey(table, us[j].newDoc.id)
      {
        us[i].mode := mode;
        if us[i].newDoc.id == 0 {
          us[i].status := IDCanNotZero;
          ok := false;
        }
        keys := keys + [DocKey(table, us[i].newDoc.id)];
      }
    }

    method ReadStored(keys: seq<DocKey>, ghost b: Batch) returns (values: seq<Document>, statuses: seq<Status>)
      requires |keys| == |b.docs| && forall i :: 0 <= i < |keys| ==> keys[i] == DocKey(b.table, b.docs[i].id)
      ensures |values| == |statuses| == |keys|
      ensures forall i :: 0 <= i < |keys| ==> statuses[i] == ReadStatus(db.state, b, i, writer.env)
      ensures forall i :: 0 <= i < |keys| ==>
        statuses[i] == OK && Reads(b.mode) ==> values[i].fields == OldFields(b.mode, OK, db.state, keys[i])
    {
      values, statuses := db.MultiGet(keys, false, writer.env.readFaults);
    }

    /** Checks ids, and reads what is stored unless the mode skips reading. */
    method Fill(table: Table, us: seq<DocumentUpdater>, mode: Mode, ghost b: Batch) returns (ok: bool)
      requires Distinct(us) && forall i :: 0 <= i < |us| ==> us[i].Fresh()
      requires b.table == table && b.mode == mode && |b.docs| == |us|
      requires forall i :: 0 <= i < |us| ==> us[i].newDoc == b.docs[i]
      modifies us`mode, us`status, us`oldDoc, us`oldDocValue
      ensures
        && (ok <==> InOrder(db.state, b, writer.env))
        && (forall i :: 0 <= i < |us| ==>
              (var was := if us[i].newDoc.id == 0 then IDCanNotZero else OK;
               us[i].status == StatusAfter(mode, ReadStatus(db.state, b, i, writer.env), was)))
        && (ok ==> ReadInto(us, db.state, b, writer.env))
    {
      var keys;
      ok, keys := Check(table, us, mode);
      if mode.AddWithoutRead? {
        NothingRead(db.state, b, writer.env);
      } else {
        ok := Read(us, ok, mode, keys, b);
      }
      if ok { FilledIsReadInto(us, db.state, b, writer.env); }
    }

    method Read(us: seq<DocumentUpdater>, ok: bool, mode: Mode, keys: seq<DocKey>, ghost b: Batch) returns (good: bool)
      requires Distinct(us) && !mode.AddWithoutRead? && b.mode == mode && |us| == |keys| == |b.docs|
      requires forall i :: 0 <= i < |us| ==> us[i].oldDoc == []
      requires forall i :: 0 <= i < |us| ==> keys[i] == DocKey(b.table, b.docs[i].id)
      modifies us`status, us`oldDoc, us`oldDocValue
      ensures good <==> ok && forall i :: 0 <= i < |us| ==> Permits(mode, ReadStatus(db.state, b, i, writer.env))
      ensures forall i :: 0 <= i < |us| ==>
        us[i].status == StatusAfter(mode, ReadStatus(db.state, b, i, writer.env), old(us[i].status))
      ensures forall i :: 0 <= i < |us| ==>
        us[i].oldDoc == OldFields(mode, ReadStatus(db.state, b, i, writer.env), db.state, keys[i])
      ensures forall i :: 0 <= i < |us| ==> us[i].oldDocValue == old(us[i].oldDocValue)
    {
      var values, statuses := ReadStored(keys, b);
      var docValues, docValueStatuses := [], [];
      if mode.Update? || mode.AddOrUpdate? {
        docValues, docValueStatuses := db.MultiGet(keys, true, writer.env.readFaults);
      }
      good := UpdateDocumentStatus(us, ok, mode, values, statuses, docValues, docValueStatuses);
    }

    /** Writes updaters whose ids and reads are in order. */
    method WriteFilled(us: seq<DocumentUpdater>, ghost b: Batch, table: Table) returns (ok: bool)
      requires Distinct(us) && b.table == table && InOrder(db.state, b, writer.env)
      requires ReadInto(us, db.state, b, writer.env)
      modifies us`newDoc, us`status, us`newDocValue, db
      ensures ok <==> Accepted(old(db.state), b, writer.env)
      ensures db.state == AfterBatch(old(db.state), b, writer.env)
      ensures forall i :: 0 <= i < |us| ==>
        (if ok then us[i].status else Marked(us[i].status)) == Outcome(old(db.state), b, i, writer.env)
    {
      ghost var s, start, was, cs := db.state, AllPending(us), Statuses(us), [];
      ReadIntoAt(us, s, b, writer.env);
      ok, cs := writer.UpdateDocuments(table, us, db, start);
      WrittenIsOutcome(s, b, writer.env, start, was, ok, cs);
    }

    /** All documents of the batch are written as their mode says, or the store is left as it was; every
        updater ends with the status that says what came of it. */
    method InnerWriteDocuments(table: Table, us: seq<DocumentUpdater>, mode: Mode) returns (ok: bool)
      requires Distinct(us) && forall i :: 0 <= i < |us| ==> us[i].Fresh()
      modifies us, db
      ensures var b := Batch(table, mode, old(Given(us)));
        && (ok <==> Accepted(old(db.state), b, writer.env))
        && db.state == AfterBatch(old(db.state), b, writer.env) && (!ok ==> db.state == old(db.state))
      ensures var b := Batch(table, mode, old(Given(us)));
        |b.docs| == |us| && forall i :: 0 <= i < |us| ==> us[i].status == Outcome(old(db.state), b, i, writer.env)
    {
      ghost var b := Batch(table, mode, Given(us));
      GivenAt(us);
      if Accepted(db.state, b, writer.env) { AcceptedFills(db.state, b, writer.env); }
      ok := Fill(table, us, mode, b);
      if ok {
        ok := WriteFilled(us, b, table);
      }
      if !ok {
        MarkFailed(us);
      }
    }

    /** As callers write: a new updater for each document, and its status afterwards. */
    method WriteDocuments(table: Table, docs: seq<Document>, mode: Mode) returns (ok: bool, statuses: seq<Status>)
      modifies db
      ensures var b := Batch(table, mode, docs);
        && (ok <==> Accepted(old(db.state), b, writer.env))
        && db.state == AfterBatch(old(db.state), b, writer.env) && (!ok ==> db.state == old(db.state))
      ensures var b := Batch(table, mode, docs);
        |statuses| == |docs| && forall i :: 0 <= i < |docs| ==> statuses[i] == Outcome(old(db.state), b, i, writer.env)
    {
      var us := Updaters(docs);
      GivenAt(us);
      assert Given(us) == docs;
      ok := InnerWriteDocuments(table, us, mode);
      statuses := Report(us);
    }
  }

  method Report(us: seq<DocumentUpdater>) returns (statuses: seq<Status>)
    ensures |statuses| == |us| && forall i :: 0 <= i < |us| ==> statuses[i] == us[i].status
  {
    statuses := [];
    for i := 0 to |us|
      invariant |statuses| == i && forall j :: 0 <= j < i ==> statuses[j] == us[j].status
    {
      statuses := statuses + [us[i].status];
    }
  }

  method Updaters(docs: seq<Document>) returns (us: seq<DocumentUpdater>)
    ensures |us| == |docs| && Distinct(us)
    ensures forall i :: 0 <= i < |us| ==> fresh(us[i]) && us[i].Fresh() && us[i].newDoc == docs[i]
  {
    us := [];
    for i := 0 to |docs|
      invariant |us| == i && Distinct(us)
      invariant forall j :: 0 <= j < i ==> fresh(us[j]) && us[j].Fresh() && us[j].newDoc == docs[j]
    {
      var u := new DocumentUpdater(docs[i]);
      us := us + [u];
    }
  }
}
