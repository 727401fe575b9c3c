/** Collecting a query's results: batches, filter, bounded top-N, offset and early stop. */
module Collector {
  import opened Basics
  import opened Iterators
  import opened QueryEval
  import opened Sorting

  // ---------------------------------------------------------------------------
  // What should be returned

  datatype Load = Loaded(fields: map<nat, FieldValue>) | Missing | Failed

  /** A filter rule: the field it looks at and whether that field, if there, passes. */
  datatype Rule = Rule(field: nat, test: Option<FieldValue> -> bool)

  /** The query's collecting options; `load` is the doc-value column. */
  datatype Options = Options(
    offset: nat, limit: nat,
    filter: Option<seq<Rule>>, minMatch: nat,
    sorter: Option<seq<Cond>>, counting: bool,
    batchSize: nat, totalLimit: nat,
    load: nat -> Load)
  {
    function TopN(): nat { offset + limit }

    /** Without filter and sorter, documents are never loaded. */
    predicate Quick() { filter.None? && sorter.None? }

    function Conds(): seq<Cond> { if sorter.Some? then sorter.value else [] }

    function NeededMatches(): nat {
      if filter.None? then minMatch
      else if minMatch == 0 || minMatch > |filter.value| then |filter.value|
      else minMatch
    }

    function DocOf(id: nat): Doc {
      Doc(id, if !Quick() && load(id).Loaded? then load(id).fields else map[])
    }

    predicate Readable(id: nat) { Quick() || !load(id).Failed? }

    function MatchCount(rules: seq<Rule>, d: Doc): nat {
      if rules == [] then 0
      else (if rules[0].test(if rules[0].field in d.fields then Some(d.fields[rules[0].field]) else None) then 1 else 0)
           + MatchCount(rules[1..], d)
    }

    predicate Matches(d: Doc) {
      filter.None? || MatchCount(filter.value, d) >= NeededMatches()
    }

    /** The matching documents among these ids, in order. */
    function Hits(ids: seq<nat>): seq<Doc> {
      if ids == [] then []
      else
        var d := DocOf(ids[|ids| - 1]);
        Hits(ids[..|ids| - 1]) + if Matches(d) then [d] else []
    }
  }

  function First<T>(s: seq<T>, n: nat): seq<T> { if |s| <= n then s else s[..n] }

  function DropFirst<T>(s: seq<T>, n: nat): seq<T> { if |s| <= n then [] else s[n..] }

  function Ids(ds: seq<Doc>): seq<nat> { seq(|ds|, i requires 0 <= i < |ds| => ds[i].id) }

  /** No kept document could give its place to a discarded one. */
  ghost predicate Best(conds: seq<Cond>, kept: seq<Doc>, ms: seq<Doc>, n: nat) {
    && |kept| == (if |ms| < n then |ms| else n)
    && multiset(kept) <= multiset(ms)
    && forall k, d {:trigger Before(conds, d, k)} :: k in multiset(kept) && d in multiset(ms) - multiset(kept) ==> !Before(conds, d, k)
  }

  predicate Ordered(conds: seq<Cond>, s: seq<Doc>) {
    forall i, j :: 0 <= i < j < |s| ==> !Before(conds, s[j], s[i])
  }

  /** The answer to a sorted query: the best of the matches, in order, without the first `offset`. */
  ghost predicate SortedAnswer(o: Options, ms: seq<Doc>, docs: seq<nat>) {
    exists best :: Best(o.Conds(), best, ms, o.TopN()) && Ordered(o.Conds(), best) && docs == DropFirst(Ids(best), o.offset)
  }

  // ---------------------------------------------------------------------------
  // What a filter says

  /** The rules a document's values pass. */
  ghost function Passed(rules: seq<Rule>, fields: map<nat, FieldValue>): set<nat> {
    set i | 0 <= i < |rules| && rules[i].test(if rules[i].field in fields then Some(fields[rules[i].field]) else None)
  }

  lemma {:induction false} MatchCountIsPassed(o: Options, rules: seq<Rule>, n: nat, d: Doc)
    requires n <= |rules|
    ensures o.MatchCount(rules[n..], d) + |set i | i in Passed(rules, d.fields) && i < n| == |Passed(rules, d.fields)|
    decreases |rules| - n
  {
    var all := Passed(rules, d.fields);
    if n == |rules| {
      assert all == set i | i in all && i < n;
    } else {
      MatchCountIsPassed(o, rules, n + 1, d);
      OneMore(all, n);
      assert rules[n..][0] == rules[n] && rules[n..][1..] == rules[n + 1..];
    }
  }

  lemma OneMore(all: set<nat>, n: nat)
    ensures |set i | i in all && i < n + 1| == |set i | i in all && i < n| + if n in all then 1 else 0
  {
    var here, next := set i | i in all && i < n, set i | i in all && i < n + 1;
    assert next == if n in all then here + {n} else here;
  }

  /** With a filter, a document is a hit exactly if at least `minMatch` rules pass on its own value of
      their field, or all of them when `minMatch` is 0 or more than there are. */
  lemma HitsMean(o: Options, ids: seq<nat>, id: nat)
    requires o.filter.Some?
    ensures var rules, fields := o.filter.value, if o.load(id).Loaded? then o.load(id).fields else map[];
      (exists d :: d in o.Hits(ids) && d.id == id) <==>
        (id in ids
         && if o.minMatch == 0 || o.minMatch > |rules| then
              forall i :: 0 <= i < |rules| ==>
                rules[i].test(if rules[i].field in fields then Some(fields[rules[i].field]) else None)
            else
              |set i | 0 <= i < |rules| && rules[i].test(if rules[i].field in fields then Some(fields[rules[i].field]) else None)|
                >= o.minMatch)
  {
    var d, rules := o.DocOf(id), o.filter.value;
    HitsIn(o, ids, d);
    MatchCountIsPassed(o, rules, 0, d);
    var none := set i | i in Passed(rules, d.fields) && i < 0;
    assert none == {} && rules[0..] == rules;
    AllPass(rules, d.fields);
    if e :| e in o.Hits(ids) && e.id == id { HitsIn(o, ids, e); }
  }

  lemma AllPass(rules: seq<Rule>, fields: map<nat, FieldValue>)
    ensures |Passed(rules, fields)| >= |rules| <==>
      forall i :: 0 <= i < |rules| ==> rules[i].test(if rules[i].field in fields then Some(fields[rules[i].field]) else None)
  {
    var all := Indices(|rules|);
    forall i | 0 <= i < |rules| ensures i in all { InIndices(|rules|, i); }
    IndicesCount(|rules|);
    Subsets(Passed(rules, fields), all);
    if forall i :: 0 <= i < |rules| ==> rules[i].test(if rules[i].field in fields then Some(fields[rules[i].field]) else None) {
      assert Passed(rules, fields) == all;
    } else {
      var i :| 0 <= i < |rules| && !rules[i].test(if rules[i].field in fields then Some(fields[rules[i].field]) else None);
      Subsets(Passed(rules, fields), all - {i});
    }
  }

  lemma {:induction false} IndicesCount(n: nat)
    ensures |Indices(n)| == n && forall i :: i in Indices(n) ==> i < n
  {
    if n > 0 { IndicesCount(n - 1); }
  }

  lemma {:induction false} Subsets(a: set<nat>, b: set<nat>)
    requires a <= b
    ensures |a| <= |b|
  {
    if a != {} {
      var x :| x in a;
      Subsets(a - {x}, b - {x});
    }
  }

  // ---------------------------------------------------------------------------
  // Keeping the best

  lemma KeepFirst(conds: seq<Cond>, kept: seq<Doc>, ms: seq<Doc>, n: nat, x: Doc)
    requires Best(conds, kept, ms, n) && |ms| < n
    ensures Best(conds, kept + [x], ms + [x], n)
  {
    assert multiset(kept) == multiset(ms) by {
      SameSize(multiset(kept), multiset(ms));
    }
    assert multiset(ms + [x]) - multiset(kept + [x]) == multiset{};
  }

  lemma SameSize<T>(a: multiset<T>, b: multiset<T>)
    requires a <= b && |a| == |b|
    ensures a == b
  {
    assert b == a + (b - a);
    assert |b - a| == 0;
  }

  /** Adding a document to a full queue and removing one that none is after keeps the best. */
  lemma Replace(conds: seq<Cond>, kept: seq<Doc>, ms: seq<Doc>, n: nat, x: Doc, m: Doc, rest: seq<Doc>)
    requires Best(conds, kept, ms, n) && |ms| >= n
    requires m in kept + [x] && multiset(rest) == multiset(kept + [x]) - multiset{m}
    requires forall y :: y in kept + [x] ==> !Before(conds, m, y)
    ensures Best(conds, rest, ms + [x], n)
  {
    var K, M := multiset(kept), multiset(ms);
    assert multiset(kept + [x]) == K + multiset{x};
    assert multiset(ms + [x]) == M + multiset{x};
    assert (M + multiset{x}) - multiset(rest) == (M - K) + multiset{m};
    forall k, d | k in multiset(rest) && d in (M - K) + multiset{m} ensures !Before(conds, d, k) {
      assert k in kept + [x];
      if d != m && Before(conds, d, k) {
        assert d in M - K;
        assert k == x && m in K;
        BeforeSplits(conds, d, m, x);
      }
    }
  }

  // ---------------------------------------------------------------------------
  // Hits of decreasing ids

  lemma {:induction false} HitsIn(o: Options, ids: seq<nat>, d: Doc)
    ensures d in o.Hits(ids) <==> d.id in ids && d == o.DocOf(d.id) && o.Matches(d)
  {
    if ids != [] {
      var n := |ids| - 1;
      HitsIn(o, ids[..n], d);
      assert ids == ids[..n] + [ids[n]];
    }
  }

  lemma {:induction false} HitsDecrease(o: Options, ids: seq<nat>)
    requires Decreasing(ids)
    ensures Decreasing(Ids(o.Hits(ids)))
  {
    if ids != [] {
      var n := |ids| - 1;
      HitsDecrease(o, ids[..n]);
      var hs := o.Hits(ids[..n]);
      forall k | 0 <= k < |hs| ensures hs[k].id > ids[n] {
        HitsIn(o, ids[..n], hs[k]);
      }
      assert forall k :: 0 <= k < |hs| ==> Ids(hs)[k] == hs[k].id;
    }
  }

  lemma {:induction false} HitsConcat(o: Options, a: seq<nat>, b: seq<nat>)
    ensures o.Hits(a + b) == o.Hits(a) + o.Hits(b)
  {
    if b == [] {
      assert a + b == a;
    } else {
      var n := |b| - 1;
      assert (a + b)[..|a + b| - 1] == a + b[..n];
      HitsConcat(o, a, b[..n]);
    }
  }

  /** Documents kept from decreasing hits have distinct ids. */
  lemma DistinctKept(o: Options, ids: seq<nat>, kept: seq<Doc>)
    requires Decreasing(ids) && multiset(kept) <= multiset(o.Hits(ids))
    ensures forall i, j :: 0 <= i < j < |kept| ==> kept[i].id != kept[j].id
  {
    var hs := o.Hits(ids);
    HitsDecrease(o, ids);
    forall i, j | 0 <= i < j < |kept| ensures kept[i].id != kept[j].id {
      if kept[i].id == kept[j].id {
        assert kept[i] in multiset(kept) && kept[j] in multiset(kept);
        assert kept[i] in hs && kept[j] in hs;
        HitsIn(o, ids, kept[i]);
        HitsIn(o, ids, kept[j]);
        TwiceIn(kept, i, j);
        OnceIn(hs, kept[i]);
      }
    }
  }

  lemma TwiceIn(s: seq<Doc>, i: nat, j: nat)
    requires i < j < |s| && s[i] == s[j]
    ensures multiset(s)[s[i]] >= 2
  {
    assert s == s[..j] + s[j..];
    assert s[i] in multiset(s[..j]) && s[j..][0] in multiset(s[j..]);
  }

  lemma {:induction false} OnceIn(s: seq<Doc>, d: Doc)
    requires Decreasing(Ids(s))
    ensures multiset(s)[d] <= 1
  {
    if s != [] {
      assert s == [s[0]] + s[1..];
      assert Ids(s)[1..] == Ids(s[1..]);
      OnceIn(s[1..], d);
      forall k | 0 <= k < |s[1..]| ensures s[1..][k] != s[0] {
        assert Ids(s)[0] > Ids(s)[k + 1];
      }
      assert s[0] !in s[1..];
    }
  }

  /** By decreasing id, the best of decreasing hits are the first ones. */
  lemma BestIsFirst(kept: seq<Doc>, ms: seq<Doc>, n: nat)
    requires Best([], kept, ms, n) && Ordered([], kept) && Decreasing(Ids(ms))
    requires forall i, j :: 0 <= i < j < |kept| ==> kept[i].id != kept[j].id
    ensures kept == First(ms, n)
  {
    var i := 0;
    while i < |kept|
      invariant i <= |kept| <= |ms|
      invariant forall j :: 0 <= j < i ==> kept[j] == ms[j]
    {
      NextIsFirst(kept, ms, n, i);
      i := i + 1;
    }
  }

  lemma NextIsFirst(kept: seq<Doc>, ms: seq<Doc>, n: nat, i: nat)
    requires Best([], kept, ms, n) && Ordered([], kept) && Decreasing(Ids(ms))
    requires forall i, j :: 0 <= i < j < |kept| ==> kept[i].id != kept[j].id
    requires i < |kept| && forall j :: 0 <= j < i ==> kept[j] == ms[j]
    ensures kept[i] == ms[i]
  {
    assert kept[i] in multiset(kept);
    assert kept[i] in ms;
    var k :| 0 <= k < |ms| && ms[k] == kept[i];
    forall a, b | 0 <= a < b < |ms| ensures ms[a].id > ms[b].id {
      assert Ids(ms)[a] > Ids(ms)[b];
    }
    assert forall a, b :: 0 <= a < b < |kept| ==> kept[a].id > kept[b].id;
    forall j | 0 <= j < i ensures ms[j] != kept[i] {
      assert kept[j] == ms[j];
    }
    if k > i {
      NotSkipped(kept, ms, n, i);
    }
  }

  lemma NotSkipped(kept: seq<Doc>, ms: seq<Doc>, n: nat, i: nat)
    requires Best([], kept, ms, n) && i < |kept| <= |ms|
    requires forall a, b :: 0 <= a < b < |ms| ==> ms[a].id > ms[b].id
    requires forall a, b :: 0 <= a < b < |kept| ==> kept[a].id > kept[b].id
    requires forall j :: 0 <= j < i ==> kept[j] == ms[j]
    ensures kept[i].id >= ms[i].id
  {
    var x := ms[i];
    if x !in kept {
      assert x in multiset(ms) - multiset(kept);
      assert kept[i] in multiset(kept);
      assert !Before([], x, kept[i]);
    } else {
      var j :| 0 <= j < |kept| && kept[j] == x;
      assert j >= i;
    }
  }

  lemma DecreasingSnoc(s: seq<nat>, id: nat)
    requires Decreasing(s) && forall x :: x in s ==> id < x
    ensures Decreasing(s + [id])
  {
    assert forall i :: 0 <= i < |s| ==> s[i] in s;
  }

  /** The queue holds the best hits among the ids taken so far, unless one could not be read. */
  ghost predicate Collected(o: Options, done: seq<nat>, topN: seq<Doc>, ok: bool, total: nat) {
    if ok then
      && Best(o.Conds(), topN, o.Hits(done), o.TopN())
      && AllReadable(o, done)
      && (o.counting ==> total == |o.Hits(done)|)
    else
      !AllReadable(o, done)
  }

  predicate AllReadable(o: Options, ids: seq<nat>) { forall id :: id in ids ==> o.Readable(id) }

  lemma AllReadableConcat(o: Options, a: seq<nat>, b: seq<nat>)
    ensures AllReadable(o, a + b) <==> AllReadable(o, a) && AllReadable(o, b)
  {
    assert forall id :: id in a + b <==> id in a || id in b;
  }

  lemma QuickIsReadable(o: Options, ids: seq<nat>)
    requires o.Quick()
    ensures AllReadable(o, ids)
  {
  }

  /** What holds of the queue once more documents have been loaded and pushed. */
  lemma CollectedMore(o: Options, done: seq<nat>, more: seq<nat>, topN: seq<Doc>, ok: bool, total: nat)
    requires AllReadable(o, done) && (ok <==> AllReadable(o, more))
    requires ok ==> Best(o.Conds(), topN, o.Hits(done) + o.Hits(more), o.TopN())
    requires ok && o.counting ==> total == |o.Hits(done)| + |o.Hits(more)|
    ensures Collected(o, done + more, topN, ok, total)
  {
    HitsConcat(o, done, more);
    AllReadableConcat(o, done, more);
  }

  lemma CollectedQuick(o: Options, done: seq<nat>, more: seq<nat>, all: seq<nat>, topN: seq<Doc>, total: nat)
    requires o.Quick() && all == done + more && Best(o.Conds(), topN, o.Hits(all), o.TopN())
    requires o.counting ==> total == |o.Hits(done)| + |more|
    ensures Collected(o, all, topN, true, total)
  {
    QuickIsReadable(o, all);
    if o.counting {
      HitsConcat(o, done, more);
      HitsAll(o, more);
      assert |o.Hits(all)| == |o.Hits(done)| + |more|;
    }
  }

  // ---------------------------------------------------------------------------
  // The collector

  class TopNCollector {
    const o: Options
    var topN: seq<Doc>
    var buffer: seq<nat>
    var purged: nat
    var ok: bool
    var total: nat
    ghost var seen: seq<nat>

    /** Documents already taken from the buffer. */
    ghost function Done(): seq<nat>
      requires |buffer| <= |seen|
      reads this
    {
      seen[..|seen| - |buffer|]
    }

    ghost predicate Valid()
      reads this
    {
      && Decreasing(seen)
      && purged == |seen| <= o.totalLimit + 1
      && |buffer| <= |seen| && seen == Done() + buffer
      && Collected(o, Done(), topN, ok, total)
      && (!ok ==> buffer == [])
    }

    constructor (options: Options)
      ensures Valid() && o == options && seen == [] && ok
    {
      o := options;
      topN, buffer, purged, ok, total, seen := [], [], 0, true, 0, [];
    }

    method Collect(id: nat)
      requires Valid() && ok && (forall x :: x in seen ==> id < x)
      modifies this
      ensures Valid()
      ensures seen == First(old(seen) + [id], o.totalLimit + 1)
      ensures buffer ==
        if old(purged) <= o.totalLimit && |old(buffer)| + 1 < o.batchSize then old(buffer) + [id] else []
    {
      if purged > o.totalLimit {
        if |buffer| > 0 {
          InnerPurge();
        }
        assert First(old(seen) + [id], o.totalLimit + 1) == old(seen);
        return;
      }
      Add(id);
      if |buffer| >= o.batchSize {
        InnerPurge();
      }
    }

    method Add(id: nat)
      requires Valid() && ok && purged <= o.totalLimit && (forall x :: x in seen ==> id < x)
      modifies this`buffer, this`purged, this`seen
      ensures Valid() && seen == old(seen) + [id] && buffer == old(buffer) + [id]
    {
      DecreasingSnoc(seen, id);
      buffer := buffer + [id];
      purged := purged + 1;
      seen := seen + [id];
      assert Done() == old(Done());
    }

    method Feed(id: nat, ghost ids: seq<nat>, ghost n: nat)
      requires Valid() && ok && Decreasing(ids) && n < |ids| && id == ids[n]
      requires seen == Considered(o, ids[..n])
      modifies this
      ensures Valid() && seen == Considered(o, ids[..n + 1])
    {
      ConsideredNext(o, ids, n);
      Collect(id);
    }

    /** May the search stop here? */
    method Enough() returns (enough: bool)
      requires Valid()
      ensures enough <==> !ok || (o.sorter.None? && |topN| >= o.TopN() && !o.counting)
    {
      if !ok { return true; }
      if o.sorter.Some? { return false; }
      return |topN| >= o.TopN() && !o.counting;
    }

    /** Empties the buffer into the queue. */
    method InnerPurge()
      requires Valid()
      modifies this
      ensures Valid() && buffer == [] && seen == old(seen)
    {
      if |buffer| == 0 { return; }
      if o.Quick() {
        PurgeQuick();
      } else {
        PurgeLoaded();
      }
      ClearBuffer();
    }

    method ClearBuffer()
      requires Decreasing(seen) && purged == |seen| <= o.totalLimit + 1
      requires Collected(o, seen, topN, ok, total)
      modifies this`buffer
      ensures Valid() && buffer == []
    {
      buffer := [];
      assert Done() == seen;
    }

    method PurgeLoaded()
      requires Valid() && ok && !o.Quick()
      modifies this`ok, this`total, this`topN
      ensures Collected(o, seen, topN, ok, total)
    {
      ghost var done := Done();
      var hits := Load();
      PushAll(hits, done);
      CollectedMore(o, done, buffer, topN, ok, total);
    }

    /** The queue holds the best of what has been taken from the buffer, with nothing to load. */
    ghost predicate QuickSoFar()
      reads this
    {
      && ok && o.Quick() && Decreasing(seen) && |buffer| <= |seen| && seen == Done() + buffer
      && Best(o.Conds(), topN, o.Hits(Done()), o.TopN())
      && (o.counting ==> total == |o.Hits(Done())|)
    }

    /** Without filter or sorter: fills the queue and drops the rest. */
    method PurgeQuick()
      requires QuickSoFar()
      modifies this`topN, this`total
      ensures Collected(o, seen, topN, ok, total)
    {
      ghost var done := Done();
      Fill();
      if o.counting {
        total := total + |buffer|;
      }
      CollectedQuick(o, done, buffer, seen, topN, total);
    }

    method Fill()
      requires QuickSoFar()
      modifies this`topN
      ensures Best(o.Conds(), topN, o.Hits(seen), o.TopN())
    {
      ghost var ms := o.Hits(Done());
      assert Done() + buffer[..0] == Done();
      for i := 0 to |buffer|
        invariant KeptFrom(i, ms)
      {
        ms := KeepNext(i, ms);
      }
      assert Done() + buffer[..|buffer|] == seen;
    }

    /** The first i buffered documents have gone to the queue; `ms` are the hits so far. */
    ghost predicate KeptFrom(i: nat, ms: seq<Doc>)
      reads this
    {
      && o.Quick() && Decreasing(seen) && i <= |buffer| <= |seen| && seen == Done() + buffer
      && ms == o.Hits(Done() + buffer[..i]) && Best(o.Conds(), topN, ms, o.TopN())
    }

    method KeepNext(i: nat, ghost ms: seq<Doc>) returns (ghost more: seq<Doc>)
      requires KeptFrom(i, ms) && i < |buffer|
      modifies this`topN
      ensures KeptFrom(i + 1, more)
    {
      more := ms + [Doc(buffer[i], map[])];
      HitsSnoc(o, Done(), buffer, i);
      Keep(Doc(buffer[i], map[]), ms, i);
    }

    method Keep(d: Doc, ghost ms: seq<Doc>, ghost i: nat)
      requires Decreasing(seen) && |buffer| <= |seen| && seen == Done() + buffer && o.Quick()
      requires i < |buffer| && d == Doc(buffer[i], map[]) && ms == o.Hits(Done() + buffer[..i])
      requires Best(o.Conds(), topN, ms, o.TopN())
      modifies this`topN
      ensures Best(o.Conds(), topN, ms + [d], o.TopN())
    {
      if |topN| < o.TopN() {
        KeepFirst(o.Conds(), topN, ms, o.TopN(), d);
        topN := topN + [d];
      } else {
        LastIsAfter(i);
        assert multiset(topN) == multiset(topN + [d]) - multiset{d};
        Replace(o.Conds(), topN, ms, o.TopN(), d, d, topN);
      }
    }

    lemma LastIsAfter(i: nat)
      requires Decreasing(seen) && |buffer| <= |seen| && seen == Done() + buffer && o.Quick()
      requires i < |buffer|
      requires multiset(topN) <= multiset(o.Hits(Done() + buffer[..i]))
      ensures forall y :: y in topN + [Doc(buffer[i], map[])] ==> !Before(o.Conds(), Doc(buffer[i], map[]), y)
    {
      assert o.Conds() == [];
      forall y | y in topN ensures y.id > buffer[i] {
        assert y in multiset(topN);
        assert y in o.Hits(Done() + buffer[..i]);
        HitsIn(o, Done() + buffer[..i], y);
        var k :| 0 <= k < |Done()| + i && (Done() + buffer[..i])[k] == y.id;
        assert seen[k] == y.id && seen[|Done()| + i] == buffer[i];
      }
    }

    /** Loads the buffered documents and filters them, up to the first that cannot be read. */
    method Load() returns (hits: seq<Doc>)
      requires Valid() && ok && !o.Quick()
      modifies this`ok, this`total
      ensures ok <==> AllReadable(o, buffer)
      ensures ok ==> hits == o.Hits(buffer)
      ensures ok && o.counting ==> total == old(total) + |hits|
    {
      hits := [];
      for i := 0 to |buffer|
        invariant ok
        invariant hits == o.Hits(buffer[..i]) && AllReadable(o, buffer[..i])
        invariant o.counting ==> total == old(total) + |hits|
      {
        HitsNext(o, buffer, i);
        if o.load(buffer[i]).Failed? {
          ok := false;
          assert buffer[i] in buffer;
          return;
        }
        var d := o.DocOf(buffer[i]);
        if o.Matches(d) {
          if o.counting {
            total := total + 1;
          }
          hits := hits + [d];
        }
      }
      assert buffer[..|buffer|] == buffer;
    }

    /** Pushes each hit and, when the queue is over-full, drops one that none is after. */
    method PushAll(hits: seq<Doc>, ghost done: seq<nat>)
      requires Best(o.Conds(), topN, o.Hits(done), o.TopN())
      modifies this`topN
      ensures Best(o.Conds(), topN, o.Hits(done) + hits, o.TopN())
    {
      ghost var ms := o.Hits(done);
      assert ms + hits[..0] == ms;
      for i := 0 to |hits|
        invariant Best(o.Conds(), topN, ms + hits[..i], o.TopN())
      {
        assert ms + hits[..i + 1] == ms + hits[..i] + [hits[i]];
        Push(hits[i], ms + hits[..i]);
      }
      assert hits[..|hits|] == hits;
    }

    method Push(d: Doc, ghost ms: seq<Doc>)
      requires Best(o.Conds(), topN, ms, o.TopN())
      modifies this`topN
      ensures Best(o.Conds(), topN, ms + [d], o.TopN())
    {
      ghost var kept := topN;
      topN := topN + [d];
      if |topN| > o.TopN() {
        var m := PopTop();
        Replace(o.Conds(), kept, ms, o.TopN(), d, m, topN);
      } else {
        KeepFirst(o.Conds(), kept, ms, o.TopN(), d);
      }
    }

    /** The priority queue's pop: removes a document that comes before no other. */
    method PopTop() returns (m: Doc)
      requires topN != []
      modifies this`topN
      ensures m in old(topN) && multiset(topN) == multiset(old(topN)) - multiset{m}
      ensures forall y :: y in old(topN) ==> !Before(o.Conds(), m, y)
      ensures |topN| == |old(topN)| - 1
    {
      var best := 0;
      BeforeIsStrict(o.Conds(), topN[0], topN[0]);
      for k := 1 to |topN|
        invariant topN == old(topN) && best < k
        invariant forall j :: 0 <= j < k ==> !Before(o.Conds(), topN[best], topN[j])
      {
        if Before(o.Conds(), topN[best], topN[k]) {
          LaterIsTop(topN, best, k);
          best := k;
        }
      }
      m := topN[best];
      assert topN == topN[..best] + [m] + topN[best + 1..];
      topN := topN[..best] + topN[best + 1..];
    }

    lemma LaterIsTop(s: seq<Doc>, best: nat, k: nat)
      requires best < k < |s| && Before(o.Conds(), s[best], s[k])
      requires forall j :: 0 <= j < k ==> !Before(o.Conds(), s[best], s[j])
      ensures forall j :: 0 <= j <= k ==> !Before(o.Conds(), s[k], s[j])
    {
      forall j | 0 <= j <= k ensures !Before(o.Conds(), s[k], s[j]) {
        BeforeIsStrict(o.Conds(), s[k], s[k]);
        if j < k {
          BeforeSplits(o.Conds(), s[best], s[j], s[k]);
          BeforeIsStrict(o.Conds(), s[j], s[k]);
        }
      }
    }

    method Finish()
      requires Valid()
      modifies this
      ensures Valid() && buffer == [] && seen == old(seen)
    {
      InnerPurge();
    }

    /** Empties the queue into a list, last first, and drops the first `offset`. */
    method GetAndClearMatchDocs() returns (docs: seq<nat>)
      requires Valid() && ok && buffer == []
      modifies this`topN
      ensures o.sorter.Some? ==> SortedAnswer(o, o.Hits(seen), docs)
      ensures o.sorter.None? ==> docs == DropFirst(Ids(First(o.Hits(seen), o.TopN())), o.offset)
    {
      assert Done() == seen;
      ghost var best;
      ghost var kept := topN;
      docs, best := Unload();
      BestByMembers(o.Conds(), kept, best, o.Hits(seen), o.TopN());
      DistinctKept(o, seen, best);
      if o.sorter.None? {
        HitsDecrease(o, seen);
        BestIsFirst(best, o.Hits(seen), o.TopN());
      }
      docs := DropOffset(docs, best);
    }

    method Unload() returns (docs: seq<nat>, ghost best: seq<Doc>)
      requires |topN| <= o.TopN()
      modifies this`topN
      ensures multiset(best) == multiset(old(topN)) && Ordered(o.Conds(), best) && docs == Ids(best)
    {
      var left: nat := o.TopN();
      docs, best := [], [];
      while |topN| != 0 && left > 0
        invariant |topN| <= left
        invariant multiset(best) + multiset(topN) == multiset(old(topN))
        invariant Ordered(o.Conds(), best) && docs == Ids(best)
        invariant forall z, y :: z in best && y in topN ==> !Before(o.Conds(), z, y)
        decreases |topN|
      {
        ghost var before := topN;
        var m := PopTop();
        Subset(topN, before, m);
        Prepend(o.Conds(), m, best);
        docs := [m.id] + docs;
        best := [m] + best;
        left := left - 1;
      }
    }

    /** Removes, `offset` times, the first id and any id equal to it. */
    method DropOffset(list: seq<nat>, ghost best: seq<Doc>) returns (docs: seq<nat>)
      requires list == Ids(best)
      requires forall i, j :: 0 <= i < j < |best| ==> best[i].id != best[j].id
      ensures docs == DropFirst(list, o.offset)
    {
      docs := list;
      var left: nat := o.offset;
      while left > 0 && |docs| > 0
        invariant left <= o.offset
        invariant docs == DropFirst(list, o.offset - left)
        decreases left
      {
        RemoveFirstOnly(docs);
        docs := RemoveAll(docs, docs[0]);
        left := left - 1;
      }
      assert docs == [] ==> |list| <= o.offset - left;
    }
  }

  function RemoveAll(s: seq<nat>, x: nat): seq<nat> {
    if s == [] then [] else (if s[0] == x then [] else [s[0]]) + RemoveAll(s[1..], x)
  }

  lemma {:induction false} RemoveNone(s: seq<nat>, x: nat)
    requires x !in s
    ensures RemoveAll(s, x) == s
  {
    if s != [] { RemoveNone(s[1..], x); }
  }

  lemma RemoveFirstOnly(s: seq<nat>)
    requires s != [] && forall i, j :: 0 <= i < j < |s| ==> s[i] != s[j]
    ensures RemoveAll(s, s[0]) == s[1..]
  {
    RemoveNone(s[1..], s[0]);
  }

  lemma Subset(after: seq<Doc>, before: seq<Doc>, m: Doc)
    requires m in before && multiset(after) == multiset(before) - multiset{m}
    ensures forall y :: y in after ==> y in before
    ensures multiset(after) + multiset{m} == multiset(before)
  {
    forall y | y in after ensures y in before {
      assert y in multiset(after);
    }
  }

  lemma Prepend(conds: seq<Cond>, m: Doc, best: seq<Doc>)
    requires Ordered(conds, best) && forall z :: z in best ==> !Before(conds, z, m)
    ensures Ordered(conds, [m] + best) && Ids([m] + best) == [m.id] + Ids(best)
    ensures multiset([m] + best) == multiset{m} + multiset(best)
  {
    var s := [m] + best;
    forall i, j | 0 <= i < j < |s| ensures !Before(conds, s[j], s[i]) {
      assert s[j] == best[j - 1] && s[j] in best;
      if i > 0 { assert s[i] == best[i - 1]; }
    }
    assert Ids(s) == [m.id] + Ids(best);
  }

  lemma BestByMembers(conds: seq<Cond>, a: seq<Doc>, b: seq<Doc>, ms: seq<Doc>, n: nat)
    requires multiset(a) == multiset(b) && Best(conds, a, ms, n)
    ensures Best(conds, b, ms, n)
  {
    assert |a| == |multiset(a)| == |b|;
  }

  lemma {:induction false} HitsAll(o: Options, ids: seq<nat>)
    requires o.Quick()
    ensures |o.Hits(ids)| == |ids|
  {
    if ids != [] { HitsAll(o, ids[..|ids| - 1]); }
  }

  lemma HitsNext(o: Options, b: seq<nat>, i: nat)
    requires i < |b|
    ensures o.Hits(b[..i + 1]) == o.Hits(b[..i]) + if o.Matches(o.DocOf(b[i])) then [o.DocOf(b[i])] else []
    ensures AllReadable(o, b[..i + 1]) <==> AllReadable(o, b[..i]) && o.Readable(b[i])
  {
    assert b[..i + 1] == b[..i] + [b[i]];
  }

  lemma HitsSnoc(o: Options, done: seq<nat>, buffer: seq<nat>, i: nat)
    requires o.Quick() && i < |buffer|
    ensures o.Hits(done + buffer[..i + 1]) == o.Hits(done + buffer[..i]) + [Doc(buffer[i], map[])]
  {
    assert done + buffer[..i + 1] == done + buffer[..i] + [buffer[i]];
    HitsConcat(o, done + buffer[..i], [buffer[i]]);
  }

  // ---------------------------------------------------------------------------
  // The query loop

  /** The ids a search looks at: all of them up to the purge limit. */
  function Considered(o: Options, ids: seq<nat>): seq<nat> { First(ids, o.totalLimit + 1) }

  /** A prefix with enough hits has the same first hits as the whole. */
  lemma EnoughHits(o: Options, ids: seq<nat>, n: nat, k: nat)
    requires n <= |ids| && |o.Hits(ids[..n])| >= k
    ensures First(o.Hits(ids[..n]), k) == First(o.Hits(ids), k)
  {
    assert ids == ids[..n] + ids[n..];
    HitsConcat(o, ids[..n], ids[n..]);
  }

  /** The right answer to a query whose ids are these: without a sorter the window of the hits, with one
      the window of the best; the number of hits if asked for; nothing if a document cannot be read. */
  ghost predicate Answer(o: Options, ids: seq<nat>, ok: bool, docs: seq<nat>, total: nat) {
    && (o.sorter.None? && ok ==> docs == DropFirst(Ids(First(o.Hits(ids), o.TopN())), o.offset))
    && (o.sorter.Some? && ok ==> SortedAnswer(o, o.Hits(ids), docs))
    && (o.counting && ok ==> total == |o.Hits(ids)|)
    && (if ok then exists n: nat :: ReadEnough(o, ids, n) else docs == [] && !AllReadable(o, ids))
  }

  /** The first n ids can be read, and they are all or have enough hits. */
  ghost predicate ReadEnough(o: Options, ids: seq<nat>, n: nat) {
    && n <= |ids| && AllReadable(o, ids[..n])
    && (n == |ids| || (o.sorter.None? && !o.counting && |o.Hits(ids[..n])| >= o.TopN()))
  }

  /** What the filter, if any, asks of a document's values. */
  ghost predicate Passes(o: Options, id: nat) {
    o.filter.None? ||
      |Passed(o.filter.value, if o.load(id).Loaded? then o.load(id).fields else map[])|
        >= (if o.minMatch == 0 || o.minMatch > |o.filter.value| then |o.filter.value| else o.minMatch)
  }

  /** The ids of the hits: those that pass, largest first. */
  lemma HitIds(o: Options, ids: seq<nat>)
    requires Decreasing(ids)
    ensures Decreasing(Ids(o.Hits(ids))) && forall id :: id in Ids(o.Hits(ids)) <==> id in ids && Passes(o, id)
    ensures forall k :: 0 <= k < |o.Hits(ids)| ==> o.Hits(ids)[k] == o.DocOf(Ids(o.Hits(ids))[k])
  {
    var hits := o.Hits(ids);
    HitsDecrease(o, ids);
    forall id ensures id in Ids(hits) <==> id in ids && Passes(o, id) {
      HitsIn(o, ids, o.DocOf(id));
      if o.filter.Some? { MatchesIsPasses(o, id); }
      if k :| 0 <= k < |hits| && hits[k].id == id { HitsIn(o, ids, hits[k]); }
      if o.DocOf(id) in hits {
        var k :| 0 <= k < |hits| && hits[k] == o.DocOf(id);
        assert Ids(hits)[k] == id;
      }
    }
    forall k | 0 <= k < |hits| ensures hits[k] == o.DocOf(Ids(hits)[k]) {
      HitsIn(o, ids, hits[k]);
    }
  }

  lemma MatchesIsPasses(o: Options, id: nat)
    requires o.filter.Some?
    ensures o.Matches(o.DocOf(id)) <==> Passes(o, id)
  {
    var rules, d := o.filter.value, o.DocOf(id);
    MatchCountIsPassed(o, rules, 0, d);
    var none := set i | i in Passed(rules, d.fields) && i < 0;
    assert none == {} && rules[0..] == rules;
  }

  /** The window of the passing ids among those looked at. */
  ghost predicate IsWindow(o: Options, ids: seq<nat>, hits: seq<nat>, docs: seq<nat>) {
    && Decreasing(hits) && (forall id :: id in hits <==> id in ids && Passes(o, id))
    && docs == if |hits| <= o.offset then []
               else if |hits| <= o.offset + o.limit then hits[o.offset..]
               else hits[o.offset..o.offset + o.limit]
  }

  /** Without a sorter, a query answers with its passing ids from the offset on, at most `limit` of them,
      of the largest `totalLimit` + 1 ids, and counts all that pass among those. */
  lemma WindowMeans(o: Options, ids: seq<nat>, docs: seq<nat>, total: nat)
    requires Decreasing(ids) && o.sorter.None? && Answer(o, Considered(o, ids), true, docs, total)
    ensures var seen := if |ids| <= o.totalLimit + 1 then ids else ids[..o.totalLimit + 1];
      exists hits :: IsWindow(o, seen, hits, docs) && (o.counting ==> total == |hits|)
  {
    var seen := Considered(o, ids);
    HitIds(o, seen);
    var hits := Ids(o.Hits(seen));
    assert Ids(First(o.Hits(seen), o.TopN())) == First(hits, o.TopN());
    assert IsWindow(o, seen, hits, docs);
  }

  /** A search fails only if a filter or sorter makes it read a document that cannot be read.  When it
      succeeds with either, the ids it looked at can be read: all of them, or, if nothing is sorted or
      counted, as many as give enough hits. */
  lemma FailureMeans(o: Options, ids: seq<nat>, ok: bool, docs: seq<nat>, total: nat)
    requires Answer(o, ids, ok, docs, total)
    ensures !ok ==> docs == [] && (o.filter.Some? || o.sorter.Some?) && exists id :: id in ids && o.load(id).Failed?
    ensures ok && (o.sorter.Some? || (o.filter.Some? && o.counting)) ==> forall id :: id in ids ==> !o.load(id).Failed?
    ensures ok && o.filter.Some? ==>
      exists n :: 0 <= n <= |ids| && (forall id :: id in ids[..n] ==> !o.load(id).Failed?)
        && (n == |ids| || |o.Hits(ids[..n])| >= o.offset + o.limit)
  {
    if ok {
      var n: nat :| ReadEnough(o, ids, n);
      assert ids[..|ids|] == ids;
      if o.filter.Some? || o.sorter.Some? {
        forall id | id in ids[..n] ensures !o.load(id).Failed? { assert o.Readable(id); }
      }
    } else {
      var id :| id in ids && !o.Readable(id);
    }
  }

  /** A best selection of the passing ids, in order, of which the answer leaves out the first. */
  ghost predicate IsBest(o: Options, conds: seq<Cond>, hits: seq<nat>, best: seq<nat>) {
    && |best| == (if |hits| < o.offset + o.limit then |hits| else o.offset + o.limit)
    && (forall i, j :: 0 <= i < j < |best| ==> best[i] != best[j] && !Before(conds, o.DocOf(best[j]), o.DocOf(best[i])))
    && (forall i :: 0 <= i < |best| ==> best[i] in hits)
    && (forall x, i :: x in hits && x !in best && 0 <= i < |best| ==> !Before(conds, o.DocOf(x), o.DocOf(best[i])))
  }

  ghost predicate IsBestWindow(o: Options, ids: seq<nat>, hits: seq<nat>, best: seq<nat>, docs: seq<nat>)
    requires o.sorter.Some?
  {
    && Decreasing(hits) && (forall id :: id in hits <==> id in ids && Passes(o, id))
    && IsBest(o, o.sorter.value, hits, best)
    && docs == if |best| <= o.offset then [] else best[o.offset..]
  }

  /** With a sorter, a query answers with a best selection of its passing ids, in order, without the
      first `offset`; documents are compared with the values of their rows. */
  lemma BestMeans(o: Options, ids: seq<nat>, docs: seq<nat>, total: nat)
    requires Decreasing(ids) && o.sorter.Some? && Answer(o, Considered(o, ids), true, docs, total)
    ensures var seen := if |ids| <= o.totalLimit + 1 then ids else ids[..o.totalLimit + 1];
      exists hits, best :: IsBestWindow(o, seen, hits, best, docs) && (o.counting ==> total == |hits|)
    ensures forall id :: o.DocOf(id) == Doc(id, if o.load(id).Loaded? then o.load(id).fields else map[])
  {
    var seen, conds := Considered(o, ids), o.sorter.value;
    HitIds(o, seen);
    var best :| Best(conds, best, o.Hits(seen), o.TopN()) && Ordered(conds, best) && docs == DropFirst(Ids(best), o.offset);
    BestOfHits(o, conds, seen, best);
    assert IsBestWindow(o, seen, Ids(o.Hits(seen)), Ids(best), docs);
  }

  lemma BestOfHits(o: Options, conds: seq<Cond>, ids: seq<nat>, best: seq<Doc>)
    requires Decreasing(ids) && Best(conds, best, o.Hits(ids), o.TopN()) && Ordered(conds, best)
    ensures IsBest(o, conds, Ids(o.Hits(ids)), Ids(best))
  {
    DistinctKept(o, ids, best);
    forall i | 0 <= i < |best| ensures best[i] == o.DocOf(Ids(best)[i]) && Ids(best)[i] in Ids(o.Hits(ids)) {
      KeptIsHit(o, ids, best, i);
    }
    forall x, i | x in Ids(o.Hits(ids)) && x !in Ids(best) && 0 <= i < |best| ensures !Before(conds, o.DocOf(x), best[i]) {
      LeftOut(o, conds, ids, best, x, i);
    }
  }

  lemma LeftOut(o: Options, conds: seq<Cond>, ids: seq<nat>, best: seq<Doc>, x: nat, i: nat)
    requires Decreasing(ids) && Best(conds, best, o.Hits(ids), o.TopN())
    requires x in Ids(o.Hits(ids)) && x !in Ids(best) && i < |best|
    ensures !Before(conds, o.DocOf(x), best[i])
  {
    HitIds(o, ids);
    var k :| 0 <= k < |o.Hits(ids)| && Ids(o.Hits(ids))[k] == x;
    assert o.Hits(ids)[k] in multiset(o.Hits(ids)) && best[i] in multiset(best);
    NotAmong(best, o.DocOf(x));
  }

  lemma NotAmong(s: seq<Doc>, d: Doc)
    requires d.id !in Ids(s)
    ensures d !in multiset(s)
  {
    forall j | 0 <= j < |s| ensures s[j] != d {
      assert Ids(s)[j] in Ids(s);
    }
  }

  lemma KeptIsHit(o: Options, ids: seq<nat>, kept: seq<Doc>, i: nat)
    requires Decreasing(ids) && i < |kept| && multiset(kept) <= multiset(o.Hits(ids))
    ensures kept[i] in o.Hits(ids) && kept[i] == o.DocOf(kept[i].id) && kept[i].id in Ids(o.Hits(ids))
  {
    assert kept[i] in multiset(kept);
    HitsIn(o, ids, kept[i]);
    var k :| 0 <= k < |o.Hits(ids)| && o.Hits(ids)[k] == kept[i];
    assert Ids(o.Hits(ids))[k] == kept[i].id;
  }

  /** Runs a query's iterator, whose ids in order are `ids`, through a collector.  Stopping early does
      not show: the answer is that of all the ids up to the purge limit. */
  method DoQuery(it: DocIterator, o: Options, ghost ids: seq<nat>) returns (ok: bool, docs: seq<nat>, total: nat)
    requires it.Valid() && Decreasing(ids) && it.Rest == IdsFrom(ids, 0)
    modifies it.Repr
    ensures Answer(o, Considered(o, ids), ok, docs, total)
  {
    var collector := new TopNCollector(o);
    ghost var n := Gather(it, collector, ids);
    ok, docs, total := Deliver(collector);
    StoppedIsComplete(o, ids, n, ok, docs, total);
  }

  method Deliver(collector: TopNCollector) returns (ok: bool, docs: seq<nat>, total: nat)
    requires collector.Valid()
    modifies collector
    ensures Answer(collector.o, old(collector.seen), ok, docs, total) && (ok ==> old(collector.ok))
  {
    collector.Finish();
    ok, docs, total := collector.ok, [], collector.total;
    assert collector.Done() == collector.seen;
    if collector.ok {
      assert collector.seen[..|collector.seen|] == collector.seen;
      assert ReadEnough(collector.o, collector.seen, |collector.seen|);
      docs := collector.GetAndClearMatchDocs();
    }
  }

  /** Stopping after n ids gives what going on would have given. */
  lemma StoppedIsComplete(o: Options, ids: seq<nat>, n: nat, ok: bool, docs: seq<nat>, total: nat)
    requires n <= |ids| && Answer(o, Considered(o, ids[..n]), ok, docs, total)
    requires ok && n < |ids| ==> Stopped(o, ids, n)
    ensures Answer(o, Considered(o, ids), ok, docs, total)
  {
    ConsideredPart(o, ids, n);
    if n == |ids| {
      assert ids[..n] == ids;
    } else if ok {
      var k := |Considered(o, ids[..n])|;
      EnoughHits(o, Considered(o, ids), k, o.TopN());
      EnoughRead(o, Considered(o, ids), k);
    }
  }

  lemma EnoughRead(o: Options, ids: seq<nat>, k: nat)
    requires k <= |ids| && exists n: nat :: ReadEnough(o, ids[..k], n)
    requires o.sorter.None? && !o.counting && |o.Hits(ids[..k])| >= o.TopN()
    ensures exists n: nat :: ReadEnough(o, ids, n)
  {
    var n: nat :| ReadEnough(o, ids[..k], n);
    assert ids[..k][..n] == ids[..n];
    assert ReadEnough(o, ids, n);
  }

  /** The loop ended before the last id, with enough hits. */
  ghost predicate Stopped(o: Options, ids: seq<nat>, n: nat) {
    && n < |ids|
    && o.sorter.None? && !o.counting && |o.Hits(Considered(o, ids[..n]))| >= o.TopN()
  }

  /** The iterator stands before the n-th of these ids. */
  ghost predicate StandsAt(it: DocIterator, ids: seq<nat>, n: nat)
    reads it, it.Repr
  {
    it.Valid() && Decreasing(ids) && n <= |ids| && it.Rest == IdsFrom(ids, n)
  }

  function IdAt(ids: seq<nat>, n: nat): nat { if n < |ids| then ids[n] else NO_MORE_DOCS }

  lemma TopOfRest(it: DocIterator, ids: seq<nat>, n: nat)
    requires StandsAt(it, ids, n)
    ensures Top(it.Rest) == IdAt(ids, n) && (n < |ids| ==> ids[n] != NO_MORE_DOCS)
  {
    NoZero(it);
    if n < |ids| {
      IdsNext(ids, n);
      assert ids[n] in it.Rest;
    }
  }

  method CurrentId(it: DocIterator, ghost ids: seq<nat>, ghost n: nat) returns (d: nat)
    requires StandsAt(it, ids, n)
    ensures d == IdAt(ids, n) && (n < |ids| ==> d != NO_MORE_DOCS)
  {
    d := it.DocID();
    TopOfRest(it, ids, n);
  }

  method NextId(it: DocIterator, ghost ids: seq<nat>, ghost n: nat) returns (d: nat)
    requires StandsAt(it, ids, n) && n < |ids|
    modifies it.Repr
    ensures StandsAt(it, ids, n + 1) && d == IdAt(ids, n + 1) && (n + 1 < |ids| ==> d != NO_MORE_DOCS)
  {
    IdsNext(ids, n);
    d := it.NextDoc();
    TopOfRest(it, ids, n + 1);
  }

  /** Feeds the iterator's ids to the collector until there are none left or there are enough. */
  method Gather(it: DocIterator, collector: TopNCollector, ghost ids: seq<nat>) returns (ghost n: nat)
    requires StandsAt(it, ids, 0)
    requires collector.Valid() && collector.seen == [] && collector.ok && collector.buffer == []
    modifies it.Repr, collector
    ensures collector.Valid() && n <= |ids| && collector.seen == Considered(collector.o, ids[..n])
    ensures collector.ok && n < |ids| ==> Stopped(collector.o, ids, n)
  {
    n := 0;
    var d := CurrentId(it, ids, 0);
    var enough := collector.Enough();
    StopsWhen(collector, ids, 0, enough);
    while d != NO_MORE_DOCS && !enough
      invariant StandsAt(it, ids, n) && d == IdAt(ids, n) && (n < |ids| ==> d != NO_MORE_DOCS)
      invariant Gathered(collector, ids, n, enough)
      decreases |ids| - n
    {
      d, enough := TakeNext(it, collector, d, ids, n);
      n := n + 1;
    }
  }

  ghost predicate Gathered(collector: TopNCollector, ids: seq<nat>, n: nat, enough: bool)
    reads collector
  {
    && collector.Valid() && n <= |ids| && collector.seen == Considered(collector.o, ids[..n])
    && (!enough ==> collector.ok)
    && (enough && collector.ok && n < |ids| ==> Stopped(collector.o, ids, n))
  }

  method TakeNext(it: DocIterator, collector: TopNCollector, d: nat, ghost ids: seq<nat>, ghost n: nat)
    returns (next: nat, enough: bool)
    requires StandsAt(it, ids, n) && n < |ids| && d == ids[n] && Gathered(collector, ids, n, false)
    modifies it.Repr, collector
    ensures StandsAt(it, ids, n + 1) && next == IdAt(ids, n + 1) && (n + 1 < |ids| ==> next != NO_MORE_DOCS)
    ensures Gathered(collector, ids, n + 1, enough)
  {
    enough := FeedNext(collector, d, ids, n);
    next := NextId(it, ids, n);
  }

  method FeedNext(collector: TopNCollector, d: nat, ghost ids: seq<nat>, ghost n: nat) returns (enough: bool)
    requires Gathered(collector, ids, n, false) && Decreasing(ids) && n < |ids| && d == ids[n]
    modifies collector
    ensures Gathered(collector, ids, n + 1, enough)
  {
    collector.Feed(d, ids, n);
    enough := collector.Enough();
    StopsWhen(collector, ids, n + 1, enough);
  }

  lemma StopsWhen(collector: TopNCollector, ids: seq<nat>, n: nat, enough: bool)
    requires collector.Valid() && n <= |ids| && collector.seen == Considered(collector.o, ids[..n])
    requires enough <==> !collector.ok || (collector.o.sorter.None? && |collector.topN| >= collector.o.TopN() && !collector.o.counting)
    ensures enough && collector.ok && n < |ids| ==> Stopped(collector.o, ids, n)
  {
    HitsConcat(collector.o, collector.Done(), collector.buffer);
  }

  lemma ConsideredPart(o: Options, ids: seq<nat>, n: nat)
    requires n <= |ids|
    ensures var k := |Considered(o, ids[..n])|;
      k <= |Considered(o, ids)| && Considered(o, ids[..n]) == Considered(o, ids)[..k]
    ensures !AllReadable(o, Considered(o, ids[..n])) ==> !AllReadable(o, Considered(o, ids))
  {
  }

  lemma ConsideredNext(o: Options, ids: seq<nat>, n: nat)
    requires Decreasing(ids) && n < |ids|
    ensures First(Considered(o, ids[..n]) + [ids[n]], o.totalLimit + 1) == Considered(o, ids[..n + 1])
    ensures forall x :: x in Considered(o, ids[..n]) ==> ids[n] < x
  {
    assert ids[..n + 1] == ids[..n] + [ids[n]];
    forall x | x in Considered(o, ids[..n]) ensures ids[n] < x {
      var k :| 0 <= k < |Considered(o, ids[..n])| && Considered(o, ids[..n])[k] == x;
      assert ids[k] == x;
    }
  }
}
