/** The same merges done simply, over an ordered map: the write buffer's combining of two values and
    the test store's application of a merge. */
module MapMerge {
  import opened Basics
  import opened Postings
  import opened HeapMerge
  import opened Compaction

  /** Applies a list to a live map: tombstones erase, anything else sets. */
  function Erasing(m: map<nat, nat>, l: PostingList): map<nat, nat>
    decreases l
  {
    if l == [] then m
    else Erasing(if Live(l[0]) then m[l[0].id := l[0].state] else m - {l[0].id}, l[1..])
  }

  function Setting(m: map<nat, nat>, l: PostingList): map<nat, nat>
    decreases l
  {
    if l == [] then m else Setting(m[l[0].id := l[0].state], l[1..])
  }

  lemma {:induction false} SettingIsOverride(m: map<nat, nat>, l: PostingList)
    requires Descending(l)
    ensures Setting(m, l) == m + ToMap(l)
    decreases l
  {
    if l != [] {
      SettingIsOverride(m[l[0].id := l[0].state], l[1..]);
      ToMapIn(l[1..], l[0].id);
    }
  }

  lemma {:induction false} ErasingIsOverride(m: map<nat, nat>, l: PostingList)
    requires Descending(l) && AllLive(m)
    ensures Erasing(m, l) == LiveMap(m + ToMap(l))
    decreases l
  {
    if l == [] {
      LiveMapId(m);
      assert m + map[] == m;
    } else {
      var n := if Live(l[0]) then m[l[0].id := l[0].state] else m - {l[0].id};
      EraseStep(m, l[0], ToMap(l[1..]));
      ErasingIsOverride(n, l[1..]);
      ToMapIn(l[1..], l[0].id);
    }
  }

  predicate AllLive(m: map<nat, nat>) { forall id :: id in m ==> m[id] != DELETED }

  lemma LiveMapId(m: map<nat, nat>)
    ensures AllLive(m) <==> LiveMap(m) == m
  {
    if LiveMap(m) == m {
      assert forall id :: id in m ==> id in LiveMap(m);
    }
  }

  lemma EraseStep(m: map<nat, nat>, e: Entry, t: map<nat, nat>)
    requires AllLive(m)
    ensures var n := if Live(e) then m[e.id := e.state] else m - {e.id};
      AllLive(n) && (e.id !in t ==> LiveMap(n + t) == LiveMap(m + t[e.id := e.state]))
  {
    var n := if Live(e) then m[e.id := e.state] else m - {e.id};
    if e.id !in t {
      if Live(e) {
        assert n + t == m + t[e.id := e.state];
      } else {
        assert LiveMap(n + t) == LiveMap(m + t[e.id := e.state]);
      }
    }
  }

  /** The write buffer's value for a key after a second merge of that key. */
  ghost function BufferMerge(before: PostingList, value: PostingList): PostingList {
    DescList(Setting(Setting(map[], before), value))
  }

  /** The test store's value for a present key after a merge. */
  ghost function StoreMerge(before: PostingList, value: PostingList): PostingList {
    DescList(Erasing(Erasing(map[], before), value))
  }

  /** The heap's partial merge is the map's, exactly when nothing is cut. */
  lemma PartialRefinesMap(before: PostingList, value: PostingList, max: nat)
    requires Descending(before) && Descending(value)
    ensures PartialMerge([before, value], max) == BufferMerge(before, value) <==> PartialFits([before, value], max)
  {
    SettingIsOverride(map[], before);
    SettingIsOverride(ToMap(before), value);
    assert map[] + ToMap(before) == ToMap(before);
    OverlayTwo(before, value);
    CappedIsWhole(Merged([before, value]), max, 0, 0);
  }

  /** The store's merge is the live part of the two lists laid over each other. */
  lemma StoreMergeIs(before: PostingList, value: PostingList)
    requires Descending(before) && Descending(value)
    ensures StoreMerge(before, value) == DescList(LiveMap(ToMap(before) + ToMap(value)))
  {
    var a, b := ToMap(before), ToMap(value);
    ErasingIsOverride(map[], before);
    assert map[] + a == a;
    LiveMapOverride(a, map[]);
    assert a + map[] == a && LiveMap(a) + map[] == LiveMap(a);
    ErasingIsOverride(LiveMap(a), value);
    LiveMapOverride(a, b);
  }

  /** The heap's full merge is the map's, exactly when the live documents fit. */
  lemma FullRefinesMap(before: PostingList, value: PostingList, max: nat)
    requires Descending(before) && Descending(value)
    ensures FullMerge([before, value], max) == StoreMerge(before, value) <==> FullFits([before, value], max)
  {
    var both := ToMap(before) + ToMap(value);
    StoreMergeIs(before, value);
    OverlayTwo(before, value);
    MergedMeaning([before, value]);
    DescListRoundTrip(LiveMap(both));
    DescListDescends(LiveMap(both));
    DescendingUnique(StoreMerge(before, value), LiveOnly(Merged([before, value])));
  }

  /** What a merge makes of a key's value in the test store; the first value is kept as it is. */
  ghost function Applied(stored: Option<PostingList>, value: PostingList): PostingList {
    if stored.None? then value else StoreMerge(stored.value, value)
  }

  /** The test store's value after these merges of an absent key, one after another. */
  ghost function AfterMerges(values: seq<PostingList>): Option<PostingList> {
    if values == [] then None else Some(Applied(AfterMerges(values[..|values| - 1]), values[|values| - 1]))
  }

  lemma {:induction false} AfterMergesIs(values: seq<PostingList>)
    requires values != [] && forall i :: 0 <= i < |values| ==> Descending(values[i])
    ensures var l := AfterMerges(values).value;
      && Descending(l) && LiveMap(ToMap(l)) == LiveMap(Overlay(values))
      && (|values| > 1 ==> l == DescList(LiveMap(Overlay(values))))
    decreases |values|
  {
    var front, last := values[..|values| - 1], values[|values| - 1];
    if front == [] {
      assert values == [last];
      OverlayOne(last);
    } else {
      AfterMergesIs(front);
      var before := AfterMerges(front).value;
      StoreMergeIs(before, last);
      LiveMapOverride(ToMap(before), ToMap(last));
      LiveMapOverride(Overlay(front), ToMap(last));
      LiveTwice(Overlay(values));
      DescListDescends(LiveMap(Overlay(values)));
      DescListRoundTrip(LiveMap(Overlay(values)));
    }
  }

  lemma LiveTwice(m: map<nat, nat>)
    ensures LiveMap(LiveMap(m)) == LiveMap(m)
  {
  }

  /** After any merges the test store shows what the heap's full merge of them all does, and holds the
      same list exactly when the live documents fit and its only list, if there is just one, has no
      tombstone. */
  lemma FirstValueVerbatim(values: seq<PostingList>, max: nat)
    requires values != [] && forall i :: 0 <= i < |values| ==> Descending(values[i])
    ensures var l := AfterMerges(values).value;
      && LiveMap(ToMap(l)) == LiveMap(Overlay(values))
      && (FullMerge(values, max) == l <==>
            FullFits(values, max) && (|values| > 1 || forall e :: e in values[0] ==> Live(e)))
  {
    var l, live := AfterMerges(values).value, LiveOnly(Merged(values));
    AfterMergesIs(values);
    MergedMeaning(values);
    if |values| > 1 {
      DescListDescends(LiveMap(Overlay(values)));
      DescListRoundTrip(LiveMap(Overlay(values)));
      DescendingUnique(l, live);
    } else {
      assert values == [values[0]];
      FirstOnly(values[0], max);
    }
  }

  lemma FirstOnly(value: PostingList, max: nat)
    requires Descending(value)
    ensures FullMerge([value], max) == value <==> FullFits([value], max) && forall e :: e in value ==> Live(e)
  {
    MergedOfOne(value);
    LiveOnlyLength(value);
    LiveOnlyProps(value);
    if FullMerge([value], max) == value {
      forall e | e in value ensures Live(e) {
        assert e in LiveOnly(value);
      }
    }
  }

  lemma {:induction false} LiveOnlyLength(l: PostingList)
    ensures |LiveOnly(l)| <= |l|
    ensures (forall e :: e in l ==> Live(e)) ==> LiveOnly(l) == l
  {
    if l != [] {
      LiveOnlyLength(l[1..]);
    }
  }

  /** Lists the map in decreasing key order. */
  method Emit(m: map<nat, nat>) returns (l: PostingList)
    ensures l == DescList(m)
  {
    l := [];
    var rest := m;
    while rest != map[]
      invariant l + DescList(rest) == DescList(m)
      decreases |rest|
    {
      MaxKeyExists(rest.Keys);
      var k: nat :| k in rest && forall j :: j in rest ==> j <= k;
      assert rest.Keys == (rest - {k}).Keys + {k};
      assert k == MaxKey(rest);
      l := l + [Entry(k, rest[k])];
      rest := rest - {k};
    }
  }

  /** Combines a buffered value with the next one for the same key. */
  method MergeIntoBuffer(before: PostingList, value: PostingList) returns (l: PostingList)
    requires WellFormed(before) && WellFormed(value)
    ensures l == BufferMerge(before, value)
  {
    var docs := Collect(map[], before, false);
    docs := Collect(docs, value, false);
    l := Emit(docs);
  }

  /** Applies a merge to a key's value; an absent key is given the value as it is. */
  method MergeIntoStore(stored: Option<PostingList>, value: PostingList) returns (l: PostingList)
    requires (stored.Some? ==> WellFormed(stored.value)) && WellFormed(value)
    ensures l == Applied(stored, value)
  {
    if stored.None? {
      return value;
    }
    var docs := Collect(map[], stored.value, true);
    docs := Collect(docs, value, true);
    l := Emit(docs);
  }

  method Collect(m: map<nat, nat>, l: PostingList, erase: bool) returns (docs: map<nat, nat>)
    requires WellFormed(l)
    ensures docs == if erase then Erasing(m, l) else Setting(m, l)
  {
    docs := m;
    var pos := 0;
    while pos < |l|
      invariant pos <= |l|
      invariant erase ==> Erasing(docs, l[pos..]) == Erasing(m, l)
      invariant !erase ==> Setting(docs, l[pos..]) == Setting(m, l)
    {
      assert l[pos..][1..] == l[pos + 1..];
      if erase && !Live(l[pos]) {
        docs := docs - {l[pos].id};
      } else {
        docs := docs[l[pos].id := l[pos].state];
      }
      pos := pos + 1;
    }
  }
}
