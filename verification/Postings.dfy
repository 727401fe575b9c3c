/** Posting lists and what a stack of them means.

    A posting list is a strictly decreasing list of document ids, each with a state
    (0 = present, 1 = tombstone).  A stack of lists, oldest first, means the map that
    gives every mentioned id the state of the newest list mentioning it. */
module Postings {

  datatype Entry = Entry(id: nat, state: nat)

  type PostingList = seq<Entry>

  const DELETED := 1

  predicate Live(e: Entry) { e.state != DELETED }

  predicate Descending(l: PostingList) {
    forall i, j :: 0 <= i < j < |l| ==> l[i].id > l[j].id
  }

  /** What every list handed to the store satisfies; id 0 is the end marker. */
  predicate WellFormed(l: PostingList) {
    Descending(l) && forall i :: 0 <= i < |l| ==> l[i].id > 0
  }

  predicate AllWellFormed(ls: seq<PostingList>) {
    forall i :: 0 <= i < |ls| ==> WellFormed(ls[i])
  }

  predicate Mentions(l: PostingList, id: nat) {
    exists k :: 0 <= k < |l| && l[k].id == id
  }

  function ToMap(l: PostingList): map<nat, nat> {
    if l == [] then map[] else ToMap(l[1..])[l[0].id := l[0].state]
  }

  /** Oldest list first: a later list overrides an earlier one. */
  function Overlay(ls: seq<PostingList>): map<nat, nat> {
    if ls == [] then map[] else Overlay(ls[..|ls| - 1]) + ToMap(ls[|ls| - 1])
  }

  function LiveOnly(l: PostingList): PostingList {
    if l == [] then []
    else if Live(l[0]) then [l[0]] + LiveOnly(l[1..])
    else LiveOnly(l[1..])
  }

  function Take(l: PostingList, n: nat): PostingList {
    if |l| <= n then l else l[..n]
  }

  ghost function LiveMap(m: map<nat, nat>): map<nat, nat> {
    map id | id in m && m[id] != DELETED :: m[id]
  }

  ghost function MaxKey(m: map<nat, nat>): (k: nat)
    requires m != map[]
    ensures k in m && forall j :: j in m ==> j <= k
  {
    MaxKeyExists(m.Keys);
    var k :| k in m && forall j :: j in m ==> j <= k;
    k
  }

  lemma {:induction false} MaxKeyExists(s: set<nat>)
    requires s != {}
    ensures exists k :: k in s && forall j :: j in s ==> j <= k
  {
    var x :| x in s;
    if s != {x} {
      MaxKeyExists(s - {x});
      var k :| k in s - {x} && forall j :: j in s - {x} ==> j <= k;
      var m := if x > k then x else k;
      assert forall j :: j in s ==> j == x || j in s - {x};
      assert m in s && forall j :: j in s ==> j <= m;
    } else {
      assert x in s && forall j :: j in s ==> j <= x;
    }
  }

  /** The descending list of a map: the one descending list that means it. */
  ghost function DescList(m: map<nat, nat>): PostingList
    decreases |m|
  {
    if m == map[] then []
    else
      var k := MaxKey(m);
      assert m.Keys == (m - {k}).Keys + {k};
      [Entry(k, m[k])] + DescList(m - {k})
  }

  /** The k-way merge of a stack of lists. */
  ghost function Merged(ls: seq<PostingList>): PostingList { DescList(Overlay(ls)) }

  lemma {:induction false} ToMapIn(l: PostingList, id: nat)
    ensures id in ToMap(l) <==> Mentions(l, id)
  {
    if l != [] {
      ToMapIn(l[1..], id);
      if Mentions(l[1..], id) {
        var k :| 0 <= k < |l[1..]| && l[1..][k].id == id;
        assert l[k + 1].id == id;
      }
      if Mentions(l, id) && l[0].id != id {
        var k :| 0 <= k < |l| && l[k].id == id;
        assert l[1..][k - 1].id == id;
      }
    }
  }

  lemma {:induction false} ToMapAt(l: PostingList, k: nat)
    requires Descending(l) && k < |l|
    ensures l[k].id in ToMap(l) && ToMap(l)[l[k].id] == l[k].state
  {
    if k > 0 {
      assert l[1..][k - 1] == l[k];
      ToMapAt(l[1..], k - 1);
    }
  }

  lemma {:induction false} OverlayIn(ls: seq<PostingList>, id: nat)
    ensures id in Overlay(ls) <==> exists p :: 0 <= p < |ls| && Mentions(ls[p], id)
  {
    if ls != [] {
      var n := |ls| - 1;
      OverlayIn(ls[..n], id);
      ToMapIn(ls[n], id);
      if id in Overlay(ls[..n]) {
        var p :| 0 <= p < n && Mentions(ls[..n][p], id);
        assert Mentions(ls[p], id);
      }
      if p :| 0 <= p < |ls| && Mentions(ls[p], id) {
        if p < n { assert Mentions(ls[..n][p], id); }
      }
    }
  }

  /** The state of an id is the one in the newest list that mentions it. */
  lemma {:induction false} OverlayNewest(ls: seq<PostingList>, p: nat, k: nat)
    requires p < |ls| && Descending(ls[p]) && k < |ls[p]|
    requires forall q :: p < q < |ls| ==> !Mentions(ls[q], ls[p][k].id)
    ensures ls[p][k].id in Overlay(ls) && Overlay(ls)[ls[p][k].id] == ls[p][k].state
  {
    var n := |ls| - 1;
    if p == n {
      ToMapAt(ls[n], k);
    } else {
      assert ls[..n][p] == ls[p];
      OverlayNewest(ls[..n], p, k);
      ToMapIn(ls[n], ls[p][k].id);
    }
  }

  lemma {:induction false} OverlayConcat(a: seq<PostingList>, b: seq<PostingList>)
    ensures Overlay(a + b) == Overlay(a) + Overlay(b)
  {
    if b == [] {
      assert a + b == a;
    } else {
      var n := |b| - 1;
      assert (a + b)[..|a + b| - 1] == a + b[..n];
      OverlayConcat(a, b[..n]);
      OverrideAssociates(Overlay(a), Overlay(b[..n]), ToMap(b[n]));
    }
  }

  lemma OverrideAssociates(x: map<nat, nat>, y: map<nat, nat>, z: map<nat, nat>)
    ensures x + y + z == x + (y + z)
  {
  }

  lemma OverlayOne(l: PostingList)
    ensures Overlay([l]) == ToMap(l)
  {
    assert Overlay([l]) == Overlay([][..]) + ToMap(l);
    assert Overlay([]) == map[];
  }

  /** The list holds exactly the map's pairs ... */
  lemma {:induction false} DescListIn(m: map<nat, nat>, e: Entry)
    ensures e in DescList(m) <==> e.id in m && m[e.id] == e.state
    decreases |m|
  {
    if m != map[] {
      var k := MaxKey(m);
      assert m.Keys == (m - {k}).Keys + {k};
      DescListIn(m - {k}, e);
    }
  }

  /** ... in decreasing order. */
  lemma {:induction false} DescListDescends(m: map<nat, nat>)
    ensures Descending(DescList(m))
    decreases |m|
  {
    if m != map[] {
      var k := MaxKey(m);
      assert m.Keys == (m - {k}).Keys + {k};
      DescListDescends(m - {k});
      var l := DescList(m);
      forall j | 1 <= j < |l| ensures l[0].id > l[j].id {
        assert l[j] == DescList(m - {k})[j - 1];
        DescListIn(m - {k}, l[j]);
      }
    }
  }

  lemma DescListRoundTrip(m: map<nat, nat>)
    ensures ToMap(DescList(m)) == m
  {
    var l := DescList(m);
    DescListDescends(m);
    forall id ensures id in ToMap(l) <==> id in m {
      ToMapIn(l, id);
      if id in m {
        DescListIn(m, Entry(id, m[id]));
      }
      if k :| 0 <= k < |l| && l[k].id == id {
        DescListIn(m, l[k]);
      }
    }
    forall id | id in m ensures ToMap(l)[id] == m[id] {
      DescListIn(m, Entry(id, m[id]));
      var k :| 0 <= k < |l| && l[k] == Entry(id, m[id]);
      ToMapAt(l, k);
    }
  }

  /** A descending list is determined by the map it means. */
  lemma {:induction false} DescendingUnique(a: PostingList, b: PostingList)
    requires Descending(a) && Descending(b) && ToMap(a) == ToMap(b)
    ensures a == b
  {
    if a == [] || b == [] {
      if a != [] { ToMapAt(a, 0); }
      if b != [] { ToMapAt(b, 0); }
    } else {
      ToMapAt(a, 0);
      ToMapAt(b, 0);
      ToMapIn(a, b[0].id);
      ToMapIn(b, a[0].id);
      assert a[0] == b[0];
      TailMap(a);
      TailMap(b);
      DescendingUnique(a[1..], b[1..]);
    }
  }

  lemma TailMap(a: PostingList)
    requires a != [] && Descending(a)
    ensures ToMap(a[1..]) == ToMap(a) - {a[0].id}
  {
    ToMapIn(a[1..], a[0].id);
  }

  lemma {:induction false} LiveOnlyConcat(a: PostingList, b: PostingList)
    ensures LiveOnly(a + b) == LiveOnly(a) + LiveOnly(b)
  {
    if a == [] {
      assert a + b == b;
    } else {
      assert (a + b)[1..] == a[1..] + b;
      LiveOnlyConcat(a[1..], b);
    }
  }

  lemma {:induction false} LiveOnlyProps(l: PostingList)
    requires Descending(l)
    ensures Descending(LiveOnly(l))
    ensures forall e :: e in LiveOnly(l) <==> e in l && Live(e)
    ensures ToMap(LiveOnly(l)) == LiveMap(ToMap(l))
  {
    if l != [] {
      var r := l[1..];
      LiveOnlyProps(r);
      ToMapIn(r, l[0].id);
      var a := LiveOnly(l);
      assert forall e :: e in l <==> e == l[0] || e in r;
      if Live(l[0]) {
        assert a[1..] == LiveOnly(r);
        forall j | 1 <= j < |a| ensures a[0].id > a[j].id {
          assert a[j] == LiveOnly(r)[j - 1];
          assert a[j] in r;
        }
      }
      assert l[0].id !in ToMap(r);
      assert ToMap(a) == LiveMap(ToMap(l));
    }
  }

  /** Merging what is already merged changes nothing. */
  lemma MergedOfOne(l: PostingList)
    requires Descending(l)
    ensures Merged([l]) == l
  {
    OverlayOne(l);
    DescListDescends(ToMap(l));
    DescListRoundTrip(ToMap(l));
    DescendingUnique(Merged([l]), l);
  }
}
