/** Document iterators: posting-list readers, intersections and unions, nested at will.

    The source's iterator classes share one interface and call each other through it; here they are
    one class with a kind.  `Rest` is the set of ids still to come, and every operation is specified
    on it, whatever the kind. */
module Iterators {
  import opened Basics

  const NO_MORE_DOCS := 0
  const MAX_DOCID := 0xFFFF_FFFF_FFFF_FFFF

  // ---------------------------------------------------------------------------
  // Sets of ids

  predicate Decreasing(s: seq<nat>) { forall i, j :: 0 <= i < j < |s| ==> s[i] > s[j] }

  predicate IdRange(s: seq<nat>) { forall i :: 0 <= i < |s| ==> 0 < s[i] <= MAX_DOCID }

  function IdsFrom(s: seq<nat>, pos: nat): set<nat> { set k | pos <= k < |s| :: s[k] }

  ghost function AtMost(s: set<nat>, target: nat): set<nat> { set d | d in s && d <= target }

  /** The largest member, or 0 when there is none. */
  ghost function Top(s: set<nat>): (t: nat)
    ensures s == {} ==> t == 0
    ensures s != {} ==> t in s
    ensures forall d :: d in s ==> d <= t
  {
    if s == {} then 0
    else
      var x :| x in s;
      var t := Top(s - {x});
      assert forall d :: d in s ==> d == x || d in s - {x};
      if x > t then x else t
  }

  lemma TopIs(s: set<nat>, t: nat)
    requires t in s && forall d :: d in s ==> d <= t
    ensures Top(s) == t
  {
  }

  ghost function Inter(rs: seq<set<nat>>): set<nat> {
    if rs == [] then {} else set d | d in rs[0] && forall i :: 0 <= i < |rs| ==> d in rs[i]
  }

  ghost function Indices(n: nat): set<nat> {
    if n == 0 then {} else Indices(n - 1) + {n - 1}
  }

  lemma {:induction false} InIndices(n: nat, i: nat)
    ensures i in Indices(n) <==> i < n
  {
    if n > 0 { InIndices(n - 1, i); }
  }

  ghost function AtMostEach(rs: seq<set<nat>>, target: nat): seq<set<nat>> {
    seq(|rs|, i requires 0 <= i < |rs| => AtMost(rs[i], target))
  }

  /** Some members already cut at the target. */
  ghost function Partly(rs: seq<set<nat>>, done: set<nat>, target: nat): seq<set<nat>> {
    seq(|rs|, i requires 0 <= i < |rs| => if i in done then AtMost(rs[i], target) else rs[i])
  }

  lemma PartlyStep(rs: seq<set<nat>>, done: set<nat>, i: nat, target: nat)
    requires i < |rs|
    requires Top(Partly(rs, done, target)[i]) > target
    ensures i !in done && Partly(rs, done, target)[i] == rs[i] && target < Top(rs[i])
    ensures Partly(rs, done, target)[i := AtMost(rs[i], target)] == Partly(rs, done + {i}, target)
  {
  }

  lemma PartlyAll(rs: seq<set<nat>>, done: set<nat>, target: nat)
    requires forall i :: 0 <= i < |rs| ==> Top(Partly(rs, done, target)[i]) <= target
    ensures Partly(rs, done, target) == AtMostEach(rs, target)
  {
    forall i | 0 <= i < |rs| ensures Partly(rs, done, target)[i] == AtMost(rs[i], target) {
      assert forall d :: d in Partly(rs, done, target)[i] ==> d <= target;
    }
  }

  ghost function NextEach(rs: seq<set<nat>>): seq<set<nat>> {
    seq(|rs|, i requires 0 <= i < |rs| => rs[i] - {Top(rs[i])})
  }

  lemma InterAtMost(rs: seq<set<nat>>, target: nat)
    ensures Inter(AtMostEach(rs, target)) == AtMost(Inter(rs), target)
  {
    var ts := AtMostEach(rs, target);
    if rs != [] {
      forall d ensures d in Inter(ts) <==> d in AtMost(Inter(rs), target) {
        if d in Inter(ts) {
          assert d in ts[0];
          assert forall i :: 0 <= i < |rs| ==> d in ts[i] ==> d in rs[i];
        }
      }
    }
  }

  lemma UnionAtMost(rs: seq<set<nat>>, target: nat)
    ensures Union(AtMostEach(rs, target)) == AtMost(Union(rs), target)
  {
    var ts := AtMostEach(rs, target);
    forall d | d in AtMost(Union(rs), target) ensures d in Union(ts) {
      var i :| 0 <= i < |rs| && d in rs[i];
      assert d in ts[i];
    }
  }

  lemma InterNext(rs: seq<set<nat>>, c: nat)
    requires forall i :: 0 <= i < |rs| ==> Top(rs[i]) == c
    ensures Inter(NextEach(rs)) == Inter(rs) - {c}
  {
    var ts := NextEach(rs);
    if rs != [] {
      forall d ensures d in Inter(ts) <==> d in Inter(rs) - {c} {
        if d in Inter(ts) {
          assert d in ts[0];
          assert forall i :: 0 <= i < |rs| ==> d in ts[i] ==> d in rs[i];
        }
      }
    }
  }

  lemma InterGrows(rs: seq<set<nat>>, ts: seq<set<nat>>)
    requires |rs| == |ts| && forall i :: 0 <= i < |rs| ==> rs[i] <= ts[i]
    ensures Inter(rs) <= Inter(ts)
  {
  }

  /** Nothing above the smallest top is common to all. */
  lemma LeapKeeps(rs: seq<set<nat>>, min: nat)
    requires rs != [] ==> exists i :: 0 <= i < |rs| && Top(rs[i]) == min
    ensures Inter(AtMostEach(rs, min)) == Inter(rs)
  {
    InterAtMost(rs, min);
    forall d | d in Inter(rs) ensures d <= min {
      var i :| 0 <= i < |rs| && Top(rs[i]) == min;
      assert d in rs[i];
    }
  }

  lemma AgreedTop(rs: seq<set<nat>>, m: nat)
    requires forall i :: 0 <= i < |rs| ==> Top(rs[i]) == m
    requires rs == [] ==> m == 0
    requires forall i :: 0 <= i < |rs| ==> 0 !in rs[i]
    ensures Top(Inter(rs)) == m
  {
    if m != 0 {
      assert forall i :: 0 <= i < |rs| ==> m in rs[i];
      TopIs(Inter(rs), m);
    } else if rs != [] {
      assert rs[0] == {};
    }
  }

  lemma UnionTop(rs: seq<set<nat>>, k: nat)
    requires k < |rs| && forall i :: 0 <= i < |rs| ==> Top(rs[i]) <= Top(rs[k])
    ensures Top(Union(rs)) == Top(rs[k])
  {
    forall d | d in Union(rs) ensures d <= Top(rs[k]) {
      var i :| 0 <= i < |rs| && d in rs[i];
      assert d <= Top(rs[i]);
    }
    if rs[k] != {} {
      TopIs(Union(rs), Top(rs[k]));
    } else if Union(rs) != {} {
      assert Top(Union(rs)) == 0;
    }
  }

  lemma TopOfUnion(rs: seq<set<nat>>)
    ensures forall i :: 0 <= i < |rs| ==> Top(rs[i]) <= Top(Union(rs))
  {
    forall i | 0 <= i < |rs| ensures Top(rs[i]) <= Top(Union(rs)) {
      if rs[i] != {} { assert Top(rs[i]) in Union(rs); }
    }
  }

  lemma IdsNext(s: seq<nat>, pos: nat)
    requires Decreasing(s) && pos < |s|
    ensures Top(IdsFrom(s, pos)) == s[pos]
    ensures IdsFrom(s, pos + 1) == IdsFrom(s, pos) - {s[pos]}
  {
    TopIs(IdsFrom(s, pos), s[pos]);
  }

  /** What each of these sets is headed by. */
  ghost function Heads(rs: seq<set<nat>>): seq<nat> { seq(|rs|, i requires 0 <= i < |rs| => Top(rs[i])) }

  /** The smallest of the first n heads, and whether they differ. */
  ghost predicate MinSoFar(heads: seq<nat>, n: nat, min: nat, differ: bool) {
    && n <= |heads|
    && (n == 0 ==> min == NO_MORE_DOCS && !differ)
    && (n > 0 ==> exists i :: 0 <= i < n && heads[i] == min)
    && (if differ then exists i :: 0 <= i < n && min < heads[i] else forall i :: 0 <= i < n ==> heads[i] == min)
  }

  lemma MinNext(heads: seq<nat>, n: nat, min: nat, differ: bool)
    requires n < |heads| && MinSoFar(heads, n, min, differ)
    ensures var h := heads[n];
      if n == 0 then MinSoFar(heads, 1, h, false)
      else if h < min then MinSoFar(heads, n + 1, h, true)
      else MinSoFar(heads, n + 1, min, differ || h > min)
  {
    assert heads[n] == heads[n];
  }

  lemma MinIsFound(rs: seq<set<nat>>, min: nat, differ: bool)
    requires MinSoFar(Heads(rs), |rs|, min, differ)
    ensures rs == [] ==> min == NO_MORE_DOCS && !differ
    ensures rs != [] ==> exists i :: 0 <= i < |rs| && Top(rs[i]) == min
    ensures !differ ==> forall i :: 0 <= i < |rs| ==> Top(rs[i]) == min
    ensures differ ==> exists i :: 0 <= i < |rs| && min < Top(rs[i])
  {
    assert forall i :: 0 <= i < |rs| ==> Heads(rs)[i] == Top(rs[i]);
  }

  /** What one move leaves: without a target, all but the current id; with one, the ids at or below
      it.  MAX_DOCID, used once at start-up, may rewind instead. */
  ghost predicate Stepped(before: set<nat>, after: set<nat>, useAdvance: bool, target: nat) {
    if !useAdvance then after == before - {Top(before)}
    else if target == MAX_DOCID then before <= after
    else after == AtMost(before, target)
  }

  lemma AtMostIsStep(s: set<nat>, useAdvance: bool, target: nat)
    requires forall d :: d in s ==> d <= MAX_DOCID
    requires !useAdvance ==> Top(s) == target + 1
    ensures Stepped(s, AtMost(s, target), useAdvance, target)
  {
  }

  /** Moving every member of an intersection moves the intersection, if members agree on their top. */
  lemma InterStepped(rs: seq<set<nat>>, ts: seq<set<nat>>, useAdvance: bool, target: nat)
    requires |rs| == |ts| && forall i :: 0 <= i < |rs| ==> Stepped(rs[i], ts[i], useAdvance, target)
    requires !useAdvance ==> forall i :: 0 <= i < |rs| ==> Top(rs[i]) == Top(Inter(rs))
    ensures Stepped(Inter(rs), Inter(ts), useAdvance, target)
  {
    if !useAdvance {
      assert ts == NextEach(rs);
      InterNext(rs, Top(Inter(rs)));
    } else if target != MAX_DOCID {
      assert ts == AtMostEach(rs, target);
      InterAtMost(rs, target);
    } else {
      InterGrows(rs, ts);
    }
  }

  // ---------------------------------------------------------------------------
  // The iterators

  class DocIterator {
    const kind: Kind
    const ids: seq<nat>
    const children: seq<DocIterator>
    var pos: nat
    var curr: nat
    var heap: seq<DocIterator>

    ghost const Repr: set<DocIterator>
    ghost const All: set<nat>
    ghost var Rest: set<nat>

    constructor Read(list: seq<nat>)
      requires Decreasing(list) && IdRange(list)
      ensures Valid() && fresh(Repr) && Rest == All == IdsFrom(list, 0)
    {
      kind, ids, children := Reader, list, [];
      pos, curr, heap := 0, NO_MORE_DOCS, [];
      Repr, All, Rest := {this}, IdsFrom(list, 0), IdsFrom(list, 0);
    }

    /** An intersection; ready to use once its children have been rewound and matched. */
    constructor And(subs: seq<DocIterator>)
      requires Fresh(subs)
      modifies ReprOf(subs)
      ensures Valid() && fresh(Repr - ReprOf(subs)) && Rest == All == Inter(AllOf(subs))
    {
      kind, ids, children := Merge, [], subs;
      pos, curr, heap := 0, NO_MORE_DOCS, [];
      Repr, All, Rest := {this} + ReprOf(subs), Inter(AllOf(subs)), {};
      new;
      LinkAll(subs);
      Start();
    }

    /** A union; ready to use once its children are on the heap. */
    constructor Any(subs: seq<DocIterator>)
      requires Fresh(subs)
      ensures Valid() && fresh(Repr - ReprOf(subs)) && Rest == All == Union(AllOf(subs))
    {
      kind, ids, children := Or, [], subs;
      pos, curr, heap := 0, NO_MORE_DOCS, subs;
      Repr, All, Rest := {this} + ReprOf(subs), Union(AllOf(subs)), {};
      new;
      LinkAll(subs);
      PushHeap();
      Record(All);
    }

    lemma LinkAll(subs: seq<DocIterator>)
      requires Fresh(subs) && children == subs && Repr == {this} + ReprOf(subs) && this !in ReprOf(subs)
      requires kind.Merge? || kind.Or?
      requires kind.Merge? ==> All == Inter(AllOf(subs)) && heap == []
      requires kind.Or? ==> All == Union(AllOf(subs)) && heap == subs
      ensures Linked() && Rests() == AllOf(subs) == Alls()
    {
      forall i | 0 <= i < |subs| ensures subs[i] in Repr && subs[i].Repr <= ReprOf(subs) {
        assert subs[i].Valid();
        assert forall x :: x in subs[i].Repr ==> x in ReprOf(subs);
      }
      forall d | d in All ensures 0 < d <= MAX_DOCID {
        if kind.Merge? {
          assert d in AllOf(subs)[0] && subs[0].Valid();
        } else {
          var i :| 0 <= i < |subs| && d in AllOf(subs)[i];
          assert subs[i].Valid();
        }
      }
      assert Alls() == AllOf(subs);
    }

    method Start()
      requires Linked() && kind.Merge? && Rests() == Alls()
      modifies Repr
      ensures Valid() && Rest == All
    {
      StepChildren(true, MAX_DOCID);
      ChildrenInRange();
      forall i | 0 <= i < |children| ensures Rests()[i] == Alls()[i] {
        assert Stepped(old(Rests())[i], Rests()[i], true, MAX_DOCID);
      }
      assert Rests() == Alls();
      var _ := Settle();
    }

    /** The tree is well formed and every child is in order; says nothing about this node's own
        position. */
    ghost predicate Linked()
      reads this, Repr
      decreases Repr, 0
    {
      && this in Repr
      && (forall d :: d in All ==> 0 < d <= MAX_DOCID)
      && (forall i :: 0 <= i < |children| ==>
            (children[i] in Repr && children[i].Repr < Repr && this !in children[i].Repr && children[i].Valid()))
      && (forall i, j :: 0 <= i < j < |children| ==> children[i].Repr !! children[j].Repr)
      && (forall k :: 0 <= k < |heap| ==> heap[k] in Repr)
      && match kind
         case Reader => children == [] && Decreasing(ids) && IdRange(ids) && All == IdsFrom(ids, 0)
         case Merge => All == Inter(Alls())
         case Or => multiset(heap) == multiset(children) && All == Union(Alls())
    }

    ghost predicate Valid()
      reads this, Repr
      decreases Repr, 3
    {
      && Linked()
      && Rest <= All
      && match kind
         case Reader => pos <= |ids| && Rest == IdsFrom(ids, pos)
         case Merge =>
           && Rest == Inter(Rests())
           && curr == Top(Rest)
           && (forall i :: 0 <= i < |children| ==> Top(Rests()[i]) == curr)
         case Or => Rest == Union(Rests()) && FrontIsTop()
    }

    ghost function Alls(): seq<set<nat>> { seq(|children|, i requires 0 <= i < |children| => children[i].All) }

    /** What each child still has to come. */
    ghost function Rests(): (rs: seq<set<nat>>)
      requires Linked()
      reads this, Repr
      ensures |rs| == |children| && forall i :: 0 <= i < |rs| ==> rs[i] == children[i].Rest
      decreases Repr, 1
    {
      seq(|children|, i requires 0 <= i < |children| reads if 0 <= i < |children| then {children[i]} else {} => children[i].Rest)
    }

    /** No child is ahead of the front of the heap. */
    ghost predicate FrontIsTop()
      requires Linked()
      reads this, Repr
      decreases Repr, 2
    {
      heap != [] ==> forall i :: 0 <= i < |children| ==> Top(Rests()[i]) <= Top(heap[0].Rest)
    }

    lemma HeapMember(k: nat) returns (i: nat)
      requires Linked() && kind.Or? && k < |heap|
      ensures i < |children| && children[i] == heap[k]
    {
      assert heap[k] in multiset(heap);
      assert heap[k] in children;
      i :| 0 <= i < |children| && children[i] == heap[k];
    }

    lemma ChildOnHeap(i: nat) returns (k: nat)
      requires Linked() && kind.Or? && i < |children|
      ensures k < |heap| && children[i] == heap[k]
    {
      assert children[i] in multiset(children);
      assert children[i] in heap;
      k :| 0 <= k < |heap| && children[i] == heap[k];
    }

    lemma ChildrenInRange()
      requires Linked()
      ensures forall i :: 0 <= i < |children| ==> 0 !in Rests()[i] && Top(Rests()[i]) <= MAX_DOCID
      ensures |Alls()| == |Rests()| && forall i :: 0 <= i < |children| ==> Rests()[i] <= Alls()[i]
    {
      forall i | 0 <= i < |children| ensures Rests()[i] <= Alls()[i] && 0 !in Rests()[i] && Top(Rests()[i]) <= MAX_DOCID {
        assert children[i].Valid();
        assert children[i].Rest <= children[i].All;
      }
    }

    /** Nodes below are untouched by changes to this node's own fields. */
    twostate lemma OnlyThisChanged()
      requires old(Linked()) && unchanged(Repr - {this})
      requires forall k :: 0 <= k < |heap| ==> heap[k] in Repr
      requires kind.Or? ==> multiset(heap) == multiset(children)
      ensures Linked() && Rests() == old(Rests())
    {
      forall j | 0 <= j < |children| ensures children[j].Valid() && children[j].Rest == old(children[j].Rest) {
        assert old(children[j].Valid());
        assert unchanged(children[j].Repr);
      }
    }

    method DocID() returns (d: nat)
      requires Valid()
      ensures d == Top(Rest)
      decreases Repr
    {
      match kind
      case Reader =>
        if pos >= |ids| { return NO_MORE_DOCS; }
        IdsNext(ids, pos);
        return ids[pos];
      case Merge =>
        return curr;
      case Or =>
        if heap == [] {
          assert |multiset(children)| == |children|;
          return NO_MORE_DOCS;
        }
        ghost var i := HeapMember(0);
        UnionTop(Rests(), i);
        d := heap[0].DocID();
    }

    method Advance(target: nat) returns (d: nat)
      requires Valid()
      requires target <= MAX_DOCID && (kind.Or? || target == MAX_DOCID || target <= Top(Rest))
      modifies Repr
      ensures Valid() && Stepped(old(Rest), Rest, true, target) && d == Top(Rest)
      decreases Repr, 2
    {
      match kind
      case Reader =>
        ForwardSeek(target);
        Seek(target);
        d := DocID();
      case Merge => d := NextMatch(true, target);
      case Or => d := NextAny(true, target);
    }

    method NextDoc() returns (d: nat)
      requires Valid()
      modifies Repr
      ensures Valid() && Stepped(old(Rest), Rest, false, 0) && d == Top(Rest)
      decreases Repr, 2
    {
      match kind
      case Reader => d := ReadNext();
      case Merge => d := NextMatch(false, 0);
      case Or =>
        d := DocID();
        if d != NO_MORE_DOCS {
          d := NextAny(false, d - 1);
        }
    }

    // -------------------------------------------------------------------------
    // Posting-list reader

    /** Binary search for the first id at or below the target. */
    method Seek(target: nat)
      requires Valid() && kind.Reader?
      modifies this
      ensures Valid()
      ensures target != MAX_DOCID ==> Rest == AtMost(All, target)
      ensures target == MAX_DOCID ==> Rest == All
    {
      if |ids| == 0 { return; }
      if target == MAX_DOCID {
        pos := 0;
        Rest := All;
        return;
      }
      pos := Search(target);
      if ids[pos] > target {
        pos := |ids|;
      }
      Rest := IdsFrom(ids, pos);
    }

    /** Halves the list until two ids are left, and picks the one to stand on. */
    method Search(target: nat) returns (at: nat)
      requires Decreasing(ids) && ids != []
      ensures at < |ids|
      ensures forall i :: 0 <= i < at ==> ids[i] > target
      ensures forall i :: at < i < |ids| ==> ids[i] < target || ids[at] <= target
      ensures ids[at] > target ==> at == |ids| - 1
    {
      var min, max: nat := 0, |ids| - 1;
      at := (min + max) / 2;
      while min <= max
        invariant 0 <= min <= max < |ids| && at == (min + max) / 2
        invariant min > 0 ==> ids[min] > target
        invariant max < |ids| - 1 ==> ids[max] < target
        decreases max - min
      {
        if ids[at] == target {
          break;
        } else if ids[at] > target {
          min := at;
        } else {
          max := at;
        }
        if max == min {
          break;
        } else if min + 1 == max {
          if ids[min] > target {
            at := max;
          } else {
            at := min;
          }
          break;
        }
        at := (min + max) / 2;
      }
    }

    method ReadNext() returns (d: nat)
      requires Valid() && kind.Reader?
      modifies this
      ensures Valid() && Stepped(old(Rest), Rest, false, 0) && d == Top(Rest)
      decreases Repr, 1
    {
      d := DocID();
      if d != NO_MORE_DOCS {
        StepReader();
      }
      d := DocID();
    }

    method StepReader()
      requires Valid() && kind.Reader? && Rest != {}
      modifies this`pos, this`Rest
      ensures Valid() && Rest == old(Rest) - {Top(old(Rest))}
    {
      assert pos < |ids|;
      IdsNext(ids, pos);
      Rest := Rest - {ids[pos]};
      pos := pos + 1;
    }

    /** A forward seek only drops ids the reader has not passed yet. */
    lemma ForwardSeek(target: nat)
      requires Valid() && kind.Reader?
      requires target == MAX_DOCID || target <= Top(Rest)
      ensures target != MAX_DOCID ==> AtMost(All, target) == AtMost(Rest, target)
    {
      if target != MAX_DOCID && Rest != {} {
        assert Top(Rest) in Rest;
        var k :| pos <= k < |ids| && ids[k] == Top(Rest);
        forall d | d in AtMost(All, target) ensures d in Rest {
          var j :| 0 <= j < |ids| && ids[j] == d;
          assert j >= pos;
        }
      }
    }

    // -------------------------------------------------------------------------
    // Moving children

    /** Moves child i; the others stand still. */
    method StepChild(c: DocIterator, ghost i: nat, useAdvance: bool, target: nat)
      requires Linked() && i < |children| && c == children[i]
      requires useAdvance ==> target <= MAX_DOCID && (target == MAX_DOCID || target <= Top(c.Rest))
      modifies c.Repr
      ensures Linked()
      ensures Stepped(old(Rests()[i]), Rests()[i], useAdvance, target)
      ensures Rests() == old(Rests())[i := c.Rest]
      decreases Repr, 0, 0
    {
      assert this !in c.Repr && c.Repr < Repr && c.Valid();
      forall j | 0 <= j < |children| && j != i ensures children[j].Repr !! c.Repr && children[j] in children[j].Repr {
        assert children[j].Valid();
      }
      label before:
      if useAdvance {
        var _ := c.Advance(target);
      } else {
        var _ := c.NextDoc();
      }
      forall j | 0 <= j < |children| && j != i ensures children[j].Valid() && children[j].Rest == old(children[j].Rest) {
        assert old@before(children[j].Valid());
        assert unchanged@before(children[j].Repr);
      }
      assert c.Valid();
      assert heap == old(heap) && Rest == old(Rest);
    }

    method StepChildren(useAdvance: bool, target: nat)
      requires Linked()
      requires useAdvance ==> target <= MAX_DOCID
      requires useAdvance ==> target == MAX_DOCID || forall i :: 0 <= i < |children| ==> target <= Top(Rests()[i])
      modifies Repr - {this}
      ensures Linked()
      ensures forall i :: 0 <= i < |children| ==> Stepped(old(Rests())[i], Rests()[i], useAdvance, target)
      decreases Repr, 0, 1
    {
      for i := 0 to |children|
        invariant Linked()
        invariant forall j :: 0 <= j < i ==> Stepped(old(Rests())[j], Rests()[j], useAdvance, target)
        invariant forall j :: i <= j < |children| ==> Rests()[j] == old(Rests())[j]
      {
        assert children[i].Rest == Rests()[i] == old(Rests()[i]);
        StepChild(children[i], i, useAdvance, target);
      }
    }

    // -------------------------------------------------------------------------
    // Leapfrog intersection

    /** Moves every child, then settles on the next id they share. */
    method NextMatch(useAdvance: bool, target: nat) returns (d: nat)
      requires Valid() && kind.Merge?
      requires useAdvance ==> target <= MAX_DOCID && (target == MAX_DOCID || target <= Top(Rest))
      modifies Repr
      ensures Valid() && d == Top(Rest)
      ensures Stepped(old(Rest), Rest, useAdvance, target)
      decreases Repr, 1
    {
      forall i | 0 <= i < |children| ensures Top(Rests()[i]) == Top(Rest) {
        assert Top(Rests()[i]) == curr;
      }
      StepChildren(useAdvance, target);
      InterStepped(old(Rests()), Rests(), useAdvance, target);
      d := Settle();
    }

    method Settle() returns (d: nat)
      requires Linked() && kind.Merge?
      modifies Repr
      ensures Valid() && d == Top(Rest) && Rest == Inter(old(Rests()))
      decreases Repr, 0, 3
    {
      d := Leapfrog();
      ChildrenInRange();
      AgreedTop(Rests(), d);
      InterGrows(Rests(), Alls());
      Land(d);
    }

    method Land(d: nat)
      requires Linked() && kind.Merge?
      requires forall i :: 0 <= i < |children| ==> Top(Rests()[i]) == d
      requires Top(Inter(Rests())) == d && Inter(Rests()) <= All
      modifies this`curr, this`Rest
      ensures Valid() && Rest == Inter(old(Rests())) && d == Top(Rest)
    {
      curr := d;
      Rest := Inter(Rests());
      OnlyThisChanged();
    }

    /** Advances the children that are ahead of the one furthest behind, until all agree. */
    method Leapfrog() returns (m: nat)
      requires Linked() && kind.Merge?
      modifies Repr - {this}
      ensures Linked()
      ensures forall i :: 0 <= i < |children| ==> Top(Rests()[i]) == m
      ensures children == [] ==> m == NO_MORE_DOCS
      ensures Inter(Rests()) == Inter(old(Rests()))
      decreases Repr, 0, 2
    {
      ghost var bound := MAX_DOCID;
      ChildrenInRange();
      while true
        invariant Linked()
        invariant Inter(Rests()) == Inter(old(Rests()))
        invariant forall i :: 0 <= i < |children| ==> Top(Rests()[i]) <= bound <= MAX_DOCID
        decreases bound
      {
        var min, retry := FindMin();
        if !retry {
          return min;
        }
        LeapKeeps(Rests(), min);
        AdvanceBeyond(min);
        bound := min;
      }
    }

    method ChildId(i: nat) returns (d: nat)
      requires Linked() && i < |children|
      ensures d == Top(Rests()[i])
      decreases Repr, 0, 0
    {
      d := children[i].DocID();
    }

    /** The smallest id the children stand on, and whether they differ. */
    method FindMin() returns (min: nat, retry: bool)
      requires Linked()
      ensures children == [] ==> min == NO_MORE_DOCS && !retry
      ensures children != [] ==> exists i :: 0 <= i < |children| && Top(Rests()[i]) == min
      ensures !retry ==> forall i :: 0 <= i < |children| ==> Top(Rests()[i]) == min
      ensures retry ==> exists i :: 0 <= i < |children| && min < Top(Rests()[i])
      decreases Repr, 0, 1
    {
      var first := true;
      min, retry := NO_MORE_DOCS, false;
      ghost var heads := Heads(Rests());
      for i := 0 to |children|
        invariant first == (i == 0) && MinSoFar(heads, i, min, retry)
      {
        var docid := ChildId(i);
        MinNext(heads, i, min, retry);
        if first {
          min, first := docid, false;
        } else if docid < min {
          min, retry := docid, true;
        } else if docid > min {
          retry := true;
        }
      }
      MinIsFound(Rests(), min, retry);
    }

    method AdvanceBeyond(min: nat)
      requires Linked() && min < MAX_DOCID
      modifies Repr - {this}
      ensures Linked() && Rests() == AtMostEach(old(Rests()), min)
      decreases Repr, 0, 1
    {
      for i := 0 to |children|
        invariant Linked()
        invariant forall j :: 0 <= j < i ==> Rests()[j] == AtMost(old(Rests())[j], min)
        invariant forall j :: i <= j < |children| ==> Rests()[j] == old(Rests())[j]
      {
        var docid := children[i].DocID();
        if docid > min {
          StepChild(children[i], i, true, min);
        } else {
          assert AtMost(Rests()[i], min) == Rests()[i];
        }
      }
    }

    // -------------------------------------------------------------------------
    // Union over a heap

    /** Moves every child that is past the target, front of the heap first. */
    method NextAny(useAdvance: bool, target: nat) returns (d: nat)
      requires Valid() && kind.Or?
      requires target <= MAX_DOCID && (useAdvance || Top(Rest) == target + 1)
      modifies Repr
      ensures Valid() && d == Top(Rest)
      ensures Stepped(old(Rest), Rest, useAdvance, target)
      decreases Repr, 1
    {
      if heap == [] {
        assert |multiset(children)| == |children|;
        return NO_MORE_DOCS;
      }
      d := NextOfSome(useAdvance, target);
    }

    method NextOfSome(useAdvance: bool, target: nat) returns (d: nat)
      requires Valid() && kind.Or? && heap != []
      requires target <= MAX_DOCID && (useAdvance || Top(Rest) == target + 1)
      modifies Repr
      ensures Valid() && d == Top(Rest)
      ensures Stepped(old(Rest), Rest, useAdvance, target)
      decreases Repr, 0, 5
    {
      AtMostIsStep(Rest, useAdvance, target);
      PopPast(useAdvance, target);
      d := DocID();
    }

    method PopPast(useAdvance: bool, target: nat)
      requires Valid() && kind.Or? && heap != []
      requires target <= MAX_DOCID && (useAdvance || Top(Rest) == target + 1)
      modifies Repr
      ensures Valid() && Rest == AtMost(old(Rest), target)
      decreases Repr, 0, 4
    {
      TopOfUnion(Rests());
      PopAhead(useAdvance, target);
      UnionAtMost(old(Rests()), target);
      Record(AtMost(Rest, target));
    }

    ghost method Record(rest: set<nat>)
      requires Linked() && kind.Or? && FrontIsTop()
      requires rest == Union(Rests()) && rest <= All
      modifies this`Rest
      ensures Valid() && Rest == rest
    {
      if heap != [] { var i := HeapMember(0); }
      Rest := rest;
      OnlyThisChanged();
    }

    method PopAhead(useAdvance: bool, target: nat)
      requires Linked() && kind.Or? && heap != [] && FrontIsTop()
      requires !useAdvance ==> forall i :: 0 <= i < |children| ==> Top(Rests()[i]) <= target + 1
      requires target <= MAX_DOCID
      modifies Repr - {this}, this`heap
      ensures Linked() && FrontIsTop() && heap != []
      ensures Rests() == AtMostEach(old(Rests()), target)
      decreases Repr, 0, 3
    {
      ghost var done: set<nat> := {};
      ghost var rs := Rests();
      var more := true;
      while more
        invariant Linked() && FrontIsTop() && heap != []
        invariant Rests() == if more then Partly(rs, done, target) else AtMostEach(rs, target)
        decreases more, Indices(|children|) - done
      {
        ghost var i;
        more, i := StepIfPast(rs, done, useAdvance, target);
        done := done + {i};
      }
    }

    /** Moves the front child if it is past the target; if it is not, no child is. */
    method StepIfPast(ghost rs: seq<set<nat>>, ghost done: set<nat>, useAdvance: bool, target: nat) returns (more: bool, ghost i: nat)
      requires Linked() && kind.Or? && heap != [] && FrontIsTop()
      requires Rests() == Partly(rs, done, target)
      requires !useAdvance ==> forall i :: 0 <= i < |children| ==> Top(rs[i]) <= target + 1
      modifies Repr - {this}, this`heap
      ensures Linked() && FrontIsTop() && heap != []
      ensures more ==> i in Indices(|children|) - done && Rests() == Partly(rs, done + {i}, target)
      ensures !more ==> Rests() == AtMostEach(rs, target)
      decreases Repr, 0, 2, 1
    {
      i := HeapMember(0);
      var front := heap[0].DocID();
      more := front != NO_MORE_DOCS && front > target;
      if more {
        InIndices(|children|, i);
        PartlyStep(rs, done, i, target);
        StepFront(i, useAdvance, target);
      } else {
        PartlyAll(rs, done, target);
      }
    }

    /** Takes the front of the heap, child i, to the target and restores the heap. */
    method StepFront(ghost i: nat, useAdvance: bool, target: nat)
      requires Linked() && kind.Or? && heap != [] && i < |children| && children[i] == heap[0]
      requires target < Top(Rests()[i])
      requires !useAdvance ==> Top(Rests()[i]) <= target + 1
      modifies Repr - {this}, this`heap
      ensures Linked() && FrontIsTop() && heap != []
      ensures Rests() == old(Rests())[i := AtMost(old(Rests())[i], target)]
      decreases Repr, 0, 2, 0
    {
      PopHeap();
      StepBack(i, useAdvance, target);
      PushHeap();
    }

    /** Moves the back of the heap, child i, to the target. */
    method StepBack(ghost i: nat, useAdvance: bool, target: nat)
      requires Linked() && kind.Or? && heap != [] && i < |children| && children[i] == heap[|heap| - 1]
      requires target < Top(Rests()[i])
      requires !useAdvance ==> Top(Rests()[i]) <= target + 1
      modifies Repr - {this}
      ensures Linked() && Rests() == old(Rests())[i := AtMost(old(Rests())[i], target)]
      decreases Repr, 0, 1
    {
      ChildrenInRange();
      ghost var before := Rests()[i];
      StepChild(heap[|heap| - 1], i, useAdvance, target);
      assert !useAdvance ==> before - {Top(before)} == AtMost(before, target);
    }

    /** Moves the front, which no child is ahead of, to the back. */
    method PopHeap()
      requires Linked() && kind.Or? && heap != []
      modifies this`heap
      ensures Linked() && heap != [] && heap[|heap| - 1] == old(heap[0]) && Rests() == old(Rests())
    {
      assert heap == [heap[0]] + heap[1..];
      Arrange(heap[1..] + [heap[0]]);
    }

    method Arrange(order: seq<DocIterator>)
      requires Linked() && kind.Or? && multiset(order) == multiset(heap)
      modifies this`heap
      ensures Linked() && heap == order && Rests() == old(Rests())
    {
      forall k | 0 <= k < |order| ensures order[k] in Repr {
        assert order[k] in multiset(order);
        assert order[k] in heap;
      }
      heap := order;
      OnlyThisChanged();
    }

    /** Brings a child that no other is ahead of to the front. */
    method PushHeap()
      requires Linked() && kind.Or?
      modifies this`heap
      ensures Linked() && FrontIsTop() && |heap| == |old(heap)| && Rests() == old(Rests())
      decreases Repr, 0, 1
    {
      if heap == [] { return; }
      var best := FrontRunner();
      forall i | 0 <= i < |children| ensures Top(Rests()[i]) <= Top(heap[best].Rest) {
        var k := ChildOnHeap(i);
      }
      assert heap == heap[..best] + [heap[best]] + heap[best + 1..];
      ghost var front := heap[best];
      Arrange([heap[best]] + heap[..best] + heap[best + 1..]);
      assert heap[0] == front && front.Rest == old(front.Rest);
    }

    method FrontRunner() returns (best: nat)
      requires Linked() && kind.Or? && heap != []
      ensures best < |heap| && forall j :: 0 <= j < |heap| ==> Top(heap[j].Rest) <= Top(heap[best].Rest)
      decreases Repr, 0, 0
    {
      best := 0;
      ghost var b := HeapMember(0);
      var top := heap[0].DocID();
      for k := 1 to |heap|
        invariant best < |heap| && top == Top(heap[best].Rest)
        invariant forall j :: 0 <= j < k ==> Top(heap[j].Rest) <= top
      {
        ghost var i := HeapMember(k);
        var d := heap[k].DocID();
        if d > top {
          best, top := k, d;
        }
      }
    }
  }

  datatype Kind = Reader | Merge | Or

  ghost function ReprOf(subs: seq<DocIterator>): set<DocIterator> {
    set i, x | 0 <= i < |subs| && x in subs[i].Repr :: x
  }

  ghost function AllOf(subs: seq<DocIterator>): seq<set<nat>> {
    seq(|subs|, i requires 0 <= i < |subs| => subs[i].All)
  }

  /** Separate iterators, none of which has moved. */
  ghost predicate Fresh(subs: seq<DocIterator>)
    reads subs, ReprOf(subs)
  {
    && (forall i :: 0 <= i < |subs| ==> subs[i].Valid() && subs[i].Rest == subs[i].All)
    && (forall i, j :: 0 <= i < j < |subs| ==> subs[i].Repr !! subs[j].Repr)
  }
}
