/** Evaluating a query tree: build its iterators, then take ids until there are none. */
module QueryEval {
  import opened Basics
  import opened Iterators

  /** A scorer tree over posting lists. */
  datatype Plan = Leaf(ids: seq<nat>) | AndOf(subs: seq<Plan>) | OrOf(subs: seq<Plan>)

  predicate Good(p: Plan) {
    match p
    case Leaf(ids) => Decreasing(ids) && IdRange(ids)
    case AndOf(ps) => forall i :: 0 <= i < |ps| ==> Good(ps[i])
    case OrOf(ps) => forall i :: 0 <= i < |ps| ==> Good(ps[i])
  }

  /** The boolean formula the tree stands for, of one document.  An empty conjunction matches
      nothing, as in the iterator. */
  predicate Holds(p: Plan, d: nat) {
    match p
    case Leaf(ids) => d in ids
    case AndOf(ps) => ps != [] && forall i :: 0 <= i < |ps| ==> Holds(ps[i], d)
    case OrOf(ps) => exists i :: 0 <= i < |ps| && Holds(ps[i], d)
  }

  ghost function Meaning(p: Plan): set<nat> {
    match p
    case Leaf(ids) => IdsFrom(ids, 0)
    case AndOf(ps) => Inter(seq(|ps|, i requires 0 <= i < |ps| => Meaning(ps[i])))
    case OrOf(ps) => Union(seq(|ps|, i requires 0 <= i < |ps| => Meaning(ps[i])))
  }

  ghost function Meanings(ps: seq<Plan>): seq<set<nat>> {
    seq(|ps|, i requires 0 <= i < |ps| => Meaning(ps[i]))
  }

  lemma {:induction false} MeaningIsFormula(p: Plan, d: nat)
    ensures d in Meaning(p) <==> Holds(p, d)
  {
    match p
    case Leaf(ids) =>
    case AndOf(ps) =>
      forall i | 0 <= i < |ps| ensures d in Meanings(ps)[i] <==> Holds(ps[i], d) {
        MeaningIsFormula(ps[i], d);
      }
      assert Meaning(p) == Inter(Meanings(ps));
    case OrOf(ps) =>
      forall i | 0 <= i < |ps| ensures d in Meanings(ps)[i] <==> Holds(ps[i], d) {
        MeaningIsFormula(ps[i], d);
      }
      assert Meaning(p) == Union(Meanings(ps));
      if d in Meaning(p) {
        var i :| 0 <= i < |ps| && d in Meanings(ps)[i];
      }
      if Holds(p, d) {
        var i :| 0 <= i < |ps| && Holds(ps[i], d);
        assert d in Meanings(ps)[i];
      }
  }

  method Build(p: Plan) returns (it: DocIterator)
    requires Good(p)
    ensures it.Valid() && fresh(it.Repr) && it.Rest == it.All == Meaning(p)
    decreases p, 1
  {
    if p.Leaf? {
      it := new DocIterator.Read(p.ids);
    } else {
      var subs := BuildAll(p, p.subs);
      assert AllOf(subs) == Meanings(p.subs);
      if p.AndOf? {
        it := new DocIterator.And(subs);
      } else {
        it := new DocIterator.Any(subs);
      }
    }
  }

  method BuildAll(ghost p: Plan, ps: seq<Plan>) returns (subs: seq<DocIterator>)
    requires forall i :: 0 <= i < |ps| ==> Good(ps[i])
    requires forall i :: 0 <= i < |ps| ==> ps[i] < p
    ensures |subs| == |ps| && Fresh(subs) && fresh(ReprOf(subs))
    ensures forall i :: 0 <= i < |subs| ==> subs[i].All == Meaning(ps[i])
    decreases p, 0
  {
    subs := [];
    for n := 0 to |ps|
      invariant |subs| == n && Fresh(subs) && fresh(ReprOf(subs))
      invariant forall i :: 0 <= i < n ==> subs[i].All == Meaning(ps[i])
    {
      var it := Build(ps[n]);
      assert ReprOf(subs + [it]) == ReprOf(subs) + it.Repr by {
        forall x | x in it.Repr ensures x in ReprOf(subs + [it]) {
          assert (subs + [it])[n] == it;
        }
        forall x | x in ReprOf(subs) ensures x in ReprOf(subs + [it]) {
          var i :| 0 <= i < n && x in subs[i].Repr;
          assert (subs + [it])[i] == subs[i];
        }
      }
      subs := subs + [it];
    }
  }

  /** `out` is what has been taken of `all`, largest first, and `left` what has not. */
  ghost predicate Taken(all: set<nat>, out: seq<nat>, left: set<nat>) {
    && Decreasing(out)
    && (forall i, y :: 0 <= i < |out| && y in left ==> y < out[i])
    && (forall x: nat :: x in all <==> x in out || x in left)
  }

  lemma TakeTop(all: set<nat>, out: seq<nat>, left: set<nat>)
    requires Taken(all, out, left) && left != {}
    ensures Taken(all, out + [Top(left)], left - {Top(left)})
  {
    var d := Top(left);
    forall x: nat ensures x in all <==> x in out + [d] || x in left - {d} {
      assert x in out + [d] <==> x in out || x == d;
    }
  }

  /** Takes ids until the end. */
  method Drain(it: DocIterator) returns (out: seq<nat>)
    requires it.Valid()
    modifies it.Repr
    ensures it.Valid() && it.Rest == {}
    ensures Decreasing(out) && forall d: nat :: d in out <==> d in old(it.Rest)
  {
    out := [];
    ghost var all, left := it.Rest, it.Rest;
    NoZero(it);
    var d := it.DocID();
    while d != NO_MORE_DOCS
      invariant it.Valid() && d == Top(left) && left == it.Rest && 0 !in left
      invariant Taken(all, out, left)
      decreases left
    {
      TakeTop(all, out, left);
      out := out + [d];
      d := it.NextDoc();
      left := left - {Top(left)};
    }
  }

  lemma NoZero(it: DocIterator)
    requires it.Valid()
    ensures 0 !in it.Rest
  {
  }

  /** The documents a query tree returns are those that satisfy its formula, each once, in
      decreasing order. */
  method Evaluate(p: Plan) returns (out: seq<nat>)
    requires Good(p)
    ensures Decreasing(out) && forall d: nat :: d in out <==> Holds(p, d)
  {
    var it := Build(p);
    out := Drain(it);
    forall d: nat ensures d in out <==> Holds(p, d) {
      MeaningIsFormula(p, d);
    }
  }
}
