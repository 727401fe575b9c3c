/** What runs of the merging cursor come to: where it is one cursor over everything its children hold,
    what a traversal yields, and what turning drops. */
module CursorRuns {
  import opened Basics
  import opened MergingCursor

  // ---------------------------------------------------------------------------
  // Turning

  function Own(op: Op): Direction { if op.ToLast? || op.ToPrev? || op.Prev? then Reverse else Forward }

  /** The positions of one cursor over all the copies, which has no direction. */
  ghost function Plain(all: set<Copy>, at: Option<Copy>, ops: seq<Op>): seq<Option<Copy>>
    decreases |ops|
  {
    if ops == [] then []
    else
      var next := MoveCopy(all, Own(ops[0]), at, ops[0]);
      [next] + Plain(all, next, ops[1..])
  }

  /** The step turns while a child ahead has the current key too. */
  predicate Loses(all: set<Copy>, d: Direction, at: Option<Copy>, op: Op) {
    at.Some? && ((op.Next? && d == Reverse && exists x :: x in all && x.key == at.value.key && x.child > at.value.child)
              || (op.Prev? && d == Forward && exists x :: x in all && x.key == at.value.key && x.child < at.value.child))
  }

  ghost predicate NeverLoses(all: set<Copy>, d: Direction, at: Option<Copy>, ops: seq<Op>)
    decreases |ops|
  {
    ops == [] || (!Loses(all, d, at, ops[0])
      && NeverLoses(all, Facing(d, at, ops[0]), MoveCopy(all, d, at, ops[0]), ops[1..]))
  }

  lemma TurnExact(all: set<Copy>, d: Direction, at: Option<Copy>, op: Op)
    ensures MoveCopy(all, d, at, op) == MoveCopy(all, Own(op), at, op) <==> !Loses(all, d, at, op)
  {
    if at.Some? && op.Next? && d == Reverse {
      var p := at.value;
      var next, key := Within(all, Past(p)), Within(all, Keys(After(p.key)));
      if x :| x in all && x.key == p.key && x.child > p.child {
        assert x in next;
      } else {
        assert next == key;
      }
    } else if at.Some? && op.Prev? && d == Forward {
      var p := at.value;
      var prev, key := Within(all, Short(p)), Within(all, Keys(Before(p.key)));
      if x :| x in all && x.key == p.key && x.child < p.child {
        assert x in prev;
      } else {
        assert prev == key;
      }
    }
  }

  /** The merging cursor is one cursor over all the copies, through any operations, if and only if it
      never turns at a key that a child ahead has too. */
  lemma {:induction false} WalkIsPlain(all: set<Copy>, d: Direction, at: Option<Copy>, ops: seq<Op>)
    ensures Walk(all, d, at, ops) == Plain(all, at, ops) <==> NeverLoses(all, d, at, ops)
    decreases |ops|
  {
    if ops != [] {
      TurnExact(all, d, at, ops[0]);
      var next := MoveCopy(all, d, at, ops[0]);
      WalkIsPlain(all, Facing(d, at, ops[0]), next, ops[1..]);
      assert Walk(all, d, at, ops)[1..] == Walk(all, Facing(d, at, ops[0]), next, ops[1..]);
      assert Plain(all, at, ops)[1..] == Plain(all, MoveCopy(all, Own(ops[0]), at, ops[0]), ops[1..]);
      assert Walk(all, d, at, ops)[0] == next && Plain(all, at, ops)[0] == MoveCopy(all, Own(ops[0]), at, ops[0]);
    }
  }

  // ---------------------------------------------------------------------------
  // Traversals

  /** All copies, in order. */
  ghost function Ordered(s: set<Copy>): seq<Copy> {
    if s == {} then [] else [First(s).value] + Ordered(s - {First(s).value})
  }

  function Steps(op: Op, n: nat): seq<Op> { seq(n, _ => op) }

  function Somes(l: seq<Copy>): seq<Option<Copy>> { seq(|l|, i requires 0 <= i < |l| => Some(l[i])) }

  lemma WalkFrom(all: set<Copy>, d: Direction, at: Option<Copy>, op: Op, ops: seq<Op>)
    ensures var next := MoveCopy(all, d, at, op);
      Walk(all, d, at, [op] + ops) == [next] + Walk(all, Facing(d, at, op), next, ops)
  {
    assert ([op] + ops)[1..] == ops;
  }

  lemma SomesFrom(p: Copy, l: seq<Copy>)
    ensures Somes([p] + l) == [Some(p)] + Somes(l)
  {
  }

  /** Going forward from the start yields every copy once, in order, and then nothing: a key that K
      children have is yielded K times. */
  lemma ForwardYieldsAll(all: set<Copy>, d: Direction, at: Option<Copy>)
    ensures Walk(all, d, at, [ToFirst] + Steps(Op.Next, |all|)) == Somes(Ordered(all)) + [None]
  {
    WalkFrom(all, d, at, ToFirst, Steps(Op.Next, |all|));
    if all == {} {
      assert Walk(all, Forward, None, Steps(Op.Next, |all|)) == [];
    } else {
      var p := First(all).value;
      assert Within(all, Past(p)) == all - {p};
      ForwardFrom(all, p);
      SomesFrom(p, Ordered(all - {p}));
    }
  }

  lemma {:induction false} ForwardFrom(all: set<Copy>, p: Copy)
    ensures var rest := Within(all, Past(p));
      Walk(all, Forward, Some(p), Steps(Op.Next, |rest| + 1)) == Somes(Ordered(rest)) + [None]
    decreases |Within(all, Past(p))|
  {
    var rest := Within(all, Past(p));
    assert Steps(Op.Next, |rest| + 1) == [Op.Next] + Steps(Op.Next, |rest|);
    WalkFrom(all, Forward, Some(p), Op.Next, Steps(Op.Next, |rest|));
    if rest == {} {
      assert Walk(all, Forward, None, Steps(Op.Next, |rest|)) == [];
    } else {
      var q := First(rest).value;
      PastNext(all, p, q);
      ForwardFrom(all, q);
      SomesFrom(q, Ordered(rest - {q}));
    }
  }

  lemma PastNext(all: set<Copy>, p: Copy, q: Copy)
    requires First(Within(all, Past(p))) == Some(q)
    ensures Within(all, Past(q)) == Within(all, Past(p)) - {q}
  {
  }

  function KeyCount(l: seq<Copy>, k: nat): nat {
    if l == [] then 0 else (if l[0].key == k then 1 else 0) + KeyCount(l[1..], k)
  }

  /** A key occurs in the order of all copies as often as children have it. */
  lemma EachKeyAsOften(ks: seq<set<nat>>, k: nat)
    ensures KeyCount(Ordered(Copies(ks)), k) == |set i | 0 <= i < |ks| && k in ks[i]|
  {
    var having := set i | 0 <= i < |ks| && k in ks[i];
    var copies := set x | x in Copies(ks) && x.key == k;
    OrderedCounts(Copies(ks), k);
    assert copies == set i | i in having :: Copy(k, i);
    SameSize(having, k);
  }

  lemma {:induction false} OrderedCounts(s: set<Copy>, k: nat)
    ensures KeyCount(Ordered(s), k) == |set x | x in s && x.key == k|
  {
    if s != {} {
      var p := First(s).value;
      OrderedCounts(s - {p}, k);
      var here, rest := set x | x in s && x.key == k, set x | x in s - {p} && x.key == k;
      assert Ordered(s)[1..] == Ordered(s - {p});
      assert if p.key == k then here == rest + {p} else here == rest;
    }
  }

  lemma {:induction false} SameSize(having: set<nat>, k: nat)
    ensures |set i | i in having :: Copy(k, i)| == |having|
  {
    if having != {} {
      var i :| i in having;
      SameSize(having - {i}, k);
      assert (set j | j in having :: Copy(k, j)) == (set j | j in having - {i} :: Copy(k, j)) + {Copy(k, i)};
    }
  }

  // ---------------------------------------------------------------------------
  // Children without common keys

  ghost predicate Disjoint(ks: seq<set<nat>>) { forall i, j :: 0 <= i < |ks| && 0 <= j < |ks| && i != j ==> ks[i] !! ks[j] }

  /** The positions a single cursor over all the keys goes through. */
  ghost function Trace(all: set<nat>, at: Option<nat>, ops: seq<Op>): seq<Option<nat>>
    decreases |ops|
  {
    if ops == [] then [] else [Move(all, at, ops[0])] + Trace(all, Move(all, at, ops[0]), ops[1..])
  }

  function KeyOf(at: Option<Copy>): Option<nat> { if at.Some? then Some(at.value.key) else None }

  function KeysOf(l: seq<Option<Copy>>): seq<Option<nat>> { seq(|l|, i requires 0 <= i < |l| => KeyOf(l[i])) }

  lemma FirstKey(ks: seq<set<nat>>, w: Window)
    ensures KeyOf(First(Within(Copies(ks), Keys(w)))) == Min(Cut(Union(ks), w))
    ensures KeyOf(Last(Within(Copies(ks), Keys(w)))) == Max(Cut(Union(ks), w))
  {
    var here, keys := Within(Copies(ks), Keys(w)), Cut(Union(ks), w);
    forall x | x in keys ensures exists c :: c in here && c.key == x {
      var i :| 0 <= i < |ks| && x in ks[i];
      assert Copy(x, i) in here;
    }
    assert forall c :: c in here ==> c.key in keys;
    MinUnique(keys, KeyOf(First(here)));
    MaxUnique(keys, KeyOf(Last(here)));
  }

  lemma NothingToLose(ks: seq<set<nat>>, d: Direction, at: Option<Copy>, op: Op)
    requires Disjoint(ks) && (at.Some? ==> at.value in Copies(ks))
    ensures !Loses(Copies(ks), d, at, op)
  {
    if at.Some? {
      forall x | x in Copies(ks) && x.key == at.value.key ensures x.child == at.value.child {
        assert x.key in ks[x.child] && x.key in ks[at.value.child];
      }
    }
  }

  lemma KeyMoves(ks: seq<set<nat>>, d: Direction, at: Option<Copy>, op: Op)
    requires Disjoint(ks) && (at.Some? ==> at.value in Copies(ks))
    ensures var next := MoveCopy(Copies(ks), d, at, op);
      KeyOf(next) == Move(Union(ks), KeyOf(at), op) && (next.Some? ==> next.value in Copies(ks))
  {
    var all, turned := Copies(ks), if op.Prev? then Forward else Reverse;
    NothingToLose(ks, d, at, op);
    NothingToLose(ks, turned, at, op);
    TurnExact(all, d, at, op);
    TurnExact(all, turned, at, op);
    var w := match op {
      case To(k) => From(k)
      case ToPrev(k) => UpTo(k)
      case Next => if at.Some? then After(at.value.key) else Whole
      case Prev => if at.Some? then Before(at.value.key) else Whole
      case _ => Whole
    };
    FirstKey(ks, w);
    assert Within(all, Keys(Whole)) == all && Cut(Union(ks), Whole) == Union(ks);
  }

  /** If no two children share a key, the keys seen are those of one cursor over all the keys. */
  lemma {:induction false} DisjointIsUnion(ks: seq<set<nat>>, d: Direction, at: Option<Copy>, ops: seq<Op>)
    requires Disjoint(ks) && (at.Some? ==> at.value in Copies(ks))
    ensures KeysOf(Walk(Copies(ks), d, at, ops)) == Trace(Union(ks), KeyOf(at), ops)
    decreases |ops|
  {
    if ops == [] {
      assert KeysOf([]) == [];
    } else {
      KeyMoves(ks, d, at, ops[0]);
      var next := MoveCopy(Copies(ks), d, at, ops[0]);
      var rest := Walk(Copies(ks), Facing(d, at, ops[0]), next, ops[1..]);
      DisjointIsUnion(ks, Facing(d, at, ops[0]), next, ops[1..]);
      assert KeysOf([next] + rest) == [KeyOf(next)] + KeysOf(rest);
    }
  }
}
