/** The bidirectional merging cursor: many sorted cursors shown as one, with changes of direction.
    Keys are numbers here; finitely many keys in any total order can be numbered. */
module MergingCursor {
  import opened Basics

  // ---------------------------------------------------------------------------
  // One cursor over a set of keys

  datatype Window = Whole | From(k: nat) | After(k: nat) | UpTo(k: nat) | Before(k: nat) {
    predicate Has(x: nat) {
      match this
      case Whole => true
      case From(k) => x >= k
      case After(k) => x > k
      case UpTo(k) => x <= k
      case Before(k) => x < k
    }

    predicate Upward() { Whole? || From? || After? }

    predicate Downward() { Whole? || UpTo? || Before? }
  }

  function Cut(s: set<nat>, w: Window): set<nat> { set x | x in s && w.Has(x) }

  ghost predicate IsMin(s: set<nat>, k: Option<nat>) {
    match k
    case None => s == {}
    case Some(v) => v in s && forall x :: x in s ==> v <= x
  }

  ghost predicate IsMax(s: set<nat>, k: Option<nat>) {
    match k
    case None => s == {}
    case Some(v) => v in s && forall x :: x in s ==> x <= v
  }

  ghost function Min(s: set<nat>): (k: Option<nat>)
    ensures IsMin(s, k)
  {
    if s == {} then None
    else
      var x :| x in s;
      var r := Min(s - {x});
      assert forall y :: y in s ==> y == x || y in s - {x};
      if r.None? || x < r.value then Some(x) else r
  }

  ghost function Max(s: set<nat>): (k: Option<nat>)
    ensures IsMax(s, k)
  {
    if s == {} then None
    else
      var x :| x in s;
      var r := Max(s - {x});
      assert forall y :: y in s ==> y == x || y in s - {x};
      if r.None? || x > r.value then Some(x) else r
  }

  datatype Op = ToFirst | ToLast | To(k: nat) | ToPrev(k: nat) | Next | Prev

  /** What an operation does to a single cursor over all the keys; Next and Prev need a position. */
  ghost function Move(all: set<nat>, at: Option<nat>, op: Op): Option<nat> {
    match op
    case ToFirst => Min(all)
    case ToLast => Max(all)
    case To(k) => Min(Cut(all, From(k)))
    case ToPrev(k) => Max(Cut(all, UpTo(k)))
    case Next => if at.Some? then Min(Cut(all, After(at.value))) else None
    case Prev => if at.Some? then Max(Cut(all, Before(at.value))) else None
  }

  // ---------------------------------------------------------------------------
  // Several cursors

  /** A key as one child has it.  The children may share keys; copies of a key are told apart, and
      ordered, by their child. */
  datatype Copy = Copy(key: nat, child: nat)

  predicate Less(a: Copy, b: Copy) { a.key < b.key || (a.key == b.key && a.child < b.child) }

  function Copies(ks: seq<set<nat>>): set<Copy> { set i, k | 0 <= i < |ks| && k in ks[i] :: Copy(k, i) }

  /** Part of the copies: those with keys in a window, or on one side of a copy. */
  datatype Part = Keys(w: Window) | Past(p: Copy) | Onward(p: Copy) | Short(p: Copy) | Back(p: Copy) {
    /** What the part is to child i. */
    function For(i: nat): Window {
      match this
      case Keys(w) => w
      case Past(p) => if i <= p.child then After(p.key) else From(p.key)
      case Onward(p) => if i < p.child then After(p.key) else From(p.key)
      case Short(p) => if i < p.child then UpTo(p.key) else Before(p.key)
      case Back(p) => if i <= p.child then UpTo(p.key) else Before(p.key)
    }

    predicate Upward() { (Keys? && w.Upward()) || Past? || Onward? }

    predicate Downward() { (Keys? && w.Downward()) || Short? || Back? }
  }

  function Within(s: set<Copy>, r: Part): set<Copy> { set x | x in s && r.For(x.child).Has(x.key) }

  ghost predicate IsFirst(s: set<Copy>, p: Option<Copy>) {
    match p
    case None => s == {}
    case Some(v) => v in s && forall x :: x in s ==> x == v || Less(v, x)
  }

  ghost predicate IsLast(s: set<Copy>, p: Option<Copy>) {
    match p
    case None => s == {}
    case Some(v) => v in s && forall x :: x in s ==> x == v || Less(x, v)
  }

  ghost function First(s: set<Copy>): (p: Option<Copy>)
    ensures IsFirst(s, p)
  {
    if s == {} then None
    else
      var x :| x in s;
      var r := First(s - {x});
      assert forall y :: y in s ==> y == x || y in s - {x};
      if r.None? || Less(x, r.value) then Some(x) else r
  }

  ghost function Last(s: set<Copy>): (p: Option<Copy>)
    ensures IsLast(s, p)
  {
    if s == {} then None
    else
      var x :| x in s;
      var r := Last(s - {x});
      assert forall y :: y in s ==> y == x || y in s - {x};
      if r.None? || Less(r.value, x) then Some(x) else r
  }

  lemma FirstUnique(s: set<Copy>, p: Option<Copy>)
    requires IsFirst(s, p)
    ensures p == First(s)
  {
  }

  lemma LastUnique(s: set<Copy>, p: Option<Copy>)
    requires IsLast(s, p)
    ensures p == Last(s)
  {
  }

  datatype Direction = Forward | Reverse

  /** What an operation does to the merged position.  A step in the direction of the last move goes to
      the next copy; a step that turns goes to the next key. */
  ghost function MoveCopy(all: set<Copy>, d: Direction, at: Option<Copy>, op: Op): Option<Copy> {
    match op
    case ToFirst => First(all)
    case ToLast => Last(all)
    case To(k) => First(Within(all, Keys(From(k))))
    case ToPrev(k) => Last(Within(all, Keys(UpTo(k))))
    case Next =>
      if at.None? then None else First(Within(all, if d == Forward then Past(at.value) else Keys(After(at.value.key))))
    case Prev =>
      if at.None? then None else Last(Within(all, if d == Reverse then Short(at.value) else Keys(Before(at.value.key))))
  }

  /** The direction after an operation; a step from nowhere is not taken. */
  function Facing(d: Direction, at: Option<Copy>, op: Op): Direction {
    match op
    case ToFirst => Forward
    case To(_) => Forward
    case ToLast => Reverse
    case ToPrev(_) => Reverse
    case Next => if at.None? then d else Forward
    case Prev => if at.None? then d else Reverse
  }

  /** The least of the copies asked for, if there is any. */
  ghost predicate IsLeastOf(all: set<Copy>, asked: Copy -> bool, r: Option<Copy>) {
    match r
    case None => forall x :: x in all ==> !asked(x)
    case Some(v) =>
      && v in all && asked(v)
      && forall x :: x in all && asked(x) ==> v.key < x.key || (v.key == x.key && v.child <= x.child)
  }

  ghost predicate IsGreatestOf(all: set<Copy>, asked: Copy -> bool, r: Option<Copy>) {
    match r
    case None => forall x :: x in all ==> !asked(x)
    case Some(v) =>
      && v in all && asked(v)
      && forall x :: x in all && asked(x) ==> x.key < v.key || (x.key == v.key && x.child <= v.child)
  }

  /** Where seeks go, copies being ordered by key and then by child: to the first or last copy of all, or of
      those at or beyond a key. */
  lemma EndsMean(all: set<Copy>, d: Direction, at: Option<Copy>)
    ensures IsLeastOf(all, _ => true, MoveCopy(all, d, at, ToFirst)) && Facing(d, at, ToFirst) == Forward
    ensures IsGreatestOf(all, _ => true, MoveCopy(all, d, at, ToLast)) && Facing(d, at, ToLast) == Reverse
  {
  }

  lemma SeekMeans(all: set<Copy>, d: Direction, at: Option<Copy>, k: nat)
    ensures IsLeastOf(all, (x: Copy) => x.key >= k, MoveCopy(all, d, at, To(k))) && Facing(d, at, To(k)) == Forward
  {
    WithinKeys(all, From(k));
  }

  lemma SeekForPrevMeans(all: set<Copy>, d: Direction, at: Option<Copy>, k: nat)
    ensures IsGreatestOf(all, (x: Copy) => x.key <= k, MoveCopy(all, d, at, ToPrev(k)))
    ensures Facing(d, at, ToPrev(k)) == Reverse
  {
    WithinKeys(all, UpTo(k));
  }

  /** Where steps go: onwards, to the nearest copy beyond the current one; after a turn, to the nearest with
      another key. */
  lemma NextMeans(all: set<Copy>, d: Direction, p: Copy)
    ensures Facing(d, Some(p), Op.Next) == Forward
    ensures IsLeastOf(all, (x: Copy) => x.key > p.key || (d == Forward && x.key == p.key && x.child > p.child),
              MoveCopy(all, d, Some(p), Op.Next))
  {
    WithinKeys(all, After(p.key));
    WithinSides(all, p);
  }

  lemma PrevMeans(all: set<Copy>, d: Direction, p: Copy)
    ensures Facing(d, Some(p), Op.Prev) == Reverse
    ensures IsGreatestOf(all, (x: Copy) => x.key < p.key || (d == Reverse && x.key == p.key && x.child < p.child),
              MoveCopy(all, d, Some(p), Op.Prev))
  {
    WithinKeys(all, Before(p.key));
    WithinSides(all, p);
  }

  lemma WithinSides(all: set<Copy>, p: Copy)
    ensures forall x :: x in all ==>
      (x in Within(all, Past(p)) <==> x.key > p.key || (x.key == p.key && x.child > p.child))
    ensures forall x :: x in all ==>
      (x in Within(all, Short(p)) <==> x.key < p.key || (x.key == p.key && x.child < p.child))
  {
  }

  lemma WithinKeys(all: set<Copy>, w: Window)
    ensures forall x :: x in all ==> (x in Within(all, Keys(w)) <==> w.Has(x.key))
  {
  }

  /** Each cursor at its least key in the part. */
  ghost function Mins(ks: seq<set<nat>>, r: Part): seq<Option<nat>> {
    seq(|ks|, i requires 0 <= i < |ks| => Min(Cut(ks[i], r.For(i))))
  }

  ghost function Maxs(ks: seq<set<nat>>, r: Part): seq<Option<nat>> {
    seq(|ks|, i requires 0 <= i < |ks| => Max(Cut(ks[i], r.For(i))))
  }

  /** Where a seek, which does not depend on the position, takes each cursor. */
  ghost function MoveEach(ks: seq<set<nat>>, op: Op): seq<Option<nat>> {
    seq(|ks|, i requires 0 <= i < |ks| => Move(ks[i], None, op))
  }

  lemma SeekParts(ks: seq<set<nat>>, k: nat)
    ensures MoveEach(ks, To(k)) == Mins(ks, Keys(From(k))) && MoveEach(ks, ToPrev(k)) == Maxs(ks, Keys(UpTo(k)))
  {
  }

  lemma EndParts(ks: seq<set<nat>>)
    ensures MoveEach(ks, ToFirst) == Mins(ks, Keys(Whole)) && MoveEach(ks, ToLast) == Maxs(ks, Keys(Whole))
    ensures Within(Copies(ks), Keys(Whole)) == Copies(ks)
  {
    forall i | 0 <= i < |ks| ensures Cut(ks[i], Whole) == ks[i] {
    }
  }

  /** Of the first n cursors, `at` is the one with the smallest key, the first such. */
  predicate IsSmallest(ats: seq<Option<nat>>, n: nat, at: Option<nat>)
    requires n <= |ats|
  {
    match at
    case None => forall j :: 0 <= j < n ==> ats[j].None?
    case Some(c) =>
      && c < n && ats[c].Some?
      && forall j :: 0 <= j < n && ats[j].Some? ==> ats[c].value < ats[j].value || (ats[c].value == ats[j].value && c <= j)
  }

  /** Of the cursors from n on, `at` is the one with the largest key, the last such. */
  predicate IsLargest(ats: seq<Option<nat>>, n: nat, at: Option<nat>)
    requires n <= |ats|
  {
    match at
    case None => forall j :: n <= j < |ats| ==> ats[j].None?
    case Some(c) =>
      && n <= c < |ats| && ats[c].Some?
      && forall j :: n <= j < |ats| && ats[j].Some? ==> ats[j].value < ats[c].value || (ats[j].value == ats[c].value && j <= c)
  }

  /** Cursors other than c stand where `goal` says. */
  predicate OthersAt(ats: seq<Option<nat>>, goal: seq<Option<nat>>, c: nat) {
    |ats| == |goal| && forall j :: 0 <= j < |ats| && j != c ==> ats[j] == goal[j]
  }

  function CopyAt(ats: seq<Option<nat>>, at: Option<nat>): Option<Copy>
    requires at.Some? ==> at.value < |ats|
  {
    if at.Some? && ats[at.value].Some? then Some(Copy(ats[at.value].value, at.value)) else None
  }

  lemma MinUnique(s: set<nat>, k: Option<nat>)
    requires IsMin(s, k)
    ensures k == Min(s)
  {
  }

  lemma MaxUnique(s: set<nat>, k: Option<nat>)
    requires IsMax(s, k)
    ensures k == Max(s)
  {
  }

  /** The smallest of the cursors' keys is the first copy in the part, and the cursors stand where
      that copy wants them. */
  lemma SmallestOfAll(ks: seq<set<nat>>, r: Part, at: Option<nat>)
    requires r.Upward() && IsSmallest(Mins(ks, r), |ks|, at)
    ensures CopyAt(Mins(ks, r), at) == First(Within(Copies(ks), r))
    ensures at.Some? ==> Mins(ks, r) == Mins(ks, Onward(CopyAt(Mins(ks, r), at).value))
  {
    var ats, here := Mins(ks, r), Within(Copies(ks), r);
    forall x | x in here ensures at.Some? && (x == CopyAt(ats, at).value || Less(CopyAt(ats, at).value, x)) {
      assert x.key in Cut(ks[x.child], r.For(x.child));
      assert IsMin(Cut(ks[x.child], r.For(x.child)), ats[x.child]);
    }
    if at.Some? {
      var p := CopyAt(ats, at).value;
      assert IsMin(Cut(ks[at.value], r.For(at.value)), ats[at.value]);
      assert p in here;
      forall i | 0 <= i < |ks| ensures Cut(ks[i], r.For(i)) == Cut(ks[i], Onward(p).For(i)) {
        assert forall x :: x in Cut(ks[i], r.For(i)) ==> Copy(x, i) in here;
      }
    }
    FirstUnique(here, CopyAt(ats, at));
  }

  lemma LargestOfAll(ks: seq<set<nat>>, r: Part, at: Option<nat>)
    requires r.Downward() && IsLargest(Maxs(ks, r), 0, at)
    ensures CopyAt(Maxs(ks, r), at) == Last(Within(Copies(ks), r))
    ensures at.Some? ==> Maxs(ks, r) == Maxs(ks, Back(CopyAt(Maxs(ks, r), at).value))
  {
    var ats, here := Maxs(ks, r), Within(Copies(ks), r);
    forall x | x in here ensures at.Some? && (x == CopyAt(ats, at).value || Less(x, CopyAt(ats, at).value)) {
      assert x.key in Cut(ks[x.child], r.For(x.child));
      assert IsMax(Cut(ks[x.child], r.For(x.child)), ats[x.child]);
    }
    if at.Some? {
      var p := CopyAt(ats, at).value;
      assert IsMax(Cut(ks[at.value], r.For(at.value)), ats[at.value]);
      assert p in here;
      forall i | 0 <= i < |ks| ensures Cut(ks[i], r.For(i)) == Cut(ks[i], Back(p).For(i)) {
        assert forall x :: x in Cut(ks[i], r.For(i)) ==> Copy(x, i) in here;
      }
    }
    LastUnique(here, CopyAt(ats, at));
  }

  // ---------------------------------------------------------------------------
  // A child cursor, with its cached validity and key

  predicate Sorted(keys: seq<nat>) { forall i, j :: 0 <= i < j < |keys| ==> keys[i] < keys[j] }

  function KeySet(keys: seq<nat>): set<nat> { set i | 0 <= i < |keys| :: keys[i] }

  /** A sorted cursor behind the caching wrapper; `pos` past the end means not valid. */
  class IteratorWrapper {
    const keys: seq<nat>
    var pos: nat
    var valid: bool
    var key: nat

    ghost predicate Ok()
      reads this
    {
      Sorted(keys) && pos <= |keys| && valid == (pos < |keys|) && (valid ==> key == keys[pos])
    }

    function At(): Option<nat>
      reads this
    {
      if valid then Some(key) else None
    }

    constructor (list: seq<nat>)
      requires Sorted(list)
      ensures Ok() && keys == list && !valid
    {
      keys, pos, valid, key := list, |list|, false, 0;
    }

    method Update()
      requires Sorted(keys) && pos <= |keys|
      modifies this`valid, this`key
      ensures Ok() && At() == if pos < |keys| then Some(keys[pos]) else None
    {
      valid := pos < |keys|;
      if valid {
        key := keys[pos];
      }
    }

    method SeekToFirst()
      requires Ok()
      modifies this
      ensures Ok() && At() == Move(KeySet(keys), old(At()), ToFirst)
    {
      pos := 0;
      Update();
      MinUnique(KeySet(keys), At());
    }

    method SeekToLast()
      requires Ok()
      modifies this
      ensures Ok() && At() == Move(KeySet(keys), old(At()), ToLast)
    {
      pos := if keys == [] then 0 else |keys| - 1;
      Update();
      MaxUnique(KeySet(keys), At());
    }

    method Seek(k: nat)
      requires Ok()
      modifies this
      ensures Ok() && At() == Move(KeySet(keys), old(At()), To(k))
    {
      pos := 0;
      while pos < |keys| && keys[pos] < k
        invariant pos <= |keys| && forall i :: 0 <= i < pos ==> keys[i] < k
      {
        pos := pos + 1;
      }
      Update();
      MinUnique(Cut(KeySet(keys), From(k)), At());
    }

    method SeekForPrev(k: nat)
      requires Ok()
      modifies this
      ensures Ok() && At() == Move(KeySet(keys), old(At()), ToPrev(k))
    {
      var n: nat := |keys|;
      while n > 0 && keys[n - 1] > k
        invariant n <= |keys| && forall i :: n <= i < |keys| ==> keys[i] > k
      {
        n := n - 1;
      }
      pos := if n == 0 then |keys| else n - 1;
      Update();
      MaxUnique(Cut(KeySet(keys), UpTo(k)), At());
    }

    method Next()
      requires Ok() && valid
      modifies this
      ensures Ok() && At() == Move(KeySet(keys), old(At()), Op.Next)
    {
      pos := pos + 1;
      Update();
      MinUnique(Cut(KeySet(keys), After(old(key))), At());
    }

    method Prev()
      requires Ok() && valid
      modifies this
      ensures Ok() && At() == Move(KeySet(keys), old(At()), Op.Prev)
    {
      pos := if pos == 0 then |keys| else pos - 1;
      Update();
      MaxUnique(Cut(KeySet(keys), Before(old(key))), At());
    }
  }

  // ---------------------------------------------------------------------------
  // The merging cursor

  /** Where the children stand, in a direction, when the merged cursor stands at a copy. */
  ghost function Placed(d: Direction, ks: seq<set<nat>>, p: Copy): seq<Option<nat>> {
    if d == Forward then Mins(ks, Onward(p)) else Maxs(ks, Back(p))
  }

  lemma PlacedOthers(ks: seq<set<nat>>, p: Copy)
    requires p.child < |ks|
    ensures OthersAt(Placed(Forward, ks, p), Mins(ks, Past(p)), p.child)
    ensures OthersAt(Placed(Reverse, ks, p), Maxs(ks, Short(p)), p.child)
  {
  }

  class MergingIterator {
    const children: seq<IteratorWrapper>
    var current: Option<nat>
    var direction: Direction

    ghost function Sets(): seq<set<nat>> {
      seq(|children|, i requires 0 <= i < |children| => KeySet(children[i].keys))
    }

    ghost function All(): set<Copy> { Copies(Sets()) }

    /** Where the children stand. */
    ghost function Ats(): seq<Option<nat>>
      reads children
    {
      seq(|children|, i requires 0 <= i < |children| reads children => children[i].At())
    }

    ghost predicate Separate()
      reads children
    {
      && (forall i :: 0 <= i < |children| ==> children[i].Ok())
      && (forall i, j :: 0 <= i < j < |children| ==> children[i] != children[j])
    }

    ghost function Position(): Option<Copy>
      requires current.Some? ==> current.value < |children|
      reads this, children
    {
      CopyAt(Ats(), current)
    }

    /** Each child stands where the direction and the position say. */
    ghost predicate Valid()
      reads this, children
    {
      && Separate()
      && (current.Some? ==> current.value < |children| && children[current.value].valid)
      && (current.Some? ==> Ats() == Placed(direction, Sets(), Position().value))
    }

    constructor (list: seq<IteratorWrapper>)
      requires forall i :: 0 <= i < |list| ==> list[i].Ok() && !list[i].valid
      requires forall i, j :: 0 <= i < j < |list| ==> list[i] != list[j]
      ensures Valid() && children == list && Position() == None && direction == Forward
    {
      children, current, direction := list, None, Forward;
    }

    /** Moves child i like a single cursor; the others stand still. */
    method Step(i: nat, op: Op)
      requires Separate() && i < |children|
      requires op.Next? || op.Prev? ==> children[i].valid
      modifies children[i]
      ensures Separate() && Ats() == old(Ats())[i := Move(Sets()[i], old(Ats())[i], op)]
    {
      match op
      case ToFirst => children[i].SeekToFirst();
      case ToLast => children[i].SeekToLast();
      case To(k) => children[i].Seek(k);
      case ToPrev(k) => children[i].SeekForPrev(k);
      case Next => children[i].Next();
      case Prev => children[i].Prev();
    }

    /** Moves every child with the same seek. */
    method StepAll(op: Op)
      requires Separate() && !op.Next? && !op.Prev?
      modifies children
      ensures Separate() && Ats() == MoveEach(Sets(), op)
    {
      for i := 0 to |children|
        invariant Separate()
        invariant forall j :: 0 <= j < i ==> Ats()[j] == MoveEach(Sets(), op)[j]
      {
        Step(i, op);
      }
    }

    method SeekToFirst()
      requires Valid()
      modifies this, children
      ensures Valid() && direction == Forward && Position() == MoveCopy(All(), old(direction), old(Position()), ToFirst)
    {
      StepAll(ToFirst);
      EndParts(Sets());
      FindSmallest();
      direction := Forward;
      SmallestHere(Keys(Whole));
    }

    method SeekToLast()
      requires Valid()
      modifies this, children
      ensures Valid() && direction == Reverse && Position() == MoveCopy(All(), old(direction), old(Position()), ToLast)
    {
      StepAll(ToLast);
      EndParts(Sets());
      FindLargest();
      direction := Reverse;
      LargestHere(Keys(Whole));
    }

    method Seek(target: nat)
      requires Valid()
      modifies this, children
      ensures Valid() && direction == Forward && Position() == MoveCopy(All(), old(direction), old(Position()), To(target))
    {
      StepAll(To(target));
      SeekParts(Sets(), target);
      FindSmallest();
      direction := Forward;
      SmallestHere(Keys(From(target)));
    }

    method SeekForPrev(target: nat)
      requires Valid()
      modifies this, children
      ensures Valid() && direction == Reverse && Position() == MoveCopy(All(), old(direction), old(Position()), ToPrev(target))
    {
      StepAll(ToPrev(target));
      SeekParts(Sets(), target);
      FindLargest();
      direction := Reverse;
      LargestHere(Keys(UpTo(target)));
    }

    /** Chooses the child with the smallest key, the first such. */
    method FindSmallest()
      modifies this`current
      ensures Ats() == old(Ats()) && IsSmallest(Ats(), |children|, current)
    {
      var smallest: Option<nat> := None;
      for i := 0 to |children|
        invariant IsSmallest(Ats(), i, smallest)
      {
        smallest := Smaller(i, smallest);
      }
      current := smallest;
    }

    /** Chooses the child with the largest key, the last such. */
    method FindLargest()
      modifies this`current
      ensures Ats() == old(Ats()) && IsLargest(Ats(), 0, current)
    {
      var largest: Option<nat> := None;
      var i: nat := |children|;
      while i > 0
        invariant i <= |children| && IsLargest(Ats(), i, largest)
      {
        i := i - 1;
        largest := Larger(i, largest);
      }
      current := largest;
    }

    /** Of children that all stand in a part, the smallest chosen is at the first copy in it. */
    lemma SmallestHere(r: Part)
      requires r.Upward() && Ats() == Mins(Sets(), r) && IsSmallest(Ats(), |children|, current)
      ensures current.Some? ==> current.value < |children| && children[current.value].valid
      ensures Position() == First(Within(All(), r))
      ensures current.Some? ==> Ats() == Placed(Forward, Sets(), Position().value)
    {
      SmallestOfAll(Sets(), r, current);
    }

    lemma LargestHere(r: Part)
      requires r.Downward() && Ats() == Maxs(Sets(), r) && IsLargest(Ats(), 0, current)
      ensures current.Some? ==> current.value < |children| && children[current.value].valid
      ensures Position() == Last(Within(All(), r))
      ensures current.Some? ==> Ats() == Placed(Reverse, Sets(), Position().value)
    {
      LargestOfAll(Sets(), r, current);
    }

    method Smaller(i: nat, at: Option<nat>) returns (smaller: Option<nat>)
      requires i < |children| && IsSmallest(Ats(), i, at)
      ensures IsSmallest(Ats(), i + 1, smaller)
    {
      smaller := at;
      assert Ats()[i] == children[i].At() && (at.Some? ==> Ats()[at.value] == children[at.value].At());
      if children[i].valid {
        if at.None? {
          smaller := Some(i);
        } else if children[i].key < children[at.value].key {
          smaller := Some(i);
        }
      }
    }

    method Larger(i: nat, at: Option<nat>) returns (larger: Option<nat>)
      requires i < |children| && IsLargest(Ats(), i + 1, at)
      ensures IsLargest(Ats(), i, larger)
    {
      larger := at;
      assert Ats()[i] == children[i].At() && (at.Some? ==> Ats()[at.value] == children[at.value].At());
      if children[i].valid {
        if at.None? {
          larger := Some(i);
        } else if children[i].key > children[at.value].key {
          larger := Some(i);
        }
      }
    }

    method Next()
      requires Valid() && current.Some?
      modifies this, children
      ensures Valid() && direction == Forward && Position() == MoveCopy(All(), old(direction), old(Position()), Op.Next)
    {
      ghost var p := Position().value;
      PlacedOthers(Sets(), p);
      PassForward(current.value, p);
      ghost var r := if direction == Forward then Past(p) else Keys(After(p.key));
      direction := Forward;
      FindSmallest();
      SmallestHere(r);
    }

    method Prev()
      requires Valid() && current.Some?
      modifies this, children
      ensures Valid() && direction == Reverse && Position() == MoveCopy(All(), old(direction), old(Position()), Op.Prev)
    {
      ghost var p := Position().value;
      PlacedOthers(Sets(), p);
      PassBack(current.value, p);
      ghost var r := if direction == Reverse then Short(p) else Keys(Before(p.key));
      direction := Reverse;
      FindLargest();
      LargestHere(r);
    }

    /** Turns the other children if need be and steps child c on: all stand past its copy or its key. */
    method PassForward(c: nat, ghost p: Copy)
      requires Separate() && c < |children| && Ats()[c] == Some(p.key) && p.child == c
      requires direction == Forward ==> OthersAt(Ats(), Mins(Sets(), Past(p)), c)
      modifies children
      ensures Separate() && Ats() == Mins(Sets(), if direction == Forward then Past(p) else Keys(After(p.key)))
    {
      if direction != Forward {
        TurnForward(c, p.key);
      }
      assert children[c].At() == Ats()[c];
      Step(c, Op.Next);
    }

    method PassBack(c: nat, ghost p: Copy)
      requires Separate() && c < |children| && Ats()[c] == Some(p.key) && p.child == c
      requires direction == Reverse ==> OthersAt(Ats(), Maxs(Sets(), Short(p)), c)
      modifies children
      ensures Separate() && Ats() == Maxs(Sets(), if direction == Reverse then Short(p) else Keys(Before(p.key)))
    {
      if direction != Reverse {
        TurnBack(c, p.key);
      }
      assert children[c].At() == Ats()[c];
      Step(c, Op.Prev);
    }

    /** Puts every other child at its first key after child c's. */
    method TurnForward(c: nat, ghost k: nat)
      requires Separate() && c < |children| && Ats()[c] == Some(k)
      modifies children
      ensures Separate() && Ats()[c] == Some(k) && OthersAt(Ats(), Mins(Sets(), Keys(After(k))), c)
    {
      for i := 0 to |children|
        invariant Separate() && Ats()[c] == Some(k)
        invariant forall j :: 0 <= j < i && j != c ==> Ats()[j] == Mins(Sets(), Keys(After(k)))[j]
      {
        if i != c {
          TurnChild(i, c, k);
        }
      }
    }

    /** Child i to its first key after k, where child c stands. */
    method TurnChild(i: nat, c: nat, ghost k: nat)
      requires Separate() && i < |children| && c < |children| && i != c && Ats()[c] == Some(k)
      modifies children[i]
      ensures Separate() && Ats() == old(Ats())[i := Min(Cut(Sets()[i], After(k)))]
    {
      assert children[c].At() == Ats()[c];
      Step(i, To(children[c].key));
      assert children[c].At() == Ats()[c] && children[i].At() == Ats()[i];
      StepOn(Sets()[i], k);
      if children[i].valid && children[i].key == children[c].key {
        assert Ats()[i] == Some(k);
        Step(i, Op.Next);
      }
    }

    /** Puts every other child at its last key before child c's. */
    method TurnBack(c: nat, ghost k: nat)
      requires Separate() && c < |children| && Ats()[c] == Some(k)
      modifies children
      ensures Separate() && Ats()[c] == Some(k) && OthersAt(Ats(), Maxs(Sets(), Keys(Before(k))), c)
    {
      for i := 0 to |children|
        invariant Separate() && Ats()[c] == Some(k)
        invariant forall j :: 0 <= j < i && j != c ==> Ats()[j] == Maxs(Sets(), Keys(Before(k)))[j]
      {
        if i != c {
          TurnChildBack(i, c, k);
        }
      }
    }

    method TurnChildBack(i: nat, c: nat, ghost k: nat)
      requires Separate() && i < |children| && c < |children| && i != c && Ats()[c] == Some(k)
      modifies children[i]
      ensures Separate() && Ats() == old(Ats())[i := Max(Cut(Sets()[i], Before(k)))]
    {
      assert children[c].At() == Ats()[c];
      Step(i, To(children[c].key));
      assert children[i].At() == Ats()[i];
      if children[i].valid {
        StepBack(Sets()[i], k, children[i].key);
        Step(i, Op.Prev);
      } else {
        AllBefore(Sets()[i], k);
        Step(i, ToLast);
      }
    }
  }

  /** The first key from k on is k itself, or the first key after k. */
  lemma StepOn(s: set<nat>, k: nat)
    ensures Min(Cut(s, From(k))) != Some(k) ==> Min(Cut(s, From(k))) == Min(Cut(s, After(k)))
  {
    if Min(Cut(s, From(k))) != Some(k) {
      assert k in s ==> k in Cut(s, From(k));
      assert IsMin(Cut(s, From(k)), Min(Cut(s, From(k))));
      assert Cut(s, From(k)) == Cut(s, After(k));
    }
  }

  /** One step back from the first key at or after k is the last key before k. */
  lemma StepBack(s: set<nat>, k: nat, v: nat)
    requires Min(Cut(s, From(k))) == Some(v)
    ensures Cut(s, Before(v)) == Cut(s, Before(k))
  {
    forall x | x in Cut(s, Before(v)) ensures x < k {
      assert x >= k ==> x in Cut(s, From(k));
    }
  }

  lemma AllBefore(s: set<nat>, k: nat)
    requires Min(Cut(s, From(k))) == None
    ensures s == Cut(s, Before(k))
  {
    forall x | x in s ensures x < k {
      assert x >= k ==> x in Cut(s, From(k));
    }
  }

  // ---------------------------------------------------------------------------
  // Any sequence of operations

  /** The positions the merged cursor goes through. */
  ghost function Walk(all: set<Copy>, d: Direction, at: Option<Copy>, ops: seq<Op>): seq<Option<Copy>>
    decreases |ops|
  {
    if ops == [] then []
    else
      var next := MoveCopy(all, d, at, ops[0]);
      [next] + Walk(all, Facing(d, at, ops[0]), next, ops[1..])
  }

  method Apply(it: MergingIterator, op: Op) returns (at: Option<Copy>)
    requires it.Valid()
    modifies it, it.children
    ensures it.Valid() && at == it.Position() == MoveCopy(it.All(), old(it.direction), old(it.Position()), op)
    ensures it.direction == Facing(old(it.direction), old(it.Position()), op)
  {
    match op {
      case ToFirst => it.SeekToFirst();
      case ToLast => it.SeekToLast();
      case To(k) => it.Seek(k);
      case ToPrev(k) => it.SeekForPrev(k);
      case Next => if it.current.Some? { it.Next(); }
      case Prev => if it.current.Some? { it.Prev(); }
    }
    at := if it.current.Some? then Some(Copy(it.children[it.current.value].key, it.current.value)) else None;
    assert it.current.Some? ==> it.Ats()[it.current.value] == it.children[it.current.value].At();
  }

  /** Through any sequence of seeks, steps and turns, the merging cursor goes from copy to copy as
      `Walk` says, whatever keys its children share. */
  method Drive(it: MergingIterator, ops: seq<Op>) returns (trace: seq<Option<Copy>>)
    requires it.Valid()
    modifies it, it.children
    ensures it.Valid() && trace == Walk(it.All(), old(it.direction), old(it.Position()), ops)
  {
    trace := [];
    ghost var all, d, start := it.All(), it.direction, it.Position();
    for i := 0 to |ops|
      invariant it.Valid()
      invariant trace + Walk(all, it.direction, it.Position(), ops[i..]) == Walk(all, d, start, ops)
    {
      var at := Apply(it, ops[i]);
      assert ops[i..][1..] == ops[i + 1..];
      trace := trace + [at];
    }
  }
}
