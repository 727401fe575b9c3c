/** What a merge keeps, and why the visible list does not depend on when merges happen. */
module Compaction {
  import opened Basics
  import opened Postings
  import opened HeapMerge

  // ---------------------------------------------------------------------------
  // One merge

  function Dead(s: PostingList): nat {
    if s == [] then 0 else (if Live(s[0]) then 0 else 1) + Dead(s[1..])
  }

  /** Nothing is cut: few enough live documents, and no entry after one tombstone too many. */
  predicate Uncut(s: PostingList, max: nat, live: nat, dead: nat) {
    |LiveOnly(s)| + live <= max && (s == [] || Dead(s[..|s| - 1]) + dead <= TOMBSTONE_LIMIT)
  }

  lemma {:induction false} CappedShorter(s: PostingList, max: nat, live: nat, dead: nat)
    ensures |Capped(s, max, live, dead)| <= |s|
  {
    if s != [] && !(!Live(s[0]) && dead + 1 > TOMBSTONE_LIMIT) {
      CappedShorter(s[1..], max, if Live(s[0]) && live < max then live + 1 else live, if Live(s[0]) then dead else dead + 1);
    }
  }

  /** A partial merge loses nothing exactly when it is uncut. */
  lemma {:induction false} CappedIsWhole(s: PostingList, max: nat, live: nat, dead: nat)
    requires live <= max && dead <= TOMBSTONE_LIMIT
    ensures Capped(s, max, live, dead) == s <==> Uncut(s, max, live, dead)
  {
    if s != [] {
      var r := s[1..];
      if |s| > 1 {
        assert s[..|s| - 1][1..] == r[..|r| - 1];
      }
      if Live(s[0]) {
        if live < max {
          CappedIsWhole(r, max, live + 1, dead);
          assert ([s[0]] + Capped(r, max, live + 1, dead))[1..] == Capped(r, max, live + 1, dead);
        } else {
          CappedShorter(r, max, live, dead);
        }
      } else if dead + 1 <= TOMBSTONE_LIMIT {
        CappedIsWhole(r, max, live, dead + 1);
        assert ([s[0]] + Capped(r, max, live, dead + 1))[1..] == Capped(r, max, live, dead + 1);
      } else {
        assert |s| == 1 ==> LiveOnly(r) == [];
      }
    }
  }

  lemma {:induction false} CappedIn(s: PostingList, max: nat, live: nat, dead: nat)
    requires Descending(s)
    ensures Descending(Capped(s, max, live, dead))
    ensures forall e :: e in Capped(s, max, live, dead) ==> e in s
  {
    if s != [] && !(!Live(s[0]) && dead + 1 > TOMBSTONE_LIMIT) {
      var c := Capped(s[1..], max, if Live(s[0]) && live < max then live + 1 else live, if Live(s[0]) then dead else dead + 1);
      CappedIn(s[1..], max, if Live(s[0]) && live < max then live + 1 else live, if Live(s[0]) then dead else dead + 1);
      forall j | 0 <= j < |c| ensures s[0].id > c[j].id {
        assert c[j] in s[1..];
      }
    }
  }

  /** With few enough tombstones a partial merge keeps all of them, and the first `max` live ids. */
  lemma {:induction false} CappedKeeps(s: PostingList, max: nat, live: nat, dead: nat)
    requires live <= max && Dead(s) + dead <= TOMBSTONE_LIMIT
    ensures LiveOnly(Capped(s, max, live, dead)) == Take(LiveOnly(s), max - live)
    ensures forall e :: e in s && !Live(e) ==> e in Capped(s, max, live, dead)
  {
    if s != [] {
      var l2 := if Live(s[0]) && live < max then live + 1 else live;
      var d2 := if Live(s[0]) then dead else dead + 1;
      CappedKeeps(s[1..], max, l2, d2);
      var c := Capped(s[1..], max, l2, d2);
      if l2 > live || !Live(s[0]) {
        assert ([s[0]] + c)[1..] == c;
      }
    }
  }

  function Alive(s: PostingList): nat {
    if s == [] then 0 else (if Live(s[0]) then 1 else 0) + Alive(s[1..])
  }

  lemma {:induction false} KeptAt(s: PostingList, max: nat, live: nat, dead: nat, i: nat)
    requires Descending(s) && live <= max && dead <= TOMBSTONE_LIMIT && i < |s|
    ensures s[i] in Capped(s, max, live, dead) <==>
      dead + Dead(s[..i]) <= TOMBSTONE_LIMIT && (!Live(s[i]) || live + Alive(s[..i]) < max)
    decreases |s|
  {
    var r := s[1..];
    if i == 0 {
      CappedIn(r, max, if Live(s[0]) && live < max then live + 1 else live, dead);
      assert s[0] !in r;
    } else {
      assert s[..i][1..] == r[..i - 1] && s[i] == r[i - 1] && s[i] != s[0];
      if Live(s[0]) || dead + 1 <= TOMBSTONE_LIMIT {
        KeptAt(r, max, if Live(s[0]) && live < max then live + 1 else live, if Live(s[0]) then dead else dead + 1, i - 1);
      }
    }
  }

  lemma {:induction false} CountsUpTo(s: PostingList, n: nat)
    requires n <= |s|
    ensures Dead(s[..n]) == |set j | 0 <= j < n && s[j].state == 1|
    ensures Alive(s[..n]) == |set j | 0 <= j < n && s[j].state != 1|
  {
    if n > 0 {
      CountsUpTo(s, n - 1);
      CountsSnoc(s[..n - 1], s[n - 1]);
      assert s[..n] == s[..n - 1] + [s[n - 1]];
    }
    DeadNext(s, n);
    AliveNext(s, n);
  }

  lemma DeadNext(s: PostingList, n: nat)
    requires n <= |s|
    ensures |set j | 0 <= j < n && s[j].state == 1| ==
      if n == 0 then 0 else |set j | 0 <= j < n - 1 && s[j].state == 1| + if s[n - 1].state == 1 then 1 else 0
  {
    var here := set j | 0 <= j < n && s[j].state == 1;
    if n == 0 {
      assert here == {};
    } else {
      var before := set j | 0 <= j < n - 1 && s[j].state == 1;
      assert here == if s[n - 1].state == 1 then before + {n - 1} else before;
    }
  }

  lemma AliveNext(s: PostingList, n: nat)
    requires n <= |s|
    ensures |set j | 0 <= j < n && s[j].state != 1| ==
      if n == 0 then 0 else |set j | 0 <= j < n - 1 && s[j].state != 1| + if s[n - 1].state != 1 then 1 else 0
  {
    var here := set j | 0 <= j < n && s[j].state != 1;
    if n == 0 {
      assert here == {};
    } else {
      var before := set j | 0 <= j < n - 1 && s[j].state != 1;
      assert here == if s[n - 1].state != 1 then before + {n - 1} else before;
    }
  }

  lemma {:induction false} CountsSnoc(s: PostingList, e: Entry)
    ensures Dead(s + [e]) == Dead(s) + (if Live(e) then 0 else 1)
    ensures Alive(s + [e]) == Alive(s) + (if Live(e) then 1 else 0)
  {
    if s == [] {
      assert [e][1..] == [];
    } else {
      assert (s + [e])[1..] == s[1..] + [e];
      CountsSnoc(s[1..], e);
    }
  }

  /** Of the overlay of its operands, largest id first, a partial merge keeps an entry exactly if at most
      10000000 tombstones (state 1) come before it and it is a tombstone or fewer than `max` live entries
      come before it. */
  lemma PartialMergeKeeps(ls: seq<PostingList>, max: nat, i: nat)
    requires i < |Merged(ls)|
    ensures var s := Merged(ls);
      && Descending(PartialMerge(ls, max)) && (forall e :: e in PartialMerge(ls, max) ==> e in s)
      && (s[i] in PartialMerge(ls, max) <==>
            && |set j | 0 <= j < i && s[j].state == 1| <= 10000000
            && (s[i].state == 1 || |set j | 0 <= j < i && s[j].state != 1| < max))
  {
    MergedMeaning(ls);
    CappedIn(Merged(ls), max, 0, 0);
    KeptAt(Merged(ls), max, 0, 0, i);
    CountsUpTo(Merged(ls), i);
  }

  /** A partial merge of these lists loses nothing. */
  ghost predicate PartialFits(ls: seq<PostingList>, max: nat) { Uncut(Merged(ls), max, 0, 0) }

  /** A full merge of these lists loses no live document. */
  ghost predicate FullFits(ls: seq<PostingList>, max: nat) { |LiveOnly(Merged(ls))| <= max }

  lemma MergedMeaning(ls: seq<PostingList>)
    ensures Descending(Merged(ls)) && ToMap(Merged(ls)) == Overlay(ls)
    ensures Descending(LiveOnly(Merged(ls))) && ToMap(LiveOnly(Merged(ls))) == LiveMap(Overlay(ls))
  {
    DescListDescends(Overlay(ls));
    DescListRoundTrip(Overlay(ls));
    LiveOnlyProps(Merged(ls));
  }

  lemma MergedWellFormed(ls: seq<PostingList>)
    requires AllWellFormed(ls)
    ensures WellFormed(Merged(ls)) && WellFormed(LiveOnly(Merged(ls)))
  {
    var M := Merged(ls);
    MergedMeaning(ls);
    LiveOnlyProps(M);
    forall e | e in M ensures e.id > 0 {
      DescListIn(Overlay(ls), e);
      OverlayIn(ls, e.id);
      var p :| 0 <= p < |ls| && Mentions(ls[p], e.id);
    }
    forall i | 0 <= i < |LiveOnly(M)| ensures LiveOnly(M)[i].id > 0 {
      assert LiveOnly(M)[i] in M;
    }
  }

  lemma MergesWellFormed(ls: seq<PostingList>, max: nat)
    requires AllWellFormed(ls)
    ensures WellFormed(FullMerge(ls, max)) && WellFormed(PartialMerge(ls, max))
  {
    MergedWellFormed(ls);
    CappedIn(Merged(ls), max, 0, 0);
    var P := PartialMerge(ls, max);
    forall i | 0 <= i < |P| ensures P[i].id > 0 {
      assert P[i] in Merged(ls);
    }
  }

  /** Full merge: live ids in decreasing order, each in the state of the newest list that mentions
      it; the `max` largest such ids, or all of them when there are fewer. */
  lemma FullMergeMeaning(ls: seq<PostingList>, max: nat)
    ensures Descending(FullMerge(ls, max))
    ensures forall e :: e in FullMerge(ls, max) ==> e.id in Overlay(ls) && Overlay(ls)[e.id] == e.state && Live(e)
    ensures |FullMerge(ls, max)| == if |LiveMap(Overlay(ls))| < max then |LiveMap(Overlay(ls))| else max
    ensures forall id, e :: id in LiveMap(Overlay(ls)) && !Mentions(FullMerge(ls, max), id) && e in FullMerge(ls, max) ==> id < e.id
  {
    MergedMeaning(ls);
    FullMergeEntries(ls, max);
    MapSize(LiveOnly(Merged(ls)));
    TakeLargest(LiveOnly(Merged(ls)), max);
  }

  lemma FullMergeEntries(ls: seq<PostingList>, max: nat)
    ensures forall e :: e in FullMerge(ls, max) ==> e.id in Overlay(ls) && Overlay(ls)[e.id] == e.state && Live(e)
  {
    MergedMeaning(ls);
    LiveOnlyProps(Merged(ls));
    forall e | e in FullMerge(ls, max) ensures e.id in Overlay(ls) && Overlay(ls)[e.id] == e.state && Live(e) {
      assert e in LiveOnly(Merged(ls));
      DescListIn(Overlay(ls), e);
    }
  }

  /** Cutting a list keeps its largest ids. */
  lemma TakeLargest(l: PostingList, n: nat)
    requires Descending(l)
    ensures Descending(Take(l, n))
    ensures forall id, e :: id in ToMap(l) && !Mentions(Take(l, n), id) && e in Take(l, n) ==> id < e.id
  {
    forall id, e | id in ToMap(l) && !Mentions(Take(l, n), id) && e in Take(l, n) ensures id < e.id {
      ToMapIn(l, id);
      LeftOutIsSmaller(l, n, id, e);
    }
  }

  lemma LeftOutIsSmaller(l: PostingList, n: nat, id: nat, e: Entry)
    requires Descending(l) && Mentions(l, id) && !Mentions(Take(l, n), id) && e in Take(l, n)
    ensures id < e.id
  {
    var k :| 0 <= k < |l| && l[k].id == id;
    var i :| 0 <= i < |Take(l, n)| && Take(l, n)[i] == e;
    assert l[i] == e;
    assert k < |Take(l, n)| ==> Take(l, n)[k].id == id;
  }

  lemma {:induction false} MapSize(l: PostingList)
    requires Descending(l)
    ensures |ToMap(l)| == |l|
  {
    if l != [] {
      MapSize(l[1..]);
      ToMapIn(l[1..], l[0].id);
      assert ToMap(l).Keys == ToMap(l[1..]).Keys + {l[0].id};
    }
  }

  /** A partial merge of these lists means what they mean exactly when it is uncut. */
  lemma PartialMergeExact(ls: seq<PostingList>, max: nat)
    ensures ToMap(PartialMerge(ls, max)) == Overlay(ls) <==> PartialFits(ls, max)
  {
    MergedMeaning(ls);
    CappedIsWhole(Merged(ls), max, 0, 0);
    CappedIn(Merged(ls), max, 0, 0);
    if ToMap(PartialMerge(ls, max)) == Overlay(ls) {
      DescendingUnique(PartialMerge(ls, max), Merged(ls));
    }
  }

  /** A full merge shows what the lists show exactly when the live documents fit. */
  lemma FullMergeExact(ls: seq<PostingList>, max: nat)
    ensures ToMap(FullMerge(ls, max)) == LiveMap(Overlay(ls)) <==> FullFits(ls, max)
  {
    MergedMeaning(ls);
    var L := LiveOnly(Merged(ls));
    if ToMap(FullMerge(ls, max)) == LiveMap(Overlay(ls)) {
      DescendingUnique(FullMerge(ls, max), L);
    }
  }

  /** The full merge depends only on what the lists show. */
  lemma FullMergeByMeaning(a: seq<PostingList>, b: seq<PostingList>, max: nat)
    requires LiveMap(Overlay(a)) == LiveMap(Overlay(b))
    ensures FullMerge(a, max) == FullMerge(b, max)
  {
    MergedMeaning(a);
    MergedMeaning(b);
    DescendingUnique(LiveOnly(Merged(a)), LiveOnly(Merged(b)));
  }

  // ---------------------------------------------------------------------------
  // Any number of merges at any time

  /** One key's posting data: a merged base value, if any, and operands written since. */
  datatype Cell = Cell(base: Option<PostingList>, ops: seq<PostingList>) {
    function Lists(): seq<PostingList> { Stack(base, ops) }
  }

  /** A write, or a merge the store decides on: operands i..j into one, or the base and the k
      oldest operands into a new base. */
  datatype Action = Write(l: PostingList) | MergeRun(i: nat, j: nat) | MergeOldest(k: nat)

  predicate Allowed(c: Cell, a: Action) {
    match a
    case Write(l) => WellFormed(l)
    case MergeRun(i, j) => i < j <= |c.ops|
    case MergeOldest(k) => k <= |c.ops| && Stack(c.base, c.ops[..k]) != []
  }

  /** The merge does not hit its limits. */
  ghost predicate Roomy(c: Cell, a: Action, max: nat)
    requires Allowed(c, a)
  {
    match a
    case Write(l) => true
    case MergeRun(i, j) => PartialFits(c.ops[i..j], max)
    case MergeOldest(k) => FullFits(Stack(c.base, c.ops[..k]), max)
  }

  ghost function Do(c: Cell, a: Action, max: nat): Cell
    requires Allowed(c, a)
  {
    match a
    case Write(l) => Cell(c.base, c.ops + [l])
    case MergeRun(i, j) => Cell(c.base, c.ops[..i] + [PartialMerge(c.ops[i..j], max)] + c.ops[j..])
    case MergeOldest(k) => Cell(Some(FullMerge(Stack(c.base, c.ops[..k]), max)), c.ops[k..])
  }

  /** The live ids a reader should see, with their states. */
  ghost function Visible(c: Cell): map<nat, nat> { LiveMap(Overlay(c.Lists())) }

  /** What a reader gets: a full merge of everything. */
  ghost function Read(c: Cell, max: nat): PostingList { FullMerge(c.Lists(), max) }

  lemma StackOverlay(base: Option<PostingList>, ops: seq<PostingList>)
    ensures Overlay(Stack(base, ops)) == (if base.Some? then ToMap(base.value) else map[]) + Overlay(ops)
  {
    if base.Some? {
      OverlayConcat([base.value], ops);
      OverlayOne(base.value);
    } else {
      assert Stack(base, ops) == ops;
    }
  }

  lemma StackWellFormed(base: Option<PostingList>, ops: seq<PostingList>)
    ensures AllWellFormed(Stack(base, ops)) <==> (base.Some? ==> WellFormed(base.value)) && AllWellFormed(ops)
  {
    var n := if base.Some? then 1 else 0;
    assert forall p :: 0 <= p < |ops| ==> Stack(base, ops)[n + p] == ops[p];
    assert forall p :: n <= p < |Stack(base, ops)| ==> Stack(base, ops)[p] == ops[p - n];
    assert base.Some? ==> Stack(base, ops)[0] == base.value;
  }

  lemma CellStaysWellFormed(c: Cell, a: Action, max: nat)
    requires Allowed(c, a) && AllWellFormed(c.Lists())
    ensures AllWellFormed(Do(c, a, max).Lists())
  {
    var d := Do(c, a, max);
    StackWellFormed(c.base, c.ops);
    StackWellFormed(d.base, d.ops);
    match a
    case Write(l) =>
    case MergeRun(i, j) =>
      MergesWellFormed(c.ops[i..j], max);
    case MergeOldest(k) =>
      StackWellFormed(c.base, c.ops[..k]);
      MergesWellFormed(Stack(c.base, c.ops[..k]), max);
  }

  /** Dropping tombstones below an overlay does not show through it. */
  lemma LiveMapOverride(m: map<nat, nat>, r: map<nat, nat>)
    ensures LiveMap(LiveMap(m) + r) == LiveMap(m + r)
  {
  }

  lemma MergeRunKeepsOverlay(c: Cell, i: nat, j: nat, max: nat)
    requires i < j <= |c.ops| && PartialFits(c.ops[i..j], max)
    ensures Overlay(Do(c, MergeRun(i, j), max).Lists()) == Overlay(c.Lists())
  {
    var a, m, z := c.ops[..i], c.ops[i..j], c.ops[j..];
    PartialMergeExact(m, max);
    OverlayOne(PartialMerge(m, max));
    assert c.ops == a + m + z;
    OverlayConcat(a + m, z);
    OverlayConcat(a, m);
    OverlayConcat(a + [PartialMerge(m, max)], z);
    OverlayConcat(a, [PartialMerge(m, max)]);
    StackOverlay(c.base, c.ops);
    StackOverlay(c.base, Do(c, MergeRun(i, j), max).ops);
  }

  lemma MergeOldestKeepsVisible(c: Cell, k: nat, max: nat)
    requires Allowed(c, MergeOldest(k)) && FullFits(Stack(c.base, c.ops[..k]), max)
    ensures Visible(Do(c, MergeOldest(k), max)) == Visible(c)
  {
    var old_ := Stack(c.base, c.ops[..k]);
    FullMergeExact(old_, max);
    assert c.Lists() == old_ + c.ops[k..];
    OverlayConcat(old_, c.ops[k..]);
    OverlayConcat([FullMerge(old_, max)], c.ops[k..]);
    OverlayOne(FullMerge(old_, max));
    LiveMapOverride(Overlay(old_), Overlay(c.ops[k..]));
  }

  /** Merging at any time changes nothing a reader can see. */
  lemma MergeInvisible(c: Cell, a: Action, max: nat)
    requires Allowed(c, a) && !a.Write? && Roomy(c, a, max)
    ensures Visible(Do(c, a, max)) == Visible(c)
    ensures Read(Do(c, a, max), max) == Read(c, max)
  {
    match a {
      case MergeRun(i, j) => MergeRunKeepsOverlay(c, i, j, max);
      case MergeOldest(k) => MergeOldestKeepsVisible(c, k, max);
    }
    FullMergeByMeaning(Do(c, a, max).Lists(), c.Lists(), max);
  }

  /** A write overrides what was visible. */
  lemma WriteVisible(c: Cell, l: PostingList, max: nat)
    requires WellFormed(l)
    ensures Visible(Do(c, Write(l), max)) == LiveMap(Visible(c) + ToMap(l))
  {
    OverlayOne(l);
    assert Do(c, Write(l), max).Lists() == c.Lists() + [l];
    OverlayConcat(c.Lists(), [l]);
    LiveMapOverride(Overlay(c.Lists()), ToMap(l));
  }

  ghost predicate RunAllowed(c: Cell, run: seq<Action>, max: nat)
    decreases |run|
  {
    run == [] || (Allowed(c, run[0]) && Roomy(c, run[0], max) && RunAllowed(Do(c, run[0], max), run[1..], max))
  }

  ghost function Run(c: Cell, run: seq<Action>, max: nat): Cell
    requires RunAllowed(c, run, max)
    decreases |run|
  {
    if run == [] then c else Run(Do(c, run[0], max), run[1..], max)
  }

  /** The operands written during a run, in order. */
  function Writes(run: seq<Action>): seq<PostingList> {
    if run == [] then []
    else (if run[0].Write? then [run[0].l] else []) + Writes(run[1..])
  }

  lemma {:induction false} RunVisible(c: Cell, run: seq<Action>, max: nat)
    requires RunAllowed(c, run, max)
    ensures Visible(Run(c, run, max)) == LiveMap(Visible(c) + Overlay(Writes(run)))
    decreases |run|
  {
    if run == [] {
      VisibleIsLive(c);
    } else if run[0].Write? {
      RunVisible(Do(c, run[0], max), run[1..], max);
      WriteThen(c, run[0].l, Writes(run[1..]), max);
    } else {
      RunVisible(Do(c, run[0], max), run[1..], max);
      MergeInvisible(c, run[0], max);
      assert Writes(run) == Writes(run[1..]);
    }
  }

  lemma VisibleIsLive(c: Cell)
    ensures LiveMap(Visible(c) + Overlay([])) == Visible(c)
  {
    LiveMapOverride(Overlay(c.Lists()), map[]);
    assert Overlay(c.Lists()) + map[] == Overlay(c.Lists());
    assert Overlay([]) == map[];
  }

  lemma LiveThen(m: map<nat, nat>, a: map<nat, nat>, b: map<nat, nat>)
    ensures LiveMap(LiveMap(m + a) + b) == LiveMap(m + (a + b))
  {
    assert m + a + b == m + (a + b);
    LiveMapOverride(m + a, b);
  }

  lemma WriteThen(c: Cell, l: PostingList, later: seq<PostingList>, max: nat)
    requires WellFormed(l)
    ensures LiveMap(Visible(Do(c, Write(l), max)) + Overlay(later)) == LiveMap(Visible(c) + Overlay([l] + later))
  {
    WriteVisible(c, l, max);
    OverlayConcat([l], later);
    OverlayOne(l);
    LiveThen(Visible(c), ToMap(l), Overlay(later));
  }

  /** Schedule independence: whatever merges happened along the way, a reader gets one full merge of
      everything written, in order. */
  lemma ScheduleIndependent(run: seq<Action>, max: nat)
    requires RunAllowed(Cell(None, []), run, max)
    ensures Read(Run(Cell(None, []), run, max), max) == FullMerge(Writes(run), max)
  {
    var c := Cell(None, []);
    RunVisible(c, run, max);
    assert c.Lists() == [];
    assert Visible(c) == map[];
    assert Visible(c) + Overlay(Writes(run)) == Overlay(Writes(run));
    FullMergeByMeaning(Run(c, run, max).Lists(), Writes(run), max);
  }

  lemma OverlayTwo(a: PostingList, b: PostingList)
    ensures Overlay([a, b]) == ToMap(a) + ToMap(b)
  {
    OverlayOne(a);
    OverlayOne(b);
    OverlayConcat([a], [b]);
    assert [a] + [b] == [a, b];
  }

  const TWO := [Entry(2, 0)]
  const ONE := [Entry(1, 0)]
  const DROP_TWO := [Entry(2, DELETED)]

  lemma EarlyMergeDropsOne()
    ensures PartialMerge([TWO, ONE], 1) == TWO
  {
    var both := [Entry(2, 0), Entry(1, 0)];
    OverlayTwo(TWO, ONE);
    assert both[1..] == ONE;
    assert ToMap(both) == Overlay([TWO, ONE]);
    MergedMeaning([TWO, ONE]);
    DescendingUnique(Merged([TWO, ONE]), both);
    assert Capped(ONE, 1, 1, 0) == Capped(ONE[1..], 1, 1, 0);
  }

  /** The limits matter: with room for one live document, merging {2} with {1} early drops 1, and
      the later removal of 2 then leaves nothing instead of 1. */
  lemma TightLimitBreaksIndependence()
    ensures var early := Do(Cell(None, [TWO, ONE]), MergeRun(0, 2), 1);
            Read(Do(early, Write(DROP_TWO), 1), 1) != FullMerge([TWO, ONE, DROP_TWO], 1)
  {
    var c := Cell(None, [TWO, ONE]);
    EarlyMergeDropsOne();
    assert c.ops[0..2] == [TWO, ONE] && c.ops[..0] == [] && c.ops[2..] == [];
    var early := Do(c, MergeRun(0, 2), 1);
    assert early == Cell(None, [TWO]);
    var late := Do(early, Write(DROP_TWO), 1);
    assert late.Lists() == [TWO, DROP_TWO];
    OverlayTwo(TWO, DROP_TWO);
    OverlayTwo(TWO, ONE);
    OverlayConcat([TWO, ONE], [DROP_TWO]);
    OverlayOne(DROP_TWO);
    assert [TWO, ONE] + [DROP_TWO] == [TWO, ONE, DROP_TWO];
    assert ToMap(DROP_TWO)[2] == DELETED;
    assert ToMap(ONE)[1] == 0;
    var full := LiveMap(Overlay([TWO, ONE, DROP_TWO]));
    assert 1 in full;
    assert LiveMap(Overlay([TWO, DROP_TWO])) == map[];
    FullMergeMeaning([TWO, DROP_TWO], 1);
    FullMergeMeaning([TWO, ONE, DROP_TWO], 1);
    assert |full| >= 1;
  }
}
