/** The posting-list merge operator: an array heap that merges k lists at once. */
module HeapMerge {
  import opened Basics
  import opened Postings

  /** Once more than this many tombstones are kept, a partial merge stops early. */
  const TOMBSTONE_LIMIT := 10000000

  const HEAP_SIZE := 1000

  /** A cursor into one list: what is left of it, and the list's rank in the stack. */
  datatype HeapItem = HeapItem(rest: PostingList, priority: nat)

  /** The document under a cursor, 0 once the list is used up. */
  function DocIdOf(h: HeapItem): nat { if h.rest == [] then 0 else h.rest[0].id }

  predicate Greater(a: HeapItem, b: HeapItem) {
    DocIdOf(a) > DocIdOf(b) || (DocIdOf(a) == DocIdOf(b) && a.priority > b.priority)
  }

  /** A stored value and the operands written after it, oldest first. */
  function Stack(existing: Option<PostingList>, operands: seq<PostingList>): seq<PostingList> {
    (if existing.Some? then [existing.value] else []) + operands
  }

  predicate HeapAt(s: seq<HeapItem>, j: nat)
    requires 0 < j < |s|
  {
    !Greater(s[j], s[(j - 1) / 2])
  }

  /** Parents are never below their children. */
  predicate IsHeap(s: seq<HeapItem>) { forall j :: 0 < j < |s| ==> HeapAt(s, j) }

  /** A heap except that `hole` may be above its parent; its children fit under that parent. */
  predicate HeapButUp(s: seq<HeapItem>, hole: nat) {
    && (forall j :: 0 < j < |s| && j != hole ==> HeapAt(s, j))
    && (forall j :: 0 < hole && 0 < j < |s| && (j - 1) / 2 == hole ==> !Greater(s[j], s[(hole - 1) / 2]))
  }

  /** A heap except that `hole` may be below its children; they fit under its parent. */
  predicate HeapButDown(s: seq<HeapItem>, hole: nat) {
    && (forall j :: 0 < j < |s| && (j - 1) / 2 != hole ==> HeapAt(s, j))
    && (forall j :: 0 < hole < |s| && 0 < j < |s| && (j - 1) / 2 == hole ==> !Greater(s[j], s[(hole - 1) / 2]))
  }

  function Swapped(s: seq<HeapItem>, i: nat, j: nat): seq<HeapItem>
    requires i < |s| && j < |s|
  {
    s[i := s[j]][j := s[i]]
  }

  /** Entries not yet consumed by the cursors. */
  function Total(s: seq<HeapItem>): nat {
    if s == [] then 0 else |s[0].rest| + Total(s[1..])
  }

  lemma {:induction false} TotalUpdate(s: seq<HeapItem>, i: nat, h: HeapItem)
    requires i < |s|
    ensures Total(s[i := h]) == Total(s) - |s[i].rest| + |h.rest|
  {
    if i > 0 {
      TotalUpdate(s[1..], i - 1, h);
      assert s[i := h][1..] == s[1..][i - 1 := h];
    }
  }

  lemma SwapKeeps(s: seq<HeapItem>, i: nat, j: nat)
    requires i < |s| && j < |s|
    ensures multiset(Swapped(s, i, j)) == multiset(s)
    ensures Total(Swapped(s, i, j)) == Total(s)
  {
    TotalUpdate(s, i, s[j]);
    TotalUpdate(s[i := s[j]], j, s[i]);
  }

  /** The root of a heap is below nothing. */
  lemma {:induction false} RootIsMax(s: seq<HeapItem>, j: nat)
    requires IsHeap(s) && j < |s|
    ensures !Greater(s[j], s[0])
  {
    if j > 0 {
      RootIsMax(s, (j - 1) / 2);
      assert HeapAt(s, j);
    }
  }

  // ---------------------------------------------------------------------------
  // What a merge returns

  /** Full merge: the first `max` live documents of the merge. */
  ghost function FullMerge(ls: seq<PostingList>, max: nat): PostingList {
    Take(LiveOnly(Merged(ls)), max)
  }

  /** Partial merge: live documents up to `max`, and every tombstone until there are too many. */
  function Capped(s: PostingList, max: nat, live: nat, dead: nat): PostingList {
    if s == [] then []
    else if Live(s[0]) then
      if live < max then [s[0]] + Capped(s[1..], max, live + 1, dead)
      else Capped(s[1..], max, live, dead)
    else if dead + 1 > TOMBSTONE_LIMIT then [s[0]]
    else [s[0]] + Capped(s[1..], max, live, dead + 1)
  }

  ghost function PartialMerge(ls: seq<PostingList>, max: nat): PostingList {
    Capped(Merged(ls), max, 0, 0)
  }

  // ---------------------------------------------------------------------------
  // Cursors and the merged list

  /** The part of a descending list that is below `bound`. */
  function Below(l: PostingList, bound: nat): PostingList {
    if l == [] || l[0].id < bound then l else Below(l[1..], bound)
  }

  lemma {:induction false} BelowIn(l: PostingList, bound: nat, e: Entry)
    requires Descending(l)
    ensures Descending(Below(l, bound))
    ensures e in Below(l, bound) <==> e in l && e.id < bound
  {
    if l != [] && l[0].id >= bound {
      BelowIn(l[1..], bound, e);
    }
  }

  lemma {:induction false} BelowAll(l: PostingList, bound: nat)
    requires forall i :: 0 <= i < |l| ==> l[i].id < bound
    ensures Below(l, bound) == l
  {
  }

  lemma {:induction false} BelowNext(l: PostingList, bound: nat)
    requires Descending(l) && Below(l, bound) != []
    ensures Below(l, Below(l, bound)[0].id) == Below(l, bound)[1..]
  {
    if l[0].id >= bound {
      BelowIn(l, bound, Below(l, bound)[0]);
      BelowNext(l[1..], bound);
    } else if |l| > 1 {
      assert l[1].id < l[0].id;
    }
  }

  lemma {:induction false} BelowStep(l: PostingList, d: nat, bound: nat)
    requires Descending(l) && d < bound
    requires forall e :: e in Below(l, bound) ==> e.id < d
    ensures Below(l, d) == Below(l, bound)
  {
    if l != [] && l[0].id >= bound {
      BelowStep(l[1..], d, bound);
    } else if l != [] {
      assert l[0] in Below(l, bound);
    }
  }

  /** Every cursor stands at its list's part below `bound`. */
  predicate AllAt(h: seq<HeapItem>, ls: seq<PostingList>, bound: nat) {
    forall x :: x in h ==> x.priority < |ls| && x.rest == Below(ls[x.priority], bound)
  }

  /** As above, but some cursors have already stepped over document `d`. */
  predicate AllNear(h: seq<HeapItem>, ls: seq<PostingList>, bound: nat, d: nat) {
    forall x :: x in h ==>
      && x.priority < |ls|
      && (x.rest == Below(ls[x.priority], bound) || x.rest == Below(ls[x.priority], d))
  }

  predicate HasPriority(h: seq<HeapItem>, p: nat) { exists x :: x in h && x.priority == p }

  predicate Covers(h: seq<HeapItem>, n: nat) { forall p: nat :: p < n ==> HasPriority(h, p) }

  /** M is split at k by the bound. */
  predicate SplitAt(M: PostingList, k: nat, bound: nat) {
    && k <= |M|
    && (forall i :: 0 <= i < k ==> M[i].id >= bound)
    && (forall i :: k <= i < |M| ==> M[i].id < bound)
  }

  lemma SplitNext(ls: seq<PostingList>, k: nat, bound: nat)
    requires SplitAt(Merged(ls), k, bound) && k < |Merged(ls)|
    ensures SplitAt(Merged(ls), k + 1, Merged(ls)[k].id)
  {
    DescListDescends(Overlay(ls));
  }

  /** With every cursor at `bound`, the root is the next entry of the merge: its document is the
      largest one left and, among the lists holding it, the root's is the newest. */
  lemma RootIsNext(h: seq<HeapItem>, ls: seq<PostingList>, bound: nat, k: nat)
    requires IsHeap(h) && h != [] && AllWellFormed(ls)
    requires AllAt(h, ls, bound) && Covers(h, |ls|) && SplitAt(Merged(ls), k, bound)
    ensures DocIdOf(h[0]) == 0 <==> k == |Merged(ls)|
    ensures DocIdOf(h[0]) != 0 ==> h[0].rest[0] == Merged(ls)[k]
  {
    var M := Merged(ls);
    var ov := Overlay(ls);
    DescListDescends(ov);
    if k < |M| {
      var d := M[k].id;
      DescListIn(ov, M[k]);
      OverlayIn(ls, d);
      var p :| 0 <= p < |ls| && Mentions(ls[p], d);
      SomeCursorAtLeast(h, ls, bound, p, d);
    }
    if h[0].rest != [] {
      var root := h[0];
      var p := root.priority;
      var e := root.rest[0];
      assert e in Below(ls[p], bound);
      BelowIn(ls[p], bound, e);
      var i :| 0 <= i < |ls[p]| && ls[p][i] == e;
      forall q | p < q < |ls| ensures !Mentions(ls[q], e.id) {
        if Mentions(ls[q], e.id) {
          SomeCursorAtLeast(h, ls, bound, q, e.id);
        }
      }
      OverlayNewest(ls, p, i);
      DescListIn(ov, e);
      var m :| 0 <= m < |M| && M[m] == e;
      assert k <= m;
    }
  }

  /** If list q still has document d, the root's document is at least d, and if it is d the root's
      priority is at least q. */
  lemma SomeCursorAtLeast(h: seq<HeapItem>, ls: seq<PostingList>, bound: nat, q: nat, d: nat)
    requires IsHeap(h) && h != [] && AllWellFormed(ls)
    requires AllAt(h, ls, bound) && Covers(h, |ls|)
    requires q < |ls| && Mentions(ls[q], d) && d < bound
    ensures DocIdOf(h[0]) >= d && d > 0
    ensures DocIdOf(h[0]) == d ==> h[0].priority >= q
  {
    assert HasPriority(h, q);
    var x :| x in h && x.priority == q;
    var j :| 0 <= j < |h| && h[j] == x;
    var i :| 0 <= i < |ls[q]| && ls[q][i].id == d;
    BelowIn(ls[q], bound, ls[q][i]);
    assert ls[q][i] in x.rest;
    var m :| 0 <= m < |x.rest| && x.rest[m] == ls[q][i];
    RootIsMax(h, j);
  }

  // ---------------------------------------------------------------------------
  // The merger

  class OptimizeMerger {
    const maxDocListNum: nat
    const heap: array<HeapItem>

    constructor (max: nat)
      requires max > 0
      ensures maxDocListNum == max && heap.Length == HEAP_SIZE && fresh(heap)
    {
      maxDocListNum := max;
      heap := new HeapItem[HEAP_SIZE](i => HeapItem([], 0));
    }

    method Swap(items: array<HeapItem>, size: nat, i: nat, j: nat)
      requires size <= items.Length && i < size && j < size
      modifies items
      ensures items[..size] == Swapped(old(items[..size]), i, j)
      ensures multiset(items[..size]) == multiset(old(items[..size]))
      ensures Total(items[..size]) == Total(old(items[..size]))
      ensures forall i :: size <= i < items.Length ==> items[i] == old(items[i])
    {
      SwapKeeps(items[..size], i, j);
      items[i], items[j] := items[j], items[i];
    }

    /** Swaps the item at `p` with its parent. */
    method SwapUp(items: array<HeapItem>, size: nat, p: nat)
      requires 0 < p < size <= items.Length
      requires HeapButUp(items[..size], p) && Greater(items[p], items[(p - 1) / 2])
      modifies items
      ensures HeapButUp(items[..size], (p - 1) / 2)
      ensures multiset(items[..size]) == multiset(old(items[..size]))
      ensures forall i :: size <= i < items.Length ==> items[i] == old(items[i])
    {
      SiftUpStep(items[..size], p);
      Swap(items, size, p, (p - 1) / 2);
    }

    /** Extends a heap of `pos` items by the one at `pos`. */
    method HeapShiftUp(items: array<HeapItem>, size: nat, pos: nat)
      requires pos < size <= items.Length
      requires IsHeap(items[..pos])
      modifies items
      ensures IsHeap(items[..pos + 1])
      ensures multiset(items[..pos + 1]) == multiset(old(items[..pos + 1]))
      ensures forall i :: pos < i < items.Length ==> items[i] == old(items[i])
    {
      var p: nat := pos;
      ghost var was := items[..pos + 1];
      assert was[..pos] == items[..pos];
      SiftUpStart(was);
      while p != 0
        invariant p <= pos
        invariant HeapButUp(items[..pos + 1], p)
        invariant multiset(items[..pos + 1]) == multiset(was)
        invariant forall i :: pos < i < items.Length ==> items[i] == old(items[i])
      {
        var parent := (p - 1) / 2;
        if Greater(items[p], items[parent]) {
          SwapUp(items, pos + 1, p);
          p := parent;
        } else {
          break;
        }
      }
      SiftUpStop(items[..pos + 1], p);
    }

    /** Swaps the item at `pos` with the greater of its children. */
    method SwapDown(items: array<HeapItem>, size: nat, pos: nat, child: nat)
      requires pos < size <= items.Length && child < size
      requires HeapButDown(items[..size], pos) && (child == pos * 2 + 1 || child == pos * 2 + 2)
      requires Greater(items[child], items[pos])
      requires ChildrenNotGreater(items[..size], pos, items[child])
      modifies items
      ensures HeapButDown(items[..size], child)
      ensures multiset(items[..size]) == multiset(old(items[..size]))
      ensures Total(items[..size]) == Total(old(items[..size]))
      ensures forall i :: size <= i < items.Length ==> items[i] == old(items[i])
    {
      SiftDownStep(items[..size], pos, child);
      Swap(items, size, child, pos);
    }

    /** Lets the item at the root sink to its place. */
    method HeapShiftDown(items: array<HeapItem>, size: nat, start: nat)
      requires start < size <= items.Length
      requires HeapButDown(items[..size], start)
      modifies items
      ensures IsHeap(items[..size])
      ensures multiset(items[..size]) == multiset(old(items[..size]))
      ensures Total(items[..size]) == Total(old(items[..size]))
      ensures forall i :: size <= i < items.Length ==> items[i] == old(items[i])
    {
      var pos := start;
      while true
        invariant pos < size
        invariant HeapButDown(items[..size], pos)
        invariant multiset(items[..size]) == multiset(old(items[..size]))
        invariant Total(items[..size]) == Total(old(items[..size]))
        invariant forall i :: size <= i < items.Length ==> items[i] == old(items[i])
        decreases size - pos
      {
        var left := pos * 2 + 1;
        var right := pos * 2 + 2;
        if right < size {
          if Greater(items[left], items[right]) {
            if Greater(items[left], items[pos]) {
              SwapDown(items, size, pos, left);
              pos := left;
            } else {
              SiftDownStop(items[..size], pos);
              break;
            }
          } else if Greater(items[right], items[pos]) {
            SwapDown(items, size, pos, right);
            pos := right;
          } else {
            SiftDownStop(items[..size], pos);
            break;
          }
        } else if left < size {
          if Greater(items[left], items[pos]) {
            SwapDown(items, size, pos, left);
            pos := left;
          } else {
            SiftDownStop(items[..size], pos);
            break;
          }
        } else {
          SiftDownStop(items[..size], pos);
          break;
        }
      }
    }

    /** Merges the lists under the cursors.  The heap starts as one cursor per list, in stack
        order; `ls` names those lists. */
    method OptimizeDocListMerge(items: array<HeapItem>, size: nat, purge: bool, ghost ls: seq<PostingList>)
      returns (out: PostingList)
      requires maxDocListNum > 0
      requires 0 < size == |ls| && size <= items.Length
      requires AllWellFormed(ls)
      requires forall i :: 0 <= i < size ==> items[i] == HeapItem(ls[i], i)
      modifies items
      ensures out == Result(purge, Merged(ls))
    {
      BuildHeap(items, size, ls);
      ghost var M := Merged(ls);
      ghost var bound := Ceiling(ls);
      ghost var k := 0;
      out := [];
      var matchCount, deleteCount := 0, 0;
      NothingYet(purge, M);
      while DocIdOf(items[0]) != 0
        invariant IsHeap(items[..size])
        invariant AllAt(items[..size], ls, bound) && Covers(items[..size], size)
        invariant SplitAt(M, k, bound)
        invariant SoFar(purge, M, k, out, matchCount, deleteCount)
        decreases Total(items[..size])
      {
        RootIsNext(items[..size], ls, bound, k);
        SplitNext(ls, k, bound);
        var doc := items[0].rest[0];
        var stop;
        out, matchCount, deleteCount, stop := Keep(doc, purge, out, matchCount, deleteCount, M, k);
        if stop { return; }
        SkipDocument(items, size, doc.id, bound, ls);
        bound, k := doc.id, k + 1;
      }
      RootIsNext(items[..size], ls, bound, k);
      AllDone(purge, M, out, matchCount, deleteCount);
    }

    lemma NothingYet(purge: bool, M: PostingList)
      requires maxDocListNum > 0
      ensures SoFar(purge, M, 0, [], 0, 0)
    {
      assert M[0..] == M && M[..0] == [];
    }

    lemma AllDone(purge: bool, M: PostingList, out: PostingList, live: nat, dead: nat)
      requires SoFar(purge, M, |M|, out, live, dead)
      ensures out == Result(purge, M)
    {
      assert M[..|M|] == M && M[|M|..] == [];
    }

    /** One cursor per list, in stack order: on the preallocated heap when it is large enough,
        else on a fresh one. */
    method DoMerge(ls: seq<PostingList>, full: bool) returns (out: PostingList)
      requires maxDocListNum > 0 && heap.Length == HEAP_SIZE
      requires ls != [] && AllWellFormed(ls)
      modifies heap
      ensures out == Result(full, Merged(ls))
    {
      var items := heap;
      if |ls| >= HEAP_SIZE {
        items := new HeapItem[|ls|](i => HeapItem([], 0));
      }
      var i := 0;
      while i < |ls|
        invariant i <= |ls|
        invariant forall k :: 0 <= k < i ==> items[k] == HeapItem(ls[k], k)
        modifies items
      {
        items[i] := HeapItem(ls[i], i);
        i := i + 1;
      }
      out := OptimizeDocListMerge(items, |ls|, full, ls);
    }

    /** The stored value, if any, is the oldest list. */
    method FullMergeV2(existing: Option<PostingList>, operands: seq<PostingList>) returns (out: PostingList)
      requires maxDocListNum > 0 && heap.Length == HEAP_SIZE
      requires Stack(existing, operands) != [] && AllWellFormed(Stack(existing, operands))
      modifies heap
      ensures out == FullMerge(Stack(existing, operands), maxDocListNum)
    {
      var lists := [];
      if existing.Some? {
        lists := lists + [existing.value];
      }
      var i := 0;
      while i < |operands|
        invariant i <= |operands|
        invariant lists == Stack(existing, operands[..i])
      {
        lists := lists + [operands[i]];
        i := i + 1;
      }
      assert operands[..i] == operands;
      out := DoMerge(lists, true);
    }

    method PartialMergeMulti(operands: seq<PostingList>) returns (out: PostingList)
      requires maxDocListNum > 0 && heap.Length == HEAP_SIZE
      requires operands != [] && AllWellFormed(operands)
      modifies heap
      ensures out == PartialMerge(operands, maxDocListNum)
    {
      out := DoMerge(operands, false);
    }

    /** What the merge of M should return. */
    ghost function Result(purge: bool, M: PostingList): PostingList {
      if purge then Take(LiveOnly(M), maxDocListNum) else Capped(M, maxDocListNum, 0, 0)
    }

    /** `out` is right for the first k entries of M, and the merge has not been cut short. */
    ghost predicate SoFar(purge: bool, M: PostingList, k: nat, out: PostingList, live: nat, dead: nat) {
      && k <= |M|
      && (purge ==> out == LiveOnly(M[..k]) && live == |out| < maxDocListNum)
      && (!purge ==> out + Capped(M[k..], maxDocListNum, live, dead) == Result(false, M)
                     && live <= maxDocListNum && dead <= TOMBSTONE_LIMIT)
    }

    /** Decides on the merge's next document; `stop` cuts the merge short. */
    method Keep(doc: Entry, purge: bool, out: PostingList, live: nat, dead: nat, ghost M: PostingList, ghost k: nat)
      returns (newOut: PostingList, newLive: nat, newDead: nat, stop: bool)
      requires SoFar(purge, M, k, out, live, dead) && k < |M| && doc == M[k]
      ensures stop ==> newOut == Result(purge, M)
      ensures !stop ==> SoFar(purge, M, k + 1, newOut, newLive, newDead)
    {
      newOut, newLive, newDead, stop := out, live, dead, false;
      assert M[..k + 1] == M[..k] + [doc] && M == M[..k + 1] + M[k + 1..];
      assert M[k..][1..] == M[k + 1..];
      LiveOnlyConcat(M[..k], [doc]);
      LiveOnlyConcat(M[..k + 1], M[k + 1..]);
      if purge {
        if Live(doc) {
          newOut := out + [doc];
          newLive := live + 1;
          stop := newLive >= maxDocListNum;
        }
      } else if Live(doc) {
        if live < maxDocListNum {
          newOut := out + [doc];
          newLive := live + 1;
        }
      } else {
        newOut := out + [doc];
        newDead := dead + 1;
        stop := newDead > TOMBSTONE_LIMIT;
      }
    }

    method BuildHeap(items: array<HeapItem>, size: nat, ghost ls: seq<PostingList>)
      requires size == |ls| && size <= items.Length
      requires forall i :: 0 <= i < size ==> items[i] == HeapItem(ls[i], i)
      modifies items
      ensures IsHeap(items[..size])
      ensures AllAt(items[..size], ls, Ceiling(ls)) && Covers(items[..size], size)
      ensures SplitAt(Merged(ls), 0, Ceiling(ls))
    {
      ghost var start := items[..size];
      var j := 0;
      while j < size
        invariant j <= size
        invariant IsHeap(items[..j])
        invariant multiset(items[..j]) == multiset(start[..j])
        invariant forall i :: j <= i < size ==> items[i] == start[i]
      {
        assert items[..j + 1] == items[..j] + [items[j]];
        assert start[..j + 1] == start[..j] + [start[j]];
        HeapShiftUp(items, size, j);
        j := j + 1;
      }
      assert start[..size] == start;
      StartAt(items[..size], start, ls);
    }

    /** Moves every cursor that stands on document d past it. */
    method SkipDocument(items: array<HeapItem>, size: nat, d: nat, ghost bound: nat, ghost ls: seq<PostingList>)
      requires 0 < size == |ls| && size <= items.Length && AllWellFormed(ls)
      requires IsHeap(items[..size]) && AllAt(items[..size], ls, bound) && Covers(items[..size], size)
      requires 0 < d < bound && DocIdOf(items[0]) == d
      modifies items
      ensures IsHeap(items[..size]) && AllAt(items[..size], ls, d) && Covers(items[..size], size)
      ensures Total(items[..size]) < Total(old(items[..size]))
    {
      assert AllNear(items[..size], ls, bound, d);
      forall x | x in items[..size] ensures DocIdOf(x) <= d {
        var j :| 0 <= j < size && items[..size][j] == x;
        RootIsMax(items[..size], j);
      }
      StepRoot(items, size, d, bound, ls);
      while DocIdOf(items[0]) == d
        invariant IsHeap(items[..size]) && AllNear(items[..size], ls, bound, d) && Covers(items[..size], size)
        invariant forall x :: x in items[..size] ==> DocIdOf(x) <= d
        invariant Total(items[..size]) < Total(old(items[..size]))
        decreases Total(items[..size])
      {
        StepRoot(items, size, d, bound, ls);
      }
      NearIsAt(items[..size], ls, bound, d);
    }

    /** Steps the root cursor over its document and restores the heap. */
    method StepRoot(items: array<HeapItem>, size: nat, d: nat, ghost bound: nat, ghost ls: seq<PostingList>)
      requires 0 < size == |ls| && size <= items.Length && AllWellFormed(ls)
      requires IsHeap(items[..size]) && AllNear(items[..size], ls, bound, d) && Covers(items[..size], size)
      requires forall x :: x in items[..size] ==> DocIdOf(x) <= d
      requires 0 < d < bound && DocIdOf(items[0]) == d
      modifies items
      ensures IsHeap(items[..size]) && AllNear(items[..size], ls, bound, d) && Covers(items[..size], size)
      ensures forall x :: x in items[..size] ==> DocIdOf(x) <= d
      ensures Total(items[..size]) < Total(old(items[..size]))
    {
      ghost var s := items[..size];
      ghost var stepped := s[0].(rest := s[0].rest[1..]);
      StepKeeps(s, ls, bound, d);
      items[0] := items[0].(rest := items[0].rest[1..]);
      assert items[..size] == s[0 := stepped];
      TotalUpdate(s, 0, stepped);
      HeapShiftDown(items, size, 0);
      SameElements(items[..size], s[0 := stepped]);
    }
  }

  lemma SameElements(a: seq<HeapItem>, b: seq<HeapItem>)
    requires multiset(a) == multiset(b)
    ensures forall x :: x in a <==> x in b
    ensures forall n :: Covers(a, n) <==> Covers(b, n)
  {
    forall x ensures x in a <==> x in b {
      assert x in multiset(a) <==> x in multiset(b);
    }
    forall p ensures HasPriority(a, p) <==> HasPriority(b, p) {
    }
  }

  lemma StepKeeps(s: seq<HeapItem>, ls: seq<PostingList>, bound: nat, d: nat)
    requires s != [] && |s| == |ls| && AllWellFormed(ls) && 0 < d < bound
    requires IsHeap(s) && AllNear(s, ls, bound, d) && Covers(s, |s|)
    requires DocIdOf(s[0]) == d && forall x :: x in s ==> DocIdOf(x) <= d
    ensures var t := s[0 := s[0].(rest := s[0].rest[1..])];
      && HeapButDown(t, 0) && AllNear(t, ls, bound, d) && Covers(t, |s|)
      && forall x :: x in t ==> DocIdOf(x) <= d
  {
    var root := s[0];
    var t := s[0 := root.(rest := root.rest[1..])];
    var l := ls[root.priority];
    if root.rest == Below(l, d) {
      BelowIn(l, d, root.rest[0]);
    }
    BelowIn(l, bound, root.rest[0]);
    BelowNext(l, bound);
    forall j | 0 < j < |t| && (j - 1) / 2 != 0 ensures HeapAt(t, j) {
      assert HeapAt(s, j);
    }
    forall p: nat | p < |s| ensures HasPriority(t, p) {
      assert HasPriority(s, p);
      var x :| x in s && x.priority == p;
      var i :| 0 <= i < |s| && s[i] == x;
      assert t[i] in t;
    }
  }

  lemma NearIsAt(h: seq<HeapItem>, ls: seq<PostingList>, bound: nat, d: nat)
    requires h != [] && IsHeap(h) && AllWellFormed(ls) && 0 < d < bound
    requires AllNear(h, ls, bound, d) && DocIdOf(h[0]) < d
    ensures AllAt(h, ls, d)
  {
    forall x | x in h ensures x.rest == Below(ls[x.priority], d) {
      var j :| 0 <= j < |h| && h[j] == x;
      RootIsMax(h, j);
      var l := ls[x.priority];
      if x.rest == Below(l, bound) {
        forall e | e in x.rest ensures e.id < d {
          BelowIn(l, bound, e);
        }
        BelowStep(l, d, bound);
      }
    }
  }

  ghost function Ceiling(ls: seq<PostingList>): nat {
    var ov := Overlay(ls);
    if ov == map[] then 1 else MaxKey(ov) + 1
  }

  /** Before the first step every cursor holds its whole list. */
  lemma StartAt(h: seq<HeapItem>, start: seq<HeapItem>, ls: seq<PostingList>)
    requires multiset(h) == multiset(start) && |start| == |ls|
    requires forall i :: 0 <= i < |start| ==> start[i] == HeapItem(ls[i], i)
    ensures AllAt(h, ls, Ceiling(ls)) && Covers(h, |ls|) && SplitAt(Merged(ls), 0, Ceiling(ls))
  {
    SameElements(h, start);
    forall p: nat | p < |ls| ensures HasPriority(start, p) {
      assert start[p] in start;
    }
    forall p, i | 0 <= p < |ls| && 0 <= i < |ls[p]| ensures ls[p][i].id < Ceiling(ls) {
      assert Mentions(ls[p], ls[p][i].id);
      OverlayIn(ls, ls[p][i].id);
    }
    forall p | 0 <= p < |ls| ensures Below(ls[p], Ceiling(ls)) == ls[p] {
      BelowAll(ls[p], Ceiling(ls));
    }
    var M := Merged(ls);
    forall i | 0 <= i < |M| ensures M[i].id < Ceiling(ls) {
      DescListIn(Overlay(ls), M[i]);
    }
  }

  lemma SiftUpStart(s: seq<HeapItem>)
    requires s != [] && IsHeap(s[..|s| - 1])
    ensures HeapButUp(s, |s| - 1)
  {
    forall j | 0 < j < |s| - 1 ensures HeapAt(s, j) {
      assert HeapAt(s[..|s| - 1], j);
    }
  }

  lemma SiftUpStop(s: seq<HeapItem>, p: nat)
    requires p < |s| && HeapButUp(s, p) && (p > 0 ==> HeapAt(s, p))
    ensures IsHeap(s)
  {
  }

  lemma SiftUpStep(s: seq<HeapItem>, p: nat)
    requires 0 < p < |s| && HeapButUp(s, p)
    requires Greater(s[p], s[(p - 1) / 2])
    ensures HeapButUp(Swapped(s, p, (p - 1) / 2), (p - 1) / 2)
  {
    var q := (p - 1) / 2;
    var t := Swapped(s, p, q);
    forall j | 0 < j < |t| && j != q ensures HeapAt(t, j) {
      if j != p && (j - 1) / 2 != p { assert HeapAt(s, j); }
    }
    forall j | 0 < q && 0 < j < |t| && (j - 1) / 2 == q ensures !Greater(t[j], t[(q - 1) / 2]) {
      assert HeapAt(s, q);
      if j != p { assert HeapAt(s, j); }
    }
  }

  /** Neither child of p is greater than x. */
  predicate ChildrenNotGreater(s: seq<HeapItem>, p: nat, x: HeapItem) {
    && (2 * p + 1 < |s| ==> !Greater(s[2 * p + 1], x))
    && (2 * p + 2 < |s| ==> !Greater(s[2 * p + 2], x))
  }

  lemma SiftDownStep(s: seq<HeapItem>, p: nat, c: nat)
    requires c < |s| && (c == p * 2 + 1 || c == p * 2 + 2) && HeapButDown(s, p)
    requires Greater(s[c], s[p]) && ChildrenNotGreater(s, p, s[c])
    ensures HeapButDown(Swapped(s, c, p), c)
  {
    var t := Swapped(s, c, p);
    forall j | 0 < j < |t| && (j - 1) / 2 != c ensures HeapAt(t, j) {
      if (j - 1) / 2 != p && j != p { assert HeapAt(s, j); }
    }
    forall j | 0 < j < |t| && (j - 1) / 2 == c ensures !Greater(t[j], t[(c - 1) / 2]) {
      assert HeapAt(s, j);
    }
  }

  lemma SiftDownStop(s: seq<HeapItem>, p: nat)
    requires p < |s| && HeapButDown(s, p) && ChildrenNotGreater(s, p, s[p])
    ensures IsHeap(s)
  {
    forall j | 0 < j < |s| ensures HeapAt(s, j) {
    }
  }
}
