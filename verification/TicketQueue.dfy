/** The bounded lock-free queue as a state machine: one step per atomic load, compare-and-swap or
    store, and one per access to a slot's storage, by any number of threads in any order.
    Atomics are sequentially consistent and counters do not wrap. */
module TicketQueue {
  import opened Basics

  /** The slot of a ticket: t % cap. */
  function Idx(t: nat, cap: nat): (i: nat)
    requires cap > 0
    ensures i < cap
  {
    if t < cap then t else Idx(t - cap, cap)
  }

  /** The lap of a ticket: t / cap. */
  function Turn(t: nat, cap: nat): nat
    requires cap > 0
  {
    if t < cap then 0 else 1 + Turn(t - cap, cap)
  }

  lemma {:induction false} IdxTurnAreModDiv(t: nat, cap: nat)
    requires cap > 0
    ensures Idx(t, cap) == t % cap && Turn(t, cap) == t / cap
  {
    if t >= cap {
      IdxTurnAreModDiv(t - cap, cap);
      var q, r := (t - cap) / cap, (t - cap) % cap;
      assert t - cap == cap * q + r;
      assert t == cap * (t / cap) + t % cap;
      assert cap * (q + 1) == cap * q + cap;
      QuotientUnique(cap, q + 1, r, t / cap, t % cap);
    }
  }

  lemma MulMono(c: nat, a: nat, b: nat)
    requires a < b
    ensures c * a + c <= c * b
  {
    var k := b - a - 1;
    assert c * b == c * (a + 1 + k) == c * a + c + c * k;
  }

  lemma QuotientUnique(c: nat, q: nat, r: nat, q2: nat, r2: nat)
    requires c * q + r == c * q2 + r2 && r < c && r2 < c
    ensures q == q2 && r == r2
  {
    if q < q2 {
      MulMono(c, q, q2);
    } else if q2 < q {
      MulMono(c, q2, q);
    }
  }

  lemma {:induction false} TicketUnique(a: nat, b: nat, cap: nat)
    requires cap > 0 && Idx(a, cap) == Idx(b, cap) && Turn(a, cap) == Turn(b, cap)
    ensures a == b
  {
    if a >= cap && b >= cap {
      TicketUnique(a - cap, b - cap, cap);
    }
  }

  /** Two tickets of one slot are at least a lap apart. */
  lemma {:induction false} LapApart(a: nat, b: nat, cap: nat)
    requires cap > 0 && Idx(a, cap) == Idx(b, cap) && a < b
    ensures a + cap <= b
  {
    if a >= cap {
      LapApart(a - cap, b - cap, cap);
    }
  }

  datatype Slot<T> = Slot(occupy: nat, item: Option<T>)

  /** Where a thread stands in TryEmplace or Pop.  `head`, `tail` and `prev` are its local copies;
      a `ticket` is a position it has won. */
  datatype Thread<T> =
    | Idle
    | PushLook(v: T, head: nat)
    | PushClaim(v: T, head: nat)
    | PushReload(v: T, prev: nat)
    | PushBuild(v: T, ticket: nat)
    | PushPublish(v: T, ticket: nat)
    | PopLook(tail: nat)
    | PopClaim(tail: nat)
    | PopReload(prev: nat)
    | PopMove(ticket: nat)
    | PopDestroy(ticket: nat, got: Option<T>)
    | PopPublish(ticket: nat, got: Option<T>)
  {
    predicate Holding() { PushBuild? || PushPublish? || PopMove? || PopDestroy? || PopPublish? }

    predicate Pushing(t: nat) { (PushBuild? || PushPublish?) && ticket == t }

    predicate Popping(t: nat) { (PopMove? || PopDestroy? || PopPublish?) && ticket == t }
  }

  /** The shared state and every thread's place in its call.  `pushed`, `returned` and `due` are
      history: the value that won each push ticket, what each pop ticket's call handed back, and the
      ticket each slot is on. */
  datatype State<T> = State(
    cap: nat, head: nat, tail: nat, slots: seq<Slot<T>>, threads: map<nat, Thread<T>>,
    pushed: seq<T>, returned: map<nat, Option<T>>, due: seq<nat>)

  datatype Act<T> = StartPush(tid: nat, v: T) | StartPop(tid: nat) | Go(tid: nat)

  function Init<T>(cap: nat): State<T> {
    State(cap, 0, 0, seq(cap, i => Slot(0, None)), map[], [], map[], seq(cap, i => i))
  }

  /** The value of `occupy` that lets ticket t be pushed. */
  function Free<T>(s: State<T>, t: nat): nat
    requires s.cap > 0
  {
    Turn(t, s.cap) * 2
  }

  predicate Shape<T>(s: State<T>) { s.cap > 0 && |s.slots| == s.cap && |s.due| == s.cap }

  function SlotOf<T>(s: State<T>, t: nat): Slot<T>
    requires Shape(s)
  {
    s.slots[Idx(t, s.cap)]
  }

  predicate IsIdle<T>(s: State<T>, tid: nat) { tid in s.threads ==> s.threads[tid].Idle? }

  function At<T>(s: State<T>, tid: nat, p: Thread<T>): State<T> { s.(threads := s.threads[tid := p]) }

  function Step<T>(s: State<T>, a: Act<T>): State<T>
    requires Shape(s)
  {
    match a
    case StartPush(tid, v) => if IsIdle(s, tid) then At(s, tid, PushLook(v, s.head)) else s
    case StartPop(tid) => if IsIdle(s, tid) then At(s, tid, PopLook(s.tail)) else s
    case Go(tid) => if tid in s.threads then Advance(s, tid, s.threads[tid]) else s
  }

  function Advance<T>(s: State<T>, tid: nat, p: Thread<T>): State<T>
    requires Shape(s)
  {
    match p
    case Idle => s
    case PushLook(v, h) =>
      At(s, tid, if SlotOf(s, h).occupy == Free(s, h) then PushClaim(v, h) else PushReload(v, h))
    case PushClaim(v, h) =>
      if s.head == h then At(s.(head := h + 1, pushed := s.pushed + [v]), tid, PushBuild(v, h))
      else At(s, tid, PushLook(v, s.head))
    case PushReload(v, prev) =>
      At(s, tid, if s.head == prev then Idle else PushLook(v, s.head))
    case PushBuild(v, t) =>
      var i := Idx(t, s.cap);
      At(s.(slots := s.slots[i := s.slots[i].(item := Some(v))]), tid, PushPublish(v, t))
    case PushPublish(v, t) =>
      var i := Idx(t, s.cap);
      At(s.(slots := s.slots[i := s.slots[i].(occupy := Free(s, t) + 1)]), tid, Idle)
    case PopLook(t) =>
      At(s, tid, if SlotOf(s, t).occupy == Free(s, t) + 1 then PopClaim(t) else PopReload(t))
    case PopClaim(t) =>
      if s.tail == t then At(s.(tail := t + 1), tid, PopMove(t))
      else At(s, tid, PopLook(s.tail))
    case PopReload(prev) =>
      At(s, tid, if s.tail == prev then Idle else PopLook(s.tail))
    case PopMove(t) =>
      At(s, tid, PopDestroy(t, SlotOf(s, t).item))
    case PopDestroy(t, got) =>
      var i := Idx(t, s.cap);
      At(s.(slots := s.slots[i := s.slots[i].(item := None)]), tid, PopPublish(t, got))
    case PopPublish(t, got) =>
      var i := Idx(t, s.cap);
      At(s.(slots := s.slots[i := s.slots[i].(occupy := Free(s, t) + 2)],
            returned := s.returned[t := got], due := s.due[i := t + s.cap]), tid, Idle)
  }

  // ---------------------------------------------------------------------------
  // The invariant

  ghost predicate ThreadOk<T>(s: State<T>, p: Thread<T>)
    requires Shape(s) && |s.pushed| == s.head
  {
    match p
    case Idle => true
    case PushLook(v, h) => h <= s.head
    case PushReload(v, h) => h <= s.head
    case PushClaim(v, h) => h <= s.head && (h == s.head ==> SlotOf(s, h).occupy == Free(s, h))
    case PushBuild(v, t) => t < s.head && v == s.pushed[t] && SlotOf(s, t) == Slot(Free(s, t), None)
    case PushPublish(v, t) => t < s.head && v == s.pushed[t] && SlotOf(s, t) == Slot(Free(s, t), Some(v))
    case PopLook(t) => t <= s.tail
    case PopReload(t) => t <= s.tail
    case PopClaim(t) => t <= s.tail && (t == s.tail ==> SlotOf(s, t).occupy == Free(s, t) + 1)
    case PopMove(t) => t < s.tail <= s.head && SlotOf(s, t) == Slot(Free(s, t) + 1, Some(s.pushed[t]))
    case PopDestroy(t, got) => t < s.tail <= s.head && got == Some(s.pushed[t]) && SlotOf(s, t) == Slot(Free(s, t) + 1, got)
    case PopPublish(t, got) => t < s.tail <= s.head && got == Some(s.pushed[t]) && SlotOf(s, t) == Slot(Free(s, t) + 1, None)
  }

  ghost predicate SomePushing<T>(s: State<T>, t: nat) { exists i :: i in s.threads && s.threads[i].Pushing(t) }

  ghost predicate SomePopping<T>(s: State<T>, t: nat) { exists i :: i in s.threads && s.threads[i].Popping(t) }

  /** Slot i is on ticket due[i]: waiting for it, being filled, full, or being emptied. */
  ghost predicate SlotOk<T>(s: State<T>, i: nat)
    requires Shape(s) && |s.pushed| == s.head && i < s.cap
  {
    var c := s.due[i];
    && Idx(c, s.cap) == i
    && s.head <= c + s.cap
    && (c >= s.cap ==> c - s.cap < s.tail)
    && if s.slots[i].occupy == Free(s, c) then
         && s.tail <= c
         && (if c < s.head then SomePushing(s, c) else s.slots[i].item == None)
       else
         && s.slots[i].occupy == Free(s, c) + 1
         && c < s.head
         && (if c < s.tail then SomePopping(s, c) else s.slots[i].item == Some(s.pushed[c]))
  }

  ghost predicate Counters<T>(s: State<T>) {
    Shape(s) && |s.pushed| == s.head && s.tail <= s.head <= s.tail + s.cap
  }

  ghost predicate ThreadsOk<T>(s: State<T>)
    requires Counters(s)
  {
    forall i :: i in s.threads ==> ThreadOk(s, s.threads[i])
  }

  /** No ticket is held twice. */
  ghost predicate HoldersApart<T>(s: State<T>) {
    && (forall i, j, t :: i in s.threads && j in s.threads && i != j && s.threads[i].Pushing(t) ==> !s.threads[j].Pushing(t))
    && (forall i, j, t :: i in s.threads && j in s.threads && i != j && s.threads[i].Popping(t) ==> !s.threads[j].Popping(t))
  }

  ghost predicate SlotsOk<T>(s: State<T>)
    requires Counters(s)
  {
    forall i :: 0 <= i < s.cap ==> SlotOk(s, i)
  }

  /** A won pop ticket has either been answered with its push's item or is being answered. */
  ghost predicate Answered<T>(s: State<T>)
    requires Counters(s)
  {
    && (forall t :: t in s.returned ==> t < s.tail && !SomePopping(s, t) && s.returned[t] == Some(s.pushed[t]))
    && (forall t: nat :: t < s.tail ==> t in s.returned || SomePopping(s, t))
  }

  ghost predicate Inv<T>(s: State<T>) {
    Counters(s) && ThreadsOk(s) && HoldersApart(s) && SlotsOk(s) && Answered(s)
  }

  // ---------------------------------------------------------------------------
  // Every step keeps the invariant

  lemma InitInv<T>(cap: nat)
    requires cap > 0
    ensures Inv(Init<T>(cap))
  {
    var s := Init<T>(cap);
    forall i | 0 <= i < cap ensures SlotOk(s, i) {
    }
  }

  /** Two different threads never hold tickets of one slot. */
  lemma HolderAlone<T>(s: State<T>, i: nat, j: nat, t: nat, u: nat)
    requires Inv(s) && i in s.threads && j in s.threads && i != j
    requires s.threads[i].Pushing(t) || s.threads[i].Popping(t)
    requires s.threads[j].Pushing(u) || s.threads[j].Popping(u)
    ensures Idx(t, s.cap) != Idx(u, s.cap)
  {
    assert ThreadOk(s, s.threads[i]) && ThreadOk(s, s.threads[j]);
    if Idx(t, s.cap) == Idx(u, s.cap) {
      TicketUnique(t, u, s.cap);
    }
  }

  /** A thread may move on without touching shared state, keeping the ticket it holds, if any. */
  lemma LocalMove<T>(s: State<T>, tid: nat, p: Thread<T>)
    requires Inv(s) && ThreadOk(s, p)
    requires forall t :: p.Pushing(t) <==> tid in s.threads && s.threads[tid].Pushing(t)
    requires forall t :: p.Popping(t) <==> tid in s.threads && s.threads[tid].Popping(t)
    ensures Inv(At(s, tid, p))
  {
    var n := At(s, tid, p);
    SameHolders(s, n);
    SlotsCarryOver(s, n);
    forall i | i in n.threads ensures ThreadOk(n, n.threads[i]) {
      if i != tid { assert ThreadOk(s, s.threads[i]); }
    }
  }

  /** Slots and answers depend only on shared state and on who holds what. */
  lemma SlotsCarryOver<T>(s: State<T>, n: State<T>)
    requires Counters(s) && SlotsOk(s) && Answered(s) && n == s.(threads := n.threads)
    requires forall t :: SomePushing(s, t) <==> SomePushing(n, t)
    requires forall t :: SomePopping(s, t) <==> SomePopping(n, t)
    ensures SlotsOk(n) && Answered(n)
  {
    forall i | 0 <= i < n.cap ensures SlotOk(n, i) {
      assert SlotOk(s, i);
    }
  }

  /** Holders carry over when nobody's ticket changes. */
  lemma SameHolders<T>(s: State<T>, n: State<T>)
    requires forall i, t :: i in n.threads && n.threads[i].Pushing(t) ==> i in s.threads && s.threads[i].Pushing(t)
    requires forall i, t :: i in s.threads && s.threads[i].Pushing(t) ==> i in n.threads && n.threads[i].Pushing(t)
    requires forall i, t :: i in n.threads && n.threads[i].Popping(t) ==> i in s.threads && s.threads[i].Popping(t)
    requires forall i, t :: i in s.threads && s.threads[i].Popping(t) ==> i in n.threads && n.threads[i].Popping(t)
    ensures forall t :: SomePushing(s, t) <==> SomePushing(n, t)
    ensures forall t :: SomePopping(s, t) <==> SomePopping(n, t)
  {
  }

  lemma StartInv<T>(s: State<T>, tid: nat, p: Thread<T>)
    requires Inv(s) && IsIdle(s, tid) && ThreadOk(s, p) && (p.PushLook? || p.PopLook?)
    ensures Inv(At(s, tid, p))
  {
    LocalMove(s, tid, p);
  }

  /** Before a claim of ticket h = head_, its slot is on h and empty. */
  lemma HeadSlot<T>(s: State<T>)
    requires Inv(s) && SlotOf(s, s.head).occupy == Free(s, s.head)
    ensures s.due[Idx(s.head, s.cap)] == s.head
    ensures SlotOf(s, s.head).item == None && s.head < s.tail + s.cap
  {
    OnTicket(s, s.head);
    assert SlotOk(s, Idx(s.head, s.cap));
  }

  /** Winning the compare-and-swap on head_: ticket h is this thread's to fill. */
  lemma ClaimPush<T>(s: State<T>, tid: nat, v: T)
    requires Inv(s) && tid in s.threads && s.threads[tid] == PushClaim(v, s.head)
    ensures Inv(Advance(s, tid, s.threads[tid]))
  {
    assert ThreadOk(s, s.threads[tid]);
    var n := Advance(s, tid, s.threads[tid]);
    HeadSlot(s);
    ClaimPushHolders(s, tid, v, n);
    ClaimPushSlots(s, tid, v, n);
    forall i | i in n.threads ensures ThreadOk(n, n.threads[i]) {
      if i != tid { assert ThreadOk(s, s.threads[i]); }
    }
  }

  lemma ClaimPushHolders<T>(s: State<T>, tid: nat, v: T, n: State<T>)
    requires Inv(s) && tid in s.threads && s.threads[tid] == PushClaim(v, s.head)
    requires n.threads == s.threads[tid := PushBuild(v, s.head)]
    ensures HoldersApart(n) && SomePushing(n, s.head)
    ensures forall t :: SomePopping(n, t) <==> SomePopping(s, t)
    ensures forall t :: SomePushing(s, t) ==> SomePushing(n, t)
  {
    assert n.threads[tid].Pushing(s.head);
    forall i | i in s.threads ensures !s.threads[i].Pushing(s.head) {
      assert ThreadOk(s, s.threads[i]);
    }
    forall t ensures SomePopping(n, t) <==> SomePopping(s, t) {
      if i :| i in s.threads && s.threads[i].Popping(t) { assert n.threads[i].Popping(t); }
    }
    forall t | SomePushing(s, t) ensures SomePushing(n, t) {
      var i :| i in s.threads && s.threads[i].Pushing(t);
      assert n.threads[i].Pushing(t);
    }
  }

  lemma ClaimPushSlots<T>(s: State<T>, tid: nat, v: T, n: State<T>)
    requires Inv(s) && s.due[Idx(s.head, s.cap)] == s.head
    requires SlotOf(s, s.head).occupy == Free(s, s.head) && s.head < s.tail + s.cap
    requires n.cap == s.cap && n.head == s.head + 1 && n.tail == s.tail && n.slots == s.slots && n.due == s.due && n.pushed == s.pushed + [v]
    requires SomePushing(n, s.head)
    requires forall t :: SomePopping(n, t) <==> SomePopping(s, t)
    requires forall t :: SomePushing(s, t) ==> SomePushing(n, t)
    ensures Counters(n) && SlotsOk(n)
  {
    forall i | 0 <= i < n.cap ensures SlotOk(n, i) {
      assert SlotOk(s, i);
      var d := s.due[i];
      assert Idx(d + s.cap, s.cap) == i;
      assert i != Idx(s.head, s.cap) ==> d != s.head && d + s.cap != s.head;
    }
  }

  /** Constructing the item in the slot the thread owns. */
  lemma BuildPush<T>(s: State<T>, tid: nat, v: T, t: nat)
    requires Inv(s) && tid in s.threads && s.threads[tid] == PushBuild(v, t)
    ensures Inv(Advance(s, tid, PushBuild(v, t)))
  {
    var n := Advance(s, tid, PushBuild(v, t));
    var k := Idx(t, s.cap);
    assert ThreadOk(s, s.threads[tid]);
    SameHolders(s, n);
    OthersElsewhere(s, n, tid, t);
    forall i | 0 <= i < n.cap ensures SlotOk(n, i) {
      assert SlotOk(s, i);
      if i == k { OnTicket(s, t); }
    }
  }

  /** A slot whose occupy says ticket t is on ticket t. */
  lemma OnTicket<T>(s: State<T>, t: nat)
    requires Inv(s)
    requires SlotOf(s, t).occupy == Free(s, t) || SlotOf(s, t).occupy == Free(s, t) + 1
    ensures s.due[Idx(t, s.cap)] == t
  {
    var k := Idx(t, s.cap);
    assert SlotOk(s, k);
    TicketUnique(s.due[k], t, s.cap);
  }

  /** Writing only to the slot of a held ticket t leaves every other thread as it was. */
  lemma OthersElsewhere<T>(s: State<T>, n: State<T>, tid: nat, t: nat)
    requires Inv(s) && tid in s.threads && (s.threads[tid].Pushing(t) || s.threads[tid].Popping(t))
    requires n.cap == s.cap && n.head == s.head && n.tail == s.tail && n.pushed == s.pushed && |n.slots| == |s.slots| && |n.due| == |s.due|
    requires forall i :: 0 <= i < s.cap && i != Idx(t, s.cap) ==> n.slots[i] == s.slots[i]
    ensures forall i :: i in s.threads && i != tid ==> ThreadOk(n, s.threads[i])
  {
    forall i | i in s.threads && i != tid ensures ThreadOk(n, s.threads[i]) {
      OtherElsewhere(s, n, tid, i, t);
    }
  }

  lemma OtherElsewhere<T>(s: State<T>, n: State<T>, tid: nat, i: nat, t: nat)
    requires Inv(s) && tid in s.threads && (s.threads[tid].Pushing(t) || s.threads[tid].Popping(t))
    requires i in s.threads && i != tid
    requires n.cap == s.cap && n.head == s.head && n.tail == s.tail && n.pushed == s.pushed && |n.slots| == |s.slots| && |n.due| == |s.due|
    requires forall j :: 0 <= j < s.cap && j != Idx(t, s.cap) ==> n.slots[j] == s.slots[j]
    ensures ThreadOk(n, s.threads[i])
  {
    var k := Idx(t, s.cap);
    assert ThreadOk(s, s.threads[tid]);
    OnTicket(s, t);
    assert SlotOk(s, k);
    var p := s.threads[i];
    assert ThreadOk(s, p);
    if p.Holding() {
      HolderAlone(s, tid, i, t, p.ticket);
    } else if p.PushClaim? && p.head == s.head && Idx(p.head, s.cap) == k {
      OnTicket(s, p.head);
    } else if p.PopClaim? && p.tail == s.tail && Idx(p.tail, s.cap) == k {
      OnTicket(s, p.tail);
    }
    ThreadCarriesOver(s, n, p, k);
  }

  /** A thread whose slot is not slot k does not notice a change of slot k. */
  lemma ThreadCarriesOver<T>(s: State<T>, n: State<T>, p: Thread<T>, k: nat)
    requires Shape(s) && Shape(n) && |s.pushed| == s.head && ThreadOk(s, p)
    requires n.cap == s.cap && n.head == s.head && n.tail == s.tail && n.pushed == s.pushed
    requires forall j :: 0 <= j < s.cap && j != k ==> n.slots[j] == s.slots[j]
    requires p.Holding() ==> Idx(p.ticket, s.cap) != k
    requires p.PushClaim? && p.head == s.head ==> Idx(p.head, s.cap) != k
    requires p.PopClaim? && p.tail == s.tail ==> Idx(p.tail, s.cap) != k
    ensures ThreadOk(n, p)
  {
  }

  /** Storing the odd occupy: the slot is full and its ticket may be popped. */
  lemma PublishPush<T>(s: State<T>, tid: nat, v: T, t: nat)
    requires Inv(s) && tid in s.threads && s.threads[tid] == PushPublish(v, t)
    ensures Inv(Advance(s, tid, PushPublish(v, t)))
  {
    var n := Advance(s, tid, PushPublish(v, t));
    var k := Idx(t, s.cap);
    assert ThreadOk(s, s.threads[tid]);
    OthersElsewhere(s, n, tid, t);
    OnTicket(s, t);
    HoldersAfter(s, n, tid, t);
    forall i | 0 <= i < n.cap ensures SlotOk(n, i) {
      assert SlotOk(s, i);
    }
  }

  /** When a thread lets go of ticket t, every other ticket keeps its holder. */
  lemma HoldersAfter<T>(s: State<T>, n: State<T>, tid: nat, t: nat)
    requires Inv(s) && tid in s.threads && n.threads == s.threads[tid := Idle]
    requires s.threads[tid].Pushing(t) || s.threads[tid].Popping(t)
    ensures HoldersApart(n)
    ensures forall u :: (SomePushing(s, u) && !s.threads[tid].Pushing(u)) <==> SomePushing(n, u)
    ensures forall u :: (SomePopping(s, u) && !s.threads[tid].Popping(u)) <==> SomePopping(n, u)
  {
    forall u ensures (SomePushing(s, u) && !s.threads[tid].Pushing(u)) <==> SomePushing(n, u) {
      if SomePushing(s, u) && !s.threads[tid].Pushing(u) {
        var i :| i in s.threads && s.threads[i].Pushing(u);
        assert n.threads[i].Pushing(u);
      }
    }
    forall u ensures (SomePopping(s, u) && !s.threads[tid].Popping(u)) <==> SomePopping(n, u) {
      if SomePopping(s, u) && !s.threads[tid].Popping(u) {
        var i :| i in s.threads && s.threads[i].Popping(u);
        assert n.threads[i].Popping(u);
      }
    }
  }

  /** Before a claim of ticket t = tail_, its slot holds t's item. */
  lemma TailSlot<T>(s: State<T>)
    requires Inv(s) && SlotOf(s, s.tail).occupy == Free(s, s.tail) + 1
    ensures s.due[Idx(s.tail, s.cap)] == s.tail < s.head
    ensures SlotOf(s, s.tail) == Slot(Free(s, s.tail) + 1, Some(s.pushed[s.tail]))
  {
    OnTicket(s, s.tail);
    assert SlotOk(s, Idx(s.tail, s.cap));
  }

  /** Winning the compare-and-swap on tail_: ticket tail's item is this thread's to take. */
  lemma ClaimPop<T>(s: State<T>, tid: nat)
    requires Inv(s) && tid in s.threads && s.threads[tid] == PopClaim(s.tail)
    ensures s.tail < s.head && Inv(Advance(s, tid, s.threads[tid]))
  {
    assert ThreadOk(s, s.threads[tid]);
    var n := Advance(s, tid, s.threads[tid]);
    TailSlot(s);
    ClaimPopHolders(s, tid, n);
    ClaimPopSlots(s, n);
    forall i | i in n.threads ensures ThreadOk(n, n.threads[i]) {
      if i != tid { assert ThreadOk(s, s.threads[i]); }
    }
    assert s.tail !in s.returned;
  }

  lemma ClaimPopHolders<T>(s: State<T>, tid: nat, n: State<T>)
    requires Inv(s) && tid in s.threads && s.threads[tid] == PopClaim(s.tail)
    requires n.threads == s.threads[tid := PopMove(s.tail)]
    ensures HoldersApart(n)
    ensures forall t :: SomePushing(n, t) <==> SomePushing(s, t)
    ensures forall t :: SomePopping(n, t) <==> SomePopping(s, t) || t == s.tail
  {
    assert n.threads[tid].Popping(s.tail);
    forall i | i in s.threads ensures !s.threads[i].Popping(s.tail) {
      assert ThreadOk(s, s.threads[i]);
    }
    forall t ensures SomePushing(n, t) <==> SomePushing(s, t) {
      if i :| i in s.threads && s.threads[i].Pushing(t) { assert n.threads[i].Pushing(t); }
    }
    forall t ensures SomePopping(n, t) <==> SomePopping(s, t) || t == s.tail {
      if i :| i in s.threads && s.threads[i].Popping(t) { assert n.threads[i].Popping(t); }
    }
  }

  lemma ClaimPopSlots<T>(s: State<T>, n: State<T>)
    requires Inv(s) && s.tail < s.head && s.due[Idx(s.tail, s.cap)] == s.tail
    requires SlotOf(s, s.tail).occupy == Free(s, s.tail) + 1
    requires n.cap == s.cap && n.head == s.head && n.tail == s.tail + 1 && n.slots == s.slots && n.due == s.due && n.pushed == s.pushed
    requires forall t :: SomePushing(n, t) <==> SomePushing(s, t)
    requires forall t :: SomePopping(n, t) <==> SomePopping(s, t) || t == s.tail
    ensures Counters(n) && SlotsOk(n)
  {
    forall i | 0 <= i < n.cap ensures SlotOk(n, i) {
      assert SlotOk(s, i);
      assert i != Idx(s.tail, s.cap) ==> s.due[i] != s.tail;
    }
  }

  /** Destroying the moved-from item. */
  lemma DestroyPop<T>(s: State<T>, tid: nat, t: nat, got: Option<T>)
    requires Inv(s) && tid in s.threads && s.threads[tid] == PopDestroy(t, got)
    ensures Inv(Advance(s, tid, PopDestroy(t, got)))
  {
    var n := Advance(s, tid, PopDestroy(t, got));
    assert ThreadOk(s, s.threads[tid]);
    SameHolders(s, n);
    OthersElsewhere(s, n, tid, t);
    OnTicket(s, t);
    forall i | 0 <= i < n.cap ensures SlotOk(n, i) {
      assert SlotOk(s, i);
    }
  }

  /** Storing the next even occupy: the slot is free for the ticket one lap on. */
  lemma PublishPop<T>(s: State<T>, tid: nat, t: nat, got: Option<T>)
    requires Inv(s) && tid in s.threads && s.threads[tid] == PopPublish(t, got)
    ensures Inv(Advance(s, tid, PopPublish(t, got)))
  {
    var n := Advance(s, tid, PopPublish(t, got));
    var k := Idx(t, s.cap);
    assert ThreadOk(s, s.threads[tid]);
    OthersElsewhere(s, n, tid, t);
    OnTicket(s, t);
    HoldersAfter(s, n, tid, t);
    assert s.threads[tid].Popping(t);
    assert SlotOk(s, k);
    assert SomePopping(s, t);
    assert t !in s.returned;
    forall i | 0 <= i < n.cap ensures SlotOk(n, i) {
      assert SlotOk(s, i);
      if i != k { assert s.due[i] != t; }
    }
  }

  /** Every step of every thread keeps the invariant. */
  lemma StepInv<T>(s: State<T>, a: Act<T>)
    requires Inv(s)
    ensures Inv(Step(s, a))
  {
    match a
    case StartPush(tid, v) => if IsIdle(s, tid) { StartInv(s, tid, PushLook(v, s.head)); }
    case StartPop(tid) => if IsIdle(s, tid) { StartInv(s, tid, PopLook(s.tail)); }
    case Go(tid) => if tid in s.threads { AdvanceInv(s, tid, s.threads[tid]); }
  }

  lemma AdvanceInv<T>(s: State<T>, tid: nat, p: Thread<T>)
    requires Inv(s) && tid in s.threads && s.threads[tid] == p
    ensures Inv(Advance(s, tid, p))
  {
    assert ThreadOk(s, p);
    match p
    case Idle =>
    case PushLook(v, h) => LookMove(s, tid, p);
    case PushClaim(v, h) => if h == s.head { ClaimPush(s, tid, v); } else { LookMove(s, tid, p); }
    case PushReload(v, h) => LookMove(s, tid, p);
    case PushBuild(v, t) => BuildPush(s, tid, v, t);
    case PushPublish(v, t) => PublishPush(s, tid, v, t);
    case PopLook(t) => LookMove(s, tid, p);
    case PopClaim(t) => if t == s.tail { ClaimPop(s, tid); } else { LookMove(s, tid, p); }
    case PopReload(t) => LookMove(s, tid, p);
    case PopMove(t) => LookMove(s, tid, p);
    case PopDestroy(t, got) => DestroyPop(s, tid, t, got);
    case PopPublish(t, got) => PublishPop(s, tid, t, got);
  }

  /** Loads, and compare-and-swaps that fail, only move the thread on. */
  lemma LookMove<T>(s: State<T>, tid: nat, p: Thread<T>)
    requires Inv(s) && tid in s.threads && s.threads[tid] == p
    requires p.PushLook? || p.PushReload? || p.PopLook? || p.PopReload? || p.PopMove?
          || (p.PushClaim? && p.head != s.head) || (p.PopClaim? && p.tail != s.tail)
    ensures Inv(Advance(s, tid, p))
  {
    assert ThreadOk(s, p);
    LocalMove(s, tid, Advance(s, tid, p).threads[tid]);
  }

  // ---------------------------------------------------------------------------
  // Runs

  function Run<T>(s: State<T>, acts: seq<Act<T>>): (r: State<T>)
    requires Shape(s)
    ensures Shape(r)
  {
    if acts == [] then s else Step(Run(s, acts[..|acts| - 1]), acts[|acts| - 1])
  }

  lemma {:induction false} RunInv<T>(cap: nat, acts: seq<Act<T>>)
    requires cap > 0
    ensures Inv(Run(Init<T>(cap), acts))
  {
    if acts == [] {
      InitInv<T>(cap);
    } else {
      RunInv(cap, acts[..|acts| - 1]);
      StepInv(Run(Init<T>(cap), acts[..|acts| - 1]), acts[|acts| - 1]);
    }
  }

  /** The queue's contents: values whose push has been won and whose pop has not. */
  function Contents<T>(s: State<T>): seq<T>
    requires s.tail <= s.head == |s.pushed|
  {
    s.pushed[s.tail..]
  }

  /** The thread wins the head (or tail) compare-and-swap with this step. */
  predicate WinsPush<T>(s: State<T>, a: Act<T>) {
    a.Go? && a.tid in s.threads && s.threads[a.tid].PushClaim? && s.threads[a.tid].head == s.head
  }

  predicate WinsPop<T>(s: State<T>, a: Act<T>) {
    a.Go? && a.tid in s.threads && s.threads[a.tid].PopClaim? && s.threads[a.tid].tail == s.tail
  }

  /** The queue is a bounded first-in-first-out queue: a step that wins the head appends its value
      to a queue with room, a step that wins the tail takes the oldest value of a non-empty queue
      under the ticket that value was pushed with, and no other step changes the contents. */
  lemma StepIsFifo<T>(s: State<T>, a: Act<T>)
    requires Inv(s)
    ensures var n := Step(s, a);
      && Inv(n)
      && (WinsPush(s, a) ==> |Contents(s)| < s.cap && Contents(n) == Contents(s) + [s.threads[a.tid].v])
      && (WinsPop(s, a) ==> Contents(s) != [] && Contents(n) == Contents(s)[1..])
      && (WinsPop(s, a) ==> n.threads[a.tid] == PopMove(s.tail) && n.pushed[s.tail] == Contents(s)[0])
      && (!WinsPush(s, a) && !WinsPop(s, a) ==> Contents(n) == Contents(s))
  {
    StepInv(s, a);
    var n := Step(s, a);
    if a.Go? && a.tid in s.threads {
      assert ThreadOk(s, s.threads[a.tid]);
      if WinsPush(s, a) {
        HeadSlot(s);
        assert Contents(n) == Contents(s) + [s.threads[a.tid].v];
      } else if WinsPop(s, a) {
        ClaimPop(s, a.tid);
        assert Contents(n) == Contents(s)[1..];
      }
    }
  }

  /** Safety over every run: the queue never holds more than its capacity; every won pop ticket is
      either answered, with exactly the value of the push that won the same ticket, or still held by
      one thread; and no two threads touch one slot's storage. */
  lemma RunSafe<T>(cap: nat, acts: seq<Act<T>>)
    requires cap > 0
    ensures var s := Run(Init<T>(cap), acts);
      && s.tail <= s.head == |s.pushed| && s.head <= s.tail + s.cap
      && (forall t :: t in s.returned ==> t < s.tail && s.returned[t] == Some(s.pushed[t]))
      && (forall t: nat :: t < s.tail && t !in s.returned ==> SomePopping(s, t))
      && (forall i, j :: i in s.threads && j in s.threads && i != j ==> SlotsApart(s.threads[i], s.threads[j], s.cap))
  {
    RunInv(cap, acts);
    var s := Run(Init<T>(cap), acts);
    forall i, j | i in s.threads && j in s.threads && i != j ensures SlotsApart(s.threads[i], s.threads[j], s.cap) {
      if s.threads[i].Holding() && s.threads[j].Holding() {
        HolderAlone(s, i, j, s.threads[i].ticket, s.threads[j].ticket);
        IdxTurnAreModDiv(s.threads[i].ticket, s.cap);
        IdxTurnAreModDiv(s.threads[j].ticket, s.cap);
      }
    }
  }

  /** If both threads hold a ticket, they work on different slots. */
  predicate SlotsApart<T>(p: Thread<T>, q: Thread<T>, cap: nat)
    requires cap > 0
  {
    p.Holding() && q.Holding() ==> p.ticket % cap != q.ticket % cap
  }

  /** A slot's occupy while one of its tickets is held. */
  lemma HeldOccupy<T>(s: State<T>, t: nat)
    requires Inv(s)
    ensures SomePushing(s, t) ==> SlotOf(s, t).occupy == Free(s, t)
    ensures SomePopping(s, t) ==> SlotOf(s, t).occupy == Free(s, t) + 1
  {
    forall i | i in s.threads ensures ThreadOk(s, s.threads[i]) {
    }
  }

  /** A push finds its slot taken exactly when the queue is full or the pop one lap back has not
      finished with the slot. */
  lemma PushSeesRoom<T>(s: State<T>)
    requires Inv(s)
    ensures SlotOf(s, s.head).occupy == Free(s, s.head)
        <==> |Contents(s)| < s.cap && (s.head >= s.cap ==> !SomePopping(s, s.head - s.cap))
  {
    var k := Idx(s.head, s.cap);
    assert SlotOk(s, k);
    var c := s.due[k];
    if SlotOf(s, s.head).occupy == Free(s, s.head) {
      HeadSlot(s);
      if s.head >= s.cap { HeldOccupy(s, s.head - s.cap); }
    } else {
      assert c <= s.head by {
        if c > s.head { LapApart(s.head, c, s.cap); }
      }
      if c < s.head { LapApart(c, s.head, s.cap); }
      assert c == s.head - s.cap;
      if s.slots[k].occupy == Free(s, c) {
        // the ticket a lap back is still being pushed
        assert s.tail <= c;
      }
    }
  }

  /** A pop finds its item ready exactly when the queue is not empty and the push of the oldest
      item has been published. */
  lemma PopSeesItem<T>(s: State<T>)
    requires Inv(s)
    ensures SlotOf(s, s.tail).occupy == Free(s, s.tail) + 1
        <==> Contents(s) != [] && !SomePushing(s, s.tail)
  {
    var k := Idx(s.tail, s.cap);
    assert SlotOk(s, k);
    var c := s.due[k];
    if SlotOf(s, s.tail).occupy == Free(s, s.tail) + 1 {
      TailSlot(s);
      HeldOccupy(s, s.tail);
    } else if s.tail < s.head {
      if c < s.tail { LapApart(c, s.tail, s.cap); }
      if c > s.tail { LapApart(s.tail, c, s.cap); }
      assert c == s.tail;
    }
  }
}
