/** What a refused TryEmplace or Pop saw: over every run, the queue was full, or empty, or the slot
    still in use, at a moment inside the call. */
module QueueRefusals {
  import opened Basics
  import opened TicketQueue

  /** The states a run of the queue goes through. */
  ghost predicate History<T>(cap: nat, ss: seq<State<T>>, acts: seq<Act<T>>) {
    && cap > 0 && |ss| == |acts| + 1 && ss[0] == Init(cap)
    && forall i :: 0 <= i < |acts| ==> Shape(ss[i]) && ss[i + 1] == Step(ss[i], acts[i])
  }

  lemma {:induction false} HistoryInv<T>(cap: nat, ss: seq<State<T>>, acts: seq<Act<T>>, n: nat)
    requires History(cap, ss, acts) && n < |ss|
    ensures Inv(ss[n])
  {
    if n == 0 {
      InitInv<T>(cap);
    } else {
      HistoryInv(cap, ss, acts, n - 1);
      StepInv(ss[n - 1], acts[n - 1]);
    }
  }

  ghost predicate HasRoom<T>(s: State<T>)
    requires Counters(s)
  {
    |Contents(s)| < s.cap && (s.head >= s.cap ==> !SomePopping(s, s.head - s.cap))
  }

  ghost predicate HasItem<T>(s: State<T>)
    requires Counters(s)
  {
    Contents(s) != [] && !SomePushing(s, s.tail)
  }

  ghost predicate Stands<T>(s: State<T>, tid: nat, p: Thread<T>) { tid in s.threads && s.threads[tid] == p }

  /** Act m is a push's look at its slot when there was no room, and up to state n the call has only
      its second load of the head to do. */
  ghost predicate LookedWithoutRoom<T>(ss: seq<State<T>>, acts: seq<Act<T>>, tid: nat, v: T, prev: nat, m: nat, n: nat)
    requires m < n < |ss| && n <= |acts|
  {
    && acts[m] == Go(tid) && Stands(ss[m], tid, PushLook(v, prev))
    && Counters(ss[m]) && ss[m].head == prev && !HasRoom(ss[m])
    && forall j :: m < j <= n ==> Stands(ss[j], tid, PushReload(v, prev))
  }

  /** A push about to be refused found at its look at the slot, inside the call, that the queue was full
      or the pop one lap back had not finished. */
  lemma {:induction false} RefusedPush<T>(cap: nat, ss: seq<State<T>>, acts: seq<Act<T>>, n: nat, tid: nat, v: T, prev: nat)
    requires History(cap, ss, acts) && n < |ss| && Stands(ss[n], tid, PushReload(v, prev)) && ss[n].head == prev
    ensures Shape(ss[n]) && Stands(Step(ss[n], Go(tid)), tid, Idle)
    ensures exists m: nat :: m < n && LookedWithoutRoom(ss, acts, tid, v, prev, m, n)
    decreases n
  {
    HistoryInv(cap, ss, acts, n);
    if n > 0 {
      HistoryInv(cap, ss, acts, n - 1);
      PushReloadBefore(ss[n - 1], acts[n - 1], tid, v, prev);
      if Stands(ss[n - 1], tid, PushReload(v, prev)) {
        RefusedPush(cap, ss, acts, n - 1, tid, v, prev);
        var m: nat :| m < n - 1 && LookedWithoutRoom(ss, acts, tid, v, prev, m, n - 1);
        assert LookedWithoutRoom(ss, acts, tid, v, prev, m, n);
      } else {
        PushSeesRoom(ss[n - 1]);
        assert LookedWithoutRoom(ss, acts, tid, v, prev, n - 1, n);
      }
    }
  }

  /** How a thread comes to stand before its second load of the head, with the head as before. */
  lemma PushReloadBefore<T>(s: State<T>, a: Act<T>, tid: nat, v: T, prev: nat)
    requires Counters(s) && (tid in s.threads ==> ThreadOk(s, s.threads[tid]))
    requires Stands(Step(s, a), tid, PushReload(v, prev)) && Step(s, a).head == prev
    ensures s.head == prev
    ensures Stands(s, tid, PushReload(v, prev))
         || (a == Go(tid) && Stands(s, tid, PushLook(v, prev)) && SlotOf(s, prev).occupy != Free(s, prev))
  {
    match a
    case StartPush(i, w) =>
    case StartPop(i) =>
    case Go(i) => if i in s.threads && i != tid { assert Step(s, a).head >= s.head; }
  }

  /** Act m is a pop's look at its slot when there was no item ready. */
  ghost predicate LookedWithoutItem<T>(ss: seq<State<T>>, acts: seq<Act<T>>, tid: nat, prev: nat, m: nat, n: nat)
    requires m < n < |ss| && n <= |acts|
  {
    && acts[m] == Go(tid) && Stands(ss[m], tid, PopLook(prev))
    && Counters(ss[m]) && ss[m].tail == prev && !HasItem(ss[m])
    && forall j :: m < j <= n ==> Stands(ss[j], tid, PopReload(prev))
  }

  /** A pop about to be refused found at its look that the queue was empty or the push of its oldest
      item had not been published. */
  lemma {:induction false} RefusedPop<T>(cap: nat, ss: seq<State<T>>, acts: seq<Act<T>>, n: nat, tid: nat, prev: nat)
    requires History(cap, ss, acts) && n < |ss| && Stands(ss[n], tid, PopReload(prev)) && ss[n].tail == prev
    ensures Shape(ss[n]) && Stands(Step(ss[n], Go(tid)), tid, Idle)
    ensures exists m: nat :: m < n && LookedWithoutItem(ss, acts, tid, prev, m, n)
    decreases n
  {
    HistoryInv(cap, ss, acts, n);
    if n > 0 {
      HistoryInv(cap, ss, acts, n - 1);
      PopReloadBefore(ss[n - 1], acts[n - 1], tid, prev);
      if Stands(ss[n - 1], tid, PopReload(prev)) {
        RefusedPop(cap, ss, acts, n - 1, tid, prev);
        var m: nat :| m < n - 1 && LookedWithoutItem(ss, acts, tid, prev, m, n - 1);
        assert LookedWithoutItem(ss, acts, tid, prev, m, n);
      } else {
        PopSeesItem(ss[n - 1]);
        assert LookedWithoutItem(ss, acts, tid, prev, n - 1, n);
      }
    }
  }

  /** How a thread comes to stand before its second load of the tail, with the tail as before. */
  lemma PopReloadBefore<T>(s: State<T>, a: Act<T>, tid: nat, prev: nat)
    requires Counters(s) && (tid in s.threads ==> ThreadOk(s, s.threads[tid]))
    requires Stands(Step(s, a), tid, PopReload(prev)) && Step(s, a).tail == prev
    ensures s.tail == prev
    ensures Stands(s, tid, PopReload(prev))
         || (a == Go(tid) && Stands(s, tid, PopLook(prev)) && SlotOf(s, prev).occupy != Free(s, prev) + 1)
  {
    match a
    case StartPush(i, w) =>
    case StartPop(i) =>
    case Go(i) => if i in s.threads && i != tid { assert Step(s, a).tail >= s.tail; }
  }
}
