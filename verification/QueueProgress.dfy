/** That calls get somewhere: a call that is left alone does what it is for, or is refused when it cannot;
    and a call is refused in no other way. */
module QueueProgress {
  import opened Basics
  import opened TicketQueue
  import opened QueueRefusals

  /** A call that has no ticket yet ends with a step only if that is its second load of the counter, which
      finds it as it was. */
  lemma RefusesExactly<T>(s: State<T>, tid: nat)
    requires Shape(s) && tid in s.threads && !s.threads[tid].Idle? && !s.threads[tid].Holding()
    ensures var p := s.threads[tid];
      Stands(Step(s, Go(tid)), tid, Idle) <==>
        (p.PushReload? && p.prev == s.head) || (p.PopReload? && p.prev == s.tail)
  {
  }

  /** A call that goes back to look again does so with the counter as it is. */
  lemma LooksAgain<T>(s: State<T>, tid: nat)
    requires Shape(s) && tid in s.threads
    ensures var p, q := s.threads[tid], Step(s, Go(tid)).threads[tid];
      && (q.PushLook? ==> q.head == s.head && (p.PushClaim? || p.PushReload?) && q.v == p.v)
      && (q.PopLook? ==> q.tail == s.tail && (p.PopClaim? || p.PopReload?))
  {
  }

  function Left<T>(s: State<T>, tid: nat, n: nat): State<T>
    requires Shape(s)
  {
    Run(s, seq(n, _ => Go(tid)))
  }

  lemma LeftStep<T>(s: State<T>, tid: nat, n: nat)
    requires Shape(s)
    ensures Left(s, tid, n + 1) == Step(Left(s, tid, n), Go(tid)) && Left(s, tid, 0) == s
  {
    var acts: seq<Act<T>> := seq(n + 1, _ => Go(tid));
    assert acts[..n] == seq(n, _ => Go(tid));
  }

  lemma PushWins<T>(s: State<T>, tid: nat, v: T)
    requires Inv(s) && IsIdle(s, tid) && HasRoom(s)
    ensures Left(Step(s, StartPush(tid, v)), tid, 2)
         == s.(head := s.head + 1, pushed := s.pushed + [v], threads := s.threads[tid := PushBuild(v, s.head)])
    ensures SlotOf(s, s.head) == Slot(Free(s, s.head), None)
  {
    var n := Step(s, StartPush(tid, v));
    LeftStep(n, tid, 0);
    LeftStep(n, tid, 1);
    PushSeesRoom(s);
    assert Left(n, tid, 1).threads[tid] == PushClaim(v, s.head);
    assert Left(n, tid, 2).threads == s.threads[tid := PushBuild(v, s.head)];
    HeadSlot(s);
  }

  /** A push into a queue with room, left alone, adds its value and publishes it. */
  lemma PushAlone<T>(s: State<T>, tid: nat, v: T)
    requires Inv(s) && IsIdle(s, tid) && HasRoom(s)
    ensures var n := Left(Step(s, StartPush(tid, v)), tid, 4);
      && Counters(n) && Contents(n) == Contents(s) + [v] && n.tail == s.tail
      && n.threads == s.threads[tid := Idle]
      && SlotOf(n, s.head) == Slot(2 * Turn(s.head, s.cap) + 1, Some(v))
  {
    var n := Step(s, StartPush(tid, v));
    PushWins(s, tid, v);
    LeftStep(n, tid, 2);
    LeftStep(n, tid, 3);
    assert Left(n, tid, 3).threads[tid] == PushPublish(v, s.head);
    assert Contents(Left(n, tid, 4)) == Contents(s) + [v];
    assert Left(n, tid, 4).threads == s.threads[tid := Idle];
  }

  /** A push into a queue without room, left alone, is refused and changes nothing. */
  lemma PushRefusedAlone<T>(s: State<T>, tid: nat, v: T)
    requires Inv(s) && IsIdle(s, tid) && !HasRoom(s)
    ensures Left(Step(s, StartPush(tid, v)), tid, 2) == s.(threads := s.threads[tid := Idle])
  {
    var n := Step(s, StartPush(tid, v));
    LeftStep(n, tid, 0);
    LeftStep(n, tid, 1);
    PushSeesRoom(s);
    assert Left(n, tid, 1).threads[tid] == PushReload(v, s.head);
    assert Left(n, tid, 2).threads == s.threads[tid := Idle];
  }

  lemma PopWins<T>(s: State<T>, tid: nat)
    requires Inv(s) && IsIdle(s, tid) && HasItem(s)
    ensures Left(Step(s, StartPop(tid)), tid, 2) == s.(tail := s.tail + 1, threads := s.threads[tid := PopMove(s.tail)])
    ensures SlotOf(s, s.tail) == Slot(Free(s, s.tail) + 1, Some(s.pushed[s.tail]))
  {
    var n := Step(s, StartPop(tid));
    LeftStep(n, tid, 0);
    LeftStep(n, tid, 1);
    PopSeesItem(s);
    TailSlot(s);
    assert Left(n, tid, 1).threads[tid] == PopClaim(s.tail);
    assert Left(n, tid, 2).threads == s.threads[tid := PopMove(s.tail)];
  }

  lemma PopTakes<T>(s: State<T>, tid: nat)
    requires Inv(s) && IsIdle(s, tid) && HasItem(s)
    ensures var i := Idx(s.tail, s.cap);
      Left(Step(s, StartPop(tid)), tid, 4) == s.(tail := s.tail + 1,
        slots := s.slots[i := Slot(Free(s, s.tail) + 1, None)],
        threads := s.threads[tid := PopPublish(s.tail, Some(s.pushed[s.tail]))])
  {
    var n, i, item := Step(s, StartPop(tid)), Idx(s.tail, s.cap), Some(s.pushed[s.tail]);
    PopWins(s, tid);
    LeftStep(n, tid, 2);
    LeftStep(n, tid, 3);
    assert Left(n, tid, 3) == s.(tail := s.tail + 1, threads := s.threads[tid := PopDestroy(s.tail, item)]);
    assert Left(n, tid, 4).threads == s.threads[tid := PopPublish(s.tail, item)];
  }

  /** A pop from a queue whose oldest item is published, left alone, takes and answers with that item and
      frees its slot for the ticket a lap on. */
  lemma PopAlone<T>(s: State<T>, tid: nat)
    requires Inv(s) && IsIdle(s, tid) && HasItem(s)
    ensures var n := Left(Step(s, StartPop(tid)), tid, 5);
      && Counters(n) && Contents(n) == Contents(s)[1..] && n.head == s.head
      && n.threads == s.threads[tid := Idle]
      && n.returned == s.returned[s.tail := Some(Contents(s)[0])]
      && SlotOf(n, s.tail) == Slot(2 * Turn(s.tail, s.cap) + 2, None)
  {
    var n := Step(s, StartPop(tid));
    PopTakes(s, tid);
    LeftStep(n, tid, 4);
    var r := Left(n, tid, 5);
    assert r.threads == s.threads[tid := Idle];
    assert r.pushed == s.pushed && r.tail == s.tail + 1;
    assert r.pushed[r.tail..] == s.pushed[s.tail..][1..];
  }

  /** A pop that has nothing to take, left alone, is refused and changes nothing. */
  lemma PopRefusedAlone<T>(s: State<T>, tid: nat)
    requires Inv(s) && IsIdle(s, tid) && !HasItem(s)
    ensures Left(Step(s, StartPop(tid)), tid, 2) == s.(threads := s.threads[tid := Idle])
  {
    var n := Step(s, StartPop(tid));
    LeftStep(n, tid, 0);
    LeftStep(n, tid, 1);
    PopSeesItem(s);
    assert Left(n, tid, 1).threads[tid] == PopReload(s.tail);
    assert Left(n, tid, 2).threads == s.threads[tid := Idle];
  }
}
