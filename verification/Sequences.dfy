/** Numbering users: each table keeps a counter and a number for every user it has seen. */
module Sequences {
  import opened Basics

  type User = seq<nat>

  /** The two kinds of row; distinct as bytes by Keys.SequenceKeysDistinct. */
  datatype SeqKey = Counter(table: Table) | Mapping(table: Table, user: User)

  type Meta = map<SeqKey, nat>

  datatype AllocSequence = AllocSequence(user: User, sequence: nat, status: Status)

  function Max(meta: Meta, table: Table): nat { if Counter(table) in meta then meta[Counter(table)] else 0 }

  function Users(items: seq<AllocSequence>): (us: seq<User>)
    ensures |us| == |items| && forall i :: 0 <= i < |us| ==> us[i] == items[i].user
  {
    if items == [] then [] else Users(items[..|items| - 1]) + [items[|items| - 1].user]
  }

  /** Those of the first n users without a number, in order, repeats included. */
  function NewAmong(users: seq<User>, n: nat, meta: Meta, table: Table): seq<User>
    requires n <= |users|
  {
    if n == 0 then []
    else NewAmong(users, n - 1, meta, table) + if Mapping(table, users[n - 1]) in meta then [] else [users[n - 1]]
  }

  function NewUsers(users: seq<User>, meta: Meta, table: Table): seq<User> { NewAmong(users, |users|, meta, table) }

  /** Numbers the users one after another from `from` + 1 on. */
  function Assign(meta: Meta, table: Table, users: seq<User>, from: nat): Meta {
    if users == [] then meta
    else Assign(meta, table, users[..|users| - 1], from)[Mapping(table, users[|users| - 1]) := from + |users|]
  }

  function After(meta: Meta, table: Table, users: seq<User>): Meta {
    var news := NewUsers(users, meta, table);
    if news == [] then meta
    else Assign(meta, table, news, Max(meta, table))[Counter(table) := Max(meta, table) + |news|]
  }

  /** What looking an item up makes of it; a status is never cleared. */
  function Looked(item: AllocSequence, meta: Meta, table: Table): AllocSequence {
    var k := Mapping(table, item.user);
    if k in meta then item.(sequence := meta[k]) else item.(status := DocumentNotExist)
  }

  class SequenceAllocator {
    var meta: Meta

    constructor ()
      ensures meta == map[]
    {
      meta := map[];
    }

    /** Reads the counter and every item's number; a failed read leaves the items as they were. */
    method AcquireCurrentSequence(table: Table, items: array<AllocSequence>, faults: set<nat>)
      returns (ok: bool, currentMax: nat)
      modifies items
      ensures ok <==> forall i :: 0 <= i <= items.Length ==> i !in faults
      ensures !ok ==> items[..] == old(items[..])
      ensures ok ==> currentMax == if Counter(table) in meta then meta[Counter(table)] else 0
      ensures ok ==> forall i :: 0 <= i < items.Length ==>
        var was, k := old(items[i]), Mapping(table, old(items[i]).user);
        && items[i].user == was.user
        && items[i].sequence == (if k in meta then meta[k] else was.sequence)
        && items[i].status == (if k in meta then was.status else DocumentNotExist)
    {
      for i := 0 to items.Length + 1
        invariant forall j :: 0 <= j < i ==> j !in faults
      {
        if i in faults {
          return false, 0;
        }
      }
      currentMax := if Counter(table) in meta then meta[Counter(table)] else 0;
      for i := 0 to items.Length
        invariant forall j :: 0 <= j < i ==> items[j] == Looked(old(items[j]), meta, table)
        invariant forall j :: i <= j < items.Length ==> items[j] == old(items[j])
      {
        var k := Mapping(table, items[i].user);
        if k in meta {
          items[i] := items[i].(sequence := meta[k]);
        } else {
          items[i] := items[i].(status := DocumentNotExist);
        }
      }
      ok := true;
    }

    /** Numbers the users that have none and flushes the new rows with the counter. */
    method AcquireNewSequence(table: Table, items: array<AllocSequence>, faults: set<nat>, flushFails: bool)
      returns (ok: bool)
      requires forall i :: 0 <= i < items.Length ==> items[i].status == OK
      modifies this, items
      ensures ok <==> (forall i :: 0 <= i <= items.Length ==> i !in faults)
                      && !(flushFails && NewUsers(Users(old(items[..])), old(meta), table) != [])
      ensures meta == if ok then After(old(meta), table, Users(old(items[..]))) else old(meta)
      ensures if forall i :: 0 <= i <= items.Length ==> i !in faults then
          forall i :: 0 <= i < items.Length ==>
            items[i] == AllocSequence(old(items[i].user), NumberGiven(old(meta), table, Users(old(items[..])), i), OK)
        else items[..] == old(items[..])
    {
      ghost var users := Users(items[..]);
      var currentMax;
      ok, currentMax := AcquireCurrentSequence(table, items, faults);
      if !ok {
        return;
      }
      var next, buffer := NumberItems(table, items, currentMax, users);
      ok := StoreNumbers(table, currentMax, next, buffer, flushFails, users);
    }

    /** Adds the counter to the buffered rows and flushes them, if there are any. */
    method StoreNumbers(table: Table, currentMax: nat, next: nat, numbers: Meta, flushFails: bool, ghost users: seq<User>)
      returns (ok: bool)
      requires currentMax == Max(meta, table)
      requires NumberedSoFar(users, |users|, meta, table, currentMax, next, numbers)
      modifies this
      ensures ok <==> !(flushFails && NewUsers(users, old(meta), table) != [])
      ensures meta == if ok then After(old(meta), table, users) else old(meta)
    {
      ok := true;
      if next != currentMax {
        BufferPut(meta, numbers, Counter(table), next);
        var buffer := numbers[Counter(table) := next];
        ok := !flushFails;
        if ok {
          meta := meta + buffer;
        }
      }
    }

    /** Gives the next numbers to the items found without one, and buffers their rows. */
    method NumberItems(table: Table, items: array<AllocSequence>, currentMax: nat, ghost users: seq<User>)
      returns (next: nat, buffer: Meta)
      requires |users| == items.Length && currentMax == Max(meta, table)
      requires forall i :: 0 <= i < |users| ==> FoundAs(items[i], users[i], meta, table)
      modifies items
      ensures NumberedSoFar(users, |users|, meta, table, currentMax, next, buffer)
      ensures forall i :: 0 <= i < |users| ==> items[i] == Answered(users, i, meta, table)
    {
      next, buffer := currentMax, map[];
      StartNumbering(users, meta, table, currentMax);
      for i := 0 to items.Length
        invariant NumberedSoFar(users, i, meta, table, currentMax, next, buffer)
        invariant forall j :: 0 <= j < i ==> items[j] == Answered(users, j, meta, table)
        invariant forall j :: i <= j < |users| ==> FoundAs(items[j], users[j], meta, table)
      {
        var item := items[i];
        assert FoundAs(item, users[i], meta, table);
        NumberNext(users, i, meta, table, currentMax, next, buffer);
        if item.status == DocumentNotExist {
          next := next + 1;
          items[i] := item.(status := OK, sequence := next);
          buffer := buffer[Mapping(table, item.user) := next];
        }
      }
    }
  }

  /** An item as looking it up leaves a fresh one. */
  predicate FoundAs(item: AllocSequence, u: User, meta: Meta, table: Table) {
    && item.user == u
    && (item.status == DocumentNotExist <==> Mapping(table, u) !in meta)
    && (Mapping(table, u) in meta ==> item.sequence == meta[Mapping(table, u)] && item.status == OK)
  }

  /** The first n users have been dealt with. */
  predicate NumberedSoFar(users: seq<User>, n: nat, meta: Meta, table: Table, from: nat, next: nat, buffer: Meta) {
    && n <= |users| && next == from + |NewAmong(users, n, meta, table)|
    && meta + buffer == Assign(meta, table, NewAmong(users, n, meta, table), from)
  }

  lemma StartNumbering(users: seq<User>, meta: Meta, table: Table, from: nat)
    ensures NumberedSoFar(users, 0, meta, table, from, from, map[])
  {
    assert meta + map[] == meta;
  }

  lemma NumberNext(users: seq<User>, i: nat, meta: Meta, table: Table, from: nat, next: nat, buffer: Meta)
    requires i < |users| && NumberedSoFar(users, i, meta, table, from, next, buffer)
    ensures var k := Mapping(table, users[i]);
      if k in meta then NumberedSoFar(users, i + 1, meta, table, from, next, buffer)
      else NumberedSoFar(users, i + 1, meta, table, from, next + 1, buffer[k := next + 1])
  {
    var k := Mapping(table, users[i]);
    NewUsersNext(users, i, meta, table, from);
    BufferPut(meta, buffer, k, next + 1);
  }

  lemma BufferPut(meta: Meta, buffer: Meta, k: SeqKey, v: nat)
    ensures meta + buffer[k := v] == (meta + buffer)[k := v]
  {
  }

  lemma NewUsersNext(users: seq<User>, i: nat, meta: Meta, table: Table, from: nat)
    requires i < |users|
    ensures var before, after := NewAmong(users, i, meta, table), NewAmong(users, i + 1, meta, table);
      if Mapping(table, users[i]) in meta then after == before
      else (&& |after| == |before| + 1
            && Assign(meta, table, after, from)
               == Assign(meta, table, before, from)[Mapping(table, users[i]) := from + |before| + 1])
  {
    var before, after := NewAmong(users, i, meta, table), NewAmong(users, i + 1, meta, table);
    if Mapping(table, users[i]) !in meta {
      assert after == before + [users[i]] && after[..|after| - 1] == before;
    }
  }

  /** The number returned for the i-th user. */
  function NumberGiven(meta: Meta, table: Table, users: seq<User>, i: nat): nat
    requires i < |users|
  {
    if Mapping(table, users[i]) in meta then meta[Mapping(table, users[i])]
    else Max(meta, table) + |NewAmong(users, i, meta, table)| + 1
  }

  /** A user with a number is told it; any other gets the next after the counter, or after 0 without one,
      and after those before it in the list that have none either. */
  lemma NumberGivenMeans(meta: Meta, table: Table, users: seq<User>, i: nat)
    requires i < |users|
    ensures NumberGiven(meta, table, users, i) ==
      if Mapping(table, users[i]) in meta then meta[Mapping(table, users[i])]
      else (if Counter(table) in meta then meta[Counter(table)] else 0)
           + |set j | 0 <= j < i && Mapping(table, users[j]) !in meta| + 1
  {
    NewAmongCounts(users, i, meta, table);
  }

  lemma {:induction false} NewAmongCounts(users: seq<User>, n: nat, meta: Meta, table: Table)
    requires n <= |users|
    ensures |NewAmong(users, n, meta, table)| == |set j | 0 <= j < n && Mapping(table, users[j]) !in meta|
  {
    var here := set j | 0 <= j < n && Mapping(table, users[j]) !in meta;
    if n == 0 {
      assert here == {};
    } else {
      NewAmongCounts(users, n - 1, meta, table);
      var before := set j | 0 <= j < n - 1 && Mapping(table, users[j]) !in meta;
      assert here == if Mapping(table, users[n - 1]) in meta then before else before + {n - 1};
    }
  }

  /** A call that numbers anyone leaves in the counter what it held, or 0, and as many more as it
      numbered; one that numbers nobody changes nothing. */
  lemma CounterMeans(meta: Meta, table: Table, users: seq<User>)
    ensures var n := |set j | 0 <= j < |users| && Mapping(table, users[j]) !in meta|;
      if n == 0 then After(meta, table, users) == meta
      else
        && Counter(table) in After(meta, table, users)
        && After(meta, table, users)[Counter(table)] == (if Counter(table) in meta then meta[Counter(table)] else 0) + n
  {
    NewAmongCounts(users, |users|, meta, table);
  }

  /** An item as a call leaves it. */
  function Answered(users: seq<User>, i: nat, meta: Meta, table: Table): AllocSequence
    requires i < |users|
  {
    AllocSequence(users[i], NumberGiven(meta, table, users, i), OK)
  }

  // ---------------------------------------------------------------------------
  // Numbers stay a bijection

  ghost predicate Numbered(meta: Meta, table: Table, u: User, n: nat) {
    Mapping(table, u) in meta && meta[Mapping(table, u)] == n
  }

  /** Users with a number and the numbers 1..max correspond one to one. */
  ghost predicate Bijection(meta: Meta, table: Table) {
    && (forall u, n: nat :: Numbered(meta, table, u, n) ==> 1 <= n <= Max(meta, table))
    && (forall u, v, n: nat :: Numbered(meta, table, u, n) && Numbered(meta, table, v, n) ==> u == v)
    && (forall n: nat :: 1 <= n <= Max(meta, table) ==> Taken(meta, table, n))
  }

  ghost predicate Taken(meta: Meta, table: Table, n: nat) { exists u :: Numbered(meta, table, u, n) }

  predicate NoRepeats(users: seq<User>) { forall i, j :: 0 <= i < j < |users| ==> users[i] != users[j] }

  function LastPlace(users: seq<User>, u: User): (i: nat)
    requires u in users
    ensures i < |users| && users[i] == u && forall j :: i < j < |users| ==> users[j] != u
  {
    if users[|users| - 1] == u then |users| - 1
    else
      assert users == users[..|users| - 1] + [users[|users| - 1]];
      LastPlace(users[..|users| - 1], u)
  }

  /** Each user keeps the number of its last place in the list. */
  lemma {:induction false} AssignLast(meta: Meta, table: Table, users: seq<User>, from: nat, k: SeqKey)
    ensures var m := Assign(meta, table, users, from);
      if k.Mapping? && k.table == table && k.user in users then k in m && m[k] == from + 1 + LastPlace(users, k.user)
      else (k in m <==> k in meta) && (k in meta ==> m[k] == meta[k])
  {
    if users != [] {
      var r := users[..|users| - 1];
      AssignLast(meta, table, r, from, k);
      assert users == r + [users[|users| - 1]];
    }
  }

  lemma {:induction false} NewAmongNew(users: seq<User>, n: nat, meta: Meta, table: Table)
    requires n <= |users|
    ensures forall u :: u in NewAmong(users, n, meta, table) <==> u in users[..n] && Mapping(table, u) !in meta
    ensures NoRepeats(users) ==> NoRepeats(NewAmong(users, n, meta, table))
  {
    if n > 0 {
      NewAmongNew(users, n - 1, meta, table);
      assert users[..n] == users[..n - 1] + [users[n - 1]];
    }
  }

  lemma NewUsersNew(users: seq<User>, meta: Meta, table: Table)
    ensures forall u :: u in NewUsers(users, meta, table) <==> u in users && Mapping(table, u) !in meta
    ensures NoRepeats(users) ==> NoRepeats(NewUsers(users, meta, table))
  {
    NewAmongNew(users, |users|, meta, table);
    assert users[..|users|] == users;
  }

  /** With distinct new users, the i-th gets the i-th number after the counter. */
  lemma NumberedAfter(meta: Meta, table: Table, users: seq<User>, u: User, n: nat)
    requires NoRepeats(NewUsers(users, meta, table))
    ensures var news := NewUsers(users, meta, table);
      Numbered(After(meta, table, users), table, u, n) <==>
      Numbered(meta, table, u, n) || (0 <= n - Max(meta, table) - 1 < |news| && news[n - Max(meta, table) - 1] == u)
  {
    var news, k := NewUsers(users, meta, table), Mapping(table, u);
    NewUsersNew(users, meta, table);
    AssignLast(meta, table, news, Max(meta, table), k);
  }

  /** A call keeps the bijection exactly when the users it had to number were distinct. */
  lemma BijectionExact(meta: Meta, table: Table, users: seq<User>)
    requires Bijection(meta, table)
    ensures Bijection(After(meta, table, users), table) <==> NoRepeats(NewUsers(users, meta, table))
  {
    var news, m, max := NewUsers(users, meta, table), After(meta, table, users), Max(meta, table);
    if NoRepeats(news) {
      NumbersAfter(meta, table, users);
    } else {
      var i, j :| 0 <= i < j < |news| && news[i] == news[j];
      NumberLost(meta, table, users, i, j);
    }
  }

  lemma NumbersAfter(meta: Meta, table: Table, users: seq<User>)
    requires Bijection(meta, table) && NoRepeats(NewUsers(users, meta, table))
    ensures Bijection(After(meta, table, users), table)
  {
    var news, m, max := NewUsers(users, meta, table), After(meta, table, users), Max(meta, table);
    assert Max(m, table) == max + |news|;
    forall u, n: nat
      ensures Numbered(m, table, u, n) <==>
        Numbered(meta, table, u, n) || (0 <= n - max - 1 < |news| && news[n - max - 1] == u)
    {
      NumberedAfter(meta, table, users, u, n);
    }
    forall n: nat | 1 <= n <= Max(m, table) ensures Taken(m, table, n) {
      if n <= max {
        assert Taken(meta, table, n);
        var u :| Numbered(meta, table, u, n);
        assert Numbered(m, table, u, n);
      } else {
        assert Numbered(m, table, news[n - max - 1], n);
      }
    }
  }

  /** The number given to a user's earlier place is overwritten and belongs to nobody. */
  lemma NumberLost(meta: Meta, table: Table, users: seq<User>, i: nat, j: nat)
    requires Bijection(meta, table) && i < j < |NewUsers(users, meta, table)|
    requires NewUsers(users, meta, table)[i] == NewUsers(users, meta, table)[j]
    ensures !Bijection(After(meta, table, users), table)
  {
    var news, m, max := NewUsers(users, meta, table), After(meta, table, users), Max(meta, table);
    var lost := max + 1 + i;
    NewUsersNew(users, meta, table);
    forall u ensures !Numbered(m, table, u, lost) {
      AssignLast(meta, table, news, max, Mapping(table, u));
      assert Mapping(table, u) in meta ==> Numbered(meta, table, u, meta[Mapping(table, u)]);
    }
    assert !Taken(m, table, lost) && 1 <= lost <= Max(m, table);
  }

  /** With distinct users, what a call returns is what is stored from then on. */
  lemma {:induction false} ReturnedIsStored(meta: Meta, table: Table, users: seq<User>, i: nat)
    requires NoRepeats(users) && i < |users|
    ensures Numbered(After(meta, table, users), table, users[i], NumberGiven(meta, table, users, i))
  {
    var news, u := NewUsers(users, meta, table), users[i];
    NewUsersNew(users, meta, table);
    AssignLast(meta, table, news, Max(meta, table), Mapping(table, u));
    if Mapping(table, u) !in meta {
      NewUserAt(meta, table, users, i, |users|);
      assert u in news;
    }
  }

  lemma {:induction false} NewUserAt(meta: Meta, table: Table, users: seq<User>, i: nat, n: nat)
    requires i < n <= |users| && Mapping(table, users[i]) !in meta
    ensures var at := |NewAmong(users, i, meta, table)|;
      at < |NewAmong(users, n, meta, table)| && NewAmong(users, n, meta, table)[at] == users[i]
  {
    if i < n - 1 { NewUserAt(meta, table, users, i, n - 1); }
  }

  /** Numbers once given never change, in this table or any other. */
  lemma MappingsStay(meta: Meta, table: Table, users: seq<User>, other: Table, u: User, n: nat)
    requires Numbered(meta, other, u, n)
    ensures Numbered(After(meta, table, users), other, u, n)
  {
    NewUsersNew(users, meta, table);
    AssignLast(meta, table, NewUsers(users, meta, table), Max(meta, table), Mapping(other, u));
  }

  lemma OtherTables(meta: Meta, table: Table, users: seq<User>, other: Table)
    requires other != table && Bijection(meta, other)
    ensures Bijection(After(meta, table, users), other)
  {
    var m := After(meta, table, users);
    forall k: SeqKey | k.table == other ensures (k in m <==> k in meta) && (k in m ==> m[k] == meta[k]) {
      AssignLast(meta, table, NewUsers(users, meta, table), Max(meta, table), k);
    }
    assert Max(m, other) == Max(meta, other);
    assert forall u, n: nat :: Numbered(m, other, u, n) <==> Numbered(meta, other, u, n);
    forall n: nat | 1 <= n <= Max(m, other) ensures Taken(m, other, n) {
      assert Taken(meta, other, n);
      var u :| Numbered(meta, other, u, n);
      assert Numbered(m, other, u, n);
    }
  }

  /** One call; `done` says whether it succeeded. */
  datatype Call = Call(table: Table, users: seq<User>, done: bool)

  function Run(meta: Meta, calls: seq<Call>): Meta {
    if calls == [] then meta
    else
      var before, c := Run(meta, calls[..|calls| - 1]), calls[|calls| - 1];
      if c.done then After(before, c.table, c.users) else before
  }

  /** Over any run of calls with distinct users each, every table's numbers are 1..max, one to a user. */
  lemma {:induction false} BijectionOverRuns(calls: seq<Call>, table: Table)
    requires forall i :: 0 <= i < |calls| ==> NoRepeats(calls[i].users)
    ensures Bijection(Run(map[], calls), table)
  {
    if calls != [] {
      var r, c := calls[..|calls| - 1], calls[|calls| - 1];
      BijectionOverRuns(r, table);
      if c.table == table {
        NewUsersNew(c.users, Run(map[], r), table);
        BijectionExact(Run(map[], r), table, c.users);
      } else {
        OtherTables(Run(map[], r), c.table, c.users, table);
      }
    }
  }

  /** A number given at any point of a run is the user's number at the end. */
  lemma {:induction false} NumbersLast(meta: Meta, calls: seq<Call>, table: Table, u: User, n: nat)
    requires Numbered(meta, table, u, n)
    ensures Numbered(Run(meta, calls), table, u, n)
  {
    if calls != [] {
      var r, c := calls[..|calls| - 1], calls[|calls| - 1];
      NumbersLast(meta, r, table, u, n);
      MappingsStay(Run(meta, r), c.table, c.users, table, u, n);
    }
  }

  lemma {:induction false} RunConcat(meta: Meta, calls: seq<Call>, more: seq<Call>)
    ensures Run(meta, calls + more) == Run(Run(meta, calls), more)
  {
    if more == [] {
      assert calls + more == calls;
    } else {
      assert (calls + more)[..|calls + more| - 1] == calls + more[..|more| - 1];
      RunConcat(meta, calls, more[..|more| - 1]);
    }
  }

  /** Calls that fail change nothing. */
  lemma {:induction false} FailedCallsChangeNothing(meta: Meta, calls: seq<Call>)
    requires forall i :: 0 <= i < |calls| ==> !calls[i].done
    ensures Run(meta, calls) == meta
  {
    if calls != [] { FailedCallsChangeNothing(meta, calls[..|calls| - 1]); }
  }

  /** Every number that a call that succeeded returned is the user's at the end of the run. */
  lemma ReturnedNumbersLast(meta: Meta, calls: seq<Call>, i: nat, j: nat)
    requires i < |calls| && calls[i].done && NoRepeats(calls[i].users) && j < |calls[i].users|
    ensures var c, before := calls[i], Run(meta, calls[..i]);
      Numbered(Run(meta, calls), c.table, c.users[j], NumberGiven(before, c.table, c.users, j))
  {
    var c, before := calls[i], Run(meta, calls[..i]);
    ReturnedIsStored(before, c.table, c.users, j);
    assert calls[..i + 1][..i] == calls[..i];
    RunConcat(meta, calls[..i + 1], calls[i + 1..]);
    assert calls == calls[..i + 1] + calls[i + 1..];
    NumbersLast(Run(meta, calls[..i + 1]), calls[i + 1..], c.table, c.users[j], NumberGiven(before, c.table, c.users, j));
  }
}
