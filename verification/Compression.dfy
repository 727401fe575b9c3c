/** The compressed posting list: a header byte, the positions of the tombstones if there are any, and
    the ids, positions and ids each as variable-length differences. */
module Compression {
  import opened Basics
  import opened Postings
  import V = Varint

  const VERSION := 1
  const HAS_DELETE := 16

  function HeaderByte(hasDel: bool): Byte { if hasDel then VERSION + HAS_DELETE else VERSION }

  /** Byte i of a number, low byte first. */
  function ByteOf(v: nat, i: nat): Byte
    decreases i
  {
    if i == 0 then v % 256 else ByteOf(v / 256, i - 1)
  }

  function IdBytes(v: nat): seq<Byte> { seq(8, i requires 0 <= i < 8 => ByteOf(v, i)) }

  /** A fixed-width record: eight id bytes, low first, and a state byte. */
  function Record(id: nat, state: Byte): seq<Byte> { IdBytes(id) + [state] }

  function Flag(e: Entry): Byte { if e.state != 0 then 1 else 0 }

  /** Fixed-width records of a list, with states as the compressed form keeps them: 0 or 1. */
  function Records(l: PostingList): seq<Byte> {
    if l == [] then [] else Record(l[0].id, Flag(l[0])) + Records(l[1..])
  }

  /** The records as the fixed-width writer makes them, states unchanged. */
  function PlainRecords(l: PostingList): seq<Byte>
    requires forall i :: 0 <= i < |l| ==> l[i].state < 256
  {
    if l == [] then [] else Record(l[0].id, l[0].state) + PlainRecords(l[1..])
  }

  predicate Encodable(l: PostingList) {
    Descending(l) && |l| < V.TWO_32 && forall i :: 0 <= i < |l| ==> l[i].id < V.TWO_64
  }

  // ---------------------------------------------------------------------------
  // Encoding

  /** The positions, from `pos` on, of the entries that are not plainly present. */
  function DelPositions(l: PostingList, pos: nat): seq<nat> {
    if l == [] then []
    else (if l[0].state != 0 then [pos] else []) + DelPositions(l[1..], pos + 1)
  }

  function PositionCodes(ps: seq<nat>, prev: nat): seq<Byte> {
    if ps == [] then []
    else V.Code(if ps[0] >= prev then ps[0] - prev else 0) + PositionCodes(ps[1..], ps[0])
  }

  function IdCodes(l: PostingList, prev: nat): seq<Byte> {
    if l == [] then []
    else V.Code(if prev == 0 || prev < l[0].id then l[0].id else prev - l[0].id) + IdCodes(l[1..], l[0].id)
  }

  function Encode(l: PostingList): seq<Byte> {
    var ps := DelPositions(l, 0);
    [HeaderByte(ps != [])] + (if ps == [] then [] else V.Code(|ps|) + PositionCodes(ps, 0)) + IdCodes(l, 0)
  }

  predicate IdsAre(ids: seq<nat>, l: PostingList) {
    |ids| == |l| && forall i :: 0 <= i < |ids| ==> ids[i] == l[i].id
  }

  class DocListCompressionEncoder {
    var docs: seq<nat>
    var lastDoc: nat
    var dels: seq<nat>
    var lastPos: nat
    var pos: nat
    var hasDel: bool
    ghost var added: PostingList

    ghost predicate Valid()
      reads this
    {
      && Encodable(added) && IdsAre(docs, added) && pos == |docs|
      && (docs != [] ==> lastDoc == docs[pos - 1])
      && dels == DelPositions(added, 0) && hasDel == (dels != [])
      && (dels != [] ==> lastPos == dels[|dels| - 1] < pos)
    }

    constructor ()
      ensures Valid() && added == []
    {
      docs, lastDoc, dels, lastPos, pos, hasDel, added := [], 0, [], 0, 0, false, [];
    }

    /** Ids must come in decreasing order; an id out of order is refused. */
    method AddDoc(id: nat, isDel: bool) returns (ok: bool)
      requires Valid() && id < V.TWO_64 && pos + 1 < V.TWO_32
      modifies this
      ensures Valid()
      ensures ok <==> old(added) == [] || id < old(added)[|old(added)| - 1].id
      ensures added == if ok then old(added) + [Entry(id, if isDel then 1 else 0)] else old(added)
    {
      if docs != [] && id >= lastDoc {
        return false;
      }
      DelPositionsSnoc(added, 0, Entry(id, if isDel then 1 else 0));
      EncodableSnoc(docs, added, Entry(id, if isDel then 1 else 0));
      docs := docs + [id];
      lastDoc := id;
      if isDel {
        dels := dels + [pos];
        lastPos := pos;
        hasDel := true;
      }
      added := added + [Entry(id, if isDel then 1 else 0)];
      pos := pos + 1;
      return true;
    }

    method SerializeToString() returns (buffer: seq<Byte>)
      requires Valid()
      ensures buffer == Encode(added)
    {
      buffer := [HeaderByte(hasDel)];
      if hasDel {
        var codes := SerializePositions();
        buffer := buffer + codes;
      }
      var ids := SerializeIds();
      buffer := buffer + ids;
    }

    method SerializePositions() returns (codes: seq<Byte>)
      requires Valid() && dels != []
      ensures codes == V.Code(|dels|) + PositionCodes(dels, 0)
    {
      DelPositionsRange(added, 0);
      codes := V.PutVarint32(|dels|);
      var gaps := PutGaps(dels);
      codes := codes + gaps;
    }

    method SerializeIds() returns (codes: seq<Byte>)
      requires Valid()
      ensures codes == IdCodes(added, 0)
    {
      codes := [];
      var prev := 0;
      for i := 0 to |docs|
        invariant prev == if i == 0 then 0 else docs[i - 1]
        invariant codes + IdCodes(added[i..], prev) == IdCodes(added, 0)
      {
        assert i > 0 ==> added[i - 1].id > added[i].id;
        IdCodesStep(added, i, prev, codes);
        var code := PutId(docs[i], prev);
        codes := codes + code;
        prev := docs[i];
      }
    }
  }

  /** The first id in full, any other as its distance from the one before. */
  method PutId(id: nat, prev: nat) returns (code: seq<Byte>)
    requires id < V.TWO_64 && (prev == 0 || id <= prev < V.TWO_64)
    ensures code == V.Code(if prev == 0 then id else prev - id)
  {
    if prev == 0 {
      code := V.EncodeVarint64(id);
    } else {
      code := V.EncodeVarint64(prev - id);
    }
  }

  lemma IdCodesStep(l: PostingList, i: nat, prev: nat, codes: seq<Byte>)
    requires i < |l| && (prev == 0 || l[i].id <= prev)
    ensures codes + IdCodes(l[i..], prev)
         == codes + V.Code(if prev == 0 then l[i].id else prev - l[i].id) + IdCodes(l[i + 1..], l[i].id)
  {
    assert l[i..][1..] == l[i + 1..] && l[i..][0] == l[i];
    Regroup(codes, V.Code(if prev == 0 then l[i].id else prev - l[i].id), IdCodes(l[i + 1..], l[i].id));
  }

  predicate Increasing(ps: seq<nat>) {
    forall i, j :: 0 <= i < j < |ps| ==> ps[i] < ps[j]
  }

  method PutGaps(ps: seq<nat>) returns (codes: seq<Byte>)
    requires Increasing(ps) && forall i :: 0 <= i < |ps| ==> ps[i] < V.TWO_32
    ensures codes == PositionCodes(ps, 0)
  {
    codes := [];
    var prev := 0;
    for i := 0 to |ps|
      invariant prev == if i == 0 then 0 else ps[i - 1]
      invariant codes + PositionCodes(ps[i..], prev) == PositionCodes(ps, 0)
    {
      assert ps[i..][1..] == ps[i + 1..];
      assert prev <= ps[i];
      var code := V.PutVarint32(ps[i] - prev);
      Regroup(codes, code, PositionCodes(ps[i + 1..], ps[i]));
      codes := codes + code;
      prev := ps[i];
    }
  }

  lemma Regroup(a: seq<Byte>, b: seq<Byte>, c: seq<Byte>)
    ensures a + (b + c) == a + b + c
  {
  }

  lemma {:induction false} DelPositionsSnoc(l: PostingList, pos: nat, e: Entry)
    ensures DelPositions(l + [e], pos) == DelPositions(l, pos) + if e.state != 0 then [pos + |l|] else []
  {
    if l == [] {
      assert [e][1..] == [];
    } else {
      assert (l + [e])[1..] == l[1..] + [e];
      DelPositionsSnoc(l[1..], pos + 1, e);
    }
  }

  /** Positions increase and stay within the list. */
  lemma {:induction false} DelPositionsRange(l: PostingList, pos: nat)
    ensures |DelPositions(l, pos)| <= |l|
    ensures forall i :: 0 <= i < |DelPositions(l, pos)| ==> pos <= DelPositions(l, pos)[i] < pos + |l|
    ensures forall i, j :: 0 <= i < j < |DelPositions(l, pos)| ==> DelPositions(l, pos)[i] < DelPositions(l, pos)[j]
  {
    if l != [] {
      DelPositionsRange(l[1..], pos + 1);
    }
  }

  /** One more entry, with a smaller id. */
  lemma EncodableSnoc(ids: seq<nat>, l: PostingList, e: Entry)
    requires Encodable(l) && IdsAre(ids, l) && |l| + 1 < V.TWO_32 && e.id < V.TWO_64
    requires l != [] ==> e.id < l[|l| - 1].id
    ensures Encodable(l + [e]) && IdsAre(ids + [e.id], l + [e])
  {
    DescendingSnoc(l, e);
  }

  lemma DescendingSnoc(l: PostingList, e: Entry)
    requires Descending(l) && (l != [] ==> e.id < l[|l| - 1].id)
    ensures Descending(l + [e])
  {
  }

  // ---------------------------------------------------------------------------
  // Decoding

  /** What decoding gives: bytes, a refusal, or an aborted run. */
  datatype Decoded = Fixed(bytes: seq<Byte>) | Refused | Aborted

  /** A position moved on by a gap, in 32-bit arithmetic. */
  function Advance(prev: nat, gap: nat): nat { (prev + gap) % V.TWO_32 }

  lemma AdvanceBack(prev: nat, p: nat)
    requires prev <= p < V.TWO_32
    ensures Advance(prev, p - prev) == p
  {
  }

  function OnPositions(ps: seq<nat>, r: Option<(seq<nat>, seq<Byte>)>): Option<(seq<nat>, seq<Byte>)> {
    match r
    case None => None
    case Some((more, left)) => Some((ps + more, left))
  }

  /** The next `n` tombstone positions, in 32-bit arithmetic, and what follows. */
  function ReadPositions(s: seq<Byte>, n: nat, prev: nat): Option<(seq<nat>, seq<Byte>)>
    decreases n
  {
    if n == 0 then Some(([], s))
    else
      match V.Read(s, 0, 0, 32)
      case None => None
      case Some((gap, rest)) =>
        var p := Advance(prev, gap);
        OnPositions([p], ReadPositions(rest, n - 1, p))
  }

  lemma {:induction false} ReadShortens(s: seq<Byte>, shift: nat, result: nat, bits: nat)
    ensures V.Read(s, shift, result, bits).Some? ==> |V.Read(s, shift, result, bits).value.1| < |s|
  {
    if shift < bits && s != [] && s[0] >= 128 {
      ReadShortens(s[1..], shift + 7, result + V.Part(s[0], shift, bits), bits);
    }
  }

  /** The records up to the end of the bytes; `n` documents have been read and the last id was `prev`. */
  function ReadIds(s: seq<Byte>, dels: seq<nat>, prev: nat, n: nat): Decoded
    decreases |s|
  {
    ReadShortens(s, 0, 0, 64);
    match V.Read(s, 0, 0, 64)
    case None => Fixed([])
    case Some((v, rest)) =>
      var id := NextId(prev, v);
      if dels != [] && dels[0] < n then Aborted
      else
        var del := dels != [] && dels[0] == n;
        WithRecord(id, del, ReadIds(rest, if del then dels[1..] else dels, id, n + 1))
  }

  function After(bytes: seq<Byte>, d: Decoded): Decoded {
    if d.Fixed? then Fixed(bytes + d.bytes) else d
  }

  function WithRecord(id: nat, del: bool, d: Decoded): Decoded { After(Record(id, if del then 1 else 0), d) }

  /** The id that a stored number stands for after `prev`, in 64-bit arithmetic. */
  function NextId(prev: nat, v: nat): nat { if prev != 0 then (prev - v) % V.TWO_64 else v }

  lemma NextIdBack(prev: nat, id: nat)
    requires prev < V.TWO_64 && (prev != 0 ==> id < prev)
    ensures NextId(prev, if prev == 0 then id else prev - id) == id
  {
  }

  /** After an id that is not 0 a number is how far the next is below it, in 64 bits; otherwise the id. */
  lemma NextIdMeans(prev: nat, v: nat)
    requires prev < 0x1_0000_0000_0000_0000 && v < 0x1_0000_0000_0000_0000
    ensures NextId(prev, v) ==
      if prev == 0 then v else if v <= prev then prev - v else prev - v + 0x1_0000_0000_0000_0000
  {
  }

  lemma ReadIdsStep(s: seq<Byte>, dels: seq<nat>, prev: nat, n: nat, v: nat, rest: seq<Byte>)
    requires V.Read(s, 0, 0, 64) == Some((v, rest)) && (dels == [] || dels[0] >= n)
    ensures var del := dels != [] && dels[0] == n;
      ReadIds(s, dels, prev, n)
      == WithRecord(NextId(prev, v), del, ReadIds(rest, if del then dels[1..] else dels, NextId(prev, v), n + 1))
  {
    ReadShortens(s, 0, 0, 64);
  }

  lemma ReadPositionsStep(s: seq<Byte>, n: nat, prev: nat, gap: nat, rest: seq<Byte>, ps: seq<nat>, left: seq<Byte>)
    requires n > 0 && V.Read(s, 0, 0, 32) == Some((gap, rest))
    requires ReadPositions(rest, n - 1, Advance(prev, gap)) == Some((ps, left))
    ensures ReadPositions(s, n, prev) == Some(([(prev + gap) % 0x1_0000_0000] + ps, left))
  {
  }

  function DecodeBody(header: Byte, s: seq<Byte>, dels: seq<nat>): Decoded {
    After([header], ReadIds(s, dels, 0, 0))
  }

  function Decode(s: seq<Byte>): Decoded {
    if s == [] || s[0] % 16 != VERSION then Refused
    else if s[0] / 16 % 8 != 0 then
      match V.Read(s[1..], 0, 0, 32)
      case None => Refused
      case Some((n, rest)) =>
        match ReadPositions(rest, n, 0)
        case None => Refused
        case Some((ps, left)) => DecodeBody(s[0], left, ps)
    else DecodeBody(s[0], s[1..], [])
  }

  // ---------------------------------------------------------------------------
  // What decoding makes of any bytes

  /** Bytes are refused exactly if there are none, the version is not 1, or the header says that there
      are tombstones and their number or one of their positions cannot be read. */
  lemma RefusedMeans(s: seq<Byte>)
    ensures Decode(s).Refused? <==>
      || |s| == 0 || s[0] % 16 != 1
      || (s[0] / 16 % 8 != 0 &&
          (|| V.Read(s[1..], 0, 0, 32).None?
           || ReadPositions(V.Read(s[1..], 0, 0, 32).value.1, V.Read(s[1..], 0, 0, 32).value.0, 0).None?))
  {
    if s != [] { ReadIdsNotRefused(s[1..], [], 0, 0); }
    if s != [] && V.Read(s[1..], 0, 0, 32).Some? {
      var r := V.Read(s[1..], 0, 0, 32).value;
      var ps := ReadPositions(r.1, r.0, 0);
      if ps.Some? { ReadIdsNotRefused(ps.value.1, ps.value.0, 0, 0); }
    }
  }

  lemma {:induction false} ReadIdsNotRefused(s: seq<Byte>, dels: seq<nat>, prev: nat, n: nat)
    ensures !ReadIds(s, dels, prev, n).Refused?
    decreases |s|
  {
    ReadShortens(s, 0, 0, 64);
    if V.Read(s, 0, 0, 64).Some? && (dels == [] || dels[0] >= n) {
      var r, del := V.Read(s, 0, 0, 64).value, dels != [] && dels[0] == n;
      ReadIdsNotRefused(r.1, if del then dels[1..] else dels, NextId(prev, r.0), n + 1);
    }
  }

  /** The ids that can be read. */
  function Ids(s: seq<Byte>, prev: nat): seq<nat>
    decreases |s|
  {
    ReadShortens(s, 0, 0, 64);
    match V.Read(s, 0, 0, 64)
    case None => []
    case Some((v, rest)) =>
      [NextId(prev, v)] + Ids(rest, NextId(prev, v))
  }

  /** Positions increase up to the i-th. */
  predicate Rising(dels: seq<nat>, i: nat) { i < |dels| && forall j :: 0 <= j < i ==> dels[j] < dels[j + 1] }

  /** Positions first fall, or stay, after one that has an id of the first `last` after it. */
  predicate Falls(dels: seq<nat>, last: nat) {
    exists i :: 0 <= i < |dels| - 1 && Rising(dels, i) && dels[i + 1] <= dels[i] && dels[i] + 1 < last
  }

  /** A position before any fall. */
  predicate MarkedAt(dels: seq<nat>, p: nat) { exists i :: 0 <= i < |dels| && Rising(dels, i) && dels[i] == p }

  /** Each id as eight bytes, low first, and 1 if its position is marked, otherwise 0. */
  function MarkedRecords(ids: seq<nat>, dels: seq<nat>, n: nat): seq<Byte> {
    if ids == [] then []
    else Record(ids[0], if MarkedAt(dels, n) then 1 else 0) + MarkedRecords(ids[1..], dels, n + 1)
  }

  lemma {:induction false} RisingFrom(dels: seq<nat>, i: nat)
    requires Rising(dels, i)
    ensures dels[0] + i <= dels[i]
  {
    if i > 0 { RisingFrom(dels, i - 1); }
  }

  lemma RisingTail(dels: seq<nat>, i: nat)
    requires |dels| > 1 && dels[0] < dels[1]
    ensures Rising(dels, i + 1) <==> Rising(dels[1..], i)
  {
    var r := dels[1..];
    if Rising(r, i) {
      forall j | 0 <= j < i + 1 ensures dels[j] < dels[j + 1] {
        assert j > 0 ==> r[j - 1] < r[j];
      }
    }
  }

  /** Past the first position the rest decides. */
  lemma FallsPast(dels: seq<nat>, last: nat)
    requires |dels| > 1 && dels[0] < dels[1]
    ensures Falls(dels, last) <==> Falls(dels[1..], last)
  {
    var r := dels[1..];
    if Falls(dels, last) {
      var i :| 0 <= i < |dels| - 1 && Rising(dels, i) && dels[i + 1] <= dels[i] && dels[i] + 1 < last;
      RisingTail(dels, i - 1);
      assert r[i] <= r[i - 1];
    }
    if i :| 0 <= i < |r| - 1 && Rising(r, i) && r[i + 1] <= r[i] && r[i] + 1 < last {
      RisingTail(dels, i);
      assert dels[i + 2] <= dels[i + 1];
    }
  }

  lemma MarkedPast(dels: seq<nat>, p: nat)
    requires dels != [] && p > dels[0]
    ensures MarkedAt(dels, p) <==> |dels| > 1 && dels[0] < dels[1] && MarkedAt(dels[1..], p)
  {
    var r := dels[1..];
    if MarkedAt(dels, p) {
      var i :| 0 <= i < |dels| && Rising(dels, i) && dels[i] == p;
      assert dels[0] < dels[0 + 1];
      RisingTail(dels, i - 1);
      assert r[i - 1] == p;
    }
    if |dels| > 1 && dels[0] < dels[1] && MarkedAt(r, p) {
      var i :| 0 <= i < |r| && Rising(r, i) && r[i] == p;
      RisingTail(dels, i);
      assert dels[i + 1] == p;
    }
  }

  lemma MarkedFirst(dels: seq<nat>, n: nat)
    requires dels == [] || dels[0] >= n
    ensures MarkedAt(dels, n) <==> dels != [] && dels[0] == n
  {
    if MarkedAt(dels, n) {
      var i :| 0 <= i < |dels| && Rising(dels, i) && dels[i] == n;
      RisingFrom(dels, i);
    }
    if dels != [] { assert Rising(dels, 0); }
  }

  lemma {:induction false} SameMarks(ids: seq<nat>, dels: seq<nat>, later: seq<nat>, n: nat)
    requires forall p: nat :: p >= n ==> (MarkedAt(dels, p) <==> MarkedAt(later, p))
    ensures MarkedRecords(ids, dels, n) == MarkedRecords(ids, later, n)
    decreases |ids|
  {
    if ids != [] { SameMarks(ids[1..], dels, later, n + 1); }
  }

  lemma NoFallYet(dels: seq<nat>, n: nat)
    requires dels == [] || dels[0] >= n
    ensures !Falls(dels, n)
  {
    if i :| 0 <= i < |dels| - 1 && Rising(dels, i) && dels[i + 1] <= dels[i] && dels[i] + 1 < n {
      RisingFrom(dels, i);
    }
  }

  lemma RestDecides(ids: seq<nat>, dels: seq<nat>, n: nat)
    requires dels != [] && dels[0] == n && (|dels| > 1 ==> dels[1] > n)
    ensures Falls(dels, n + 1 + |ids|) <==> Falls(dels[1..], n + 1 + |ids|)
    ensures MarkedRecords(ids, dels, n + 1) == MarkedRecords(ids, dels[1..], n + 1)
  {
    if |dels| > 1 { FallsPast(dels, n + 1 + |ids|); }
    forall p: nat | p >= n + 1 ensures MarkedAt(dels, p) <==> MarkedAt(dels[1..], p) {
      MarkedPast(dels, p);
    }
    SameMarks(ids, dels, dels[1..], n + 1);
  }

  /** The run is aborted exactly if the positions fall before the last id; otherwise every id comes out,
      marked where a position before any fall says so. */
  predicate RecordsAre(d: Decoded, ids: seq<nat>, dels: seq<nat>, n: nat) {
    d == if Falls(dels, n + |ids|) then Aborted else Fixed(MarkedRecords(ids, dels, n))
  }

  /** One more id in front. */
  lemma RecordsStep(d: Decoded, id: nat, ids: seq<nat>, dels: seq<nat>, n: nat)
    requires (dels == [] || dels[0] >= n) && RecordsAre(d, ids, dels, n + 1)
    ensures RecordsAre(WithRecord(id, dels != [] && dels[0] == n, d), [id] + ids, dels, n)
  {
    MarkedFirst(dels, n);
    assert ([id] + ids)[1..] == ids;
  }

  /** After a mark that a fall follows, the next id aborts the run. */
  lemma StopsAfter(rest: seq<Byte>, dels: seq<nat>, id: nat, n: nat)
    requires |dels| > 1 && dels[0] == n && dels[1] <= n
    ensures RecordsAre(ReadIds(rest, dels[1..], id, n + 1), Ids(rest, id), dels, n + 1)
  {
    var last := n + 1 + |Ids(rest, id)|;
    ReadShortens(rest, 0, 0, 64);
    assert Rising(dels, 0);
    if Falls(dels, last) {
      var i :| 0 <= i < |dels| - 1 && Rising(dels, i) && dels[i + 1] <= dels[i] && dels[i] + 1 < last;
      if i > 0 { assert false; }
    }
    if Ids(rest, id) != [] { assert dels[0 + 1] <= dels[0]; }
  }

  lemma IdsStep(s: seq<Byte>, prev: nat, v: nat, rest: seq<Byte>)
    requires V.Read(s, 0, 0, 64) == Some((v, rest))
    ensures |rest| < |s| && Ids(s, prev) == [NextId(prev, v)] + Ids(rest, NextId(prev, v))
  {
    ReadShortens(s, 0, 0, 64);
  }

  lemma {:induction false} ReadIdsMeans(s: seq<Byte>, dels: seq<nat>, prev: nat, n: nat)
    requires dels == [] || dels[0] >= n
    ensures RecordsAre(ReadIds(s, dels, prev, n), Ids(s, prev), dels, n)
    decreases |s|, 0
  {
    if V.Read(s, 0, 0, 64).None? {
      ReadShortens(s, 0, 0, 64);
      NoFallYet(dels, n);
    } else {
      var (v, rest) := V.Read(s, 0, 0, 64).value;
      var id := NextId(prev, v);
      ReadIdsStep(s, dels, prev, n, v, rest);
      IdsStep(s, prev, v, rest);
      var del := dels != [] && dels[0] == n;
      var d := ReadIds(rest, if del then dels[1..] else dels, id, n + 1);
      ReadRest(rest, dels, id, n);
      RecordsStep(d, id, Ids(rest, id), dels, n);
    }
  }

  lemma {:induction false} ReadRest(rest: seq<Byte>, dels: seq<nat>, id: nat, n: nat)
    requires dels == [] || dels[0] >= n
    ensures var later := if dels != [] && dels[0] == n then dels[1..] else dels;
      RecordsAre(ReadIds(rest, later, id, n + 1), Ids(rest, id), dels, n + 1)
    decreases |rest|, 1
  {
    if dels == [] || dels[0] > n {
      ReadIdsMeans(rest, dels, id, n + 1);
    } else if |dels| > 1 && dels[1] <= n {
      StopsAfter(rest, dels, id, n);
    } else {
      ReadIdsMeans(rest, dels[1..], id, n + 1);
      RestDecides(Ids(rest, id), dels, n);
    }
  }

  /** What decoding gives when it refuses nothing: the header byte and the records of all ids. */
  lemma DecodeMeans(s: seq<Byte>)
    requires !Decode(s).Refused?
    ensures s != []
    ensures var (dels, left) :=
        if s[0] / 16 % 8 == 0 then ([], s[1..])
        else var r := V.Read(s[1..], 0, 0, 32).Or((0, [])); ReadPositions(r.1, r.0, 0).Or(([], []));
      Decode(s) ==
        if Falls(dels, |Ids(left, 0)|) then Aborted else Fixed([s[0]] + MarkedRecords(Ids(left, 0), dels, 0))
  {
    var (dels, left) :=
      if s[0] / 16 % 8 == 0 then ([], s[1..])
      else var r := V.Read(s[1..], 0, 0, 32).Or((0, [])); ReadPositions(r.1, r.0, 0).Or(([], []));
    RefusedMeans(s);
    ReadIdsMeans(left, dels, 0, 0);
  }

  /** A record is eight bytes of the id, low first, and the state. */
  lemma RecordMeans(id: nat, state: Byte)
    ensures Record(id, state) ==
      [id % 256, id / 256 % 256, id / 65536 % 256, id / 16777216 % 256, id / 4294967296 % 256,
       id / 1099511627776 % 256, id / 281474976710656 % 256, id / 72057594037927936 % 256, state]
  {
    var a, b, c, d := id / 256, id / 65536, id / 16777216, id / 4294967296;
    var e, f, g := id / 1099511627776, id / 281474976710656, id / 72057594037927936;
    assert a / 256 == b && b / 256 == c && c / 256 == d && d / 256 == e && e / 256 == f && f / 256 == g;
    assert ByteOf(id, 1) == ByteOf(a, 0) && ByteOf(id, 2) == ByteOf(a, 1) == ByteOf(b, 0);
    ByteOfDown(id, 3); ByteOfDown(a, 2); ByteOfDown(b, 1);
    ByteOfDown(id, 4); ByteOfDown(a, 3); ByteOfDown(b, 2); ByteOfDown(c, 1);
    ByteOfDown(id, 5); ByteOfDown(a, 4); ByteOfDown(b, 3); ByteOfDown(c, 2); ByteOfDown(d, 1);
    ByteOfDown(id, 6); ByteOfDown(a, 5); ByteOfDown(b, 4); ByteOfDown(c, 3); ByteOfDown(d, 2); ByteOfDown(e, 1);
    ByteOfDown(id, 7); ByteOfDown(a, 6); ByteOfDown(b, 5); ByteOfDown(c, 4); ByteOfDown(d, 3); ByteOfDown(e, 2); ByteOfDown(f, 1);
  }

  lemma ByteOfDown(v: nat, i: nat)
    requires i > 0
    ensures ByteOf(v, i) == ByteOf(v / 256, i - 1)
  {
  }

  /** A list without a tombstone and one with, byte by byte. */
  lemma KnownLists()
    ensures Encode([Entry(5, 0), Entry(3, 0)]) == [1, 5, 2]
    ensures Encode([Entry(300, 0), Entry(5, 1)]) == [17, 1, 1, 172, 2, 167, 2]
  {
    V.KnownCodes();
    var l, m := [Entry(5, 0), Entry(3, 0)], [Entry(300, 0), Entry(5, 1)];
    assert l[1..] == [Entry(3, 0)] && m[1..] == [Entry(5, 1)] && l[1..][1..] == [] && m[1..][1..] == [];
    assert DelPositions(l[1..], 1) == [] && DelPositions(m[1..], 1) == [1];
    assert V.Code(295) == [167] + V.Code(2);
    assert IdCodes(l[1..], 5) == [2] && IdCodes(m[1..], 300) == [167, 2];
    assert PositionCodes([1], 0) == [1] + PositionCodes([1][1..], 1);
  }

  lemma {:induction false} PositionsBack(ps: seq<nat>, prev: nat, tail: seq<Byte>)
    requires Increasing(ps) && forall i :: 0 <= i < |ps| ==> prev <= ps[i] < V.TWO_32
    ensures ReadPositions(PositionCodes(ps, prev) + tail, |ps|, prev) == Some((ps, tail))
  {
    if ps == [] {
      assert PositionCodes(ps, prev) + tail == tail;
    } else {
      var gap, later := ps[0] - prev, PositionCodes(ps[1..], ps[0]) + tail;
      Regroup(V.Code(gap), PositionCodes(ps[1..], ps[0]), tail);
      V.RoundTrip(gap, later, 32);
      AdvanceBack(prev, ps[0]);
      PositionsBack(ps[1..], ps[0], tail);
      ReadPositionsStep(PositionCodes(ps, prev) + tail, |ps|, prev, gap, later, ps[1..], tail);
      assert [ps[0]] + ps[1..] == ps;
    }
  }

  lemma HeadPosition(l: PostingList, n: nat)
    requires l != []
    ensures var ps := DelPositions(l, n);
      && (ps != [] && ps[0] == n <==> l[0].state != 0)
      && (if l[0].state != 0 then ps[1..] else ps) == DelPositions(l[1..], n + 1)
      && (ps == [] || ps[0] >= n)
  {
    DelPositionsRange(l[1..], n + 1);
  }

  lemma EncodableTail(l: PostingList)
    requires Encodable(l) && l != []
    ensures Encodable(l[1..]) && (l[1..] != [] ==> l[1..][0].id < l[0].id)
  {
  }

  lemma {:induction false} IdsBack(l: PostingList, prev: nat, n: nat)
    requires Encodable(l) && (prev != 0 && l != [] ==> prev > l[0].id) && prev < V.TWO_64
    ensures ReadIds(IdCodes(l, prev), DelPositions(l, n), prev, n) == Fixed(Records(l))
    decreases l
  {
    if l != [] {
      var e, r, ps := l[0], l[1..], DelPositions(l, n);
      var v := if prev == 0 then e.id else prev - e.id;
      EncodableTail(l);
      HeadPosition(l, n);
      assert IdCodes(l, prev) == V.Code(v) + IdCodes(r, e.id);
      V.RoundTrip(v, IdCodes(r, e.id), 64);
      NextIdBack(prev, e.id);
      ReadIdsStep(IdCodes(l, prev), ps, prev, n, v, IdCodes(r, e.id));
      IdsBack(r, e.id, n + 1);
      assert Fixed(Records(l)) == WithRecord(e.id, e.state != 0, Fixed(Records(r)));
    }
  }

  /** The header byte and the fixed-width records of a list. */
  function FixedForm(l: PostingList): Decoded { Fixed([HeaderByte(DelPositions(l, 0) != [])] + Records(l)) }

  /** Decoding what was encoded gives the header byte and the fixed-width records of the list. */
  lemma DecodeEncode(l: PostingList)
    requires Encodable(l)
    ensures Decode(Encode(l)) == FixedForm(l)
  {
    var ps, ids := DelPositions(l, 0), IdCodes(l, 0);
    var h := HeaderByte(ps != []);
    IdsBack(l, 0, 0);
    if ps == [] {
      DecodePlain(h, ids);
      assert Encode(l) == [h] + ids;
    } else {
      var code, gaps := V.Code(|ps|), PositionCodes(ps, 0);
      DelPositionsRange(l, 0);
      V.RoundTrip(|ps|, gaps + ids, 32);
      PositionsBack(ps, 0, ids);
      DecodeWithPositions(h, code, |ps|, gaps, ps, ids);
      assert Encode(l) == [h] + (code + gaps) + ids;
    }
  }

  lemma DecodePlain(h: Byte, ids: seq<Byte>)
    requires h % 16 == VERSION && h / 16 % 8 == 0
    ensures Decode([h] + ids) == DecodeBody(h, ids, [])
  {
    assert ([h] + ids)[1..] == ids;
  }

  lemma DecodeWithPositions(h: Byte, code: seq<Byte>, n: nat, gaps: seq<Byte>, ps: seq<nat>, ids: seq<Byte>)
    requires h % 16 == VERSION && h / 16 % 8 != 0
    requires V.Read(code + (gaps + ids), 0, 0, 32) == Some((n, gaps + ids))
    requires ReadPositions(gaps + ids, n, 0) == Some((ps, ids))
    ensures Decode([h] + (code + gaps) + ids) == DecodeBody(h, ids, ps)
  {
    var rest := code + (gaps + ids);
    Regroup(code, gaps, ids);
    Regroup([h], code + gaps, ids);
    assert ([h] + rest)[1..] == rest;
  }

  /** So a list comes back exactly as the fixed-width writer would have written it when every state is
      0 or 1. */
  lemma {:induction false} RecordsAreExact(l: PostingList)
    requires forall i :: 0 <= i < |l| ==> l[i].state < 256
    ensures Records(l) == PlainRecords(l) <==> forall i :: 0 <= i < |l| ==> l[i].state <= 1
  {
    if l != [] {
      RecordsAreExact(l[1..]);
      RecordCompare(l[0].id, Flag(l[0]), Records(l[1..]), l[0].state, PlainRecords(l[1..]));
      assert forall i :: 0 < i < |l| ==> l[i] == l[1..][i - 1];
    }
  }

  lemma RecordCompare(id: nat, a: Byte, s: seq<Byte>, b: Byte, t: seq<Byte>)
    ensures Record(id, a) + s == Record(id, b) + t <==> a == b && s == t
  {
    var x, y := Record(id, a) + s, Record(id, b) + t;
    assert x[8] == a && y[8] == b;
    assert x[9..] == s && y[9..] == t;
  }

  /** The decoder as it runs: the header, the positions if the header says there are any, then ids until
      no more can be read. */
  method DecodeBuffer(buffer: seq<Byte>) returns (d: Decoded)
    ensures d == Decode(buffer)
  {
    if buffer == [] || buffer[0] % 16 != VERSION {
      return Refused;
    }
    var slice := buffer[1..];
    var dels: seq<nat> := [];
    if buffer[0] / 16 % 8 != 0 {
      var num := V.GetVarint32(slice);
      if num.None? {
        return Refused;
      }
      var positions := DecodePositions(num.value.1, num.value.0);
      if positions.None? {
        return Refused;
      }
      dels, slice := positions.value.0, positions.value.1;
    }
    d := DecodeIds([buffer[0]], slice, dels);
  }

  method DecodePositions(s: seq<Byte>, n: nat) returns (r: Option<(seq<nat>, seq<Byte>)>)
    ensures r == ReadPositions(s, n, 0)
  {
    var ps: seq<nat>, slice, prev: nat := [], s, 0;
    assert ReadPositions(s, n, 0).Some? ==> [] + ReadPositions(s, n, 0).value.0 == ReadPositions(s, n, 0).value.0;
    for i := 0 to n
      invariant OnPositions(ps, ReadPositions(slice, n - i, prev)) == ReadPositions(s, n, 0)
    {
      var gap := V.GetVarint32(slice);
      if gap.None? {
        return None;
      }
      OnPositionsStep(ps, Advance(prev, gap.value.0), ReadPositions(gap.value.1, n - i - 1, Advance(prev, gap.value.0)));
      prev, slice := Advance(prev, gap.value.0), gap.value.1;
      ps := ps + [prev];
    }
    assert ps + [] == ps;
    r := Some((ps, slice));
  }

  lemma OnPositionsStep(ps: seq<nat>, p: nat, r: Option<(seq<nat>, seq<Byte>)>)
    ensures OnPositions(ps, OnPositions([p], r)) == OnPositions(ps + [p], r)
  {
    if r.Some? {
      assert ps + ([p] + r.value.0) == ps + [p] + r.value.0;
    }
  }

  method DecodeIds(header: seq<Byte>, s: seq<Byte>, dels: seq<nat>) returns (d: Decoded)
    ensures d == After(header, ReadIds(s, dels, 0, 0))
  {
    var out, slice, idx, prev: nat, num: nat := header, s, 0, 0, 0;
    while true
      invariant idx <= |dels|
      invariant After(out, ReadIds(slice, dels[idx..], prev, num)) == After(header, ReadIds(s, dels, 0, 0))
      decreases |slice|
    {
      var next := V.GetVarint64(slice);
      ReadShortens(slice, 0, 0, 64);
      if next.None? {
        assert out + [] == out;
        return Fixed(out);
      }
      var id := NextId(prev, next.value.0);
      var del := false;
      if idx < |dels| {
        if dels[idx] == num {
          del := true;
        } else if dels[idx] < num {
          return Aborted;
        }
      }
      ghost var later := if del then dels[idx + 1..] else dels[idx..];
      ReadIdsStep(slice, dels[idx..], prev, num, next.value.0, next.value.1);
      assert del ==> dels[idx..][1..] == dels[idx + 1..];
      AfterStep(out, Record(id, if del then 1 else 0), ReadIds(next.value.1, later, id, num + 1));
      out := out + Record(id, if del then 1 else 0);
      if del {
        idx := idx + 1;
      }
      prev, slice, num := id, next.value.1, num + 1;
    }
  }

  lemma AfterStep(a: seq<Byte>, b: seq<Byte>, d: Decoded)
    ensures After(a, After(b, d)) == After(a + b, d)
  {
    if d.Fixed? {
      Regroup(a, b, d.bytes);
    }
  }
}
