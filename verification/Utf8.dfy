/** UTF-8: writing a code point, reading one back with all checks, and the suffixes of a term.
    Bit masks are written as arithmetic: `x & 0x3f` is `x % 64`, `(x << 6) & 0x7ff` is `x * 64 % 2048`. */
module Utf8 {
  import opened Basics

  datatype Utf8Error = NotEnoughRoom | InvalidLead | IncompleteSequence | OverlongSequence | InvalidCodePoint

  /** A code point and the bytes it took, or why there is none. */
  datatype Step = Read(cp: nat, length: nat) | Fail(error: Utf8Error)

  predicate IsTrail(b: Byte) { b / 64 == 2 }

  predicate IsSurrogate(cp: nat) { 0xd800 <= cp <= 0xdfff }

  predicate IsCodePointValid(cp: nat) { cp <= 0x10ffff && !IsSurrogate(cp) }

  function SequenceLength(lead: Byte): nat {
    if lead < 128 then 1
    else if lead / 32 == 6 then 2
    else if lead / 16 == 14 then 3
    else if lead / 8 == 30 then 4
    else 0
  }

  predicate IsOverlong(cp: nat, length: nat) {
    if cp < 0x80 then length != 1 else if cp < 0x800 then length != 2 else cp < 0x10000 && length != 3
  }

  // ---------------------------------------------------------------------------
  // The forms of section 3 of RFC 3629

  /** The first number that no longer fits an n-byte form. */
  function Limit(n: nat): nat {
    if n == 1 then 0x80 else if n == 2 then 0x800 else if n == 3 then 0x10000 else 0x200000
  }

  /** The n-byte form of a number, whether or not a shorter one exists. */
  function Form(cp: nat, n: nat): (s: seq<Byte>)
    requires 1 <= n <= 4 && cp < Limit(n)
    ensures |s| == n
  {
    if n == 1 then [cp]
    else if n == 2 then [cp / 64 + 192, cp % 64 + 128]
    else if n == 3 then [cp / 4096 + 224, cp / 64 % 64 + 128, cp % 64 + 128]
    else [cp / 262144 + 240, cp / 4096 % 64 + 128, cp / 64 % 64 + 128, cp % 64 + 128]
  }

  function ShortestLength(cp: nat): nat {
    if cp < 0x80 then 1 else if cp < 0x800 then 2 else if cp < 0x10000 then 3 else 4
  }

  /** The encoding of a code point: its shortest form. */
  function Encode(cp: nat): seq<Byte>
    requires IsCodePointValid(cp)
  {
    Form(cp, ShortestLength(cp))
  }

  /** Writes a code point after `result`, or refuses it. */
  method Append(cp: nat, result: seq<Byte>) returns (ok: bool, out: seq<Byte>)
    ensures ok <==> cp <= 0x10ffff && !(0xd800 <= cp <= 0xdfff)
    ensures out == if ok then result + Encode(cp) else result
  {
    if !IsCodePointValid(cp) {
      return false, result;
    }
    if cp < 0x80 {
      out := result + [cp];
    } else if cp < 0x800 {
      out := result + [cp / 64 + 192] + [cp % 64 + 128];
    } else if cp < 0x10000 {
      out := result + [cp / 4096 + 224] + [cp / 64 % 64 + 128] + [cp % 64 + 128];
    } else {
      out := result + [cp / 262144 + 240] + [cp / 4096 % 64 + 128] + [cp / 64 % 64 + 128] + [cp % 64 + 128];
    }
    ok := true;
  }

  // ---------------------------------------------------------------------------
  // Reading

  /** The first missing or wrong trail byte among positions i up to n. */
  function TrailError(s: seq<Byte>, i: nat, n: nat): Option<Utf8Error>
    decreases n - i
  {
    if i >= n then None
    else if i >= |s| then Some(NotEnoughRoom)
    else if !IsTrail(s[i]) then Some(IncompleteSequence)
    else TrailError(s, i + 1, n)
  }

  /** The number in the first n bytes. */
  function Value(s: seq<Byte>, n: nat): nat
    requires 1 <= n <= 4 && n <= |s|
  {
    if n == 1 then s[0]
    else if n == 2 then s[0] as nat * 64 % 2048 + s[1] % 64
    else if n == 3 then s[0] as nat * 4096 % 65536 + s[1] as nat * 64 % 4096 + s[2] % 64
    else s[0] as nat * 262144 % 2097152 + s[1] as nat * 4096 % 262144 + s[2] as nat * 64 % 4096 + s[3] % 64
  }

  lemma {:induction false} TrailsPresent(s: seq<Byte>, i: nat, n: nat)
    requires i <= n && TrailError(s, i, n) == None && (i < n || i <= |s|)
    ensures n <= |s| && forall k :: i <= k < n ==> IsTrail(s[k])
    decreases n - i
  {
    if i < n { TrailsPresent(s, i + 1, n); }
  }

  /** What the checked reader makes of the bytes ahead. The byte past the end is the terminator. */
  function Decode(s: seq<Byte>): Step {
    if s == [] then Fail(NotEnoughRoom)
    else
      var n := SequenceLength(s[0]);
      if n == 0 then Fail(InvalidLead)
      else if TrailError(s, 1, n).Some? then Fail(TrailError(s, 1, n).value)
      else
        TrailsPresent(s, 1, n);
        var cp := Value(s, n);
        if !IsCodePointValid(cp) then Fail(InvalidCodePoint)
        else if IsOverlong(cp, n) then Fail(OverlongSequence)
        else Read(cp, n)
  }

  /** Steps onto a trail byte; n is the length of the sequence being read. */
  method IncreaseSafely(s: seq<Byte>, it: nat, ghost n: nat) returns (error: Option<Utf8Error>, next: nat)
    requires it + 1 < n && it < |s|
    ensures next == it + 1
    ensures TrailError(s, next, n) == if error.Some? then error else TrailError(s, next + 1, n)
    ensures error.None? ==> next < |s|
  {
    next := it + 1;
    error := if next == |s| then Some(NotEnoughRoom)
      else if !IsTrail(s[next]) then Some(IncompleteSequence) else None;
  }

  /** Reads a sequence of the given length; the iterator ends on its last byte. */
  method GetSequence(s: seq<Byte>, length: nat) returns (error: Option<Utf8Error>, it: nat, cp: nat)
    requires s != [] && 1 <= length <= 4
    ensures error == TrailError(s, 1, length)
    ensures error.None? ==> it == length - 1 < |s| && cp == Value(s, length)
  {
    it, cp, error := 0, s[0], None;
    if length == 2 {
      error, it := IncreaseSafely(s, it, length);
      if error.Some? { return; }
      cp := cp * 64 % 2048 + s[it] % 64;
    } else if length == 3 {
      error, it := IncreaseSafely(s, it, length);
      if error.Some? { return; }
      cp := cp * 4096 % 65536 + s[it] as nat * 64 % 4096;
      error, it := IncreaseSafely(s, it, length);
      if error.Some? { return; }
      cp := cp + s[it] % 64;
    } else if length == 4 {
      error, it := IncreaseSafely(s, it, length);
      if error.Some? { return; }
      cp := cp * 262144 % 2097152 + s[it] as nat * 4096 % 262144;
      error, it := IncreaseSafely(s, it, length);
      if error.Some? { return; }
      cp := cp + s[it] as nat * 64 % 4096;
      error, it := IncreaseSafely(s, it, length);
      if error.Some? { return; }
      cp := cp + s[it] % 64;
    }
  }

  /** Moves past one code point, or stays and says why not. */
  method ValidateNext(buffer: seq<Byte>, start: nat) returns (r: Step, it: nat)
    requires start <= |buffer|
    ensures r == Decode(buffer[start..])
    ensures it == if r.Read? then start + r.length else start
    ensures it <= |buffer|
  {
    var s := buffer[start..];
    if s == [] {
      return Fail(NotEnoughRoom), start;
    }
    var length := SequenceLength(s[0]);
    if length == 0 {
      return Fail(InvalidLead), start;
    }
    var error, at, cp := GetSequence(s, length);
    it := start;
    if error.Some? {
      r := Fail(error.value);
    } else if !IsCodePointValid(cp) {
      r := Fail(InvalidCodePoint);
    } else if IsOverlong(cp, length) {
      r := Fail(OverlongSequence);
    } else {
      r, it := Read(cp, length), start + at + 1;
    }
  }

  // ---------------------------------------------------------------------------
  // What reading accepts and refuses

  lemma TrailMasks(b: nat)
    requires 128 <= b < 192
    ensures b % 64 == b - 128 && b * 64 % 4096 == (b - 128) * 64 && b * 4096 % 262144 == (b - 128) * 4096
  {
  }

  lemma LeadMasks(a: nat)
    ensures 192 <= a < 224 ==> a * 64 % 2048 == (a - 192) * 64
    ensures 224 <= a < 240 ==> a * 4096 % 65536 == (a - 224) * 4096
    ensures 240 <= a < 248 ==> a * 262144 % 2097152 == (a - 240) * 262144
  {
  }

  /** With well-placed bytes the masks pick out each byte's own bits. */
  lemma ValueOfBytes(s: seq<Byte>, n: nat)
    requires n <= |s| && 2 <= n <= 4 && SequenceLength(s[0]) == n
    requires forall k :: 1 <= k < n ==> IsTrail(s[k])
    ensures n == 2 ==> Value(s, n) == (s[0] as int - 192) * 64 + (s[1] as int - 128)
    ensures n == 3 ==> Value(s, n) == (s[0] as int - 224) * 4096 + (s[1] as int - 128) * 64 + (s[2] as int - 128)
    ensures n == 4 ==>
      Value(s, n) == (s[0] as int - 240) * 262144 + (s[1] as int - 128) * 4096 + (s[2] as int - 128) * 64 + (s[3] as int - 128)
  {
    LeadMasks(s[0]);
    assert IsTrail(s[1]);
    TrailMasks(s[1]);
    if n > 2 {
      assert IsTrail(s[2]);
      TrailMasks(s[2]);
    }
    if n > 3 {
      assert IsTrail(s[3]);
      TrailMasks(s[3]);
    }
  }

  lemma {:induction false} TrailsFine(s: seq<Byte>, i: nat, n: nat)
    requires n <= |s| && forall k :: i <= k < n ==> IsTrail(s[k])
    ensures TrailError(s, i, n) == None
    decreases n - i
  {
    if i < n { TrailsFine(s, i + 1, n); }
  }

  lemma FormReads(cp: nat, n: nat, tail: seq<Byte>)
    requires 1 <= n <= 4 && cp < Limit(n)
    ensures var s := Form(cp, n) + tail;
      SequenceLength(s[0]) == n && TrailError(s, 1, n) == None && Value(s, n) == cp
  {
    var s := Form(cp, n) + tail;
    assert s[..n] == Form(cp, n);
    assert forall k :: 0 <= k < n ==> s[k] == Form(cp, n)[k];
    TrailsFine(s, 1, n);
    if n > 1 {
      assert SequenceLength(s[0]) == n;
      ValueOfBytes(s, n);
      if n == 3 { DigitsThree(cp); }
      if n == 4 { DigitsFour(cp); }
    }
  }

  lemma DigitsThree(cp: nat)
    ensures cp == cp / 4096 * 4096 + cp / 64 % 64 * 64 + cp % 64
  {
    assert cp / 64 / 64 == cp / 4096;
  }

  lemma DigitsFour(cp: nat)
    ensures cp == cp / 262144 * 262144 + cp / 4096 % 64 * 4096 + cp / 64 % 64 * 64 + cp % 64
  {
    assert cp / 4096 / 64 == cp / 262144;
    DigitsThree(cp);
  }

  lemma ReadsForm(s: seq<Byte>)
    requires s != [] && SequenceLength(s[0]) > 0 && TrailError(s, 1, SequenceLength(s[0])) == None
    ensures var n := SequenceLength(s[0]);
      n <= |s| && Value(s, n) < Limit(n) && s[..n] == Form(Value(s, n), n)
  {
    var n := SequenceLength(s[0]);
    TrailsPresent(s, 1, n);
    if n == 1 {
      assert s[..1] == [s[0]];
    } else {
      assert IsTrail(s[1]);
      if n == 2 {
        ReadsTwo(s);
      } else if n == 3 {
        assert IsTrail(s[2]);
        ReadsThree(s);
      } else {
        assert IsTrail(s[2]) && IsTrail(s[3]);
        ReadsFour(s);
      }
    }
  }

  lemma ReadsTwo(s: seq<Byte>)
    requires |s| >= 2 && 192 <= s[0] < 224 && IsTrail(s[1])
    ensures Value(s, 2) < 0x800 && Form(Value(s, 2), 2) == s[..2]
  {
    ValueOfBytes(s, 2);
    FormTwo(s[0] - 192, s[1] - 128);
  }

  lemma ReadsThree(s: seq<Byte>)
    requires |s| >= 3 && 224 <= s[0] < 240 && IsTrail(s[1]) && IsTrail(s[2])
    ensures Value(s, 3) < 0x10000 && Form(Value(s, 3), 3) == s[..3]
  {
    ValueOfBytes(s, 3);
    FormThree(s[0] - 224, s[1] - 128, s[2] - 128);
  }

  lemma ReadsFour(s: seq<Byte>)
    requires |s| >= 4 && 240 <= s[0] < 248 && IsTrail(s[1]) && IsTrail(s[2]) && IsTrail(s[3])
    ensures Value(s, 4) < 0x200000 && Form(Value(s, 4), 4) == s[..4]
  {
    ValueOfBytes(s, 4);
    FormFour(s[0] - 240, s[1] - 128, s[2] - 128, s[3] - 128);
  }

  lemma FormTwo(a: nat, b: nat)
    requires a < 32 && b < 64
    ensures var cp := a * 64 + b; cp < 0x800 && Form(cp, 2) == [a + 192, b + 128]
  {
  }

  lemma FormThree(a: nat, b: nat, c: nat)
    requires a < 16 && b < 64 && c < 64
    ensures var cp := a * 4096 + b * 64 + c; cp < 0x10000 && Form(cp, 3) == [a + 224, b + 128, c + 128]
  {
    JoinThree(a, b, c);
  }

  lemma FormFour(a: nat, b: nat, c: nat, d: nat)
    requires a < 8 && b < 64 && c < 64 && d < 64
    ensures var cp := a * 262144 + b * 4096 + c * 64 + d;
      cp < 0x200000 && Form(cp, 4) == [a + 240, b + 128, c + 128, d + 128]
  {
    JoinFour(a, b, c, d);
  }

  lemma JoinThree(a: nat, b: nat, c: nat)
    requires b < 64 && c < 64
    ensures var cp := a * 4096 + b * 64 + c; cp / 4096 == a && cp / 64 % 64 == b && cp % 64 == c
  {
    assert (a * 4096 + b * 64 + c) / 64 == a * 64 + b;
  }

  lemma JoinFour(a: nat, b: nat, c: nat, d: nat)
    requires b < 64 && c < 64 && d < 64
    ensures var cp := a * 262144 + b * 4096 + c * 64 + d;
      cp / 262144 == a && cp / 4096 % 64 == b && cp / 64 % 64 == c && cp % 64 == d
  {
    var cp := a * 262144 + b * 4096 + c * 64 + d;
    assert cp / 64 == a * 4096 + b * 64 + c;
    JoinThree(a, b, c);
    assert cp / 4096 == a * 64 + b;
  }

  /** Every complete form is judged: out of range or surrogate, too long, or read back. */
  lemma FormJudged(cp: nat, n: nat, tail: seq<Byte>)
    requires 1 <= n <= 4 && cp < Limit(n)
    ensures Decode(Form(cp, n) + tail) ==
      if cp > 0x10ffff || 0xd800 <= cp <= 0xdfff then Fail(InvalidCodePoint)
      else if n != (if cp < 0x80 then 1 else if cp < 0x800 then 2 else if cp < 0x10000 then 3 else 4)
      then Fail(OverlongSequence)
      else Read(cp, n)
  {
    FormReads(cp, n, tail);
  }

  predicate Trail(s: seq<Byte>, k: nat) { k < |s| && 128 <= s[k] < 192 }

  /** A lead byte that begins no sequence is refused; of any other the first byte after it that is missing
      or no trail byte is. */
  lemma BytesJudged(s: seq<Byte>)
    ensures Decode([]) == Fail(NotEnoughRoom)
    ensures s != [] ==>
      var n := if s[0] < 128 then 1 else if s[0] < 192 then 0 else if s[0] < 224 then 2 else if s[0] < 240 then 3
               else if s[0] < 248 then 4 else 0;
      && (n == 0 ==> Decode(s) == Fail(InvalidLead))
      && forall k :: 1 <= k < n && !Trail(s, k) && (forall j :: 1 <= j < k ==> Trail(s, j)) ==>
        Decode(s) == Fail(if k < |s| then IncompleteSequence else NotEnoughRoom)
  {
    if s != [] {
      var n := SequenceLength(s[0]);
      forall k | 1 <= k < n && !Trail(s, k) && (forall j :: 1 <= j < k ==> Trail(s, j))
        ensures TrailError(s, 1, n) == Some(if k < |s| then IncompleteSequence else NotEnoughRoom)
      {
        FirstBad(s, 1, k, n);
      }
    }
  }

  lemma {:induction false} FirstBad(s: seq<Byte>, i: nat, k: nat, n: nat)
    requires i <= k < n && !Trail(s, k) && forall j :: i <= j < k ==> Trail(s, j)
    ensures TrailError(s, i, n) == Some(if k < |s| then IncompleteSequence else NotEnoughRoom)
    decreases k - i
  {
    if i < k {
      assert Trail(s, i);
      FirstBad(s, i + 1, k, n);
    }
  }

  /** The encoding of a code point, as its bits lie in one to four bytes. */
  lemma EncodeMeans(cp: nat)
    requires IsCodePointValid(cp)
    ensures var e := Encode(cp);
      if cp < 0x80 then e == [cp]
      else if cp < 0x800 then
        && |e| == 2 && 192 <= e[0] < 224 && Trail(e, 1)
        && cp == (e[0] as int - 192) * 64 + (e[1] as int - 128)
      else if cp < 0x10000 then
        && |e| == 3 && 224 <= e[0] < 240 && Trail(e, 1) && Trail(e, 2)
        && cp == (e[0] as int - 224) * 4096 + (e[1] as int - 128) * 64 + (e[2] as int - 128)
      else
        && |e| == 4 && 240 <= e[0] < 248 && Trail(e, 1) && Trail(e, 2) && Trail(e, 3)
        && cp == (e[0] as int - 240) * 262144 + (e[1] as int - 128) * 4096
                 + (e[2] as int - 128) * 64 + (e[3] as int - 128)
  {
    if 0x800 <= cp < 0x10000 { DigitsThree(cp); }
    if 0x10000 <= cp { DigitsFour(cp); }
  }

  /** Reading yields a code point exactly when its encoding lies ahead. */
  lemma DecodeIsExact(s: seq<Byte>, cp: nat, n: nat)
    ensures Decode(s) == Read(cp, n) <==> IsCodePointValid(cp) && n == |Encode(cp)| && Encode(cp) <= s
  {
    if Decode(s) == Read(cp, n) {
      ReadsForm(s);
      assert n == ShortestLength(cp);
    }
    if IsCodePointValid(cp) && n == |Encode(cp)| && Encode(cp) <= s {
      assert s == Encode(cp) + s[n..];
      FormJudged(cp, n, s[n..]);
    }
  }

  // ---------------------------------------------------------------------------
  // Suffixes

  function EncodeAll(cps: seq<nat>): seq<Byte>
    requires forall i :: 0 <= i < |cps| ==> IsCodePointValid(cps[i])
  {
    if cps == [] then [] else Encode(cps[0]) + EncodeAll(cps[1..])
  }

  /** The suffixes a do-while over the builder yields from `s` on; m is the least length. */
  function SuffixesFrom(s: seq<Byte>, m: nat): seq<seq<Byte>>
    decreases |s|
  {
    [s] + (match Decode(s)
           case Fail(_) => []
           case Read(_, n) => if 0 < n < |s| && |s| - n >= m then SuffixesFrom(s[n..], m) else [])
  }

  function Suffixes(s: seq<Byte>, minLength: nat): seq<seq<Byte>> { SuffixesFrom(s, Least(minLength, |s|)) }

  class UTF8SuffixBuilder {
    const buffer: seq<Byte>
    const minSuffixLen: nat
    var it: nat
    var pos: nat
    var error: bool

    predicate Valid()
      reads this
    {
      pos <= |buffer| && it == pos
    }

    constructor (buffer: seq<Byte>, minLength: nat)
      ensures Valid() && pos == 0 && !error
      ensures this.buffer == buffer && minSuffixLen == Least(minLength, |buffer|)
    {
      this.buffer, it, pos, error := buffer, 0, 0, false;
      minSuffixLen := if minLength > |buffer| then |buffer| else minLength;
    }

    method Next() returns (more: bool)
      requires Valid()
      modifies this
      ensures Valid()
      ensures old(error) ==> more && error && pos == old(pos)
      ensures !old(error) ==> var step := Decode(old(buffer[pos..]));
        && error == step.Fail?
        && pos == (if error then old(pos) else old(pos) + step.length)
        && (more <==> !error && pos < |buffer| && |buffer| - pos >= minSuffixLen)
    {
      if error {
        return error;
      }
      var step, next := ValidateNext(buffer, it);
      it := next;
      if step.Fail? {
        error := true;
        return false;
      }
      pos := it;
      return pos < |buffer| && |buffer| - pos >= minSuffixLen;
    }

    method Term() returns (t: seq<Byte>)
      requires Valid()
      ensures t == buffer[pos..]
    {
      t := buffer[pos..];
    }
  }

  /** The suffixes still to come when the builder stands at `pos`. */
  function Pending(term: seq<Byte>, pos: nat, m: nat, more: bool): seq<seq<Byte>>
    requires pos <= |term|
  {
    if more then SuffixesFrom(term[pos..], m) else []
  }

  /** The loop over a builder, as the index writer runs it. */
  method CollectSuffixes(term: seq<Byte>, minLength: nat) returns (out: seq<seq<Byte>>)
    ensures out == Suffixes(term, minLength)
  {
    var builder := new UTF8SuffixBuilder(term, minLength);
    out := [];
    var more := true;
    assert term[0..] == term;
    while more
      invariant builder.Valid() && fresh(builder) && (more ==> !builder.error)
      invariant builder.buffer == term && builder.minSuffixLen == Least(minLength, |term|)
      invariant out + Pending(term, builder.pos, builder.minSuffixLen, more) == Suffixes(term, minLength)
      decreases more, |term| - builder.pos
    {
      var t;
      t, more := TakeSuffix(builder);
      out := out + [t];
    }
  }

  /** One suffix taken from the builder, which moves on. */
  method TakeSuffix(builder: UTF8SuffixBuilder) returns (t: seq<Byte>, more: bool)
    requires builder.Valid() && !builder.error
    modifies builder
    ensures builder.Valid() && (more ==> !builder.error && builder.pos > old(builder.pos))
    ensures Pending(builder.buffer, old(builder.pos), builder.minSuffixLen, true)
         == [t] + Pending(builder.buffer, builder.pos, builder.minSuffixLen, more)
  {
    ghost var rest := builder.buffer[builder.pos..];
    t := builder.Term();
    DecodeLength(rest);
    more := builder.Next();
    assert more ==> rest[Decode(rest).length..] == builder.buffer[builder.pos..];
  }

  lemma DecodeLength(s: seq<Byte>)
    ensures Decode(s).Read? ==> 1 <= Decode(s).length <= 4 && Decode(s).length <= |s|
  {
    if Decode(s).Read? { TrailsPresent(s, 1, Decode(s).length); }
  }

  /** A suffix reached by whole code points, and long enough unless it is everything. */
  ghost predicate Reached(s: seq<Byte>, t: seq<Byte>, m: nat) {
    (t == s || (t != [] && |t| >= m)) && exists cps :: Splits(s, cps, t)
  }

  predicate Splits(s: seq<Byte>, cps: seq<nat>, t: seq<Byte>) {
    (forall i :: 0 <= i < |cps| ==> IsCodePointValid(cps[i])) && s == EncodeAll(cps) + t
  }

  /** Of any bytes, well formed or not, the builder yields exactly the suffixes that follow a whole
      number of code points and are long enough. */
  lemma SuffixesAreExact(s: seq<Byte>, minLength: nat, t: seq<Byte>)
    ensures t in Suffixes(s, minLength) <==> Reached(s, t, Least(minLength, |s|))
  {
    var m := Least(minLength, |s|);
    if t in Suffixes(s, minLength) { SuffixReached(s, m, t); }
    if Reached(s, t, m) {
      var cps :| Splits(s, cps, t);
      ReachedSuffix(s, m, cps, t);
    }
  }

  lemma {:induction false} SuffixReached(s: seq<Byte>, m: nat, t: seq<Byte>)
    requires t in SuffixesFrom(s, m)
    ensures Reached(s, t, m)
    decreases |s|
  {
    if t == s {
      assert Splits(s, [], t);
    } else {
      var step := Decode(s);
      var rest := s[step.length..];
      SuffixReached(rest, m, t);
      var cps :| Splits(rest, cps, t);
      SplitsCons(s, step.cp, step.length, cps, t);
    }
  }

  lemma SplitsCons(s: seq<Byte>, cp: nat, n: nat, cps: seq<nat>, t: seq<Byte>)
    requires Decode(s) == Read(cp, n) && n <= |s| && Splits(s[n..], cps, t)
    ensures Splits(s, [cp] + cps, t)
  {
    DecodeIsExact(s, cp, n);
    assert s == Encode(cp) + s[n..];
    assert ([cp] + cps)[1..] == cps;
  }

  lemma {:induction false} ReachedSuffix(s: seq<Byte>, m: nat, cps: seq<nat>, t: seq<Byte>)
    requires Splits(s, cps, t) && (t == s || (t != [] && |t| >= m))
    ensures t in SuffixesFrom(s, m)
    decreases |cps|
  {
    if cps != [] && t != s {
      var n := |Encode(cps[0])|;
      assert s == Encode(cps[0]) + (EncodeAll(cps[1..]) + t);
      DecodeIsExact(s, cps[0], n);
      assert s[n..] == EncodeAll(cps[1..]) + t;
      ReachedSuffix(s[n..], m, cps[1..], t);
    }
  }

  predicate AllValid(cps: seq<nat>) { forall i :: 0 <= i < |cps| ==> IsCodePointValid(cps[i]) }

  /** A well-formed term can only be split along its own code points. */
  lemma {:induction false} SplitsAlong(cps: seq<nat>, ds: seq<nat>, t: seq<Byte>)
    requires AllValid(cps) && Splits(EncodeAll(cps), ds, t)
    ensures |ds| <= |cps| && t == EncodeAll(cps[|ds|..])
    decreases |ds|
  {
    var s := EncodeAll(cps);
    if ds == [] {
      assert cps[0..] == cps;
    } else {
      var rest := EncodeAll(ds[1..]) + t;
      assert s == Encode(ds[0]) + rest;
      DecodeIsExact(s, ds[0], |Encode(ds[0])|);
      DecodeIsExact(s, cps[0], |Encode(cps[0])|);
      assert s[|Encode(cps[0])|..] == EncodeAll(cps[1..]) == rest;
      SplitsAlong(cps[1..], ds[1..], t);
      assert cps[1..][|ds| - 1..] == cps[|ds|..];
    }
  }

  lemma SplitAt(cps: seq<nat>, i: nat)
    requires AllValid(cps) && i <= |cps|
    ensures Splits(EncodeAll(cps), cps[..i], EncodeAll(cps[i..]))
  {
    EncodeAllConcat(cps[..i], cps[i..]);
    assert cps == cps[..i] + cps[i..];
  }

  lemma {:induction false} EncodeAllConcat(a: seq<nat>, b: seq<nat>)
    requires AllValid(a + b) && AllValid(a) && AllValid(b)
    ensures EncodeAll(a + b) == EncodeAll(a) + EncodeAll(b)
  {
    if a == [] {
      assert a + b == b;
    } else {
      assert (a + b)[1..] == a[1..] + b;
      EncodeAllConcat(a[1..], b);
    }
  }

  /** A well-formed term yields its suffixes that start at a code point and are long enough. */
  lemma WellFormedSuffixes(cps: seq<nat>, minLength: nat, t: seq<Byte>)
    requires AllValid(cps) && cps != [] && minLength > 0
    ensures t in Suffixes(EncodeAll(cps), minLength) <==>
      exists i :: 0 <= i < |cps| && t == EncodeAll(cps[i..]) && |t| >= Least(minLength, |EncodeAll(cps)|)
  {
    var s, m := EncodeAll(cps), Least(minLength, |EncodeAll(cps)|);
    SuffixesAreExact(s, minLength, t);
    assert |Encode(cps[0])| > 0;
    if Reached(s, t, m) {
      var ds :| Splits(s, ds, t);
      SplitsAlong(cps, ds, t);
      assert t != [] && |t| >= m;
    }
    if i :| 0 <= i < |cps| && t == EncodeAll(cps[i..]) && |t| >= m {
      SplitAt(cps, i);
      assert |Encode(cps[i..][0])| > 0;
      assert Splits(s, cps[..i], t);
    }
  }
}
