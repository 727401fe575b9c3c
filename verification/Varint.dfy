/** Variable-length integers: seven bits a byte, low bits first, the top bit set on all but the last.
    Bit operations are written as arithmetic: `x | 128` on a byte's low seven bits is `x % 128 + 128`,
    and or-ing a shifted byte above the bits already set is adding it. */
module Varint {
  import opened Basics

  const TWO_32 := 0x1_0000_0000
  const TWO_64 := 0x1_0000_0000_0000_0000

  function Pow2(n: nat): (p: nat)
    ensures p > 0
  {
    if n == 0 then 1 else 2 * Pow2(n - 1)
  }

  /** The code of v. */
  function Code(v: nat): seq<Byte> {
    if v < 128 then [v] else [v % 128 + 128] + Code(v / 128)
  }

  /** All bytes of a code but the last have the top bit set. */
  lemma {:induction false} TopBits(v: nat)
    ensures var s := Code(v); |s| > 0 && forall i :: 0 <= i < |s| ==> (s[i] >= 128 <==> i < |s| - 1)
  {
    if v >= 128 {
      TopBits(v / 128);
      assert forall i :: 0 < i < |Code(v)| ==> Code(v)[i] == Code(v / 128)[i - 1];
    }
  }

  /** Low bits come first. */
  lemma KnownCodes()
    ensures Code(127) == [127] && Code(128) == [128, 1] && Code(300) == [172, 2]
    ensures Code(0xFFFF_FFFF) == [255, 255, 255, 255, 15]
  {
    assert Code(0xFFFF_FFFF) == [255] + Code(0x1FF_FFFF) && Code(0x1FF_FFFF) == [255] + Code(0x3_FFFF);
    assert Code(0x3_FFFF) == [255] + Code(0x7FF) && Code(0x7FF) == [255] + Code(15);
  }

  function More(v: nat): Byte { v % 128 + 128 }

  /** One branch for each length. */
  function EncodeVarint32(v: nat): seq<Byte>
    requires v < TWO_32
  {
    if v < 128 then [v]
    else if v < 16384 then [More(v), v / 128]
    else if v < 2097152 then [More(v), More(v / 128), v / 16384]
    else if v < 268435456 then [More(v), More(v / 128), More(v / 16384), v / 2097152]
    else [More(v), More(v / 128), More(v / 16384), More(v / 2097152), v / 268435456]
  }

  lemma EncodeVarint32IsCode(v: nat)
    requires v < TWO_32
    ensures EncodeVarint32(v) == Code(v) && |Code(v)| <= 5
  {
    var a, b, c, d := v / 128, v / 16384, v / 2097152, v / 268435456;
    assert a / 128 == b && b / 128 == c && c / 128 == d;
    assert v >= 128 ==> Code(v) == [More(v)] + Code(a);
    assert a >= 128 ==> Code(a) == [More(a)] + Code(b);
    assert b >= 128 ==> Code(b) == [More(b)] + Code(c);
    assert c >= 128 ==> Code(c) == [More(c)] + Code(d);
  }

  method PutVarint32(v: nat) returns (s: seq<Byte>)
    requires v < TWO_32
    ensures s == Code(v) && |s| <= 5
  {
    EncodeVarint32IsCode(v);
    s := EncodeVarint32(v);
  }

  method EncodeVarint64(v: nat) returns (s: seq<Byte>)
    requires v < TWO_64
    ensures s == Code(v) && |s| <= 10
  {
    s := [];
    var rest := v;
    while rest >= 128
      invariant s + Code(rest) == Code(v)
    {
      s := s + [rest % 128 + 128];
      rest := rest / 128;
    }
    s := s + [rest];
    CodeFits(v);
  }

  lemma {:induction false} CodeLength(v: nat, n: nat)
    requires v < Pow2(7 * n) && n > 0
    ensures |Code(v)| <= n
  {
    Pow2Add7(7 * (n - 1));
    if v >= 128 {
      CodeLength(v / 128, n - 1);
    }
  }

  lemma Pow2Add7(n: nat)
    ensures Pow2(n + 7) == 128 * Pow2(n)
  {
    assert Pow2(n + 7) == 2 * Pow2(n + 6) == 4 * Pow2(n + 5) == 8 * Pow2(n + 4);
    assert Pow2(n + 4) == 2 * Pow2(n + 3) == 4 * Pow2(n + 2) == 8 * Pow2(n + 1) == 16 * Pow2(n);
  }

  lemma CodeFits(v: nat)
    requires v < TWO_64
    ensures |Code(v)| <= 10
  {
    Pow2Known();
    Pow2Grows(64, 70);
    CodeLength(v, 10);
  }

  lemma Pow2Of28()
    ensures Pow2(28) == 0x1000_0000
  {
    Pow2Add7(0); Pow2Add7(7); Pow2Add7(14); Pow2Add7(21);
  }

  lemma Pow2Of56()
    ensures Pow2(56) == 0x100_0000_0000_0000
  {
    Pow2Of28();
    Pow2Add7(28); Pow2Add7(35); Pow2Add7(42); Pow2Add7(49);
  }

  lemma Pow2Known()
    ensures Pow2(32) == TWO_32 && Pow2(64) == TWO_64
  {
    Pow2Of28();
    assert Pow2(32) == 2 * Pow2(31) == 4 * Pow2(30) == 8 * Pow2(29) == 16 * Pow2(28);
    Pow2Of56();
    Pow2Add7(56);
    assert Pow2(64) == 2 * Pow2(63);
  }

  lemma {:induction false} Pow2Grows(a: nat, b: nat)
    requires a <= b
    ensures Pow2(a) <= Pow2(b)
  {
    if a < b { Pow2Grows(a, b - 1); }
  }

  // ---------------------------------------------------------------------------
  // Decoding

  /** x shifted left by n bits. */
  function Shl(x: nat, n: nat): nat {
    if n == 0 then x else 2 * Shl(x, n - 1)
  }

  /** The low `bits` bits of x. */
  function LowBits(x: nat, bits: nat): nat {
    if bits == 0 then 0 else x % 2 + 2 * LowBits(x / 2, bits - 1)
  }

  /** What a byte contributes at a shift, in `bits`-bit arithmetic. */
  function Part(b: Byte, shift: nat, bits: nat): nat { LowBits(Shl(b % 128, shift), bits) }

  /** Reads a code from position `shift` on, into `result`, in `bits`-bit arithmetic: the value and
      what follows, or nothing if the bytes or the width run out. */
  function Read(s: seq<Byte>, shift: nat, result: nat, bits: nat): Option<(nat, seq<Byte>)> {
    if shift >= bits || s == [] then None
    else
      var r := result + Part(s[0], shift, bits);
      if s[0] >= 128 then Read(s[1..], shift + 7, r, bits) else Some((r, s[1..]))
  }

  lemma {:induction false} ShlIsTimes(x: nat, n: nat)
    ensures Shl(x, n) == x * Pow2(n)
  {
    if n > 0 {
      ShlIsTimes(x, n - 1);
      assert 2 * (x * Pow2(n - 1)) == x * (2 * Pow2(n - 1));
    }
  }

  lemma {:induction false} LowBitsIsRemainder(x: nat, bits: nat)
    ensures LowBits(x, bits) == x % Pow2(bits)
  {
    if bits > 0 {
      LowBitsIsRemainder(x / 2, bits - 1);
      RemainderOfDouble(x, Pow2(bits - 1));
    }
  }

  lemma RemainderOfDouble(x: nat, p: nat)
    requires p > 0
    ensures x % (2 * p) == x % 2 + 2 * (x / 2 % p)
  {
    var q, r := x / 2 / p, x / 2 % p;
    assert x == 2 * (q * p + r) + x % 2;
    assert x == q * (2 * p) + (2 * r + x % 2) by { assert 2 * (q * p) == q * (2 * p); }
    RemainderIs(x, 2 * p, q, 2 * r + x % 2);
  }

  lemma RemainderIs(x: nat, d: nat, q: nat, r: nat)
    requires r < d && x == q * d + r
    ensures x % d == r
  {
    SameQuotient(q, r, x / d, x % d, d);
  }

  lemma {:induction false} SameQuotient(q: nat, r: nat, k: nat, s: nat, d: nat)
    requires r < d && s < d && q * d + r == k * d + s
    ensures r == s
  {
    if q > 0 && k > 0 {
      assert q * d == (q - 1) * d + d && k * d == (k - 1) * d + d;
      SameQuotient(q - 1, r, k - 1, s, d);
    } else if q > 0 {
      assert q * d == (q - 1) * d + d;
    } else if k > 0 {
      assert k * d == (k - 1) * d + d;
    }
  }

  /** A byte contributes its low seven bits, moved up by the shift, as far as the width holds them. */
  lemma PartMeans(b: Byte, shift: nat, bits: nat)
    ensures Part(b, shift, bits) == b % 128 * Pow2(shift) % Pow2(bits)
  {
    ShlIsTimes(b % 128, shift);
    LowBitsIsRemainder(Shl(b % 128, shift), bits);
  }

  /** Nothing is read exactly if no byte that the width leaves room for ends the code; otherwise what
      follows is what comes after the first that does. */
  lemma {:induction false} ReadEnds(s: seq<Byte>, shift: nat, result: nat, bits: nat)
    ensures Read(s, shift, result, bits).None? <==> forall i :: 0 <= i < |s| && shift + 7 * i < bits ==> s[i] >= 128
    ensures Read(s, shift, result, bits).Some? ==>
      exists i :: 0 <= i < |s| && s[i] < 128 && (forall j :: 0 <= j < i ==> s[j] >= 128)
                  && Read(s, shift, result, bits).value.1 == s[i + 1..]
  {
    if shift < bits && s != [] {
      if s[0] >= 128 {
        var r := result + Part(s[0], shift, bits);
        ReadEnds(s[1..], shift + 7, r, bits);
        assert forall i :: 0 <= i < |s| - 1 ==> s[1..][i] == s[i + 1];
        if Read(s[1..], shift + 7, r, bits).Some? {
          var i :| 0 <= i < |s[1..]| && s[1..][i] < 128 && (forall j :: 0 <= j < i ==> s[1..][j] >= 128)
            && Read(s[1..], shift + 7, r, bits).value.1 == s[1..][i + 1..];
          assert s[i + 1] < 128 && s[1..][i + 1..] == s[i + 2..];
          forall j | 0 <= j < i + 1 ensures s[j] >= 128 {
            assert j > 0 ==> s[1..][j - 1] >= 128;
          }
        } else {
          forall i | 0 <= i < |s| && shift + 7 * i < bits ensures s[i] >= 128 {
            assert i > 0 ==> s[1..][i - 1] >= 128;
          }
        }
      } else {
        assert shift + 7 * 0 < bits;
      }
    }
  }

  /** Reading a code gives back the value, whatever follows. */
  lemma {:induction false} ReadCode(v: nat, tail: seq<Byte>, shift: nat, result: nat, bits: nat)
    requires Shl(v, shift) < Pow2(bits) && shift < bits
    ensures Read(Code(v) + tail, shift, result, bits) == Some((result + Shl(v, shift), tail))
    decreases v
  {
    if v < 128 {
      LowBitsSmall(Shl(v, shift), bits);
      ReadFrom(v, tail, shift, result, bits);
    } else {
      var q, r := v / 128, v % 128;
      ShlSplits(v, shift, bits);
      ReadCode(q, tail, shift + 7, result + Shl(r, shift), bits);
      ReadFrom(128 + r, Code(q) + tail, shift, result, bits);
      assert Code(v) + tail == [128 + r] + (Code(q) + tail);
    }
  }

  lemma ReadFrom(b: Byte, rest: seq<Byte>, shift: nat, result: nat, bits: nat)
    requires shift < bits
    ensures var r := result + Part(b, shift, bits);
      Read([b] + rest, shift, result, bits) == if b >= 128 then Read(rest, shift + 7, r, bits) else Some((r, rest))
  {
    assert ([b] + rest)[1..] == rest;
  }

  lemma ReadNext(s: seq<Byte>, p: nat, shift: nat, result: nat, bits: nat)
    requires p < |s| && shift < bits
    ensures var r := result + Part(s[p], shift, bits);
      Read(s[p..], shift, result, bits)
      == if s[p] >= 128 then Read(s[p + 1..], shift + 7, r, bits) else Some((r, s[p + 1..]))
  {
    assert s[p..][0] == s[p] && s[p..][1..] == s[p + 1..];
  }

  /** Seven bits of a shifted value, and the rest seven places on. */
  lemma ShlSplits(v: nat, shift: nat, bits: nat)
    requires Shl(v, shift) < Pow2(bits) && v >= 128
    ensures Shl(v, shift) == Shl(v % 128, shift) + Shl(v / 128, shift + 7)
    ensures LowBits(Shl(v % 128, shift), bits) == Shl(v % 128, shift) && shift + 7 < bits
  {
    var q, r := v / 128, v % 128;
    ShlAdd(128 * q, r, shift);
    ShlSeven(q, shift);
    LowBitsSmall(Shl(r, shift), bits);
    ShlFits(q, shift + 7, bits);
  }

  lemma {:induction false} LowBitsSmall(x: nat, bits: nat)
    requires x < Pow2(bits)
    ensures LowBits(x, bits) == x
  {
    if bits > 0 { LowBitsSmall(x / 2, bits - 1); }
  }

  lemma {:induction false} ShlAdd(a: nat, b: nat, n: nat)
    ensures Shl(a + b, n) == Shl(a, n) + Shl(b, n)
  {
    if n > 0 { ShlAdd(a, b, n - 1); }
  }

  lemma {:induction false} ShlSeven(q: nat, n: nat)
    ensures Shl(128 * q, n) == Shl(q, n + 7)
  {
    if n > 0 {
      ShlSeven(q, n - 1);
    } else {
      assert Shl(q, 7) == 2 * Shl(q, 6) == 4 * Shl(q, 5) == 8 * Shl(q, 4);
      assert Shl(q, 4) == 2 * Shl(q, 3) == 4 * Shl(q, 2) == 8 * Shl(q, 1) == 16 * q;
    }
  }

  /** A shift of something positive that fits is within the width. */
  lemma {:induction false} ShlFits(q: nat, n: nat, bits: nat)
    requires q > 0 && Shl(q, n) < Pow2(bits)
    ensures n < bits
    decreases n
  {
    if n > 0 {
      if bits == 0 {
        ShlPositive(q, n);
      } else {
        ShlFits(q, n - 1, bits - 1);
      }
    }
  }

  lemma {:induction false} ShlPositive(q: nat, n: nat)
    requires q > 0
    ensures Shl(q, n) > 0
  {
    if n > 0 { ShlPositive(q, n - 1); }
  }

  /** The two widths in use, 32 and 64 bits. */
  predicate Fits(v: nat, bits: nat) {
    if bits == 32 then v < TWO_32 else bits == 64 && v < TWO_64
  }

  lemma FitsPow2(v: nat, bits: nat)
    requires Fits(v, bits)
    ensures v < Pow2(bits)
  {
    Pow2Known();
  }

  lemma RoundTrip(v: nat, tail: seq<Byte>, bits: nat)
    requires Fits(v, bits)
    ensures Read(Code(v) + tail, 0, 0, bits) == Some((v, tail))
  {
    FitsPow2(v, bits);
    ReadCode(v, tail, 0, 0, bits);
  }

  /** A first byte without the top bit is the value. */
  lemma ReadShort(s: seq<Byte>, bits: nat)
    requires s != [] && s[0] < 128 && bits > 6
    ensures Read(s, 0, 0, bits) == Some((s[0], s[1..]))
  {
    Pow2Add7(0);
    Pow2Grows(7, bits);
    LowBitsSmall(s[0], bits);
  }

  predicate LastShift(last: nat, bits: nat) { (last == 63 && bits == 64) || (last == 28 && bits == 32) }

  /** Past the last usable shift, or the last byte, there is nothing to read. */
  lemma ReadOver(s: seq<Byte>, p: nat, last: nat, result: nat, bits: nat)
    requires LastShift(last, bits) && p <= |s| && (7 * p > last || p == |s|)
    ensures Read(s[p..], 7 * p, result, bits) == None
  {
    if last == 63 { assert p < |s| ==> p >= 10; }
    if last == 28 { assert p < |s| ==> p >= 5; }
  }

  /** Reads at most as many bytes as the width holds; `last` is the last usable shift. */
  method GetVarint(s: seq<Byte>, last: nat, bits: nat) returns (r: Option<(nat, seq<Byte>)>)
    requires LastShift(last, bits)
    ensures r == Read(s, 0, 0, bits)
  {
    var result: nat, shift: nat, p: nat := 0, 0, 0;
    while shift <= last && p < |s|
      invariant p <= |s| && shift == 7 * p && s[0..] == s
      invariant Read(s[p..], shift, result, bits) == Read(s, 0, 0, bits)
    {
      var byte := s[p];
      ReadNext(s, p, shift, result, bits);
      result := result + Part(byte, shift, bits);
      if byte < 128 {
        return Some((result, s[p + 1..]));
      }
      p, shift := p + 1, shift + 7;
    }
    ReadOver(s, p, last, result, bits);
    return None;
  }

  /** A single-byte code is taken as it is; anything else goes through the loop. */
  method GetVarint32(s: seq<Byte>) returns (r: Option<(nat, seq<Byte>)>)
    ensures r == Read(s, 0, 0, 32)
  {
    if |s| > 0 && s[0] < 128 {
      ReadShort(s, 32);
      return Some((s[0], s[1..]));
    }
    r := GetVarint(s, 28, 32);
  }

  method GetVarint64(s: seq<Byte>) returns (r: Option<(nat, seq<Byte>)>)
    ensures r == Read(s, 0, 0, 64)
  {
    r := GetVarint(s, 63, 64);
  }
}
