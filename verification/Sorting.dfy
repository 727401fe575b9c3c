/** The order of search results: a list of sort conditions over document fields. */
module Sorting {
  import opened Basics

  /** A field as the sorter sees it. */
  datatype FieldValue = Numeric(n: nat) | Text(s: seq<nat>) | OtherType

  datatype Doc = Doc(id: nat, fields: map<nat, FieldValue>)

  datatype Cond = Cond(field: nat, text: bool, desc: bool)

  /** The field a condition looks at, when the document has it with the right type. */
  function Look(c: Cond, d: Doc): Option<FieldValue> {
    if c.field in d.fields && (if c.text then d.fields[c.field].Text? else d.fields[c.field].Numeric?)
    then Some(d.fields[c.field]) else None
  }

  /** memcmp over the common length: negative, zero or positive. */
  function Memcmp(a: seq<nat>, b: seq<nat>): int {
    if a == [] || b == [] then 0
    else if a[0] != b[0] then a[0] - b[0]
    else Memcmp(a[1..], b[1..])
  }

  predicate TextGreater(a: seq<nat>, b: seq<nat>) {
    if Memcmp(a, b) == 0 then |a| > |b| else Memcmp(a, b) > 0
  }

  predicate InnerGreater(c: Cond, a: Doc, b: Doc) {
    var fa, fb := Look(c, a), Look(c, b);
    if fa.None? && fb.None? then a.id > b.id
    else if fa.None? then false
    else if fb.None? then true
    else if c.text then TextGreater(fa.value.s, fb.value.s)
    else fa.value.n > fb.value.n
  }

  predicate Greater(c: Cond, a: Doc, b: Doc) {
    if c.desc then InnerGreater(c, a, b) else !InnerGreater(c, a, b)
  }

  /** The sorter's comparison; without conditions, larger ids first. */
  predicate Before(conds: seq<Cond>, a: Doc, b: Doc) {
    if conds == [] then a.id > b.id
    else
      var c1 := Greater(conds[0], a, b);
      var c2 := Greater(conds[0], b, a);
      if c1 && c2 then Before(conds[1..], a, b) else c1
  }

  // ---------------------------------------------------------------------------
  // A strict weak order

  lemma {:induction false} TextGreaterByHead(a: seq<nat>, b: seq<nat>)
    ensures TextGreater(a, b) <==> a != [] && (b == [] || a[0] > b[0] || (a[0] == b[0] && TextGreater(a[1..], b[1..])))
  {
  }

  lemma {:induction false} TextGreaterIsStrict(a: seq<nat>, b: seq<nat>)
    ensures !(TextGreater(a, b) && TextGreater(b, a))
  {
    TextGreaterByHead(a, b);
    TextGreaterByHead(b, a);
    if a != [] && b != [] {
      TextGreaterIsStrict(a[1..], b[1..]);
    }
  }

  lemma {:induction false} TextGreaterSplits(a: seq<nat>, b: seq<nat>, c: seq<nat>)
    requires TextGreater(a, c)
    ensures TextGreater(a, b) || TextGreater(b, c)
  {
    TextGreaterByHead(a, b);
    TextGreaterByHead(b, c);
    TextGreaterByHead(a, c);
    if a != [] && b != [] && c != [] && a[0] == b[0] == c[0] {
      TextGreaterSplits(a[1..], b[1..], c[1..]);
    }
  }

  lemma InnerIsStrict(c: Cond, a: Doc, b: Doc)
    ensures !(InnerGreater(c, a, b) && InnerGreater(c, b, a))
  {
    if Look(c, a).Some? && Look(c, b).Some? && c.text {
      TextGreaterIsStrict(Look(c, a).value.s, Look(c, b).value.s);
    }
  }

  lemma InnerSplits(c: Cond, x: Doc, y: Doc, z: Doc)
    requires InnerGreater(c, x, z)
    ensures InnerGreater(c, x, y) || InnerGreater(c, y, z)
  {
    if Look(c, x).Some? && Look(c, y).Some? && Look(c, z).Some? && c.text {
      TextGreaterSplits(Look(c, x).value.s, Look(c, y).value.s, Look(c, z).value.s);
    }
  }

  /** No document comes before one that comes before it. */
  lemma {:induction false} BeforeIsStrict(conds: seq<Cond>, a: Doc, b: Doc)
    ensures !(Before(conds, a, b) && Before(conds, b, a))
  {
    if conds != [] {
      InnerIsStrict(conds[0], a, b);
      BeforeIsStrict(conds[1..], a, b);
    }
  }

  /** Not coming before is transitive: with BeforeIsStrict, a strict weak order, which is what the
      priority queue needs, for every list of conditions. */
  lemma {:induction false} BeforeSplits(conds: seq<Cond>, x: Doc, y: Doc, z: Doc)
    requires Before(conds, x, z)
    ensures Before(conds, x, y) || Before(conds, y, z)
  {
    if conds != [] {
      var c := conds[0];
      InnerIsStrict(c, x, y);
      InnerIsStrict(c, y, z);
      InnerIsStrict(c, x, z);
      if InnerGreater(c, x, z) { InnerSplits(c, x, y, z); }
      if InnerGreater(c, z, x) { InnerSplits(c, z, y, x); }
      if InnerGreater(c, x, y) { InnerSplits(c, x, z, y); }
      if InnerGreater(c, y, z) { InnerSplits(c, y, x, z); }
      if Before(conds[1..], x, z) { BeforeSplits(conds[1..], x, y, z); }
    }
  }

  // ---------------------------------------------------------------------------
  // What a condition says

  /** A document has the field of a condition, with the type the condition is for. */
  predicate Has(c: Cond, d: Doc) {
    c.field in d.fields && (if c.text then d.fields[c.field].Text? else d.fields[c.field].Numeric?)
  }

  /** A larger byte at the first difference, or a longer text where there is none. */
  ghost predicate TextAbove(a: seq<nat>, b: seq<nat>) {
    || (|b| < |a| && a[..|b|] == b)
    || (exists k :: 0 <= k < |a| && k < |b| && a[..k] == b[..k] && a[k] > b[k])
  }

  /** By the condition's field: documents that have it ahead of those that have not, larger values ahead
      of smaller ones, and larger ids ahead where neither has it. */
  ghost predicate Ahead(c: Cond, a: Doc, b: Doc) {
    if !Has(c, a) && !Has(c, b) then a.id > b.id
    else if Has(c, a) && Has(c, b) then
      if c.text then TextAbove(a.fields[c.field].s, b.fields[c.field].s) else a.fields[c.field].n > b.fields[c.field].n
    else Has(c, a)
  }

  lemma {:induction false} TextGreaterIsAbove(a: seq<nat>, b: seq<nat>)
    ensures TextGreater(a, b) <==> TextAbove(a, b)
  {
    TextGreaterByHead(a, b);
    if a != [] && b != [] {
      TextGreaterIsAbove(a[1..], b[1..]);
      TextAboveByHead(a, b);
    }
  }

  lemma TextAboveByHead(a: seq<nat>, b: seq<nat>)
    requires a != [] && b != []
    ensures TextAbove(a, b) <==> a[0] > b[0] || (a[0] == b[0] && TextAbove(a[1..], b[1..]))
  {
    var ra, rb := a[1..], b[1..];
    if |b| < |a| { SameFront(a, b, |b|); }
    if k :| 0 <= k < |a| && k < |b| && a[..k] == b[..k] && a[k] > b[k] && a[0] == b[0] {
      SameFront(a, b, k);
      assert ra[k - 1] > rb[k - 1];
    }
    if k :| 0 <= k < |ra| && k < |rb| && ra[..k] == rb[..k] && ra[k] > rb[k] && a[0] == b[0] {
      SameFront(a, b, k + 1);
      assert a[k + 1] > b[k + 1];
    }
    if k :| 0 < k < |a| && k < |b| && a[..k] == b[..k] && a[k] > b[k] { SameFront(a, b, k); }
    assert a[..0] == b[..0];
    assert b[..|b|] == b && rb[..|rb|] == rb;
  }

  lemma SameFront(a: seq<nat>, b: seq<nat>, k: nat)
    requires 0 < k <= |a| && k <= |b|
    ensures a[..k] == b[..k] <==> a[0] == b[0] && a[1..][..k - 1] == b[1..][..k - 1]
  {
    assert a[..k] == [a[0]] + a[1..][..k - 1] && b[..k] == [b[0]] + b[1..][..k - 1];
    if a[..k] == b[..k] { assert a[..k][1..] == b[..k][1..]; }
  }

  lemma InnerIsAhead(c: Cond, a: Doc, b: Doc)
    ensures InnerGreater(c, a, b) <==> Ahead(c, a, b)
  {
    if Has(c, a) && Has(c, b) && c.text {
      TextGreaterIsAbove(a.fields[c.field].s, b.fields[c.field].s);
    }
  }

  /** One condition, descending: a document with the field comes before one without; without it on both
      sides the larger id does; numbers compare by value, texts by their first different byte, then by
      length.  Ascending is the reverse in every respect, and then larger ids first. */
  lemma OneCondition(c: Cond, a: Doc, b: Doc)
    ensures var first, second := if c.desc then a else b, if c.desc then b else a;
            var has1 := c.field in first.fields &&
              (if c.text then first.fields[c.field].Text? else first.fields[c.field].Numeric?);
            var has2 := c.field in second.fields &&
              (if c.text then second.fields[c.field].Text? else second.fields[c.field].Numeric?);
      && (has1 && !has2 ==> Before([c], a, b))
      && (!has1 && has2 ==> !Before([c], a, b))
      && (!has1 && !has2 ==> (Before([c], a, b) <==> first.id > second.id))
      && (has1 && has2 && !c.text ==> var x, y := first.fields[c.field].n, second.fields[c.field].n;
            (Before([c], a, b) <==> x > y || (x == y && !c.desc && a.id > b.id)))
      && (has1 && has2 && c.text ==> var x, y := first.fields[c.field].s, second.fields[c.field].s;
            (Before([c], a, b) <==>
              || (|y| < |x| && x[..|y|] == y)
              || (exists k :: 0 <= k < |x| && k < |y| && x[..k] == y[..k] && x[k] > y[k])
              || (x == y && !c.desc && a.id > b.id)))
  {
    assert [c][1..] == [];
    InnerIsAhead(c, a, b);
    InnerIsAhead(c, b, a);
    InnerIsStrict(c, a, b);
    if Has(c, a) && Has(c, b) && c.text {
      TextTied(a.fields[c.field].s, b.fields[c.field].s);
    }
  }

  /** Texts tie only when they are the same. */
  lemma {:induction false} TextTied(a: seq<nat>, b: seq<nat>)
    ensures !TextGreater(a, b) && !TextGreater(b, a) <==> a == b
  {
    TextGreaterByHead(a, b);
    TextGreaterByHead(b, a);
    if a != [] && b != [] {
      TextTied(a[1..], b[1..]);
      assert a == [a[0]] + a[1..] && b == [b[0]] + b[1..];
    }
  }

  // ---------------------------------------------------------------------------
  // Not a full lexicographic order

  ghost predicate Tied(c: Cond, a: Doc, b: Doc) { !Ahead(c, a, b) && !Ahead(c, b, a) }

  /** Every condition in turn, each in its direction, then larger ids first. */
  ghost predicate Lexicographic(conds: seq<Cond>, a: Doc, b: Doc) {
    if conds == [] then a.id > b.id
    else if Tied(conds[0], a, b) then Lexicographic(conds[1..], a, b)
    else if conds[0].desc then Ahead(conds[0], a, b)
    else Ahead(conds[0], b, a)
  }

  /** Some descending condition ties, and so do all conditions ahead of it. */
  ghost predicate TiedAtDesc(conds: seq<Cond>, a: Doc, b: Doc) {
    conds != [] && Tied(conds[0], a, b) && (conds[0].desc || TiedAtDesc(conds[1..], a, b))
  }

  lemma {:induction false} TieAtDescStops(conds: seq<Cond>, a: Doc, b: Doc)
    ensures Before(conds, a, b) <==> !TiedAtDesc(conds, a, b) && Lexicographic(conds, a, b)
  {
    if conds != [] {
      InnerIsStrict(conds[0], a, b);
      InnerIsAhead(conds[0], a, b);
      InnerIsAhead(conds[0], b, a);
      TieAtDescStops(conds[1..], a, b);
    }
  }

  lemma {:induction false} LexicographicIsTotal(conds: seq<Cond>, a: Doc, b: Doc)
    requires a.id != b.id
    ensures Lexicographic(conds, a, b) <==> !Lexicographic(conds, b, a)
  {
    if conds != [] {
      InnerIsStrict(conds[0], a, b);
      InnerIsAhead(conds[0], a, b);
      InnerIsAhead(conds[0], b, a);
      LexicographicIsTotal(conds[1..], a, b);
    }
  }

  /** The sorter orders two documents as all its conditions say exactly when no descending condition
      is reached with a tie: a tie there ends the comparison. */
  lemma BeforeIsLexicographicUnless(conds: seq<Cond>, a: Doc, b: Doc)
    requires a.id != b.id
    ensures (Before(conds, a, b) == Lexicographic(conds, a, b) && Before(conds, b, a) == Lexicographic(conds, b, a))
       <==> !TiedAtDesc(conds, a, b)
  {
    TieAtDescStops(conds, a, b);
    TieAtDescStops(conds, b, a);
    TiedAtDescSymmetric(conds, a, b);
    LexicographicIsTotal(conds, a, b);
  }

  lemma {:induction false} TiedAtDescSymmetric(conds: seq<Cond>, a: Doc, b: Doc)
    ensures TiedAtDesc(conds, a, b) <==> TiedAtDesc(conds, b, a)
  {
    if conds != [] {
      TiedAtDescSymmetric(conds[1..], a, b);
    }
  }

  /** Two descending conditions: a tie on the first leaves the second unread. */
  lemma SecondDescIgnored()
    ensures var conds := [Cond(1, false, true), Cond(2, false, true)];
            var a := Doc(1, map[1 := Numeric(7), 2 := Numeric(9)]);
            var b := Doc(2, map[1 := Numeric(7), 2 := Numeric(3)]);
            !Before(conds, a, b) && !Before(conds, b, a) && Lexicographic(conds, a, b)
  {
    var conds := [Cond(1, false, true), Cond(2, false, true)];
    assert conds[1..] == [Cond(2, false, true)];
  }
}
