/** Walking the rows of one column in key order: a prefix query's scan, a paged scan of a table, and the
    paged removal of one. */
module Scan {
  import opened Basics
  import opened Keys

  datatype Row = Row(key: Key, value: seq<Byte>) {
    function Size(): nat { |key| + |value| }
  }

  predicate InOrder(rows: seq<Row>, i: nat, j: nat)
    requires i < |rows| && j < |rows|
  {
    Less(rows[i].key, rows[j].key)
  }

  predicate Sorted(rows: seq<Row>) { forall i, j :: 0 <= i < j < |rows| ==> InOrder(rows, i, j) }

  function SeekFrom(rows: seq<Row>, k: Key, i: nat): (n: nat)
    requires i <= |rows|
    ensures i <= n <= |rows|
    decreases |rows| - i
  {
    if i < |rows| && Less(rows[i].key, k) then SeekFrom(rows, k, i + 1) else i
  }

  /** Where an iterator stands after seeking a key: the first row not below it. */
  function Seek(rows: seq<Row>, k: Key): (n: nat)
    ensures n <= |rows|
  {
    SeekFrom(rows, k, 0)
  }

  lemma {:induction false} SeekFromAt(rows: seq<Row>, k: Key, i: nat)
    requires i <= |rows|
    ensures forall j :: i <= j < SeekFrom(rows, k, i) ==> Less(rows[j].key, k)
    ensures SeekFrom(rows, k, i) < |rows| ==> !Less(rows[SeekFrom(rows, k, i)].key, k)
    decreases |rows| - i
  {
    if i < |rows| && Less(rows[i].key, k) { SeekFromAt(rows, k, i + 1); }
  }

  lemma SeekSplits(rows: seq<Row>, k: Key)
    requires Sorted(rows)
    ensures forall i :: 0 <= i < |rows| ==> (Less(rows[i].key, k) <==> i < Seek(rows, k))
  {
    SeekFromAt(rows, k, 0);
    var n := Seek(rows, k);
    forall i | n < i < |rows| ensures !Less(rows[i].key, k) {
      assert InOrder(rows, n, i);
      if Less(rows[i].key, k) { LessChains(rows[n].key, rows[i].key, k); }
    }
  }

  function BlockEnd(rows: seq<Row>, prefix: Key, i: nat): (n: nat)
    requires i <= |rows|
    ensures i <= n <= |rows|
    decreases |rows| - i
  {
    if i < |rows| && prefix <= rows[i].key then BlockEnd(rows, prefix, i + 1) else i
  }

  function Lo(rows: seq<Row>, prefix: Key): nat { Seek(rows, prefix) }

  function Hi(rows: seq<Row>, prefix: Key): (n: nat)
    ensures Lo(rows, prefix) <= n <= |rows|
  {
    BlockEnd(rows, prefix, Lo(rows, prefix))
  }

  lemma {:induction false} ExtensionNotBelow(prefix: Key, k: Key)
    requires prefix <= k
    ensures !Less(k, prefix)
  {
    if prefix != [] { ExtensionNotBelow(prefix[1..], k[1..]); }
  }

  /** A key between a prefix and an extension of it extends it too. */
  lemma {:induction false} Between(prefix: Key, k: Key, later: Key)
    requires prefix <= later && !Less(k, prefix) && Less(k, later)
    ensures prefix <= k
  {
    if prefix != [] {
      Between(prefix[1..], k[1..], later[1..]);
      assert k == [k[0]] + k[1..] && prefix == [prefix[0]] + prefix[1..];
    }
  }

  lemma {:induction false} BlockEndAt(rows: seq<Row>, prefix: Key, i: nat)
    requires i <= |rows|
    ensures var n := BlockEnd(rows, prefix, i);
      (forall j :: i <= j < n ==> prefix <= rows[j].key) && (n < |rows| ==> !(prefix <= rows[n].key))
    decreases |rows| - i
  {
    if i < |rows| && prefix <= rows[i].key { BlockEndAt(rows, prefix, i + 1); }
  }

  /** The rows that extend a prefix are one block, beginning where seeking the prefix leads. */
  lemma BlockExact(rows: seq<Row>, prefix: Key)
    requires Sorted(rows)
    ensures forall i :: 0 <= i < |rows| ==> (prefix <= rows[i].key <==> Lo(rows, prefix) <= i < Hi(rows, prefix))
  {
    var lo, hi := Lo(rows, prefix), Hi(rows, prefix);
    SeekSplits(rows, prefix);
    BlockEndAt(rows, prefix, lo);
    forall i | 0 <= i < |rows| ensures prefix <= rows[i].key <==> lo <= i < hi {
      if prefix <= rows[i].key {
        ExtensionNotBelow(prefix, rows[i].key);
        if hi < i {
          assert InOrder(rows, hi, i);
          Between(prefix, rows[hi].key, rows[i].key);
        }
      }
    }
  }

  // ---------------------------------------------------------------------------
  // The scan of a prefix query

  function SumSizes(rows: seq<Row>): nat {
    if rows == [] then 0 else SumSizes(rows[..|rows| - 1]) + |rows[|rows| - 1].value|
  }

  lemma {:induction false} SumGrows(rows: seq<Row>, i: nat)
    requires i <= |rows|
    ensures SumSizes(rows[..i]) <= SumSizes(rows)
  {
    if i < |rows| {
      SumGrows(rows[..|rows| - 1], i);
      assert rows[..|rows| - 1][..i] == rows[..i];
    } else {
      assert rows[..i] == rows;
    }
  }

  /** The rows that extend a prefix. */
  function Block(rows: seq<Row>, prefix: Key): seq<Row> { rows[Lo(rows, prefix)..Hi(rows, prefix)] }

  /** How many of the rows are taken, once n are: until their sizes reach the limit. */
  function Taken(block: seq<Row>, maxSize: nat, n: nat): (m: nat)
    requires n <= |block|
    ensures n <= m <= |block|
    decreases |block| - n
  {
    if n == |block| || SumSizes(block[..n]) >= maxSize then n else Taken(block, maxSize, n + 1)
  }

  /** The rows a prefix query's scan gets to see. */
  function Found(rows: seq<Row>, prefix: Key, maxSize: nat): seq<Row> {
    Block(rows, prefix)[..Taken(Block(rows, prefix), maxSize, 0)]
  }

  /** The scan reports the limit when it stands on a row, of the prefix or not, with the limit reached. */
  predicate Limited(rows: seq<Row>, prefix: Key, maxSize: nat) {
    Lo(rows, prefix) + |Found(rows, prefix, maxSize)| < |rows| && SumSizes(Found(rows, prefix, maxSize)) >= maxSize
  }

  lemma {:induction false} TakenStops(block: seq<Row>, maxSize: nat, n: nat)
    requires n <= |block|
    ensures var m := Taken(block, maxSize, n);
      && (m < |block| ==> SumSizes(block[..m]) >= maxSize)
      && (m > n ==> SumSizes(block[..m - 1]) < maxSize)
    decreases |block| - n
  {
    if n < |block| && SumSizes(block[..n]) < maxSize { TakenStops(block, maxSize, n + 1); }
  }

  lemma CutExactly(block: seq<Row>, n: nat, maxSize: nat)
    requires n <= |block| && (n < |block| ==> SumSizes(block[..n]) >= maxSize)
    requires n > 0 ==> SumSizes(block[..n - 1]) < maxSize
    ensures n == |block| <==> block == [] || SumSizes(block[..|block| - 1]) < maxSize
  {
    if n < |block| {
      SumGrows(block[..|block| - 1], n);
      assert block[..|block| - 1][..n] == block[..n];
    }
  }

  /** The scan finds every row that extends the prefix exactly when the sizes of those before the last
      stay below the limit, and never misses one without reporting the limit. */
  lemma FoundExact(rows: seq<Row>, prefix: Key, maxSize: nat)
    requires Sorted(rows)
    ensures var block := Block(rows, prefix);
      Found(rows, prefix, maxSize) == block <==> block == [] || SumSizes(block[..|block| - 1]) < maxSize
    ensures Found(rows, prefix, maxSize) != Block(rows, prefix) ==> Limited(rows, prefix, maxSize)
  {
    var block, found := Block(rows, prefix), Found(rows, prefix, maxSize);
    TakenStops(block, maxSize, 0);
    CutExactly(block, |found|, maxSize);
    if |found| == |block| { assert block[..|found|] == block; }
  }

  /** The size of rows is that of their values, together. */
  lemma {:induction false} SumSizesMeans(a: seq<Row>, r: Row, b: seq<Row>)
    ensures SumSizes([]) == 0 && SumSizes([r]) == |r.value| && SumSizes(a + b) == SumSizes(a) + SumSizes(b)
  {
    assert [r][..0] == [];
    if b == [] {
      assert a + b == a;
    } else {
      assert (a + b)[..|a + b| - 1] == a + b[..|b| - 1];
      SumSizesMeans(a, r, b[..|b| - 1]);
    }
  }

  /** All the rows taken but the last leave the sizes below the limit. */
  lemma TakenBelow(block: seq<Row>, maxSize: nat, m: nat, i: nat)
    requires m == Taken(block, maxSize, 0) && i < m
    ensures SumSizes(block[..m][..i]) < maxSize
  {
    TakenStops(block, maxSize, 0);
    assert block[..m][..i] == block[..m - 1][..i];
    SumGrows(block[..m - 1], i);
  }

  lemma FoundEnds(rows: seq<Row>, prefix: Key, maxSize: nat)
    requires Sorted(rows)
    ensures var found, lo := Found(rows, prefix, maxSize), Lo(rows, prefix);
      var end := lo + |found|;
      && end <= |rows| && found == rows[lo..end] && (forall i :: 0 <= i < |found| ==> prefix <= found[i].key)
      && (end < |rows| ==> !(prefix <= rows[end].key) || SumSizes(found) >= maxSize)
  {
    BlockIsBlock(rows, prefix);
    TakenStops(Block(rows, prefix), maxSize, 0);
  }

  /** The rows found follow those below the prefix, one after another, and extend it; each was taken with
      the sizes before it below the limit.  They end at the last row, or before one that does not extend
      the prefix, or with the limit reached, which is reported if any row follows. */
  lemma FoundMeans(rows: seq<Row>, prefix: Key, maxSize: nat)
    requires Sorted(rows)
    ensures forall i :: 0 <= i < |rows| ==> (Less(rows[i].key, prefix) <==> i < Lo(rows, prefix))
    ensures var found, lo := Found(rows, prefix, maxSize), Lo(rows, prefix);
      var end := lo + |found|;
      && end <= |rows| && found == rows[lo..end]
      && (forall i :: 0 <= i < |found| ==> prefix <= found[i].key && SumSizes(found[..i]) < maxSize)
      && (end < |rows| ==> !(prefix <= rows[end].key) || SumSizes(found) >= maxSize)
      && (Limited(rows, prefix, maxSize) <==> end < |rows| && SumSizes(found) >= maxSize)
  {
    var found := Found(rows, prefix, maxSize);
    SeekSplits(rows, prefix);
    FoundEnds(rows, prefix, maxSize);
    forall i | 0 <= i < |found| ensures SumSizes(found[..i]) < maxSize {
      TakenBelow(Block(rows, prefix), maxSize, |found|, i);
    }
  }

  /** Takes the rows that extend the prefix until their sizes reach the limit. */
  method CollectPrefix(rows: seq<Row>, prefix: Key, maxSize: nat) returns (found: seq<Row>, limited: bool)
    requires Sorted(rows)
    ensures found == Found(rows, prefix, maxSize) && (limited <==> Limited(rows, prefix, maxSize))
  {
    BlockIsBlock(rows, prefix);
    found, limited := TakeBlock(rows, prefix, Block(rows, prefix), maxSize);
  }

  /** The block begins at `first`, extends the prefix, and is followed by nothing that does. */
  predicate IsBlock(rows: seq<Row>, prefix: Key, first: nat, block: seq<Row>) {
    && first + |block| <= |rows| && block == rows[first..first + |block|]
    && (forall i :: 0 <= i < |block| ==> prefix <= block[i].key)
    && (first + |block| < |rows| ==> !(prefix <= rows[first + |block|].key))
  }

  lemma BlockIsBlock(rows: seq<Row>, prefix: Key)
    requires Sorted(rows)
    ensures IsBlock(rows, prefix, Lo(rows, prefix), Block(rows, prefix))
  {
    BlockExact(rows, prefix);
  }

  lemma BlockAt(rows: seq<Row>, prefix: Key, first: nat, block: seq<Row>, n: nat)
    requires IsBlock(rows, prefix, first, block) && n <= |block| && first + n < |rows|
    ensures prefix <= rows[first + n].key <==> n < |block|
    ensures n < |block| ==> block[n] == rows[first + n] && block[..n + 1] == block[..n] + [block[n]]
  {
  }

  method TakeBlock(rows: seq<Row>, prefix: Key, ghost block: seq<Row>, maxSize: nat)
    returns (found: seq<Row>, limited: bool)
    requires IsBlock(rows, prefix, Seek(rows, prefix), block)
    ensures |found| == Taken(block, maxSize, 0) && found == block[..|found|]
    ensures limited <==> Seek(rows, prefix) + |found| < |rows| && SumSizes(found) >= maxSize
  {
    var first := Seek(rows, prefix);
    var total := 0;
    found, limited := [], false;
    while first + |found| < |rows|
      invariant |found| <= |block| && found == block[..|found|] && total == SumSizes(found)
      invariant Taken(block, maxSize, |found|) == Taken(block, maxSize, 0)
    {
      var row := rows[first + |found|];
      BlockAt(rows, prefix, first, block, |found|);
      if total >= maxSize {
        return found, true;
      }
      if !(prefix <= row.key) {
        assert block[..|found|] == block;
        return;
      }
      total := total + |row.value|;
      SumNext(block, |found|);
      found := found + [row];
    }
  }

  lemma SumNext(block: seq<Row>, n: nat)
    requires n < |block|
    ensures SumSizes(block[..n + 1]) == SumSizes(block[..n]) + |block[n].value|
  {
    assert block[..n + 1][..n] == block[..n];
  }

  // ---------------------------------------------------------------------------
  // Paged scan

  /** Where a page starts. */
  function StartAt(rows: seq<Row>, prefix: Key, start: Key): (n: nat)
    ensures n <= |rows|
  {
    var i := Seek(rows, if start == [] then prefix else start);
    if start != [] && i < |rows| && rows[i].key == start then i + 1 else i
  }

  /** The start key is empty or the key of a row of the table, as an earlier page left it. */
  predicate Resumes(rows: seq<Row>, prefix: Key, start: Key) {
    start == [] || exists i :: Lo(rows, prefix) <= i < Hi(rows, prefix) && rows[i].key == start
  }

  lemma ResumesAt(rows: seq<Row>, prefix: Key, i: nat)
    requires Sorted(rows) && prefix != [] && Lo(rows, prefix) <= i < Hi(rows, prefix)
    ensures rows[i].key != [] && StartAt(rows, prefix, rows[i].key) == i + 1
  {
    BlockExact(rows, prefix);
    forall j | 0 <= j < |rows| ensures Less(rows[j].key, rows[i].key) <==> j < i {
      assert if j < i then InOrder(rows, j, i) else j > i ==> InOrder(rows, i, j);
      LessSplits(rows[j].key, rows[i].key);
    }
    SeekIs(rows, rows[i].key, i);
  }

  /** A row that would not fit even an empty buffer. */
  predicate Oversized(r: Row, header: nat, maxBuffer: nat) { header + r.Size() > maxBuffer }

  predicate HasOversized(rows: seq<Row>, header: nat, maxBuffer: nat) {
    exists i :: 0 <= i < |rows| && Oversized(rows[i], header, maxBuffer)
  }

  /** The page is the table's rows from b on, as far as it goes. */
  predicate PageFrom(rows: seq<Row>, prefix: Key, b: nat, page: seq<Row>) {
    Lo(rows, prefix) <= b && b + |page| <= Hi(rows, prefix) && page == rows[b..b + |page|]
  }

  predicate OversizedAt(rows: seq<Row>, prefix: Key, i: nat, header: nat, maxBuffer: nat) {
    Lo(rows, prefix) <= i < Hi(rows, prefix) && Oversized(rows[i], header, maxBuffer)
  }

  function LastKey(page: seq<Row>): Key { if page == [] then [] else page[|page| - 1].key }

  lemma OversizedInBlock(rows: seq<Row>, prefix: Key, i: nat, header: nat, maxBuffer: nat)
    requires OversizedAt(rows, prefix, i, header, maxBuffer)
    ensures HasOversized(Block(rows, prefix), header, maxBuffer)
  {
    assert Block(rows, prefix)[i - Lo(rows, prefix)] == rows[i];
  }

  lemma LastKeyOf(rows: seq<Row>, prefix: Key, b: nat, page: seq<Row>)
    requires Sorted(rows) && prefix != [] && PageFrom(rows, prefix, b, page)
    ensures LastKey(page) == [] <==> page == []
  {
    if page != [] { ResumesAt(rows, prefix, b + |page| - 1); }
  }

  lemma NextPage(rows: seq<Row>, prefix: Key, b: nat, page: seq<Row>, all: seq<Row>)
    requires Sorted(rows) && prefix != [] && PageFrom(rows, prefix, b, page) && all == rows[Lo(rows, prefix)..b]
    ensures all + page == rows[Lo(rows, prefix)..b + |page|]
    ensures page != [] ==> (&& LastKey(page) != [] && Resumes(rows, prefix, LastKey(page))
                           && StartAt(rows, prefix, LastKey(page)) == b + |page|)
  {
    if page != [] {
      var i := b + |page| - 1;
      assert page[|page| - 1] == rows[i];
      ResumesAt(rows, prefix, i);
    }
  }

  /** The size of a buffer with the rows of a page. */
  function Used(page: seq<Row>, header: nat, overhead: nat): nat {
    if page == [] then header
    else Used(page[..|page| - 1], header, overhead) + page[|page| - 1].Size() + overhead
  }

  lemma UsedMeans(page: seq<Row>, r: Row, header: nat, overhead: nat)
    ensures Used([], header, overhead) == header
    ensures Used(page + [r], header, overhead) == Used(page, header, overhead) + |r.key| + |r.value| + overhead
  {
    assert (page + [r])[..|page|] == page;
  }

  /** The page goes on while there is a row, room for one more and room in the buffer. */
  predicate GoesOn(rows: seq<Row>, prefix: Key, i: nat, page: seq<Row>, maxLen: nat, maxBuffer: nat, header: nat, overhead: nat) {
    && |page| < maxLen && i < Hi(rows, prefix) <= |rows|
    && Used(page, header, overhead) + |rows[i].key| + |rows[i].value| <= maxBuffer
  }

  /** The page is rows from b on, and at each of them there was reason to go on. */
  predicate PageSoFar(rows: seq<Row>, prefix: Key, b: nat, page: seq<Row>, maxLen: nat, maxBuffer: nat, header: nat, overhead: nat) {
    && PageFrom(rows, prefix, b, page)
    && (forall k :: 0 <= k < |page| ==> GoesOn(rows, prefix, b + k, page[..k], maxLen, maxBuffer, header, overhead))
  }

  /** The page takes rows from b on as long as it can. */
  predicate PageIs(rows: seq<Row>, prefix: Key, b: nat, page: seq<Row>, maxLen: nat, maxBuffer: nat, header: nat, overhead: nat) {
    && PageSoFar(rows, prefix, b, page, maxLen, maxBuffer, header, overhead)
    && !GoesOn(rows, prefix, b + |page|, page, maxLen, maxBuffer, header, overhead)
  }

  /** It stops before a row that is larger than the buffer, header or not. */
  predicate TooLargeAt(rows: seq<Row>, prefix: Key, i: nat, page: seq<Row>, maxLen: nat, maxBuffer: nat) {
    |page| < maxLen && i < Hi(rows, prefix) && |rows[i].key| + |rows[i].value| > maxBuffer
  }

  lemma PageGrows(rows: seq<Row>, prefix: Key, b: nat, page: seq<Row>, maxLen: nat, maxBuffer: nat, header: nat, overhead: nat)
    requires PageSoFar(rows, prefix, b, page, maxLen, maxBuffer, header, overhead)
    requires GoesOn(rows, prefix, b + |page|, page, maxLen, maxBuffer, header, overhead)
    ensures PageSoFar(rows, prefix, b, page + [rows[b + |page|]], maxLen, maxBuffer, header, overhead)
  {
    var more := page + [rows[b + |page|]];
    forall k | 0 <= k < |more| ensures GoesOn(rows, prefix, b + k, more[..k], maxLen, maxBuffer, header, overhead) {
      assert more[..k] == page[..k];
    }
    assert page[..|page|] == page;
  }

  lemma {:induction false} UsedAtLeast(page: seq<Row>, header: nat, overhead: nat)
    ensures Used(page, header, overhead) >= header
  {
    if page != [] { UsedAtLeast(page[..|page| - 1], header, overhead); }
  }

  /** A row in a page would fit an empty buffer. */
  lemma PageNotOversized(rows: seq<Row>, prefix: Key, b: nat, page: seq<Row>, maxLen: nat, maxBuffer: nat, header: nat, overhead: nat)
    requires PageSoFar(rows, prefix, b, page, maxLen, maxBuffer, header, overhead)
    ensures !HasOversized(page, header, maxBuffer)
  {
    forall k | 0 <= k < |page| ensures !Oversized(page[k], header, maxBuffer) {
      assert GoesOn(rows, prefix, b + k, page[..k], maxLen, maxBuffer, header, overhead);
      UsedAtLeast(page[..k], header, overhead);
    }
  }

  /** Takes rows of the table from `first` on while there is room in the page and in the buffer. */
  method FillPage(rows: seq<Row>, prefix: Key, first: nat, maxLen: nat, maxBuffer: nat, header: nat, overhead: nat)
    returns (status: Status, haveMore: bool, page: seq<Row>)
    requires Sorted(rows) && first <= |rows| && maxLen > 0
    ensures Lo(rows, prefix) <= first <= Hi(rows, prefix) ==>
      && PageIs(rows, prefix, first, page, maxLen, maxBuffer, header, overhead)
      && (haveMore <==> first < Hi(rows, prefix))
      && status == if TooLargeAt(rows, prefix, first + |page|, page, maxLen, maxBuffer) then RocksDBError else OK
  {
    BlockExact(rows, prefix);
    ghost var hi := Hi(rows, prefix);
    ghost var inside := Lo(rows, prefix) <= first <= hi;
    status, haveMore, page := OK, false, [];
    var pos, used := first, header;
    while pos < |rows| && |page| < maxLen
      invariant first <= pos <= |rows| && used == Used(page, header, overhead) && (page != [] <==> haveMore)
      invariant inside ==> first + |page| == if pos < hi then pos else hi
      invariant inside ==> PageSoFar(rows, prefix, first, page, maxLen, maxBuffer, header, overhead)
    {
      var row := rows[pos];
      if |row.key| < |prefix| {
        pos := pos + 1;
        continue;
      }
      if !(prefix <= row.key) {
        break;
      }
      haveMore := true;
      if used + row.Size() > maxBuffer {
        if row.Size() > maxBuffer {
          status := RocksDBError;
        }
        break;
      }
      if inside { PageGrows(rows, prefix, first, page, maxLen, maxBuffer, header, overhead); }
      UsedMeans(page, row, header, overhead);
      page := page + [row];
      used := used + row.Size() + overhead;
      pos := pos + 1;
    }
  }

  lemma StartsInside(rows: seq<Row>, prefix: Key, start: Key)
    requires Sorted(rows) && prefix != [] && Resumes(rows, prefix, start)
    ensures Lo(rows, prefix) <= StartAt(rows, prefix, start) <= Hi(rows, prefix)
  {
    if start != [] {
      var i :| Lo(rows, prefix) <= i < Hi(rows, prefix) && rows[i].key == start;
      ResumesAt(rows, prefix, i);
    }
  }

  /** Seeks the start key, or the table when there is none, and steps over the row already read. */
  method FirstOfPage(rows: seq<Row>, prefix: Key, start: Key) returns (pos: nat)
    ensures pos == StartAt(rows, prefix, start)
  {
    pos := Seek(rows, if start == [] then prefix else start);
    if start != [] && pos < |rows| && rows[pos].key == start {
      pos := pos + 1;
    }
  }

  /** One page.  `header` and `overhead` are what an empty buffer and each record add to its size.  The
      page goes as far as it can; it is an error if a row larger than the buffer stops it, or if it holds
      none of the rows there are.  The next start key is the last one read. */
  method ScanTableData(rows: seq<Row>, prefix: Key, start: Key, maxLen: nat, maxBuffer: nat, header: nat, overhead: nat)
    returns (status: Status, next: Key, page: seq<Row>)
    requires Sorted(rows) && prefix != []
    ensures maxLen <= 1 ==> status == RocksDBError && next == start && page == []
    ensures maxLen > 1 && Resumes(rows, prefix, start) ==>
      var b := StartAt(rows, prefix, start);
      && PageIs(rows, prefix, b, page, maxLen, maxBuffer, header, overhead)
      && status == (if TooLargeAt(rows, prefix, b + |page|, page, maxLen, maxBuffer) then RocksDBError
                    else if page == [] && b < Hi(rows, prefix) then DataError
                    else OK)
      && next == (if status == RocksDBError then start else if page == [] then [] else page[|page| - 1].key)
  {
    if Resumes(rows, prefix, start) { StartsInside(rows, prefix, start); }
    if maxLen <= 1 {
      return RocksDBError, start, [];
    }
    var pos := FirstOfPage(rows, prefix, start);
    var haveMore;
    status, haveMore, page := FillPage(rows, prefix, pos, maxLen, maxBuffer, header, overhead);
    if Resumes(rows, prefix, start) { LastKeyOf(rows, prefix, pos, page); }
    next := start;
    if status == OK {
      next := LastKey(page);
      if haveMore && next == [] {
        status := DataError;
      }
    }
  }

  /** A page that ends in an error has come to a row that would not fit an empty buffer. */
  lemma ErrorMeansOversized(rows: seq<Row>, prefix: Key, b: nat, page: seq<Row>, maxLen: nat, maxBuffer: nat, header: nat, overhead: nat)
    requires PageIs(rows, prefix, b, page, maxLen, maxBuffer, header, overhead) && maxLen > 0
    requires TooLargeAt(rows, prefix, b + |page|, page, maxLen, maxBuffer) || (page == [] && b < Hi(rows, prefix))
    ensures OversizedAt(rows, prefix, b + |page|, header, maxBuffer)
  {
    if page == [] { UsedMeans([], rows[b], header, overhead); }
  }

  /** Every row that extends the prefix fits an empty buffer. */
  predicate NoneTooLarge(rows: seq<Row>, prefix: Key, header: nat, maxBuffer: nat) {
    forall i :: 0 <= i < |rows| && prefix <= rows[i].key ==> header + |rows[i].key| + |rows[i].value| <= maxBuffer
  }

  lemma OversizedRow(rows: seq<Row>, prefix: Key, header: nat, maxBuffer: nat)
    requires Sorted(rows)
    ensures HasOversized(Block(rows, prefix), header, maxBuffer) <==> !NoneTooLarge(rows, prefix, header, maxBuffer)
  {
    var block := Block(rows, prefix);
    BlockExact(rows, prefix);
    if HasOversized(block, header, maxBuffer) {
      var i :| 0 <= i < |block| && Oversized(block[i], header, maxBuffer);
      assert rows[Lo(rows, prefix) + i] == block[i];
    }
    if i :| 0 <= i < |rows| && prefix <= rows[i].key && header + |rows[i].key| + |rows[i].value| > maxBuffer {
      OversizedInBlock(rows, prefix, i, header, maxBuffer);
    }
  }

  /** Pages until the start key comes back empty: every row of the table once, in order.  It succeeds
      exactly when no row is too large for a page. */
  method ScanAll(rows: seq<Row>, prefix: Key, maxLen: nat, maxBuffer: nat, header: nat, overhead: nat)
    returns (ok: bool, all: seq<Row>)
    requires Sorted(rows) && prefix != []
    ensures ok ==> all == rows[Lo(rows, prefix)..Hi(rows, prefix)]
    ensures ok <==> maxLen > 1 && NoneTooLarge(rows, prefix, header, maxBuffer)
  {
    OversizedRow(rows, prefix, header, maxBuffer);
    ghost var b := Lo(rows, prefix);
    var start: Key := [];
    all := [];
    while true
      invariant Scanned(rows, prefix, start, b, all, header, maxBuffer)
      decreases Hi(rows, prefix) - b
    {
      var status, next, page := ScanTableData(rows, prefix, start, maxLen, maxBuffer, header, overhead);
      if status != OK {
        if maxLen > 1 {
          ErrorMeansOversized(rows, prefix, b, page, maxLen, maxBuffer, header, overhead);
          OversizedInBlock(rows, prefix, b + |page|, header, maxBuffer);
        }
        return false, all;
      }
      PageNotOversized(rows, prefix, b, page, maxLen, maxBuffer, header, overhead);
      ScannedNext(rows, prefix, start, b, all, page, header, maxBuffer);
      all := all + page;
      b := b + |page|;
      start := next;
      if start == [] {
        return true, all;
      }
    }
  }

  /** The table's rows up to b have been read, none of them oversized, and the start key leads to b. */
  ghost predicate Scanned(rows: seq<Row>, prefix: Key, start: Key, b: nat, all: seq<Row>, header: nat, maxBuffer: nat) {
    && Lo(rows, prefix) <= b <= Hi(rows, prefix) && all == rows[Lo(rows, prefix)..b]
    && !HasOversized(all, header, maxBuffer)
    && Resumes(rows, prefix, start) && StartAt(rows, prefix, start) == b
  }

  lemma ScannedNext(rows: seq<Row>, prefix: Key, start: Key, b: nat, all: seq<Row>, page: seq<Row>, header: nat, maxBuffer: nat)
    requires Sorted(rows) && prefix != [] && Scanned(rows, prefix, start, b, all, header, maxBuffer)
    requires PageFrom(rows, prefix, b, page) && !HasOversized(page, header, maxBuffer)
    ensures if page == [] then all + page == all
            else (&& LastKey(page) != []
                  && Scanned(rows, prefix, LastKey(page), b + |page|, all + page, header, maxBuffer))
  {
    NoneOversized(all, page, header, maxBuffer);
    NextPage(rows, prefix, b, page, all);
  }

  lemma NoneOversized(a: seq<Row>, c: seq<Row>, header: nat, maxBuffer: nat)
    requires !HasOversized(a, header, maxBuffer) && !HasOversized(c, header, maxBuffer)
    ensures !HasOversized(a + c, header, maxBuffer)
  {
    forall i | 0 <= i < |a + c| ensures !Oversized((a + c)[i], header, maxBuffer) {
      assert i >= |a| ==> (a + c)[i] == c[i - |a|];
    }
  }

  // ---------------------------------------------------------------------------
  // Paged removal

  /** A row shorter than the prefix, right after the table's rows, ends removal with an error. */
  predicate ShortRowAfter(rows: seq<Row>, prefix: Key) {
    Hi(rows, prefix) < |rows| && |rows[Hi(rows, prefix)].key| < |prefix|
  }

  class Column {
    var rows: seq<Row>

    constructor (rows: seq<Row>)
      ensures this.rows == rows
    {
      this.rows := rows;
    }

    /** Removes up to maxLen rows of the table in one flush. */
    method DeleteTableData(prefix: Key, start: Key, maxLen: nat, flushFails: bool)
      returns (ok: bool, next: Key, ghost n: nat)
      requires Sorted(rows) && prefix != [] && Seek(rows, if start == [] then prefix else start) == Lo(rows, prefix)
      modifies this
      ensures n == Least(maxLen, |Block(old(rows), prefix)|)
      ensures !ok ==> rows == old(rows) && next == start
      ensures !ok <==> maxLen <= 1 || flushFails || (ShortRowAfter(old(rows), prefix) && n < maxLen)
      ensures ok ==> rows == Without(old(rows), prefix, n) && next == LastOf(old(rows), prefix, n)
    {
      n := Least(maxLen, |Block(rows, prefix)|);
      if maxLen <= 1 {
        return false, start, n;
      }
      var first := Seek(rows, if start == [] then prefix else start);
      var pos;
      ok, pos := Walk(rows, prefix, first, maxLen);
      ok := ok && !flushFails;
      next := start;
      if ok {
        WalkedOver(rows, prefix, n);
        next := if pos == first then [] else rows[pos - 1].key;
        rows := rows[..first] + rows[pos..];
      }
    }

    /** Removes pages until the start key comes back empty: exactly the table's rows go, unless a flush
        fails or a short row follows them. */
    method DeleteAll(prefix: Key, maxLen: nat, flushFails: bool) returns (ok: bool, ghost n: nat)
      requires Sorted(rows) && prefix != []
      modifies this
      ensures var hi := Hi(old(rows), prefix);
        ok <==> maxLen > 1 && !flushFails && !(hi < |old(rows)| && |old(rows)[hi].key| < |prefix|)
      ensures var lo, hi := Lo(old(rows), prefix), Hi(old(rows), prefix);
        && lo + n <= hi && rows == old(rows)[..lo] + old(rows)[lo + n..] && (ok ==> lo + n == hi)
    {
      ghost var was := rows;
      n := 0;
      var start: Key := [];
      while true
        invariant Sorted(rows) && Progress(was, rows, prefix, n, start)
        decreases |Block(was, prefix)| - n
      {
        var good, next;
        ghost var m;
        good, next, m := DeletePage(prefix, start, maxLen, flushFails, was, n);
        if !good {
          return false, n;
        }
        n, start := m, next;
        if start == [] {
          return true, n;
        }
      }
    }

    method DeletePage(prefix: Key, start: Key, maxLen: nat, flushFails: bool, ghost was: seq<Row>, ghost n: nat)
      returns (good: bool, next: Key, ghost m: nat)
      requires Sorted(rows) && prefix != [] && Progress(was, rows, prefix, n, start)
      modifies this
      ensures good <==> maxLen > 1 && !flushFails && !(ShortRowAfter(was, prefix) && |Block(was, prefix)| - n < maxLen)
      ensures !good ==> rows == old(rows)
      ensures good ==> Sorted(rows) && Progress(was, rows, prefix, m, next)
      ensures good ==> m == n + Least(maxLen, |Block(was, prefix)| - n) && (next == [] <==> m == n)
    {
      ghost var before := rows;
      ghost var more;
      good, next, more := DeleteTableData(prefix, start, maxLen, flushFails);
      ProgressStep(was, before, prefix, n, start, more);
      m := n + more;
    }
  }

  /** n of the table's rows are gone, and the start key leads to the next. */
  ghost predicate Progress(was: seq<Row>, rows: seq<Row>, prefix: Key, n: nat, start: Key) {
    && n <= |Block(was, prefix)| && rows == Cut(was, Lo(was, prefix), n)
    && Rest(rows, prefix, Lo(was, prefix), |Block(was, prefix)| - n)
    && (ShortRowAfter(rows, prefix) <==> ShortRowAfter(was, prefix))
    && Seek(rows, if start == [] then prefix else start) == Lo(was, prefix)
  }

  lemma ProgressStep(was: seq<Row>, rows: seq<Row>, prefix: Key, n: nat, start: Key, more: nat)
    requires Progress(was, rows, prefix, n, start) && prefix != [] && more <= |Block(rows, prefix)|
    ensures Sorted(Without(rows, prefix, more))
    ensures Progress(was, Without(rows, prefix, more), prefix, n + more, LastOf(rows, prefix, more))
    ensures more > 0 <==> LastOf(rows, prefix, more) != []
    ensures |Block(rows, prefix)| == |Block(was, prefix)| - n
    ensures ShortRowAfter(rows, prefix) <==> ShortRowAfter(was, prefix)
  {
    var left := Without(rows, prefix, more);
    assert left == Cut(was, Lo(was, prefix), n + more) by { CutTwice(was, Lo(was, prefix), n, more); }
    Removed(rows, prefix, more);
    if more > 0 { RemovedLeadsBack(rows, prefix, more); }
  }

  /** The rows without the table's first n. */
  function Without(rows: seq<Row>, prefix: Key, n: nat): seq<Row>
    requires n <= |Block(rows, prefix)|
  {
    Cut(rows, Lo(rows, prefix), n)
  }

  /** The last key of the table's first n rows. */
  function LastOf(rows: seq<Row>, prefix: Key, n: nat): Key
    requires n <= |Block(rows, prefix)|
  {
    LastKey(rows[Lo(rows, prefix)..Lo(rows, prefix) + n])
  }

  /** The table's rows begin at lo and number n. */
  predicate Rest(rows: seq<Row>, prefix: Key, lo: nat, n: nat) {
    Sorted(rows) && Lo(rows, prefix) == lo && |Block(rows, prefix)| == n
  }

  lemma WalkedOver(rows: seq<Row>, prefix: Key, n: nat)
    requires n <= |Block(rows, prefix)|
    ensures var lo := Lo(rows, prefix);
      && Without(rows, prefix, n) == rows[..lo] + rows[lo + n..]
      && LastOf(rows, prefix, n) == if n == 0 then [] else rows[lo + n - 1].key
  {
  }

  /** Walks over up to maxLen rows of the table; a row shorter than the prefix is an error. */
  method Walk(rows: seq<Row>, prefix: Key, first: nat, maxLen: nat) returns (ok: bool, pos: nat)
    requires Sorted(rows) && first == Lo(rows, prefix)
    ensures pos == first + Least(maxLen, |Block(rows, prefix)|)
    ensures !ok <==> ShortRowAfter(rows, prefix) && |Block(rows, prefix)| < maxLen
  {
    BlockExact(rows, prefix);
    ghost var hi := Hi(rows, prefix);
    var left: nat;
    pos, left, ok := first, maxLen, true;
    while pos < |rows| && left > 0
      invariant first <= pos <= hi && left == maxLen - (pos - first)
    {
      if |rows[pos].key| < |prefix| {
        return false, pos;
      }
      if !(prefix <= rows[pos].key) {
        return true, pos;
      }
      pos, left := pos + 1, left - 1;
    }
  }

  lemma CutTwice(rows: seq<Row>, lo: nat, n: nat, more: nat)
    requires lo + n + more <= |rows|
    ensures Cut(Cut(rows, lo, n), lo, more) == Cut(rows, lo, n + more)
  {
  }

  /** What is left when the n rows from `lo` on go. */
  function Cut(rows: seq<Row>, lo: nat, n: nat): seq<Row>
    requires lo + n <= |rows|
  {
    rows[..lo] + rows[lo + n..]
  }

  lemma CutSorted(rows: seq<Row>, lo: nat, n: nat)
    requires Sorted(rows) && lo + n <= |rows|
    ensures Sorted(Cut(rows, lo, n))
  {
    var left := Cut(rows, lo, n);
    forall i, j | 0 <= i < j < |left| ensures InOrder(left, i, j) {
      assert InOrder(rows, if i < lo then i else i + n, if j < lo then j else j + n);
    }
  }

  lemma CutSeek(rows: seq<Row>, lo: nat, n: nat, k: Key)
    requires Sorted(rows) && lo + n <= |rows|
    requires forall i :: 0 <= i < |rows| && (i < lo || lo + n <= i) ==> (Less(rows[i].key, k) <==> i < lo)
    ensures Seek(Cut(rows, lo, n), k) == lo
  {
    var left := Cut(rows, lo, n);
    CutSorted(rows, lo, n);
    forall i | 0 <= i < |left| ensures Less(left[i].key, k) <==> i < lo {
      assert left[i] == rows[if i < lo then i else i + n];
    }
    SeekIs(left, k, lo);
  }

  /** Removing the first n rows of a table leaves the rest of it. */
  lemma Removed(rows: seq<Row>, prefix: Key, n: nat)
    requires Sorted(rows) && prefix != [] && n <= |Block(rows, prefix)|
    ensures var lo, left := Lo(rows, prefix), Cut(rows, Lo(rows, prefix), n);
      && Rest(left, prefix, lo, |Block(rows, prefix)| - n)
      && (ShortRowAfter(left, prefix) <==> ShortRowAfter(rows, prefix))
  {
    var lo, hi := Lo(rows, prefix), Hi(rows, prefix);
    var left := Cut(rows, lo, n);
    BlockExact(rows, prefix);
    SeekSplits(rows, prefix);
    CutSorted(rows, lo, n);
    CutSeek(rows, lo, n, prefix);
    forall i | lo <= i < |left| ensures prefix <= left[i].key <==> i < hi - n {
      assert left[i] == rows[i + n];
    }
    BlockIs(left, prefix, lo, hi - n);
    assert hi < |rows| ==> left[hi - n] == rows[hi];
  }

  lemma RemovedLeadsBack(rows: seq<Row>, prefix: Key, n: nat)
    requires Sorted(rows) && prefix != [] && 0 < n <= |Block(rows, prefix)|
    ensures var lo := Lo(rows, prefix);
      LastKey(rows[lo..lo + n]) != [] && Seek(Cut(rows, lo, n), LastKey(rows[lo..lo + n])) == lo
  {
    var lo := Lo(rows, prefix);
    var k := rows[lo + n - 1].key;
    BlockExact(rows, prefix);
    assert LastKey(rows[lo..lo + n]) == k;
    forall i | 0 <= i < |rows| && (i < lo || lo + n <= i) ensures Less(rows[i].key, k) <==> i < lo {
      assert if i < lo + n - 1 then InOrder(rows, i, lo + n - 1) else InOrder(rows, lo + n - 1, i);
      LessSplits(rows[i].key, k);
    }
    CutSeek(rows, lo, n, k);
  }

  lemma SeekIs(rows: seq<Row>, k: Key, n: nat)
    requires Sorted(rows) && n <= |rows| && forall i :: 0 <= i < |rows| ==> (Less(rows[i].key, k) <==> i < n)
    ensures Seek(rows, k) == n
  {
    SeekSplits(rows, k);
    var s := Seek(rows, k);
    if s < |rows| { assert Less(rows[s].key, k) <==> s < n; }
    if n < |rows| { assert Less(rows[n].key, k) <==> n < s; }
  }

  lemma BlockIs(rows: seq<Row>, prefix: Key, lo: nat, hi: nat)
    requires Sorted(rows) && lo == Lo(rows, prefix) <= hi <= |rows|
    requires forall i :: lo <= i < |rows| ==> (prefix <= rows[i].key <==> i < hi)
    ensures Hi(rows, prefix) == hi
  {
    BlockEndAt(rows, prefix, lo);
    var h := Hi(rows, prefix);
    if h < |rows| { assert prefix <= rows[h].key <==> h < hi; }
    if hi < |rows| { assert !(prefix <= rows[hi].key); }
  }
}
