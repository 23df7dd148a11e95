/** The framing of a flushed file as an independent reader takes it apart: the file header and the bucket index (ISMIndex). */
module IsmIndex {
  import opened Arithmetic
  import opened Wrappers
  import opened Bytes
  import opened AipsIo
  import opened IsmCells
  import opened IsmRuns
  import opened IsmLayout
  import opened IsmFile
  import opened IsmRoundTrip

  // ---- a reader of little-endian objects ----

  function TakeWord(s: ByteSeq): (r: Parsed<uint32>)
    ensures r.Some? ==> |r.value.1| == |s| - 4
  {
    if |s| < 4 then None else Some((s[0] as int + 0x100 * s[1] as int + 0x1_0000 * s[2] as int + 0x100_0000 * s[3] as int, s[4..]))
  }

  function TakeWords(s: ByteSeq, n: nat): (r: Parsed<seq<uint32>>)
    ensures r.Some? ==> |r.value.0| == n && |r.value.1| <= |s|
  {
    if n == 0 then Some(([], s))
    else
      var (first, rest) :- TakeWord(s);
      var (more, end) :- TakeWords(rest, n - 1);
      Some(([first] + more, end))
  }

  /** The content of an object of this name with version 1; its length counts from the length word on. */
  function TakeObject(s: ByteSeq, name: string): (r: Parsed<ByteSeq>)
    ensures r.Some? ==> |r.value.0| + |r.value.1| < |s|
  {
    var (length, _) :- TakeWord(s);
    if length < 4 || length > |s| then None
    else
      var (size, named) :- TakeWord(s[4..length]);
      if size != |name| || |named| < size || named[..size] != Ascii(name) then None
      else
        var (version, content) :- TakeWord(named[size..]);
        if version != 1 then None else Some((content, s[length..]))
  }

  /** A Block object: a count and as many words, up to its end. */
  function TakeBlock(s: ByteSeq): (r: Parsed<seq<uint32>>) {
    var (content, rest) :- TakeObject(s, "Block");
    var (n, words) :- TakeWord(content);
    var (values, end) :- TakeWords(words, n);
    if end == [] then Some((values, rest)) else None
  }

  /** Start rows of the buckets with the row count behind them, and the number of each bucket. */
  datatype Index = Index(rows: seq<uint32>, numbers: seq<uint32>)

  function TakeIndex(s: ByteSeq): Parsed<Index> {
    var (magic, framed) :- TakeWord(s);
    if magic != MAGIC then None
    else
      var (content, rest) :- TakeObject(framed, "ISMIndex");
      var (used, blocks) :- TakeWord(content);
      var (rows, more) :- TakeBlock(blocks);
      var (numbers, end) :- TakeBlock(more);
      if |rows| == used + 1 && |numbers| == used && end == [] then Some((Index(rows, numbers), rest)) else None
  }

  // ---- what flush wrote ----

  lemma WordTaken(v: nat, rest: ByteSeq)
    ensures TakeWord(Le32(v) + rest) == Some((v % TWO32, rest))
  {
    Widths();
    var u := v % TWO32;
    var s := Le32(v) + rest;
    assert s[4..] == rest;
    LittleEndianPlaces(u, 4, 0);
    LittleEndianPlaces(u, 4, 1);
    LittleEndianPlaces(u, 4, 2);
    LittleEndianPlaces(u, 4, 3);
    assert Pow256(0) == 1 && Pow256(3) == 0x100_0000;
  }

  lemma Le32sFirst(vs: seq<nat>)
    requires vs != []
    ensures Le32s(vs) == Le32(vs[0]) + Le32s(vs[1..])
  {
    hide Le32;
    assert vs == [vs[0]] + vs[1..];
    Le32sConcat([vs[0]], vs[1..]);
    assert [vs[0]][..0] == [] && Le32s([]) == [] && Le32s([vs[0]]) == [] + Le32(vs[0]);
  }

  lemma {:induction false} Le32sConcat(a: seq<nat>, b: seq<nat>)
    ensures Le32s(a + b) == Le32s(a) + Le32s(b)
  {
    hide Le32;
    if b == [] {
      assert a + b == a;
    } else {
      Le32sConcat(a, b[..|b| - 1]);
      assert (a + b)[..|a + b| - 1] == a + b[..|b| - 1];
    }
  }

  predicate Fit32(vs: seq<nat>) {
    forall i :: 0 <= i < |vs| ==> vs[i] < TWO32
  }

  lemma {:induction false} WordsTaken(vs: seq<nat>, rest: ByteSeq)
    requires Fit32(vs)
    ensures TakeWords(Le32s(vs) + rest, |vs|) == Some((vs, rest))
  {
    hide Le32, Le32s, TakeWord;
    if vs == [] {
      assert Le32s([]) == [] by { Le32sEmpty(); }
      assert [] + rest == rest;
    } else {
      Le32sFirst(vs);
      assert Le32s(vs) + rest == Le32(vs[0]) + (Le32s(vs[1..]) + rest);
      WordTaken(vs[0], Le32s(vs[1..]) + rest);
      SmallMod(vs[0], TWO32);
      WordsTaken(vs[1..], rest);
      assert vs == [vs[0]] + vs[1..];
    }
  }

  lemma Le32sEmpty()
    ensures Le32s([]) == []
  {
  }

  /** An object with its exact length is taken whole. */
  lemma ObjectTaken(name: string, length: nat, content: ByteSeq, rest: ByteSeq)
    requires length == 12 + |name| + |content| && length < TWO32
    ensures TakeObject(Le32(length) + Le32(|name|) + Ascii(name) + Le32(1) + content + rest, name) == Some((content, rest))
  {
    hide Le32, Ascii, TakeWord;
    var inner := Le32(|name|) + Ascii(name) + Le32(1) + content;
    var s := Le32(length) + Le32(|name|) + Ascii(name) + Le32(1) + content + rest;
    assert s == Le32(length) + (inner + rest);
    WordTaken(length, inner + rest);
    SmallMod(length, TWO32);
    assert s[4..length] == inner && s[length..] == rest;
    var named := Ascii(name) + Le32(1) + content;
    assert inner == Le32(|name|) + named;
    WordTaken(|name|, named);
    SmallMod(|name|, TWO32);
    assert named[..|name|] == Ascii(name) && named[|name|..] == Le32(1) + content;
    WordTaken(1, content);
    SmallMod(1, TWO32);
  }

  lemma BlockTaken(vs: seq<nat>, rest: ByteSeq)
    requires Fit32(vs) && 21 + 4 * |vs| < TWO32
    ensures TakeBlock(BlockBytes(vs) + rest) == Some((vs, rest))
  {
    hide Le32, Le32s, Ascii, TakeWord, TakeWords, TakeObject;
    var content := Le32(|vs|) + Le32s(vs);
    assert BlockBytes(vs) + rest
        == Le32(21 + 4 * |vs|) + Le32(5) + Ascii("Block") + Le32(1) + content + rest;
    ObjectTaken("Block", 21 + 4 * |vs|, content, rest);
    WordTaken(|vs|, Le32s(vs));
    SmallMod(|vs|, TWO32);
    assert Le32s(vs) + [] == Le32s(vs);
    WordsTaken(vs, []);
  }

  /** Bytes of the index object behind the magic word. */
  function IndexLength(k: nat): nat {
    70 + 8 * k
  }

  lemma IndexShape(starts: seq<nat>, rowCount: nat)
    ensures var rows, numbers := BlockBytes(starts + [rowCount]), BlockBytes(Iota(|starts|));
      && |IndexTail(starts, rowCount)| + 4 == IndexLength(|starts|)
      && IndexFileBytes(starts, rowCount)
         == Le32(MAGIC) + (Le32(IndexLength(|starts|)) + Le32(8) + Ascii("ISMIndex") + Le32(1) + (Le32(|starts|) + (rows + numbers)))
  {
    hide Le32, Ascii, Le32s;
    var rows, numbers := BlockBytes(starts + [rowCount]), BlockBytes(Iota(|starts|));
    assert |rows| == 21 + 4 * (|starts| + 1) && |numbers| == 21 + 4 * |starts|;
  }

  lemma LongObject(s: ByteSeq, name: string, length: nat, tail: ByteSeq)
    requires s == Le32(length) + tail && |s| == length >= TWO32
    ensures TakeObject(s, name).Some? ==> TakeObject(s, name).value.1 != []
  {
    hide Le32, Ascii;
    WordTaken(length, tail);
  }

  /** The index object reads back to its end exactly if its length fits 32 bits. */
  lemma IndexTaken(starts: seq<nat>, rowCount: nat)
    requires Fit32(starts) && rowCount < TWO32
    ensures var r := TakeIndex(IndexFileBytes(starts, rowCount));
      (r.Some? && r.value.1 == []) <==> IndexLength(|starts|) < TWO32
    ensures IndexLength(|starts|) < TWO32 ==>
      var r := TakeIndex(IndexFileBytes(starts, rowCount));
      && r.Some? && r.value.0.rows == starts + [rowCount]
      && |r.value.0.numbers| == |starts| && forall b :: 0 <= b < |starts| ==> r.value.0.numbers[b] == b
  {
    hide Le32, Ascii, TakeWord, TakeObject, TakeBlock, IndexFileBytes, IndexTail;
    IndexShape(starts, rowCount);
    var length := IndexLength(|starts|);
    var rows, numbers := BlockBytes(starts + [rowCount]), BlockBytes(Iota(|starts|));
    assert |rows| == 21 + 4 * (|starts| + 1) && |numbers| == 21 + 4 * |starts|;
    hide BlockBytes;
    var blocks := rows + numbers;
    var content := Le32(|starts|) + blocks;
    var framed := Le32(length) + Le32(8) + Ascii("ISMIndex") + Le32(1) + content;
    WordTaken(MAGIC, framed);
    SmallMod(MAGIC, TWO32);
    if length < TWO32 {
      assert framed + [] == framed;
      ObjectTaken("ISMIndex", length, content, []);
      WordTaken(|starts|, blocks);
      SmallMod(|starts|, TWO32);
      BlockTaken(starts + [rowCount], numbers);
      assert numbers + [] == numbers;
      BlockTaken(Iota(|starts|), []);
    } else {
      LongObject(framed, "ISMIndex", length, Le32(8) + Ascii("ISMIndex") + Le32(1) + content);
    }
  }

  // ---- the index of a flushed file ----

  /** What follows the last bucket of the file. */
  function AfterBuckets(file: ByteSeq, k: nat): ByteSeq {
    var at := HEADER_SIZE + Times(k, BUCKET_SIZE);
    if at <= |file| then file[at..] else []
  }

  /** The index of the file's buckets, with nothing after it. */
  predicate IndexOf(file: ByteSeq, k: nat, index: Index) {
    TakeIndex(AfterBuckets(file, k)) == Some((index, []))
  }

  lemma IndexIsLast(cols: seq<Column>, n: nat)
    requires Flushable(cols, n)
    ensures |BucketRows(cols, n)| <= n
    ensures forall b :: 0 <= b < |BucketRows(cols, n)| ==> BucketRows(cols, n)[b] != []
    ensures AfterBuckets(FileBytes(cols, n), |BucketRows(cols, n)|) == IndexFileBytes(StartRows(BucketRows(cols, n)), n)
  {
    hide HeaderBytes, BucketsBytes, IndexFileBytes, BucketRows, StartRows, Times, EntrySize, FixedSize;
    BucketRowsFit(cols, n);
    assert forall b :: 0 <= b < |BucketRows(cols, n)| ==> BucketFits(cols, n, BucketRows(cols, n)[b]);
  }

  /**
   * The file ends with an index that lists each bucket's first row with the row count behind them, and the bucket numbers in
   * order of place, exactly if the length of the index fits 32 bits.
   */
  lemma FileIndex(cols: seq<Column>, n: nat)
    requires Flushable(cols, n) && n < TWO32
    ensures var buckets := BucketRows(cols, n);
      (exists index :: IndexOf(FileBytes(cols, n), |buckets|, index)) <==> 70 + 8 * |buckets| < TWO32
    ensures var buckets := BucketRows(cols, n);
      forall index :: IndexOf(FileBytes(cols, n), |buckets|, index) ==>
        && |index.rows| == |buckets| + 1 && index.rows[|buckets|] == n && |index.numbers| == |buckets|
        && forall b :: 0 <= b < |buckets| ==> buckets[b] != [] && index.rows[b] == buckets[b][0] && index.numbers[b] == b
  {
    hide FileBytes, IndexFileBytes, TakeIndex, BucketRows, AfterBuckets;
    IndexIsLast(cols, n);
    var buckets := BucketRows(cols, n);
    StartsFit(cols, n);
    IndexTaken(StartRows(buckets), n);
    var r := TakeIndex(IndexFileBytes(StartRows(buckets), n));
    if r.Some? && r.value.1 == [] {
      assert IndexOf(FileBytes(cols, n), |buckets|, r.value.0);
    }
  }

  lemma StartsFit(cols: seq<Column>, n: nat)
    requires Flushable(cols, n) && n <= TWO32
    ensures forall b :: 0 <= b < |BucketRows(cols, n)| ==> BucketRows(cols, n)[b] != []
    ensures Fit32(StartRows(BucketRows(cols, n)))
  {
    hide BucketRows, EntrySize, FixedSize, RecordSize;
    BucketRowsFit(cols, n);
    var buckets := BucketRows(cols, n);
    forall b | 0 <= b < |buckets| ensures buckets[b] != [] && buckets[b][0] < n {
      assert BucketFits(cols, n, buckets[b]);
    }
  }

  /** The last entry row at or before r. */
  predicate LastEntry(cols: seq<Column>, n: nat, r: nat, x: nat)
    requires Rectangular(cols, n) && r < n
  {
    x <= r && Changed(cols, n, x) && forall y :: x < y <= r ==> !Changed(cols, n, y)
  }

  /** Place b of the index is the last one whose start row is at or before r. */
  predicate Covers(index: Index, b: nat, r: nat) {
    b + 1 < |index.rows| && index.rows[b] <= r < index.rows[b + 1]
  }

  lemma {:induction false} EntryRowsAre(cols: seq<Column>, n: nat, upto: nat, x: nat)
    requires Rectangular(cols, n) && upto <= n
    ensures x in EntryRows(cols, n, upto) <==> x < upto && Changed(cols, n, x)
  {
    hide Changed;
    if upto > 0 {
      EntryRowsAre(cols, n, upto - 1, x);
    }
  }

  lemma {:induction false} InSomeBucket(buckets: seq<seq<nat>>, x: nat) returns (j: nat)
    requires x in Joined(buckets)
    ensures j < |buckets| && x in buckets[j]
  {
    if x in buckets[0] {
      j := 0;
    } else {
      j := InSomeBucket(buckets[1..], x);
      j := j + 1;
    }
  }

  lemma {:induction false} LastEntryExists(cols: seq<Column>, n: nat, r: nat) returns (x: nat)
    requires Rectangular(cols, n) && r < n
    ensures LastEntry(cols, n, r, x)
  {
    if Changed(cols, n, r) {
      x := r;
    } else {
      x := LastEntryExists(cols, n, r - 1);
    }
  }

  /** Start rows are entry rows and ascend, beginning with the first row. */
  ghost predicate GoodStarts(cols: seq<Column>, n: nat, starts: seq<nat>)
    requires Rectangular(cols, n)
  {
    && (n > 0 ==> starts != [] && starts[0] == 0)
    && (forall b :: 0 <= b < |starts| ==> starts[b] < n && Changed(cols, n, starts[b]))
    && forall a, b :: 0 <= a < b < |starts| ==> starts[a] < starts[b]
  }

  lemma StartsAreGood(cols: seq<Column>, n: nat)
    requires Flushable(cols, n)
    ensures forall b :: 0 <= b < |BucketRows(cols, n)| ==> BucketRows(cols, n)[b] != []
    ensures GoodStarts(cols, n, StartRows(BucketRows(cols, n)))
  {
    hide EntrySize, FixedSize, RecordSize, Changed, Plan, Cut, EntryRows, Joined;
    var buckets, rows := BucketRows(cols, n), EntryRows(cols, n, n);
    var sizes := Plan(|rows|, |cols|, RecordSize(cols));
    BucketRowsFit(cols, n);
    EntryRowsAscend(cols, n, n);
    PlanTotal(|rows|, |cols|, RecordSize(cols));
    assert forall b :: 0 <= b < |buckets| ==> BucketFits(cols, n, buckets[b]);
    var starts := StartRows(buckets);
    forall b | 0 <= b < |starts| ensures starts[b] < n && Changed(cols, n, starts[b]) {
      CutWithin(rows, sizes, b, buckets[b][0]);
      EntryRowsAre(cols, n, n, starts[b]);
    }
    forall a, b | 0 <= a < b < |starts| ensures starts[a] < starts[b] {
      CutOrdered(rows, sizes, a, b, buckets[a][0], buckets[b][0]);
    }
    if n > 0 {
      FirstStart(cols, n);
    }
  }

  lemma FirstStart(cols: seq<Column>, n: nat)
    requires Flushable(cols, n) && n > 0
    ensures BucketRows(cols, n) != [] && BucketRows(cols, n)[0] != [] && BucketRows(cols, n)[0][0] == 0
  {
    var rows := EntryRows(cols, n, n);
    EntryRowsAscend(cols, n, n);
    BucketRowsFit(cols, n);
    JoinedBuckets(cols, n);
    assert Joined(BucketRows(cols, n)) == rows;
  }

  lemma {:induction false} SomePlaceCovers(rows: seq<uint32>, r: nat, k: nat) returns (b: nat)
    requires 0 < k < |rows| && rows[0] <= r < rows[k]
    ensures b + 1 < |rows| && rows[b] <= r < rows[b + 1]
  {
    if rows[k - 1] <= r {
      b := k - 1;
    } else {
      b := SomePlaceCovers(rows, r, k - 1);
    }
  }

  /** The bucket that place nr of the file holds contains the last entry row at or before r. */
  ghost predicate Serves(file: ByteSeq, cols: seq<Column>, n: nat, nr: nat, r: nat)
    requires Flushable(cols, n) && r < n
  {
    var buckets, at := BucketRows(cols, n), HEADER_SIZE + Times(nr, BUCKET_SIZE);
    && nr < |buckets| && BucketFits(cols, n, buckets[nr])
    && at + BUCKET_SIZE <= |file| && file[at..at + BUCKET_SIZE] == FittingBucket(cols, n, buckets[nr])
    && exists x :: x in buckets[nr] && LastEntry(cols, n, r, x)
  }

  lemma PlaceHolds(cols: seq<Column>, n: nat, r: nat, b: nat, x: nat)
    requires Flushable(cols, n) && n < TWO32 && r < n && b < |BucketRows(cols, n)| && x in BucketRows(cols, n)[b]
    requires LastEntry(cols, n, r, x)
    ensures Serves(FileBytes(cols, n), cols, n, b, r)
  {
    hide FileBytes, BucketRows, LastEntry, HoldsBuckets, FittingBucket, BucketFits, Times;
    FileShape(cols, n);
    BucketInFile(cols, n, BucketRows(cols, n), FileBytes(cols, n), b);
  }

  /** The last entry row at or before r lies in the bucket whose start row is the last one at or before r. */
  lemma InCoveringBucket(cols: seq<Column>, n: nat, r: nat, b: nat) returns (x: nat)
    requires Flushable(cols, n) && r < n
    requires forall i :: 0 <= i < |BucketRows(cols, n)| ==> BucketRows(cols, n)[i] != []
    requires var starts := StartRows(BucketRows(cols, n));
      b < |starts| && starts[b] <= r && (b + 1 < |starts| ==> r < starts[b + 1])
    ensures x in BucketRows(cols, n)[b] && LastEntry(cols, n, r, x)
  {
    hide BucketRows, Changed, EntryRows, Joined, EntrySize, FixedSize;
    var starts := StartRows(BucketRows(cols, n));
    x := LastEntryExists(cols, n, r);
    EntryRowsAre(cols, n, n, x);
    JoinedBuckets(cols, n);
    var j := InSomeBucket(BucketRows(cols, n), x);
    BucketsInOrder(cols, n, j, x);
    StartsAreGood(cols, n);
    assert j == b;
  }

  /**
   * Looking a row up in the index finds the bucket that decides it: some place covers the row, and the number there is that
   * of the bucket, at its place in the file, whose rows hold the last entry row at or before the row.
   */
  lemma IndexFindsBucket(cols: seq<Column>, n: nat, index: Index, r: nat)
    requires Flushable(cols, n) && n < TWO32 && r < n
    requires IndexOf(FileBytes(cols, n), |BucketRows(cols, n)|, index)
    ensures |index.rows| == |index.numbers| + 1
    ensures exists b: nat :: Covers(index, b, r)
    ensures forall b: nat :: Covers(index, b, r) ==> Serves(FileBytes(cols, n), cols, n, index.numbers[b], r)
  {
    hide FileBytes, BucketRows, IndexOf, Serves, Changed, EntrySize, FixedSize;
    var buckets := BucketRows(cols, n);
    FileIndex(cols, n);
    StartsAreGood(cols, n);
    var b0 := SomePlaceCovers(index.rows, r, |buckets|);
    assert Covers(index, b0, r);
    forall b: nat | Covers(index, b, r) ensures Serves(FileBytes(cols, n), cols, n, index.numbers[b], r) {
      var x := InCoveringBucket(cols, n, r, b);
      PlaceHolds(cols, n, r, b, x);
    }
  }
}
