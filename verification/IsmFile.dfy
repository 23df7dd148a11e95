/** The whole ISM file: header, buckets, bucket index, and how the reader takes it apart. */
module IsmFile {
  import opened Arithmetic
  import opened Wrappers
  import opened Bytes
  import opened AipsIo
  import opened IsmCells
  import opened IsmRuns
  import opened IsmLayout

  // ---- the file header ----

  /** Everything after the length field: type string, version 5, endian flag, core fields. */
  function HeaderTail(nrBuckets: nat): (b: ByteSeq)
    ensures |b| == 49
  {
    Le32(16) + Ascii("IncrementalStMan") + Le32(5) + [0] + Le32(BUCKET_SIZE) + Le32(nrBuckets) + Le32(1)
    + Le32(0) + Le32(0xFFFF_FFFF) + Le32(0)
  }

  function HeaderBytes(nrBuckets: nat): (b: ByteSeq)
    ensures |b| == HEADER_SIZE
  {
    Le32(MAGIC) + Le32(53) + HeaderTail(nrBuckets) + Zeros(HEADER_SIZE - 57)
  }

  datatype FileHeader = FileHeader(bucketSize: uint32, nrBuckets: uint32, persCacheSize: uint32,
                                   bigEndian: bool, version: uint32)

  /** The framing is big-endian only if just that reading of the object length is plausible. */
  function FramingIsBig(h: ByteSeq): bool
    requires |h| >= 8
  {
    Decode(true, h[4..8]) < 512 && Decode(false, h[4..8]) >= 512
  }

  function WordAt(h: ByteSeq, at: nat, big: bool): (v: uint32)
    requires at + 4 <= |h|
  {
    Widths();
    Decode(big, h[at..at + 4])
  }

  /** parse_ism_file_header on the first 512 bytes. */
  function ParseFileHeader(h: ByteSeq): Option<FileHeader> {
    if |h| < HEADER_SIZE then None
    else
      var big := FramingIsBig(h);
      if WordAt(h, 0, big) != MAGIC then None
      else
        var versionAt := 12 + WordAt(h, 8, big);
        if versionAt + 4 > |h| then None
        else if h[12..versionAt] != Ascii("IncrementalStMan") then None
        else
          var version := WordAt(h, versionAt, big);
          ParseCoreFields(h, versionAt + 4, version, big)
  }

  function ParseCoreFields(h: ByteSeq, at: nat, version: uint32, big: bool): Option<FileHeader>
    requires at <= |h|
  {
    if version >= 5 && at + 1 > |h| then None
    else
      var contentBig := if version >= 5 then h[at] != 0 else big;
      var off := if version >= 5 then at + 1 else at;
      if off + 12 > |h| then None
      else
        var bucketSize := WordAt(h, off, big);
        if bucketSize == 0 then None
        else Some(FileHeader(bucketSize, WordAt(h, off + 4, big), WordAt(h, off + 8, big), contentBig, version))
  }

  // ---- the bucket index at the end of the file (ISMIndex) ----

  function BlockBytes(vs: seq<nat>): ByteSeq {
    Le32(21 + 4 * |vs|) + Le32(5) + Ascii("Block") + Le32(1) + Le32(|vs|) + Le32s(vs)
  }

  function Iota(k: nat): (s: seq<nat>)
    ensures |s| == k
  {
    seq(k, i => i)
  }

  /** Start rows with the row count as sentinel, then the bucket numbers. */
  function IndexTail(starts: seq<nat>, rowCount: nat): ByteSeq {
    Le32(8) + Ascii("ISMIndex") + Le32(1) + Le32(|starts|) + BlockBytes(starts + [rowCount]) + BlockBytes(Iota(|starts|))
  }

  function IndexFileBytes(starts: seq<nat>, rowCount: nat): ByteSeq {
    var tail := IndexTail(starts, rowCount);
    Le32(MAGIC) + Le32(4 + |tail|) + tail
  }

  // ---- the file ----

  /** What flush needs: equally long columns of storable types, and one entry fitting a bucket. */
  predicate Flushable(cols: seq<Column>, n: nat) {
    Rectangular(cols, n) && Storable(cols) && (n > 0 ==> EntryFits(cols))
  }

  /** The rows of each bucket. */
  function BucketRows(cols: seq<Column>, n: nat): (b: seq<seq<nat>>)
    requires Rectangular(cols, n)
  {
    var rows := EntryRows(cols, n, n);
    var sizes := Plan(|rows|, |cols|, RecordSize(cols));
    PlanTotal(|rows|, |cols|, RecordSize(cols));
    Cut(rows, sizes)
  }

  predicate BucketFits(cols: seq<Column>, n: nat, rows: seq<nat>) {
    && Rectangular(cols, n) && Storable(cols) && RowsIn(rows, n) && rows != []
    && FixedSize(|cols|) + |rows| * EntrySize(|cols|, RecordSize(cols)) <= BUCKET_SIZE
  }

  function FittingBucket(cols: seq<Column>, n: nat, rows: seq<nat>): (b: ByteSeq)
    requires BucketFits(cols, n, rows)
    ensures |b| == BUCKET_SIZE
  {
    ContentFits(cols, n, rows);
    BucketBytes(cols, n, rows)
  }

  function BucketsBytes(cols: seq<Column>, n: nat, buckets: seq<seq<nat>>): (b: ByteSeq)
    requires forall i :: 0 <= i < |buckets| ==> BucketFits(cols, n, buckets[i])
    ensures |b| == Times(|buckets|, BUCKET_SIZE)
  {
    TimesNext(if buckets == [] then 0 else |buckets| - 1, BUCKET_SIZE);
    if buckets == [] then []
    else
      assert BucketFits(cols, n, buckets[|buckets| - 1]);
      BucketsBytes(cols, n, buckets[..|buckets| - 1]) + FittingBucket(cols, n, buckets[|buckets| - 1])
  }

  function StartRows(buckets: seq<seq<nat>>): (s: seq<nat>)
    requires forall i :: 0 <= i < |buckets| ==> buckets[i] != []
    ensures |s| == |buckets|
  {
    seq(|buckets|, i requires 0 <= i < |buckets| => buckets[i][0])
  }

  /** flush */
  function FileBytes(cols: seq<Column>, n: nat): ByteSeq
    requires Flushable(cols, n)
  {
    var buckets := BucketRows(cols, n);
    BucketRowsFit(cols, n);
    HeaderBytes(|buckets|) + BucketsBytes(cols, n, buckets) + IndexFileBytes(StartRows(buckets), n)
  }

  lemma {:induction false} CutKeeps(rows: seq<nat>, sizes: seq<nat>, bound: nat)
    requires Total(sizes) == |rows| && RowsIn(rows, bound)
    ensures forall i :: 0 <= i < |Cut(rows, sizes)| ==> RowsIn(Cut(rows, sizes)[i], bound)
    decreases |sizes|
  {
    if sizes != [] {
      CutKeeps(rows[sizes[0]..], sizes[1..], bound);
      forall i | 0 <= i < |sizes| ensures RowsIn(Cut(rows, sizes)[i], bound) {
        if i > 0 {
          assert Cut(rows, sizes)[i] == Cut(rows[sizes[0]..], sizes[1..])[i - 1];
        }
      }
    }
  }

  /** If one entry fits a bucket, every planned bucket fits and none is empty. */
  lemma BucketRowsFit(cols: seq<Column>, n: nat)
    requires Flushable(cols, n)
    ensures forall i :: 0 <= i < |BucketRows(cols, n)| ==> BucketFits(cols, n, BucketRows(cols, n)[i])
    ensures |BucketRows(cols, n)| <= n
  {
    hide EntrySize, FixedSize, RecordSize;
    var rows := EntryRows(cols, n, n);
    var sizes := Plan(|rows|, |cols|, RecordSize(cols));
    EntryRowsAscend(cols, n, n);
    PlanTotal(|rows|, |cols|, RecordSize(cols));
    CutKeeps(rows, sizes, n);
    AscendingCount(rows, n);
    PlanLength(|rows|, |cols|, RecordSize(cols));
    if n > 0 {
      PlanFits(|rows|, |cols|, RecordSize(cols));
    }
  }

  lemma {:induction false} PlanLength(available: nat, ncols: nat, size: nat)
    ensures |Plan(available, ncols, size)| <= available
    decreases available
  {
    if available > 0 {
      var k := TakeCount(available, 0, FixedSize(ncols), EntrySize(ncols, size));
      PlanLength(available - k, ncols, size);
    }
  }

  lemma {:induction false} AscendingCount(rows: seq<nat>, bound: nat)
    requires RowsIn(rows, bound) && forall i, j :: 0 <= i < j < |rows| ==> rows[i] < rows[j]
    ensures |rows| <= bound
  {
    if rows != [] {
      AscendingCount(rows[..|rows| - 1], rows[|rows| - 1]);
    }
  }

  // ---- reading the buckets ----

  /** The entries of every column in one bucket; `s` is the file from the bucket's data origin on. */
  function BucketEntries(s: ByteSeq, indices: seq<ColIndex>, types: seq<DataType>, big: bool): (r: Option<seq<seq<Entry>>>)
    requires |indices| == |types|
    requires forall c :: 0 <= c < |indices| ==> |indices[c].rows| == |indices[c].offsets|
    ensures r.Some? ==> |r.value| == |types|
  {
    if types == [] then Some([])
    else
      var last := |types| - 1;
      var first :- BucketEntries(s, indices[..last], types[..last], big);
      var e :- ReadEntries(s, indices[last], types[last], big);
      Some(first + [e])
  }

  function Appended(a: seq<seq<Entry>>, b: seq<seq<Entry>>): (r: seq<seq<Entry>>)
    requires |a| == |b|
    ensures |r| == |a|
  {
    seq(|a|, c requires 0 <= c < |a| => a[c] + b[c])
  }

  /** The entries of every column in the first `b` buckets of the file. */
  function FileEntries(file: ByteSeq, types: seq<DataType>, bucketSize: nat, big: bool, b: nat): (r: Option<seq<seq<Entry>>>)
    ensures r.Some? ==> |r.value| == |types|
  {
    if b == 0 then Some(seq(|types|, _ => []))
    else
      var before :- FileEntries(file, types, bucketSize, big, b - 1);
      var at := HEADER_SIZE + Times(b - 1, bucketSize);
      if |file| < at + bucketSize then None
      else
        var indices :- ParseBucket(file[at..at + bucketSize], |types|, big);
        if |file| < at + 4 then None
        else
          var entries :- BucketEntries(file[at + 4..], indices, types, big);
          Some(Appended(before, entries))
  }

  // ---- round trip of the header ----

  lemma LengthBytes()
    ensures Le32(53) == [53, 0, 0, 0] && DecodeBe([53, 0, 0, 0]) == 53 * 0x100_0000
  {
    assert EncodeLe(0, 0) == [] && EncodeLe(0, 1) == [0] && EncodeLe(0, 2) == [0, 0] && EncodeLe(0, 3) == [0, 0, 0];
    assert EncodeLe(53, 4) == [53] + EncodeLe(0, 3);
    var b: ByteSeq := [53, 0, 0, 0];
    assert b[..3][..2][..1][..0] == [] && b[..1] == [53] && b[..2] == [53, 0] && b[..3] == [53, 0, 0];
    assert b[..2][..1] == [53] && b[..3][..2] == [53, 0] && b[..1][..0] == [];
    assert DecodeBe([]) == 0;
    assert DecodeBe(b[..1]) == 53;
    assert DecodeBe(b[..2]) == 53 * 0x100;
    assert DecodeBe(b[..3]) == 53 * 0x1_0000;
  }

  lemma WordAtRound(h: ByteSeq, at: nat, v: uint32)
    requires at + 4 <= |h| && h[at..at + 4] == Le32(v)
    ensures WordAt(h, at, false) == v
  {
    Widths();
    SmallMod(v, TWO32);
    DecodeEncodeLe(v, 4);
  }

  lemma HeaderShape(nrBuckets: nat)
    ensures var h := HeaderBytes(nrBuckets);
      && h[0..4] == Le32(MAGIC) && h[4..8] == Le32(53) && h[8..12] == Le32(16)
      && h[12..28] == Ascii("IncrementalStMan") && h[28..32] == Le32(5) && h[32] == 0
      && h[33..37] == Le32(BUCKET_SIZE) && h[37..41] == Le32(nrBuckets) && h[41..45] == Le32(1)
  {
    hide Le32, Zeros, Ascii;
  }

  /** The header is recognised as little-endian and gives back the number of buckets. */
  lemma HeaderRound(nrBuckets: uint32)
    ensures WrittenHeader(ParseFileHeader(HeaderBytes(nrBuckets)), nrBuckets)
  {
    hide Le32, HeaderBytes, WordAt, Ascii;
    var h := HeaderBytes(nrBuckets);
    HeaderShape(nrBuckets);
    FramingIsLittle(h);
    WordAtRound(h, 0, MAGIC);
    WordAtRound(h, 8, 16);
    WordAtRound(h, 28, 5);
    WordAtRound(h, 33, BUCKET_SIZE);
    WordAtRound(h, 37, nrBuckets);
    WordAtRound(h, 41, 1);
  }

  lemma FramingIsLittle(h: ByteSeq)
    requires |h| >= 8 && h[4..8] == Le32(53)
    ensures !FramingIsBig(h)
  {
    LengthBytes();
  }

  // ---- round trip of the buckets ----

  function TypesOf(cols: seq<Column>): (t: seq<DataType>)
    ensures |t| == |cols|
  {
    seq(|cols|, c requires 0 <= c < |cols| => cols[c].dtype)
  }

  /** Each column's run starts among these rows, with the values stored for them. */
  ghost function ExpectedEntries(cols: seq<Column>, n: nat, rows: seq<nat>): (e: seq<seq<Entry>>)
    requires Rectangular(cols, n) && RowsIn(rows, n)
    ensures |e| == |cols|
  {
    seq(|cols|, c requires 0 <= c < |cols| =>
      EntriesOf(cols[c].dtype, cols[c].values, Select(cols[c].values, rows)))
  }

  lemma {:induction false} BucketEntriesAll(s: ByteSeq, indices: seq<ColIndex>, types: seq<DataType>, e: seq<seq<Entry>>)
    requires |indices| == |types| == |e|
    requires forall c :: 0 <= c < |indices| ==> |indices[c].rows| == |indices[c].offsets|
    requires forall c :: 0 <= c < |types| ==> ReadEntries(s, indices[c], types[c], false) == Some(e[c])
    ensures BucketEntries(s, indices, types, false) == Some(e)
    decreases |types|
  {
    hide ReadEntries;
    if types != [] {
      var last := |types| - 1;
      BucketEntriesAll(s, indices[..last], types[..last], e[..last]);
      assert e == e[..last] + [e[last]];
    }
  }

  lemma BucketRound(cols: seq<Column>, n: nat, rows: seq<nat>, tail: ByteSeq)
    requires Packable(cols, n, rows)
    ensures |BucketContent(cols, n, rows)| <= BUCKET_SIZE
    ensures var bucket := BucketBytes(cols, n, rows);
      var p := ParseBucket(bucket, |cols|, false);
      p.Some? && BucketEntries((bucket + tail)[4..], p.value, TypesOf(cols), false) == Some(ExpectedEntries(cols, n, rows))
  {
    hide EntrySize, FixedSize, RecordSize, ParseBucket, ReadEntries, EntriesOf, Select, DataBytes, IndexBytes, ExpectedFrom;
    ParseBucketRound(cols, n, rows);
    var indices := ExpectedFrom(cols, n, rows, 0);
    var s := (BucketBytes(cols, n, rows) + tail)[4..];
    var rest := s[|DataBytes(cols, n, rows)|..];
    DataFollows(cols, n, rows, tail);
    forall c | 0 <= c < |cols|
      ensures ReadEntries(s, indices[c], cols[c].dtype, false) == Some(ExpectedEntries(cols, n, rows)[c])
    {
      ListsAreWords(cols, n, rows, c);
      ExpectedAt(cols, n, rows, 0, c);
      ReadEntriesRound(cols, n, rows, c, rest);
    }
    BucketEntriesAll(s, indices, TypesOf(cols), ExpectedEntries(cols, n, rows));
  }

  lemma DataFollows(cols: seq<Column>, n: nat, rows: seq<nat>, tail: ByteSeq)
    requires Packable(cols, n, rows) && |BucketContent(cols, n, rows)| <= BUCKET_SIZE
    ensures var s := (BucketBytes(cols, n, rows) + tail)[4..];
      |DataBytes(cols, n, rows)| <= |s| && s == DataBytes(cols, n, rows) + s[|DataBytes(cols, n, rows)|..]
  {
    hide DataBytes, IndexBytes, Le32;
    var s := (BucketBytes(cols, n, rows) + tail)[4..];
    assert s[..|DataBytes(cols, n, rows)|] == DataBytes(cols, n, rows);
  }

  lemma ExpectedAppend(cols: seq<Column>, n: nat, a: seq<nat>, b: seq<nat>)
    requires Rectangular(cols, n) && RowsIn(a, n) && RowsIn(b, n)
    ensures RowsIn(a + b, n)
    ensures Appended(ExpectedEntries(cols, n, a), ExpectedEntries(cols, n, b)) == ExpectedEntries(cols, n, a + b)
  {
    hide Select, Stored;
    forall c | 0 <= c < |cols|
      ensures Appended(ExpectedEntries(cols, n, a), ExpectedEntries(cols, n, b))[c] == ExpectedEntries(cols, n, a + b)[c]
    {
      SelectConcat(cols[c].values, a, b);
    }
  }

  /** Bucket b of a run of buckets lies at b times the bucket size. */
  lemma {:induction false} BucketAt(cols: seq<Column>, n: nat, buckets: seq<seq<nat>>, b: nat)
    requires forall i :: 0 <= i < |buckets| ==> BucketFits(cols, n, buckets[i])
    requires b < |buckets|
    ensures BucketFits(cols, n, buckets[b])
    ensures var x := Times(b, BUCKET_SIZE);
      && x + BUCKET_SIZE <= |BucketsBytes(cols, n, buckets)|
      && BucketsBytes(cols, n, buckets)[x..x + BUCKET_SIZE] == FittingBucket(cols, n, buckets[b])
    decreases |buckets|
  {
    hide FittingBucket, Times, BucketFits;
    var x := Times(b, BUCKET_SIZE);
    var last := |buckets| - 1;
    assert BucketFits(cols, n, buckets[last]);
    var front, back := BucketsBytes(cols, n, buckets[..last]), FittingBucket(cols, n, buckets[last]);
    assert BucketsBytes(cols, n, buckets) == front + back;
    if b < last {
      BucketAt(cols, n, buckets[..last], b);
      assert (front + back)[x..x + BUCKET_SIZE] == front[x..x + BUCKET_SIZE];
    } else {
      assert (front + back)[x..x + BUCKET_SIZE] == back;
    }
  }

  lemma {:induction false} JoinedSnoc(a: seq<seq<nat>>, b: seq<nat>)
    ensures Joined(a + [b]) == Joined(a) + b
  {
    if a == [] {
      assert (a + [b])[1..] == [] && Joined([]) == [] && b + [] == b && [] + b == b;
    } else {
      assert (a + [b])[1..] == a[1..] + [b];
      JoinedSnoc(a[1..], b);
    }
  }

  lemma {:induction false} JoinedRowsIn(a: seq<seq<nat>>, n: nat)
    requires forall i :: 0 <= i < |a| ==> RowsIn(a[i], n)
    ensures RowsIn(Joined(a), n)
  {
    if a != [] {
      JoinedRowsIn(a[1..], n);
    }
  }

  /** Reading the first b buckets gives the run starts of their rows, column by column. */
  lemma {:induction false} FileEntriesRound(cols: seq<Column>, n: nat, buckets: seq<seq<nat>>, file: ByteSeq, b: nat)
    requires HoldsBuckets(file, cols, n, buckets)
    requires Rectangular(cols, n) && n <= TWO32 && b <= |buckets|
    ensures RowsIn(Joined(buckets[..b]), n)
    ensures FileEntries(file, TypesOf(cols), BUCKET_SIZE, false, b) == Some(ExpectedEntries(cols, n, Joined(buckets[..b])))
    decreases b
  {
    hide ParseBucket, BucketEntries, ExpectedEntries, Appended, HoldsBuckets, Times, BucketFits;
    if b == 0 {
      NoEntries(cols, n);
      assert buckets[..0] == [];
    } else {
      FileEntriesRound(cols, n, buckets, file, b - 1);
      NextBucket(cols, n, buckets, file, b - 1);
      FitsPack(cols, n, buckets[b - 1]);
      JoinedSnoc(buckets[..b - 1], buckets[b - 1]);
      assert buckets[..b] == buckets[..b - 1] + [buckets[b - 1]];
      ExpectedAppend(cols, n, Joined(buckets[..b - 1]), buckets[b - 1]);
    }
  }

  /** The predicate that a file holds these buckets behind its header. */
  ghost predicate HoldsBuckets(file: ByteSeq, cols: seq<Column>, n: nat, buckets: seq<seq<nat>>) {
    && (forall i :: 0 <= i < |buckets| ==> BucketFits(cols, n, buckets[i]))
    && |file| >= HEADER_SIZE + |BucketsBytes(cols, n, buckets)|
    && file[HEADER_SIZE..HEADER_SIZE + |BucketsBytes(cols, n, buckets)|] == BucketsBytes(cols, n, buckets)
  }

  lemma BucketInFile(cols: seq<Column>, n: nat, buckets: seq<seq<nat>>, file: ByteSeq, b: nat)
    requires HoldsBuckets(file, cols, n, buckets) && b < |buckets|
    ensures BucketFits(cols, n, buckets[b])
    ensures var at := HEADER_SIZE + Times(b, BUCKET_SIZE);
      at + BUCKET_SIZE <= |file| && file[at..at + BUCKET_SIZE] == FittingBucket(cols, n, buckets[b])
  {
    hide FittingBucket, BucketsBytes, Times, BucketFits;
    var x := Times(b, BUCKET_SIZE);
    BucketAt(cols, n, buckets, b);
    SubSlice(file, HEADER_SIZE, |BucketsBytes(cols, n, buckets)|, x, x + BUCKET_SIZE);
  }

  lemma FittingRound(cols: seq<Column>, n: nat, rows: seq<nat>, tail: ByteSeq)
    requires BucketFits(cols, n, rows) && n <= TWO32
    ensures var p := ParseBucket(FittingBucket(cols, n, rows), |cols|, false);
      p.Some? && BucketEntries((FittingBucket(cols, n, rows) + tail)[4..], p.value, TypesOf(cols), false)
                 == Some(ExpectedEntries(cols, n, rows))
  {
    hide ParseBucket, BucketEntries, ExpectedEntries, BucketBytes, BucketContent, FixedSize, EntrySize, RecordSize;
    BucketRound(cols, n, rows, tail);
  }

  /** The bucket at this position of the file parses and holds these entries. */
  ghost predicate ReadsAs(file: ByteSeq, at: nat, types: seq<DataType>, e: seq<seq<Entry>>) {
    && at + BUCKET_SIZE <= |file|
    && var p := ParseBucket(file[at..at + BUCKET_SIZE], |types|, false);
    p.Some? && BucketEntries(file[at + 4..], p.value, types, false) == Some(e)
  }

  /** Bucket b of the file parses, and its entries are the run starts of its rows. */
  lemma NextBucket(cols: seq<Column>, n: nat, buckets: seq<seq<nat>>, file: ByteSeq, b: nat)
    requires HoldsBuckets(file, cols, n, buckets) && n <= TWO32 && b < |buckets|
    ensures BucketFits(cols, n, buckets[b])
    ensures ReadsAs(file, HEADER_SIZE + Times(b, BUCKET_SIZE), TypesOf(cols), ExpectedEntries(cols, n, buckets[b]))
  {
    hide ParseBucket, BucketEntries, ExpectedEntries, FittingBucket, HoldsBuckets, Times, TypesOf, BucketFits;
    var at := HEADER_SIZE + Times(b, BUCKET_SIZE);
    BucketInFile(cols, n, buckets, file, b);
    FittingRound(cols, n, buckets[b], file[at + BUCKET_SIZE..]);
    SliceAgain(file, at, BUCKET_SIZE, 4);
  }

  lemma SliceAgain(s: ByteSeq, at: nat, size: nat, skip: nat)
    requires at + size <= |s| && skip <= size
    ensures (s[at..at + size] + s[at + size..])[skip..] == s[at + skip..]
  {
    assert s[at..at + size] + s[at + size..] == s[at..];
  }

  lemma FitsPack(cols: seq<Column>, n: nat, rows: seq<nat>)
    requires BucketFits(cols, n, rows) && n <= TWO32
    ensures Packable(cols, n, rows)
  {
  }

  lemma NoEntries(cols: seq<Column>, n: nat)
    requires Rectangular(cols, n)
    ensures ExpectedEntries(cols, n, Joined([])) == seq(|TypesOf(cols)|, _ => [])
  {
    forall c | 0 <= c < |cols| ensures ExpectedEntries(cols, n, [])[c] == [] {
      assert Select(cols[c].values, []) == [];
    }
  }

  /** All run starts of every column, with the values stored for them. */
  ghost function AllRuns(cols: seq<Column>, n: nat): (e: seq<seq<Entry>>)
    requires Rectangular(cols, n)
    ensures |e| == |cols|
  {
    seq(|cols|, c requires 0 <= c < |cols| => RunEntries(cols[c]))
  }

  ghost function RunEntries(col: Column): (e: seq<Entry>) {
    HeadsAscend(col.values, |col.values|);
    EntriesOf(col.dtype, col.values, Heads(col.values, |col.values|))
  }

  /** The header flush writes: little-endian, version 5, standard bucket size, this many buckets. */
  predicate WrittenHeader(h: Option<FileHeader>, nrBuckets: nat) {
    nrBuckets < TWO32 && h == Some(FileHeader(BUCKET_SIZE, nrBuckets, 1, false, 5))
  }

  /** Opening a flushed file recovers the header and exactly the runs of every column. */
  lemma FileRound(cols: seq<Column>, n: nat)
    requires Flushable(cols, n) && n < TWO32
    ensures var file := FileBytes(cols, n);
      && |file| >= HEADER_SIZE
      && WrittenHeader(ParseFileHeader(file[..HEADER_SIZE]), |BucketRows(cols, n)|)
      && FileEntries(file, TypesOf(cols), BUCKET_SIZE, false, |BucketRows(cols, n)|) == Some(AllRuns(cols, n))
  {
    assert Rectangular(cols, n);
    hide *;
    var file := FileBytes(cols, n);
    var buckets := BucketRows(cols, n);
    FileShape(cols, n);
    HeaderRound(|buckets|);
    FileEntriesRound(cols, n, buckets, file, |buckets|);
    assert buckets[..|buckets|] == buckets;
    JoinedBuckets(cols, n);
    ExpectedIsRuns(cols, n);
  }

  /** A flushed file starts with its header and holds its buckets. */
  lemma FileShape(cols: seq<Column>, n: nat)
    requires Flushable(cols, n)
    ensures var buckets := BucketRows(cols, n);
      && |buckets| <= n
      && |FileBytes(cols, n)| >= HEADER_SIZE
      && FileBytes(cols, n)[..HEADER_SIZE] == HeaderBytes(|buckets|)
      && HoldsBuckets(FileBytes(cols, n), cols, n, buckets)
  {
    hide HeaderBytes, BucketsBytes, IndexFileBytes, BucketRows, BucketFits, StartRows;
    BucketRowsFit(cols, n);
  }

  lemma JoinedBuckets(cols: seq<Column>, n: nat)
    requires Rectangular(cols, n)
    ensures Joined(BucketRows(cols, n)) == EntryRows(cols, n, n)
  {
    var rows := EntryRows(cols, n, n);
    PlanTotal(|rows|, |cols|, RecordSize(cols));
    CutJoins(rows, Plan(|rows|, |cols|, RecordSize(cols)));
  }

  lemma ExpectedIsRuns(cols: seq<Column>, n: nat)
    requires Rectangular(cols, n)
    ensures RowsIn(EntryRows(cols, n, n), n)
    ensures ExpectedEntries(cols, n, EntryRows(cols, n, n)) == AllRuns(cols, n)
  {
    hide Select, EntryRows, Heads;
    EntryRowsAscend(cols, n, n);
    forall c | 0 <= c < |cols|
      ensures ExpectedEntries(cols, n, EntryRows(cols, n, n))[c] == AllRuns(cols, n)[c]
    {
      SelectEntryRows(cols, n, n, c);
    }
  }
}
