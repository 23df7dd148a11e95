/** Byte layout of the files of src/incremental_stman.cpp: what the writer builds and how the reader takes it apart. */
module IsmLayout {
  import opened Arithmetic
  import opened Wrappers
  import opened Bytes
  import opened AipsIo
  import opened IsmCells
  import opened IsmRuns

  const HEADER_SIZE: nat := 512

  // ---- writing ----

  /** write_le_u32_buf */
  function Le32(v: nat): (b: ByteSeq)
    ensures |b| == 4
  {
    EncodeLe(v % TWO32, 4)
  }

  function Le32s(vs: seq<nat>): (b: ByteSeq)
    ensures |b| == 4 * |vs|
  {
    if vs == [] then [] else Le32s(vs[..|vs| - 1]) + Le32(vs[|vs| - 1])
  }

  predicate Storable(cols: seq<Column>) {
    forall c :: 0 <= c < |cols| ==> SizeOf(cols[c].dtype) > 0
  }

  /** Offset of column c within an entry record. */
  function ColOffset(cols: seq<Column>, c: nat): nat
    requires c <= |cols|
  {
    if c == 0 then 0 else ColOffset(cols, c - 1) + SizeOf(cols[c - 1].dtype)
  }

  function RecordSize(cols: seq<Column>): nat {
    ColOffset(cols, |cols|)
  }

  /** The values of the first c columns at row r, packed. */
  function RowBytes(cols: seq<Column>, n: nat, r: nat, c: nat): (b: ByteSeq)
    requires Rectangular(cols, n) && Storable(cols) && r < n && c <= |cols|
    ensures |b| == ColOffset(cols, c)
  {
    if c == 0 then [] else RowBytes(cols, n, r, c - 1) + CellBytes(cols[c - 1].dtype, cols[c - 1].values[r])
  }

  predicate RowsIn(rows: seq<nat>, n: nat) {
    forall i :: 0 <= i < |rows| ==> rows[i] < n
  }

  /** One entry record for each row. */
  function DataBytes(cols: seq<Column>, n: nat, rows: seq<nat>): (b: ByteSeq)
    requires Rectangular(cols, n) && Storable(cols) && RowsIn(rows, n)
    ensures |b| == Times(|rows|, RecordSize(cols))
  {
    TimesNext(if rows == [] then 0 else |rows| - 1, RecordSize(cols));
    if rows == [] then []
    else DataBytes(cols, n, rows[..|rows| - 1]) + RowBytes(cols, n, rows[|rows| - 1], |cols|)
  }

  /** Data offsets of column c for the rows that start one of its runs. */
  function Offsets(values: seq<Cell>, rows: seq<nat>, size: nat, offset: nat): (o: seq<nat>)
    requires RowsIn(rows, |values|)
    ensures |o| == |Select(values, rows)|
  {
    if rows == [] then []
    else
      Offsets(values, rows[..|rows| - 1], size, offset)
      + if IsHead(values, rows[|rows| - 1]) then [Times(|rows| - 1, size) + offset] else []
  }

  /** Count, row numbers and data offsets. */
  function ListBytes(rows: seq<nat>, offsets: seq<nat>): (b: ByteSeq)
    requires |rows| == |offsets|
    ensures |b| == 4 + 8 * |rows|
  {
    Le32(|rows|) + Le32s(rows) + Le32s(offsets)
  }

  function ColumnIndex(cols: seq<Column>, n: nat, rows: seq<nat>, c: nat): (b: ByteSeq)
    requires Rectangular(cols, n) && RowsIn(rows, n) && c < |cols|
    ensures |b| <= 4 + 8 * |rows|
  {
    ListBytes(Select(cols[c].values, rows), Offsets(cols[c].values, rows, RecordSize(cols), ColOffset(cols, c)))
  }

  /** The indices of the first c columns, top down. */
  function IndexBytes(cols: seq<Column>, n: nat, rows: seq<nat>, c: nat): (b: ByteSeq)
    requires Rectangular(cols, n) && RowsIn(rows, n) && c <= |cols|
  {
    if c == 0 then [] else IndexBytes(cols, n, rows, c - 1) + ColumnIndex(cols, n, rows, c - 1)
  }

  function Zeros(k: nat): (z: ByteSeq)
    ensures |z| == k
  {
    seq(k, _ => 0)
  }

  /** Free-offset word, data, index: the used part of a bucket. */
  function BucketContent(cols: seq<Column>, n: nat, rows: seq<nat>): ByteSeq
    requires Rectangular(cols, n) && Storable(cols) && RowsIn(rows, n)
  {
    var data := DataBytes(cols, n, rows);
    Le32(4 + |data|) + data + IndexBytes(cols, n, rows, |cols|)
  }

  function BucketBytes(cols: seq<Column>, n: nat, rows: seq<nat>): (b: ByteSeq)
    requires Rectangular(cols, n) && Storable(cols) && RowsIn(rows, n)
    requires |BucketContent(cols, n, rows)| <= BUCKET_SIZE
    ensures |b| == BUCKET_SIZE
  {
    var content := BucketContent(cols, n, rows);
    content + Zeros(BUCKET_SIZE - |content|)
  }

  /** One entry per bucket fits: the condition under which flush stays inside its buckets. */
  predicate EntryFits(cols: seq<Column>) {
    FixedSize(|cols|) + EntrySize(|cols|, RecordSize(cols)) <= BUCKET_SIZE
  }

  lemma {:induction false} IndexSize(cols: seq<Column>, n: nat, rows: seq<nat>, c: nat)
    requires Rectangular(cols, n) && RowsIn(rows, n) && c <= |cols|
    ensures |IndexBytes(cols, n, rows, c)| <= c * (4 + 8 * |rows|)
  {
    hide ColumnIndex;
    if c > 0 {
      IndexSize(cols, n, rows, c - 1);
      Distribute(4 + 8 * |rows|, c - 1);
    }
  }

  /** Data and index together stay inside a planned bucket. */
  lemma ContentFits(cols: seq<Column>, n: nat, rows: seq<nat>)
    requires Rectangular(cols, n) && Storable(cols) && RowsIn(rows, n)
    requires FixedSize(|cols|) + |rows| * EntrySize(|cols|, RecordSize(cols)) <= BUCKET_SIZE
    ensures |BucketContent(cols, n, rows)| <= BUCKET_SIZE
  {
    hide IndexBytes, DataBytes, RecordSize, Le32;
    IndexSize(cols, n, rows, |cols|);
    SizeSum(|cols|, |rows|, RecordSize(cols));
  }

  lemma SizeSum(ncols: nat, m: nat, size: nat)
    ensures 4 + Times(m, size) + ncols * (4 + 8 * m) == FixedSize(ncols) + m * EntrySize(ncols, size)
  {
    assert m * (size + 8 * ncols) == m * size + 8 * (m * ncols);
    assert ncols * (4 + 8 * m) == 4 * ncols + 8 * (m * ncols);
  }

  // ---- reading a bucket ----

  function ParseWord(s: ByteSeq, big: bool): (r: Parsed<uint32>)
    ensures r.Some? ==> |r.value.1| == |s| - 4
  {
    Widths();
    if |s| < 4 then None else Some((Decode(big, s[..4]), s[4..]))
  }

  function ParseWords(s: ByteSeq, n: nat, big: bool): (r: Parsed<seq<uint32>>)
    ensures r.Some? ==> |r.value.1| <= |s| && |r.value.0| == n
    decreases n
  {
    if n == 0 then Some(([], s))
    else
      var (v, s1) :- ParseWord(s, big);
      var (rest, s2) :- ParseWords(s1, n - 1, big);
      Some(([v] + rest, s2))
  }

  datatype ColIndex = ColIndex(rows: seq<uint32>, offsets: seq<uint32>)

  function ParseColIndex(s: ByteSeq, bucketSize: nat, big: bool): (r: Parsed<ColIndex>)
    ensures r.Some? ==> |r.value.1| <= |s| && |r.value.0.rows| == |r.value.0.offsets|
  {
    var (count, s1) :- ParseWord(s, big);
    if count > bucketSize / 8 then None
    else
      var (rows, s2) :- ParseWords(s1, count, big);
      var (offsets, s3) :- ParseWords(s2, count, big);
      Some((ColIndex(rows, offsets), s3))
  }

  function ParseColIndices(s: ByteSeq, ncols: nat, bucketSize: nat, big: bool): (r: Parsed<seq<ColIndex>>)
    ensures r.Some? ==> |r.value.0| == ncols
    ensures r.Some? ==> forall c :: 0 <= c < ncols ==> |r.value.0[c].rows| == |r.value.0[c].offsets|
    decreases ncols
  {
    if ncols == 0 then Some(([], s))
    else
      var (first, s1) :- ParseColIndex(s, bucketSize, big);
      var (rest, s2) :- ParseColIndices(s1, ncols - 1, bucketSize, big);
      Some(([first] + rest, s2))
  }

  /** parse_ism_bucket_indices on a bucket of its full size. */
  function ParseBucket(bucket: ByteSeq, ncols: nat, big: bool): (r: Option<seq<ColIndex>>)
    ensures r.Some? ==> |r.value| == ncols
    ensures r.Some? ==> forall c :: 0 <= c < ncols ==> |r.value[c].rows| == |r.value[c].offsets|
  {
    var (free, _) :- ParseWord(bucket, big);
    if free > |bucket| || free < 4 then None
    else
      var (indices, _) :- ParseColIndices(bucket[free..], ncols, |bucket|, big);
      Some(indices)
  }

  // ---- the bucket index round trip ----

  lemma ParseWordRound(v: uint32, rest: ByteSeq)
    ensures ParseWord(Le32(v) + rest, false) == Some((v, rest))
  {
    Widths();
    SmallMod(v, TWO32);
    var s := Le32(v) + rest;
    assert s[..4] == Le32(v) && s[4..] == rest;
    DecodeEncodeLe(v, 4);
  }

  predicate Words(vs: seq<nat>) {
    forall i :: 0 <= i < |vs| ==> vs[i] < TWO32
  }

  lemma {:induction false} Le32sCons(v: nat, vs: seq<nat>)
    ensures Le32s([v] + vs) == Le32(v) + Le32s(vs)
  {
    hide Le32;
    if vs == [] {
      assert [v] + vs == [v] && [v][..0] == [];
    } else {
      Le32sCons(v, vs[..|vs| - 1]);
      assert ([v] + vs)[..|vs|] == [v] + vs[..|vs| - 1];
    }
  }

  lemma {:induction false} ParseWordsRound(vs: seq<nat>, rest: ByteSeq)
    requires Words(vs)
    ensures ParseWords(Le32s(vs) + rest, |vs|, false) == Some((vs, rest))
  {
    hide Le32, ParseWord;
    if vs == [] {
      assert [] + rest == rest;
    } else {
      assert vs == [vs[0]] + vs[1..];
      Le32sCons(vs[0], vs[1..]);
      assert Le32s(vs) + rest == Le32(vs[0]) + (Le32s(vs[1..]) + rest);
      ParseWordRound(vs[0], Le32s(vs[1..]) + rest);
      ParseWordsRound(vs[1..], rest);
    }
  }

  lemma ParseListRound(rows: seq<nat>, offsets: seq<nat>, bucketSize: nat, rest: ByteSeq)
    requires |rows| == |offsets| && Words(rows) && Words(offsets) && 8 * |rows| <= bucketSize < TWO32
    ensures ParseColIndex(ListBytes(rows, offsets) + rest, bucketSize, false)
         == Some((ColIndex(rows, offsets), rest))
  {
    hide Le32, Le32s, ParseWord, ParseWords;
    assert ListBytes(rows, offsets) + rest == Le32(|rows|) + (Le32s(rows) + (Le32s(offsets) + rest));
    ParseWordRound(|rows|, Le32s(rows) + (Le32s(offsets) + rest));
    ParseWordsRound(rows, Le32s(offsets) + rest);
    ParseWordsRound(offsets, rest);
  }

  /** The index of one column as parsed back. */
  ghost function ExpectedIndex(cols: seq<Column>, n: nat, rows: seq<nat>, c: nat): ColIndex
    requires Rectangular(cols, n) && RowsIn(rows, n) && c < |cols|
    requires Words(Select(cols[c].values, rows))
    requires Words(Offsets(cols[c].values, rows, RecordSize(cols), ColOffset(cols, c)))
  {
    ColIndex(Select(cols[c].values, rows), Offsets(cols[c].values, rows, RecordSize(cols), ColOffset(cols, c)))
  }

  lemma {:induction false} ColOffsetMonotone(cols: seq<Column>, c: nat, d: nat)
    requires c <= d <= |cols|
    ensures ColOffset(cols, c) <= ColOffset(cols, d)
  {
    if c < d {
      ColOffsetMonotone(cols, c, d - 1);
    }
  }

  lemma {:induction false} OffsetsBound(values: seq<Cell>, rows: seq<nat>, size: nat, offset: nat)
    requires RowsIn(rows, |values|)
    ensures forall i :: 0 <= i < |Offsets(values, rows, size, offset)| ==>
              Offsets(values, rows, size, offset)[i] <= Times(|rows|, size) + offset
  {
    if rows != [] {
      hide Times;
      OffsetsBound(values, rows[..|rows| - 1], size, offset);
      TimesNext(|rows| - 1, size);
    }
  }

  lemma {:induction false} SelectBound(values: seq<Cell>, rows: seq<nat>, bound: nat)
    requires RowsIn(rows, |values|) && RowsIn(rows, bound)
    ensures RowsIn(Select(values, rows), bound)
  {
    if rows != [] {
      SelectBound(values, rows[..|rows| - 1], bound);
    }
  }

  /** What keeps the layout within 32-bit words and one bucket. */
  ghost predicate Packable(cols: seq<Column>, n: nat, rows: seq<nat>) {
    && Rectangular(cols, n) && Storable(cols) && RowsIn(rows, n) && n <= TWO32
    && FixedSize(|cols|) + |rows| * EntrySize(|cols|, RecordSize(cols)) <= BUCKET_SIZE
  }

  lemma ListsAreWords(cols: seq<Column>, n: nat, rows: seq<nat>, c: nat)
    requires Packable(cols, n, rows) && c < |cols|
    ensures Words(Select(cols[c].values, rows))
    ensures Words(Offsets(cols[c].values, rows, RecordSize(cols), ColOffset(cols, c)))
    ensures |Select(cols[c].values, rows)| <= |rows| && 8 * |rows| <= BUCKET_SIZE
  {
    hide Offsets, Select, ColOffset;
    var size := RecordSize(cols);
    SelectBound(cols[c].values, rows, n);
    OffsetsBound(cols[c].values, rows, size, ColOffset(cols, c));
    ColOffsetMonotone(cols, c, |cols|);
    SizesSmall(|cols|, |rows|, size);
  }

  lemma SizesSmall(ncols: nat, m: nat, size: nat)
    requires ncols > 0 && FixedSize(ncols) + m * EntrySize(ncols, size) <= BUCKET_SIZE
    ensures 8 * m <= BUCKET_SIZE && Times(m, size) <= BUCKET_SIZE
  {
    assert m * (size + 8 * ncols) == m * size + m * (8 * ncols);
    MulMonotone(m, 8, 8 * ncols);
    assert m * size >= 0;
  }

  /** The indices of the columns from c on. */
  ghost function IndexFrom(cols: seq<Column>, n: nat, rows: seq<nat>, c: nat): ByteSeq
    requires Rectangular(cols, n) && RowsIn(rows, n) && c <= |cols|
    decreases |cols| - c
  {
    if c == |cols| then [] else ColumnIndex(cols, n, rows, c) + IndexFrom(cols, n, rows, c + 1)
  }

  lemma {:induction false} IndexSplit(cols: seq<Column>, n: nat, rows: seq<nat>, c: nat)
    requires Rectangular(cols, n) && RowsIn(rows, n) && c <= |cols|
    ensures IndexBytes(cols, n, rows, |cols|) == IndexBytes(cols, n, rows, c) + IndexFrom(cols, n, rows, c)
    decreases |cols| - c
  {
    hide ColumnIndex;
    if c < |cols| {
      IndexSplit(cols, n, rows, c + 1);
    }
  }

  ghost function ExpectedFrom(cols: seq<Column>, n: nat, rows: seq<nat>, c: nat): (e: seq<ColIndex>)
    requires Packable(cols, n, rows) && c <= |cols|
    ensures |e| == |cols| - c
    decreases |cols| - c
  {
    if c == |cols| then []
    else
      ListsAreWords(cols, n, rows, c);
      [ExpectedIndex(cols, n, rows, c)] + ExpectedFrom(cols, n, rows, c + 1)
  }

  lemma {:induction false} ParseIndicesRound(cols: seq<Column>, n: nat, rows: seq<nat>, c: nat, rest: ByteSeq)
    requires Packable(cols, n, rows) && c <= |cols|
    ensures ParseColIndices(IndexFrom(cols, n, rows, c) + rest, |cols| - c, BUCKET_SIZE, false)
         == Some((ExpectedFrom(cols, n, rows, c), rest))
    decreases |cols| - c
  {
    hide ParseColIndex, ListBytes, Select, Offsets, ColOffset;
    if c == |cols| {
      assert [] + rest == rest;
    } else {
      ListsAreWords(cols, n, rows, c);
      var tail := IndexFrom(cols, n, rows, c + 1) + rest;
      assert IndexFrom(cols, n, rows, c) + rest == ColumnIndex(cols, n, rows, c) + tail;
      ParseListRound(Select(cols[c].values, rows),
                     Offsets(cols[c].values, rows, RecordSize(cols), ColOffset(cols, c)), BUCKET_SIZE, tail);
      ParseIndicesRound(cols, n, rows, c + 1, rest);
    }
  }

  lemma {:induction false} ExpectedAt(cols: seq<Column>, n: nat, rows: seq<nat>, c: nat, d: nat)
    requires Packable(cols, n, rows) && c <= d < |cols|
    requires Words(Select(cols[d].values, rows))
    requires Words(Offsets(cols[d].values, rows, RecordSize(cols), ColOffset(cols, d)))
    ensures ExpectedFrom(cols, n, rows, c)[d - c] == ExpectedIndex(cols, n, rows, d)
    decreases d - c
  {
    hide Select, Offsets, ColOffset, ExpectedIndex, EntrySize, FixedSize;
    if c < d {
      ExpectedAt(cols, n, rows, c + 1, d);
    }
  }

  /** parse_ism_bucket_indices recovers every row number and data offset of a built bucket. */
  lemma ParseBucketRound(cols: seq<Column>, n: nat, rows: seq<nat>)
    requires Packable(cols, n, rows)
    ensures |BucketContent(cols, n, rows)| <= BUCKET_SIZE
    ensures ParseBucket(BucketBytes(cols, n, rows), |cols|, false) == Some(ExpectedFrom(cols, n, rows, 0))
  {
    hide IndexBytes, DataBytes, Le32, ParseWord, ParseColIndices, Zeros, IndexFrom, ExpectedFrom;
    BucketShape(cols, n, rows);
    var index := IndexBytes(cols, n, rows, |cols|);
    var data := DataBytes(cols, n, rows);
    var zeros := Zeros(BUCKET_SIZE - |BucketContent(cols, n, rows)|);
    ParseWordRound(4 + |data|, data + index + zeros);
    IndexSplit(cols, n, rows, 0);
    IndexBase(cols, n, rows);
    assert index == IndexFrom(cols, n, rows, 0);
    ParseIndicesRound(cols, n, rows, 0, zeros);
  }

  lemma BucketShape(cols: seq<Column>, n: nat, rows: seq<nat>)
    requires Packable(cols, n, rows)
    ensures |BucketContent(cols, n, rows)| <= BUCKET_SIZE
    ensures var data, index := DataBytes(cols, n, rows), IndexBytes(cols, n, rows, |cols|);
      var zeros := Zeros(BUCKET_SIZE - |BucketContent(cols, n, rows)|);
      && 4 + |data| <= BUCKET_SIZE
      && BucketBytes(cols, n, rows) == Le32(4 + |data|) + (data + index + zeros)
      && BucketBytes(cols, n, rows)[4 + |data|..] == index + zeros
  {
    hide IndexBytes, DataBytes, Le32;
    ContentFits(cols, n, rows);
  }

  lemma IndexBase(cols: seq<Column>, n: nat, rows: seq<nat>)
    requires Rectangular(cols, n) && RowsIn(rows, n)
    ensures IndexBytes(cols, n, rows, 0) == []
  {
  }

  // ---- values behind the offsets ----

  lemma {:induction false} RowAt(cols: seq<Column>, n: nat, r: nat, c: nat, upto: nat)
    requires Rectangular(cols, n) && Storable(cols) && r < n && c < upto <= |cols|
    ensures ColOffset(cols, c) + SizeOf(cols[c].dtype) <= ColOffset(cols, upto)
    ensures RowBytes(cols, n, r, upto)[ColOffset(cols, c)..ColOffset(cols, c) + SizeOf(cols[c].dtype)]
         == CellBytes(cols[c].dtype, cols[c].values[r])
  {
    hide CellBytes;
    var b := RowBytes(cols, n, r, upto);
    var x, y := ColOffset(cols, c), ColOffset(cols, c) + SizeOf(cols[c].dtype);
    if c < upto - 1 {
      RowAt(cols, n, r, c, upto - 1);
      assert b[x..y] == RowBytes(cols, n, r, upto - 1)[x..y];
    }
  }

  /** Entry k of the data starts at k times the record size. */
  lemma {:induction false} RecordAt(cols: seq<Column>, n: nat, rows: seq<nat>, k: nat)
    requires Rectangular(cols, n) && Storable(cols) && RowsIn(rows, n) && k < |rows|
    ensures var x := Times(k, RecordSize(cols));
      && x + RecordSize(cols) <= |DataBytes(cols, n, rows)|
      && DataBytes(cols, n, rows)[x..x + RecordSize(cols)] == RowBytes(cols, n, rows[k], |cols|)
    decreases |rows|
  {
    hide RowBytes, RecordSize, Times;
    var size := RecordSize(cols);
    var x := Times(k, size);
    var d, d' := DataBytes(cols, n, rows), DataBytes(cols, n, rows[..|rows| - 1]);
    var row := RowBytes(cols, n, rows[|rows| - 1], |cols|);
    RowSize(cols, n, rows[|rows| - 1]);
    assert d == d' + row;
    if k < |rows| - 1 {
      RecordAt(cols, n, rows[..|rows| - 1], k);
      assert d[x..x + size] == d'[x..x + size];
    } else {
      assert d[x..x + size] == row;
    }
  }

  lemma RowSize(cols: seq<Column>, n: nat, r: nat)
    requires Rectangular(cols, n) && Storable(cols) && r < n
    ensures |RowBytes(cols, n, r, |cols|)| == RecordSize(cols)
  {
  }

  lemma SubSlice(data: ByteSeq, x: nat, size: nat, lo: nat, hi: nat)
    requires x + size <= |data| && lo <= hi <= size
    ensures data[x..x + size][lo..hi] == data[x + lo..x + hi]
  {
    var a, b := data[x..x + size][lo..hi], data[x + lo..x + hi];
    assert |a| == |b| && forall i :: 0 <= i < |a| ==> a[i] == b[i];
  }

  lemma SliceFirst(data: ByteSeq, tail: ByteSeq, from: nat, to: nat)
    requires from <= to <= |data|
    ensures (data + tail)[from..] == data[from..to] + (data + tail)[to..]
  {
  }

  /** A data offset leads to the value of that column at that row, whatever follows the data. */
  lemma CellAt(cols: seq<Column>, n: nat, rows: seq<nat>, k: nat, c: nat, tail: ByteSeq)
    requires Rectangular(cols, n) && Storable(cols) && RowsIn(rows, n) && k < |rows| && c < |cols|
    ensures var off := Times(k, RecordSize(cols)) + ColOffset(cols, c);
      && off <= |DataBytes(cols, n, rows)|
      && ReadCell((DataBytes(cols, n, rows) + tail)[off..], cols[c].dtype, false)
         == Some(Stored(cols[c].dtype, cols[c].values[rows[k]]))
  {
    hide DataBytes, RowBytes, ReadCell, Stored, CellBytes, Times, SizeOf, ColOffset;
    var size, x := RecordSize(cols), Times(k, RecordSize(cols));
    var lo := ColOffset(cols, c);
    var hi := lo + SizeOf(cols[c].dtype);
    var data := DataBytes(cols, n, rows);
    RecordAt(cols, n, rows, k);
    RowAt(cols, n, rows[k], c, |cols|);
    RowSize(cols, n, rows[k]);
    SubSlice(data, x, size, lo, hi);
    SliceFirst(data, tail, x + lo, x + hi);
    CellRound(cols[c].dtype, cols[c].values[rows[k]], (data + tail)[x + hi..]);
  }

  // ---- one bucket's entries as the reader collects them ----

  datatype Entry = Entry(startRow: nat, value: Cell)

  /** Entries of one column; nothing when a value lies beyond the data. */
  function ReadEntries(s: ByteSeq, index: ColIndex, dt: DataType, big: bool): Option<seq<Entry>>
    requires |index.rows| == |index.offsets|
    decreases |index.rows|
  {
    if index.rows == [] then Some([])
    else if index.offsets[0] > |s| then None
    else
      var v :- ReadCell(s[index.offsets[0]..], dt, big);
      var rest :- ReadEntries(s, ColIndex(index.rows[1..], index.offsets[1..]), dt, big);
      Some([Entry(index.rows[0], v)] + rest)
  }

  function EntriesOf(dt: DataType, values: seq<Cell>, rows: seq<nat>): (e: seq<Entry>)
    requires RowsIn(rows, |values|)
    ensures |e| == |rows|
  {
    seq(|rows|, i requires 0 <= i < |rows| => Entry(rows[i], Stored(dt, values[rows[i]])))
  }

  lemma {:induction false} ReadEntriesAll(s: ByteSeq, index: ColIndex, dt: DataType, values: seq<Cell>)
    requires |index.rows| == |index.offsets| && RowsIn(index.rows, |values|)
    requires forall i :: 0 <= i < |index.rows| ==>
               (index.offsets[i] <= |s|
                && ReadCell(s[index.offsets[i]..], dt, false) == Some(Stored(dt, values[index.rows[i]])))
    ensures ReadEntries(s, index, dt, false) == Some(EntriesOf(dt, values, index.rows))
    decreases |index.rows|
  {
    hide ReadCell, Stored;
    if index.rows != [] {
      ReadEntriesAll(s, ColIndex(index.rows[1..], index.offsets[1..]), dt, values);
      assert EntriesOf(dt, values, index.rows)
          == [Entry(index.rows[0], Stored(dt, values[index.rows[0]]))] + EntriesOf(dt, values, index.rows[1..]);
    }
  }

  /** Every selected row and its offset belong to one entry record of the bucket. */
  lemma {:induction false} OffsetsMatch(values: seq<Cell>, rows: seq<nat>, size: nat, offset: nat, i: nat) returns (k: nat)
    requires RowsIn(rows, |values|) && i < |Select(values, rows)|
    ensures k < |rows| && Select(values, rows)[i] == rows[k] && Offsets(values, rows, size, offset)[i] == Times(k, size) + offset
    decreases |rows|
  {
    hide IsHead;
    var last := |rows| - 1;
    if i < |Select(values, rows[..last])| {
      k := OffsetsMatch(values, rows[..last], size, offset, i);
    } else {
      k := last;
    }
  }

  /** Reading a column's entries from a bucket's data gives its run starts in that bucket with their values. */
  lemma ReadEntriesRound(cols: seq<Column>, n: nat, rows: seq<nat>, c: nat, tail: ByteSeq)
    requires Packable(cols, n, rows) && c < |cols|
    requires Words(Select(cols[c].values, rows))
    requires Words(Offsets(cols[c].values, rows, RecordSize(cols), ColOffset(cols, c)))
    ensures ReadEntries(DataBytes(cols, n, rows) + tail, ExpectedIndex(cols, n, rows, c), cols[c].dtype, false)
         == Some(EntriesOf(cols[c].dtype, cols[c].values, Select(cols[c].values, rows)))
  {
    hide Select, Offsets, ReadCell, Stored, DataBytes, ReadEntries;
    var s := DataBytes(cols, n, rows) + tail;
    var index := ExpectedIndex(cols, n, rows, c);
    forall i | 0 <= i < |index.rows|
      ensures index.offsets[i] <= |s|
        && ReadCell(s[index.offsets[i]..], cols[c].dtype, false) == Some(Stored(cols[c].dtype, cols[c].values[index.rows[i]]))
    {
      var k := OffsetsMatch(cols[c].values, rows, RecordSize(cols), ColOffset(cols, c), i);
      CellAt(cols, n, rows, k, c, tail);
    }
    ReadEntriesAll(s, index, cols[c].dtype, cols[c].values);
  }
}
