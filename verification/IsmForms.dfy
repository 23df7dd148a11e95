/**
 * The files a reader of src/incremental_stman.cpp accepts, written out independently of what flush produces: either byte
 * order, any header version, strings, and data and index of any arrangement.
 */
module IsmForms {
  import opened Arithmetic
  import opened Wrappers
  import opened Bytes
  import opened AipsIo
  import opened IsmCells
  import opened IsmRuns
  import opened IsmLayout
  import opened IsmFile

  // ---- words ----

  lemma WordForm(v: uint32, big: bool, rest: ByteSeq)
    ensures ParseWord(Put(v, big) + rest, big) == Some((v, rest)) && Word(Put(v, big) + rest, 4, big) == Some(v)
  {
    hide Put, Decode;
    DecodePut(v, big);
    var s := Put(v, big) + rest;
    assert s[..4] == Put(v, big) && s[4..] == rest;
  }

  lemma Word8Form(v: uint64, big: bool, rest: ByteSeq)
    ensures Word(Put8(v, big) + rest, 8, big) == Some(v)
  {
    hide Put8, Decode;
    DecodePut8(v, big);
    var s := Put8(v, big) + rest;
    assert s[..8] == Put8(v, big);
  }

  // ---- cells ----

  /** The value is one a column of this type holds. */
  predicate KindOf(dt: DataType, v: Cell) {
    match v
    case CBool(_) => dt == TpBool
    case CInt(_) => dt == TpInt
    case CUInt(_) => dt == TpUInt
    case CInt64(_) => dt == TpInt64
    case CFloat(_) => dt == TpFloat
    case CDouble(_) => dt == TpDouble
    case CComplex(_, _) => dt == TpComplex
    case CDComplex(_, _) => dt == TpDComplex
    case CString(s) => dt == TpString && 4 + |s| < TWO32
  }

  /** Two's complement for the integers, the bit pattern for floating point, real before imaginary part, length before text. */
  function PutCell(v: Cell, big: bool): ByteSeq
    requires v.CString? ==> 4 + |v.s| < TWO32
  {
    match v
    case CBool(b) => [if b then 1 else 0]
    case CInt(x) => Put(if x < 0 then x + 0x1_0000_0000 else x, big)
    case CUInt(x) => Put(x, big)
    case CInt64(x) => Put8(if x < 0 then x + 0x1_0000_0000_0000_0000 else x, big)
    case CFloat(x) => Put(x, big)
    case CDouble(x) => Put8(x, big)
    case CComplex(x, y) => Put(x, big) + Put(y, big)
    case CDComplex(x, y) => Put8(x, big) + Put8(y, big)
    case CString(s) => Put(4 + |s|, big) + s
  }

  lemma SignedWord(x: int, w: nat)
    requires (w == 4 && -0x8000_0000 <= x < 0x8000_0000) || (w == 8 && -0x8000_0000_0000_0000 <= x < 0x8000_0000_0000_0000)
    ensures Signed(if x < 0 then x + Pow256(w) else x, w) == x
    ensures Pow256(4) == 0x1_0000_0000 && Pow256(8) == 0x1_0000_0000_0000_0000
  {
    Widths();
  }

  lemma WordPair(x: uint32, y: uint32, big: bool, rest: ByteSeq)
    ensures var s := Put(x, big) + Put(y, big) + rest; Word(s, 4, big) == Some(x) && Word(s[4..], 4, big) == Some(y)
  {
    hide Put, Word;
    var s := Put(x, big) + Put(y, big) + rest;
    assert s == Put(x, big) + (Put(y, big) + rest) && s[4..] == Put(y, big) + rest;
    WordForm(x, big, Put(y, big) + rest);
    WordForm(y, big, rest);
  }

  lemma Word8Pair(x: uint64, y: uint64, big: bool, rest: ByteSeq)
    ensures var s := Put8(x, big) + Put8(y, big) + rest; Word(s, 8, big) == Some(x) && Word(s[8..], 8, big) == Some(y)
  {
    hide Put8, Word;
    var s := Put8(x, big) + Put8(y, big) + rest;
    assert s == Put8(x, big) + (Put8(y, big) + rest) && s[8..] == Put8(y, big) + rest;
    Word8Form(x, big, Put8(y, big) + rest);
    Word8Form(y, big, rest);
  }

  lemma StringForm(t: ByteSeq, big: bool, rest: ByteSeq)
    requires 4 + |t| < TWO32
    ensures ReadCell(Put(4 + |t|, big) + t + rest, TpString, big) == Some(CString(t))
  {
    hide Put, Word;
    var s := Put(4 + |t|, big) + t + rest;
    assert s == Put(4 + |t|, big) + (t + rest);
    WordForm(4 + |t|, big, t + rest);
    assert s[4..4 + |t|] == t;
  }

  lemma IntForm(x: int32, big: bool, rest: ByteSeq)
    ensures ReadCell(PutCell(CInt(x), big) + rest, TpInt, big) == Some(CInt(x))
  {
    hide Put, Word, Signed;
    SignedWord(x, 4);
    WordForm(if x < 0 then x + 0x1_0000_0000 else x, big, rest);
  }

  lemma Int64Form(x: int64, big: bool, rest: ByteSeq)
    ensures ReadCell(PutCell(CInt64(x), big) + rest, TpInt64, big) == Some(CInt64(x))
  {
    hide Put8, Word, Signed;
    SignedWord(x, 8);
    Word8Form(if x < 0 then x + 0x1_0000_0000_0000_0000 else x, big, rest);
  }

  /** A value in either byte order reads back, whatever follows. */
  lemma CellForm(dt: DataType, v: Cell, big: bool, rest: ByteSeq)
    requires KindOf(dt, v)
    ensures ReadCell(PutCell(v, big) + rest, dt, big) == Some(v)
  {
    hide Put, Put8, Word, Signed, Decode;
    match v
    case CBool(b) => BoolForm(if b then 1 else 0, big, rest);
    case CInt(x) => IntForm(x, big, rest);
    case CUInt(x) => WordForm(x, big, rest);
    case CInt64(x) => Int64Form(x, big, rest);
    case CFloat(x) => WordForm(x, big, rest);
    case CDouble(x) => Word8Form(x, big, rest);
    case CComplex(x, y) => WordPair(x, y, big, rest);
    case CDComplex(x, y) => Word8Pair(x, y, big, rest);
    case CString(t) => StringForm(t, big, rest);
  }

  /** Any byte but zero is true. */
  lemma BoolForm(x: Byte, big: bool, rest: ByteSeq)
    ensures ReadCell([x] + rest, TpBool, big) == Some(CBool(x != 0))
  {
    var s: ByteSeq := [x] + rest;
    assert s[..1] == [x] && s[..1][..0] == [] && s[..1][1..] == [];
    assert DecodeLe([x]) == x + 256 * DecodeLe([]) && DecodeBe([x]) == DecodeBe([]) * 256 + x;
  }

  /** What flush stores: the value in little-endian form, or zeros where the column holds another alternative. */
  lemma StoredForm(dt: DataType, v: Cell)
    requires SizeOf(dt) > 0
    ensures CellBytes(dt, v) == if KindOf(dt, v) then PutCell(v, false) else Zeros(SizeOf(dt))
    ensures KindOf(dt, v) ==> Stored(dt, v) == v
  {
    hide Put, EncodeLe;
    Widths();
    if KindOf(dt, v) {
      match v
      case CInt(x) => PutIsEncode(Unsigned(x, 4));
      case CUInt(x) => PutIsEncode(x);
      case CFloat(x) => PutIsEncode(x);
      case CComplex(x, y) => PutIsEncode(x); PutIsEncode(y);
      case CInt64(x) => Put8IsEncode(Unsigned(x, 8));
      case CDouble(x) => Put8IsEncode(x);
      case CDComplex(x, y) => Put8IsEncode(x); Put8IsEncode(y);
      case _ =>
    } else {
      ZeroBytes(4);
      ZeroBytes(8);
    }
  }

  lemma {:induction false} ZeroBytes(w: nat)
    ensures EncodeLe(0, w) == Zeros(w)
  {
    if w > 0 {
      ZeroBytes(w - 1);
    }
  }

  // ---- buckets ----

  /** An entry as a bucket stores it: the row it starts, where its value lies in the data, and the value. */
  datatype Placed = Placed(row: uint32, offset: uint32, value: Cell)

  function PutAll(vs: seq<uint32>, big: bool): (b: ByteSeq)
    ensures |b| == 4 * |vs|
  {
    if vs == [] then [] else Put(vs[0], big) + PutAll(vs[1..], big)
  }

  function RowsOf(list: seq<Placed>): (r: seq<uint32>)
    ensures |r| == |list|
  {
    seq(|list|, i requires 0 <= i < |list| => list[i].row)
  }

  function OffsetsOf(list: seq<Placed>): (o: seq<uint32>)
    ensures |o| == |list|
  {
    seq(|list|, i requires 0 <= i < |list| => list[i].offset)
  }

  function EntriesIn(list: seq<Placed>): (e: seq<Entry>)
    ensures |e| == |list|
  {
    seq(|list|, i requires 0 <= i < |list| => Entry(list[i].row, list[i].value))
  }

  /** For each column its count, its rows and its offsets. */
  function PutLists(lists: seq<seq<Placed>>, big: bool): ByteSeq
    requires forall c :: 0 <= c < |lists| ==> |lists[c]| < TWO32
  {
    if lists == [] then []
    else Put(|lists[0]|, big) + PutAll(RowsOf(lists[0]), big) + PutAll(OffsetsOf(lists[0]), big) + PutLists(lists[1..], big)
  }

  /** A bucket's data and its entries by column; `padding` fills the rest of the block. */
  datatype BucketForm = BucketForm(data: ByteSeq, lists: seq<seq<Placed>>, padding: ByteSeq)

  /** The value's bytes are in the data at the entry's offset. */
  predicate InData(e: Placed, dt: DataType, data: ByteSeq, big: bool) {
    && KindOf(dt, e.value) && e.offset <= |data| && PutCell(e.value, big) <= data[e.offset..]
  }

  predicate AllInData(list: seq<Placed>, dt: DataType, data: ByteSeq, big: bool) {
    forall i :: 0 <= i < |list| ==> InData(list[i], dt, data, big)
  }

  predicate GoodBucket(f: BucketForm, types: seq<DataType>, size: nat, big: bool) {
    && |f.lists| == |types| && size < TWO32 && 4 + |f.data| < TWO32
    && (forall c :: 0 <= c < |types| ==> 8 * |f.lists[c]| <= size)
    && (forall c :: 0 <= c < |types| ==> AllInData(f.lists[c], types[c], f.data, big))
    && |BlockOf(f, big)| == size
  }

  function BlockOf(f: BucketForm, big: bool): ByteSeq
  {
    if 4 + |f.data| < TWO32 && forall c :: 0 <= c < |f.lists| ==> |f.lists[c]| < TWO32
    then Put(4 + |f.data|, big) + f.data + PutLists(f.lists, big) + f.padding
    else []
  }

  lemma {:induction false} WordsForm(vs: seq<uint32>, big: bool, rest: ByteSeq)
    ensures ParseWords(PutAll(vs, big) + rest, |vs|, big) == Some((vs, rest))
  {
    hide Put, ParseWord;
    if vs == [] {
      assert [] + rest == rest;
    } else {
      assert PutAll(vs, big) + rest == Put(vs[0], big) + (PutAll(vs[1..], big) + rest);
      WordForm(vs[0], big, PutAll(vs[1..], big) + rest);
      WordsForm(vs[1..], big, rest);
      assert [vs[0]] + vs[1..] == vs;
    }
  }

  lemma ListForm(list: seq<Placed>, size: nat, big: bool, rest: ByteSeq)
    requires 8 * |list| <= size < TWO32
    ensures ParseColIndex(Put(|list|, big) + PutAll(RowsOf(list), big) + PutAll(OffsetsOf(list), big) + rest, size, big)
         == Some((ColIndex(RowsOf(list), OffsetsOf(list)), rest))
  {
    hide Put, PutAll, ParseWord, ParseWords;
    var a, b := PutAll(RowsOf(list), big), PutAll(OffsetsOf(list), big);
    assert Put(|list|, big) + a + b + rest == Put(|list|, big) + (a + (b + rest));
    WordForm(|list|, big, a + (b + rest));
    WordsForm(RowsOf(list), big, b + rest);
    WordsForm(OffsetsOf(list), big, rest);
  }

  function IndicesOf(lists: seq<seq<Placed>>): (r: seq<ColIndex>)
    ensures |r| == |lists|
    ensures forall c :: 0 <= c < |lists| ==> |r[c].rows| == |r[c].offsets|
  {
    seq(|lists|, c requires 0 <= c < |lists| => ColIndex(RowsOf(lists[c]), OffsetsOf(lists[c])))
  }

  lemma {:induction false} ListsForm(lists: seq<seq<Placed>>, size: nat, big: bool, rest: ByteSeq)
    requires size < TWO32 && forall c :: 0 <= c < |lists| ==> 8 * |lists[c]| <= size
    ensures ParseColIndices(PutLists(lists, big) + rest, |lists|, size, big) == Some((IndicesOf(lists), rest))
  {
    hide Put, PutAll, ParseColIndex, RowsOf, OffsetsOf;
    if lists == [] {
      assert [] + rest == rest;
    } else {
      var head := Put(|lists[0]|, big) + PutAll(RowsOf(lists[0]), big) + PutAll(OffsetsOf(lists[0]), big);
      assert PutLists(lists, big) + rest == head + (PutLists(lists[1..], big) + rest);
      ListForm(lists[0], size, big, PutLists(lists[1..], big) + rest);
      ListsForm(lists[1..], size, big, rest);
      assert IndicesOf(lists) == [ColIndex(RowsOf(lists[0]), OffsetsOf(lists[0]))] + IndicesOf(lists[1..]);
    }
  }

  /** The index behind the data is found through the first word of the block. */
  lemma BucketParsed(f: BucketForm, types: seq<DataType>, size: nat, big: bool)
    requires GoodBucket(f, types, size, big)
    ensures ParseBucket(BlockOf(f, big), |types|, big) == Some(IndicesOf(f.lists))
  {
    hide Put, PutLists, ParseColIndices, AllInData, IndicesOf;
    var block, free := BlockOf(f, big), 4 + |f.data|;
    var tail := PutLists(f.lists, big) + f.padding;
    assert block == Put(free, big) + (f.data + tail);
    WordForm(free, big, f.data + tail);
    assert block[free..] == tail;
    ListsForm(f.lists, size, big, f.padding);
  }

  /** Entries are read in index order, each from its own offset. */
  lemma {:induction false} EntriesForm(list: seq<Placed>, dt: DataType, data: ByteSeq, big: bool, rest: ByteSeq)
    requires AllInData(list, dt, data, big)
    ensures ReadEntries(data + rest, ColIndex(RowsOf(list), OffsetsOf(list)), dt, big) == Some(EntriesIn(list))
    decreases |list|
  {
    hide ReadCell, InData, RowsOf, OffsetsOf, EntriesIn;
    ListParts(list);
    if list != [] {
      EntryForm(list[0], dt, data, big, rest);
      EntriesForm(list[1..], dt, data, big, rest);
    }
  }

  lemma ListParts(list: seq<Placed>)
    ensures list == [] ==> RowsOf(list) == [] && EntriesIn(list) == []
    ensures list != [] ==>
      && RowsOf(list)[0] == list[0].row && RowsOf(list)[1..] == RowsOf(list[1..])
      && OffsetsOf(list)[0] == list[0].offset && OffsetsOf(list)[1..] == OffsetsOf(list[1..])
      && EntriesIn(list) == [Entry(list[0].row, list[0].value)] + EntriesIn(list[1..])
  {
  }

  lemma EntryForm(e: Placed, dt: DataType, data: ByteSeq, big: bool, rest: ByteSeq)
    requires InData(e, dt, data, big)
    ensures e.offset <= |data + rest| && ReadCell((data + rest)[e.offset..], dt, big) == Some(e.value)
  {
    hide ReadCell, PutCell;
    var text := PutCell(e.value, big);
    var behind := data[e.offset..][|text|..] + rest;
    assert (data + rest)[e.offset..] == text + behind;
    CellForm(dt, e.value, big, behind);
  }

  function EntriesByColumn(lists: seq<seq<Placed>>): (r: seq<seq<Entry>>)
    ensures |r| == |lists|
  {
    seq(|lists|, c requires 0 <= c < |lists| => EntriesIn(lists[c]))
  }

  lemma {:induction false} ColumnsForm(lists: seq<seq<Placed>>, types: seq<DataType>, data: ByteSeq, big: bool, rest: ByteSeq)
    requires |lists| == |types| && forall c :: 0 <= c < |types| ==> AllInData(lists[c], types[c], data, big)
    ensures BucketEntries(data + rest, IndicesOf(lists), types, big) == Some(EntriesByColumn(lists))
    decreases |types|
  {
    hide ReadEntries, AllInData, RowsOf, OffsetsOf, EntriesIn;
    if types != [] {
      var last := |types| - 1;
      ColumnsForm(lists[..last], types[..last], data, big, rest);
      EntriesForm(lists[last], types[last], data, big, rest);
      assert IndicesOf(lists)[..last] == IndicesOf(lists[..last]);
      assert EntriesByColumn(lists) == EntriesByColumn(lists[..last]) + [EntriesIn(lists[last])];
    }
  }

  // ---- files ----

  function BlocksOf(fs: seq<BucketForm>, big: bool): ByteSeq {
    if fs == [] then [] else BlocksOf(fs[..|fs| - 1], big) + BlockOf(fs[|fs| - 1], big)
  }

  predicate GoodBuckets(fs: seq<BucketForm>, types: seq<DataType>, size: nat, big: bool) {
    forall b :: 0 <= b < |fs| ==> GoodBucket(fs[b], types, size, big)
  }

  /** Entries of column c over the first b buckets, in order. */
  function ColumnEntries(fs: seq<BucketForm>, c: nat): seq<Entry>
    requires forall b :: 0 <= b < |fs| ==> c < |fs[b].lists|
  {
    if fs == [] then [] else ColumnEntries(fs[..|fs| - 1], c) + EntriesIn(fs[|fs| - 1].lists[c])
  }

  lemma {:induction false} BlocksSize(fs: seq<BucketForm>, types: seq<DataType>, size: nat, big: bool)
    requires GoodBuckets(fs, types, size, big)
    ensures |BlocksOf(fs, big)| == Times(|fs|, size)
  {
    hide BlockOf, AllInData;
    if fs == [] {
      assert Times(0, size) == 0;
    } else {
      var n := |fs| - 1;
      assert GoodBucket(fs[n], types, size, big);
      BlocksSize(fs[..n], types, size, big);
      TimesNext(n, size);
    }
  }

  /** A file of any well-formed buckets, in either byte order: the reader collects every column's entries in order. */
  lemma {:induction false} FileForm(header: ByteSeq, fs: seq<BucketForm>, types: seq<DataType>, size: nat, big: bool, rest: ByteSeq)
    requires |header| == HEADER_SIZE && GoodBuckets(fs, types, size, big)
    ensures var r := FileEntries(header + BlocksOf(fs, big) + rest, types, size, big, |fs|);
      r.Some? && forall c :: 0 <= c < |types| ==> r.value[c] == ColumnEntries(fs, c)
    decreases |fs|
  {
    hide BlockOf, AllInData, BucketEntries, ParseBucket, EntriesIn;
    if fs != [] {
      var n := |fs| - 1;
      var f, file := fs[n], header + BlocksOf(fs, big) + rest;
      assert GoodBucket(f, types, size, big);
      var before := BlocksOf(fs[..n], big);
      assert file == header + before + (BlockOf(f, big) + rest);
      FileForm(header, fs[..n], types, size, big, BlockOf(f, big) + rest);
      LastBlock(header, fs, types, size, big, rest);
    }
  }

  lemma InFile(file: ByteSeq, before: ByteSeq, block: ByteSeq, rest: ByteSeq, free: nat)
    requires file == before + block + rest && 4 <= free <= |block|
    ensures var at := |before|;
      file[at..at + |block|] == block && file[at + 4..] == block[4..free] + (block[free..] + rest)
  {
  }

  /** Where the last block lies. */
  lemma LastPlace(header: ByteSeq, fs: seq<BucketForm>, types: seq<DataType>, size: nat, big: bool, rest: ByteSeq)
    requires |header| == HEADER_SIZE && GoodBuckets(fs, types, size, big) && fs != []
    ensures var n, file := |fs| - 1, header + BlocksOf(fs, big) + rest;
      var at, block := HEADER_SIZE + Times(n, size), BlockOf(fs[n], big);
      && |block| == size && at + size <= |file| && file[at..at + size] == block
      && 4 + |fs[n].data| <= size && file[at + 4..] == fs[n].data + (block[4 + |fs[n].data|..] + rest)
  {
    hide BlockOf, BlocksOf, AllInData, Times;
    var n := |fs| - 1;
    assert GoodBucket(fs[n], types, size, big);
    BlocksSize(fs[..n], types, size, big);
    BlockData(fs[n], types, size, big);
    LastOf(fs, big);
    var before, block := header + BlocksOf(fs[..n], big), BlockOf(fs[n], big);
    assert header + (BlocksOf(fs[..n], big) + block) + rest == before + block + rest;
    InFile(header + BlocksOf(fs, big) + rest, before, block, rest, 4 + |fs[n].data|);
  }

  lemma LastOf(fs: seq<BucketForm>, big: bool)
    requires fs != []
    ensures BlocksOf(fs, big) == BlocksOf(fs[..|fs| - 1], big) + BlockOf(fs[|fs| - 1], big)
  {
  }

  /** The last bucket, where the reader finds it. */
  lemma LastBlock(header: ByteSeq, fs: seq<BucketForm>, types: seq<DataType>, size: nat, big: bool, rest: ByteSeq)
    requires |header| == HEADER_SIZE && GoodBuckets(fs, types, size, big) && fs != []
    ensures var n, file := |fs| - 1, header + BlocksOf(fs, big) + rest;
      var at, f := HEADER_SIZE + Times(n, size), fs[n];
      && at + size <= |file| && at + 4 <= |file|
      && ParseBucket(file[at..at + size], |types|, big) == Some(IndicesOf(f.lists)) && |f.lists| == |types|
      && BucketEntries(file[at + 4..], IndicesOf(f.lists), types, big) == Some(EntriesByColumn(f.lists))
  {
    hide BlockOf, BlocksOf, AllInData, BucketEntries, ParseBucket, IndicesOf, EntriesByColumn, Times;
    var f := fs[|fs| - 1];
    assert GoodBucket(f, types, size, big);
    LastPlace(header, fs, types, size, big, rest);
    BucketParsed(f, types, size, big);
    ColumnsForm(f.lists, types, f.data, big, BlockOf(f, big)[4 + |f.data|..] + rest);
  }

  lemma BlockData(f: BucketForm, types: seq<DataType>, size: nat, big: bool)
    requires GoodBucket(f, types, size, big)
    ensures 4 + |f.data| <= size && BlockOf(f, big)[4..4 + |f.data|] == f.data
  {
    hide Put, PutLists, AllInData;
  }

  // ---- headers ----

  /** A file header: any version; from 5 on a flag says whether what follows the header is big-endian. */
  datatype HeaderForm = HeaderForm(length: uint32, version: uint32, flag: Byte, bucketSize: uint32, nrBuckets: uint32,
                                   persCacheSize: uint32, padding: ByteSeq)

  function Before(f: HeaderForm, big: bool): (b: ByteSeq)
    ensures |b| == 28
  {
    Put(MAGIC, big) + Put(f.length, big) + Put(16, big) + Ascii("IncrementalStMan")
  }

  function Flag(f: HeaderForm): ByteSeq {
    if f.version >= 5 then [f.flag] else []
  }

  function PutHeader(f: HeaderForm, big: bool): ByteSeq {
    Before(f, big) + Put(f.version, big) + Flag(f)
    + Put(f.bucketSize, big) + Put(f.nrBuckets, big) + Put(f.persCacheSize, big) + f.padding
  }

  lemma WordIn(h: ByteSeq, pre: ByteSeq, v: uint32, big: bool, post: ByteSeq)
    requires h == pre + Put(v, big) + post
    ensures WordAt(h, |pre|, big) == v
  {
    hide Put;
    assert h[|pre|..|pre| + 4] == Put(v, big);
    DecodePut(v, big);
  }

  /** The frame is big-endian exactly if its length word is below 512 read that way and not below 512 read the other way. */
  lemma FrameOrderIff(h: ByteSeq)
    requires |h| >= 8
    ensures FramingIsBig(h)
       <==> 0x100_0000 * (h[4] as int) + 0x1_0000 * (h[5] as int) + 0x100 * (h[6] as int) + h[7] < 512
            && h[4] + 0x100 * (h[5] as int) + 0x1_0000 * (h[6] as int) + 0x100_0000 * (h[7] as int) >= 512
  {
    hide DecodeLe, DecodeBe;
    DecodeFour(h[4..8]);
  }

  lemma Turned(length: uint32) returns (turned: uint32)
    requires 0 < length < 512
    ensures Put(length, true) == Put(turned, false) && turned >= 512
  {
    var low, high := length % 0x100, length / 0x100;
    var m := 0x100 * low + high;
    turned := 0x1_0000 * m;
    LastByte(0x100 * m, 0);
    LastByte(m, 0);
    LastByte(low, high);
    assert turned / 0x1_0000 == m && turned / 0x100_0000 == low;
    assert length / 0x1_0000 == 0 && length / 0x100_0000 == 0;
  }

  lemma LastByte(m: nat, x: Byte)
    ensures (0x100 * m + x) % 0x100 == x && (0x100 * m + x) / 0x100 == m
  {
  }

  /** The order of the frame shows in a length below 512. */
  lemma FrameOrder(h: ByteSeq, length: uint32, big: bool)
    requires |h| >= 8 && h[4..8] == Put(length, big) && 0 < length < 512
    ensures FramingIsBig(h) == big
  {
    DecodePut(length, big);
    if big {
      hide Put;
      var turned := Turned(length);
      DecodePut(turned, false);
    }
  }

  lemma HeaderStart(f: HeaderForm, big: bool, rest: ByteSeq)
    requires 0 < f.length < 512
    ensures var h := Before(f, big) + rest;
      WordAt(h, 0, big) == MAGIC && WordAt(h, 8, big) == 16 && h[12..28] == Ascii("IncrementalStMan") && FramingIsBig(h) == big
  {
    hide Put, FramingIsBig, WordAt, Ascii;
    var h, text := Before(f, big) + rest, Ascii("IncrementalStMan");
    WordIn(h, [], MAGIC, big, Put(f.length, big) + Put(16, big) + text + rest);
    WordIn(h, Put(MAGIC, big) + Put(f.length, big), 16, big, text + rest);
    FrameOrder(h, f.length, big);
  }

  /** Every header of the type is recognised in the order it is framed in, and gives its fields and the order of the content. */
  lemma HeaderParsed(f: HeaderForm, big: bool)
    requires 0 < f.length < 512 && f.bucketSize > 0 && |PutHeader(f, big)| >= HEADER_SIZE
    ensures ParseFileHeader(PutHeader(f, big))
         == Some(FileHeader(f.bucketSize, f.nrBuckets, f.persCacheSize, if f.version >= 5 then f.flag != 0 else big, f.version))
  {
    hide Put, FramingIsBig, WordAt, Ascii;
    var h, start := PutHeader(f, big), Before(f, big);
    var core := Flag(f) + Put(f.bucketSize, big) + Put(f.nrBuckets, big) + Put(f.persCacheSize, big) + f.padding;
    assert h == start + (Put(f.version, big) + core);
    HeaderStart(f, big, Put(f.version, big) + core);
    WordIn(h, start, f.version, big, core);
    var pre := start + Put(f.version, big) + Flag(f);
    WordIn(h, pre, f.bucketSize, big, Put(f.nrBuckets, big) + Put(f.persCacheSize, big) + f.padding);
    WordIn(h, pre + Put(f.bucketSize, big), f.nrBuckets, big, Put(f.persCacheSize, big) + f.padding);
    WordIn(h, pre + Put(f.bucketSize, big) + Put(f.nrBuckets, big), f.persCacheSize, big, f.padding);
    assert f.version >= 5 ==> h[32] == f.flag;
  }

  /** What flush writes as header: version 5, little-endian content, no free buckets, -1 as the first of them, then zeros. */
  lemma FlushedHeader(nrBuckets: uint32)
    ensures HeaderBytes(nrBuckets)
         == PutHeader(HeaderForm(53, 5, 0, 32768, nrBuckets, 1, [0, 0, 0, 0, 255, 255, 255, 255, 0, 0, 0, 0] + Zeros(455)), false)
    ensures HeaderBytes(nrBuckets)[57..] == Zeros(455)
  {
    hide EncodeLe, Put, Ascii, Zeros;
    PutIsLe32(MAGIC);
    PutIsLe32(53);
    PutIsLe32(16);
    PutIsLe32(5);
    PutIsLe32(32768);
    PutIsLe32(nrBuckets);
    PutIsLe32(1);
    Constants();
  }

  lemma PutIsLe32(v: uint32)
    ensures Le32(v) == Put(v, false)
  {
    SmallMod(v, TWO32);
    PutIsEncode(v);
  }

  lemma Constants()
    ensures Le32(0) == [0, 0, 0, 0] && Le32(0xFFFF_FFFF) == [255, 255, 255, 255]
  {
    PutIsLe32(0);
    PutIsLe32(0xFFFF_FFFF);
  }

  // ---- what flush writes, in these forms ----

  lemma StoredKind(dt: DataType, v: Cell)
    requires SizeOf(dt) > 0
    ensures KindOf(dt, Stored(dt, v)) && CellBytes(dt, v) == PutCell(Stored(dt, v), false)
  {
    hide Put, Put8, EncodeLe;
    Widths();
    match Stored(dt, v)
    case CInt(x) => PutIsEncode(Unsigned(x, 4));
    case CUInt(x) => PutIsEncode(x);
    case CFloat(x) => PutIsEncode(x);
    case CComplex(x, y) => PutIsEncode(x); PutIsEncode(y);
    case CInt64(x) => Put8IsEncode(Unsigned(x, 8));
    case CDouble(x) => Put8IsEncode(x);
    case CDComplex(x, y) => Put8IsEncode(x); Put8IsEncode(y);
    case CBool(_) =>
    case CString(_) =>
  }

  /** The stored value of a cell, in little-endian form. */
  function CellText(dt: DataType, v: Cell): ByteSeq
    requires SizeOf(dt) > 0
  {
    StoredKind(dt, v);
    PutCell(Stored(dt, v), false)
  }

  /** The values of a row from column c on, one behind the other. */
  function RowText(cols: seq<Column>, n: nat, r: nat, c: nat): ByteSeq
    requires Rectangular(cols, n) && Storable(cols) && r < n && c <= |cols|
    decreases |cols| - c
  {
    if c == |cols| then [] else CellText(cols[c].dtype, cols[c].values[r]) + RowText(cols, n, r, c + 1)
  }

  function RowsText(cols: seq<Column>, n: nat, rows: seq<nat>): ByteSeq
    requires Rectangular(cols, n) && Storable(cols) && RowsIn(rows, n)
  {
    if rows == [] then [] else RowText(cols, n, rows[0], 0) + RowsText(cols, n, rows[1..])
  }

  lemma {:induction false} RowIsText(cols: seq<Column>, n: nat, r: nat, c: nat)
    requires Rectangular(cols, n) && Storable(cols) && r < n && c <= |cols|
    ensures RowBytes(cols, n, r, |cols|) == RowBytes(cols, n, r, c) + RowText(cols, n, r, c)
    decreases |cols| - c
  {
    hide CellBytes, PutCell, Stored;
    if c < |cols| {
      RowIsText(cols, n, r, c + 1);
      StoredKind(cols[c].dtype, cols[c].values[r]);
    }
  }

  lemma {:induction false} RowsTextSnoc(cols: seq<Column>, n: nat, rows: seq<nat>, r: nat)
    requires Rectangular(cols, n) && Storable(cols) && RowsIn(rows, n) && r < n
    ensures RowsText(cols, n, rows + [r]) == RowsText(cols, n, rows) + RowText(cols, n, r, 0)
  {
    hide RowText;
    if rows == [] {
      assert ([] + [r])[1..] == [];
    } else {
      RowsTextSnoc(cols, n, rows[1..], r);
      assert (rows + [r])[1..] == rows[1..] + [r];
    }
  }

  /** The data of a bucket: row by row, and in each row column by column. */
  lemma {:induction false} DataIsText(cols: seq<Column>, n: nat, rows: seq<nat>)
    requires Rectangular(cols, n) && Storable(cols) && RowsIn(rows, n)
    ensures DataBytes(cols, n, rows) == RowsText(cols, n, rows)
  {
    hide RowText, RowBytes, RecordSize, Times;
    if rows != [] {
      var last := |rows| - 1;
      DataIsText(cols, n, rows[..last]);
      RowsTextSnoc(cols, n, rows[..last], rows[last]);
      assert rows == rows[..last] + [rows[last]];
      RowIsText(cols, n, rows[last], 0);
      NoColumns(cols, n, rows[last]);
    }
  }

  lemma NoColumns(cols: seq<Column>, n: nat, r: nat)
    requires Rectangular(cols, n) && Storable(cols) && r < n
    ensures RowBytes(cols, n, r, 0) == []
  {
  }

  /** The entries of column c in a bucket of these rows: its run starts, each with the place and value of its row. */
  function EntriesFor(cols: seq<Column>, n: nat, rows: seq<nat>, c: nat): (list: seq<Placed>)
    requires Packable(cols, n, rows) && c < |cols|
    ensures |list| == |Select(cols[c].values, rows)|
  {
    ListsAreWords(cols, n, rows, c);
    var s, o := Select(cols[c].values, rows), Offsets(cols[c].values, rows, RecordSize(cols), ColOffset(cols, c));
    seq(|s|, i requires 0 <= i < |s| => Placed(s[i], o[i], Stored(cols[c].dtype, cols[c].values[s[i]])))
  }

  function FormOf(cols: seq<Column>, n: nat, rows: seq<nat>): BucketForm
    requires Packable(cols, n, rows)
  {
    ContentFits(cols, n, rows);
    BucketForm(RowsText(cols, n, rows), seq(|cols|, c requires 0 <= c < |cols| => EntriesFor(cols, n, rows, c)),
               Zeros(BUCKET_SIZE - |BucketContent(cols, n, rows)|))
  }

  lemma {:induction false} WordsArePut(vs: seq<nat>)
    requires Words(vs)
    ensures Le32s(vs) == PutAll(vs, false)
  {
    hide Le32, Put;
    if vs != [] {
      assert vs == [vs[0]] + vs[1..];
      Le32sCons(vs[0], vs[1..]);
      PutIsLe32(vs[0]);
      WordsArePut(vs[1..]);
    }
  }

  lemma {:induction false} IndexIsPut(cols: seq<Column>, n: nat, rows: seq<nat>, c: nat)
    requires Packable(cols, n, rows) && c <= |cols|
    ensures forall d :: 0 <= d < |cols| ==> |FormOf(cols, n, rows).lists[d]| < TWO32
    ensures IndexFrom(cols, n, rows, c) == PutLists(FormOf(cols, n, rows).lists[c..], false)
    decreases |cols| - c
  {
    hide Le32, Le32s, Put, PutAll, Select, Offsets, ColOffset, RowsText;
    var lists := FormOf(cols, n, rows).lists;
    forall d | 0 <= d < |cols| ensures |lists[d]| < TWO32 {
      ListsAreWords(cols, n, rows, d);
    }
    if c < |cols| {
      IndexIsPut(cols, n, rows, c + 1);
      ColumnIsPut(cols, n, rows, c);
      assert lists[c..][0] == EntriesFor(cols, n, rows, c) && lists[c..][1..] == lists[c + 1..];
    }
  }

  lemma ColumnIsPut(cols: seq<Column>, n: nat, rows: seq<nat>, c: nat)
    requires Packable(cols, n, rows) && c < |cols|
    ensures var list := EntriesFor(cols, n, rows, c);
      |list| < TWO32 && ColumnIndex(cols, n, rows, c) == Put(|list|, false) + PutAll(RowsOf(list), false) + PutAll(OffsetsOf(list), false)
  {
    hide Le32, Le32s, Put, PutAll, Select, Offsets, ColOffset;
    ListsAreWords(cols, n, rows, c);
    var s, o := Select(cols[c].values, rows), Offsets(cols[c].values, rows, RecordSize(cols), ColOffset(cols, c));
    var list := EntriesFor(cols, n, rows, c);
    assert RowsOf(list) == s && OffsetsOf(list) == o;
    WordsArePut(s);
    WordsArePut(o);
    PutIsLe32(|s|);
  }

  /** The value of entry i of a column lies in the data at its offset. */
  lemma EntryPlaced(cols: seq<Column>, n: nat, rows: seq<nat>, c: nat, i: nat)
    requires Packable(cols, n, rows) && c < |cols| && i < |EntriesFor(cols, n, rows, c)|
    ensures InData(EntriesFor(cols, n, rows, c)[i], cols[c].dtype, RowsText(cols, n, rows), false)
  {
    hide Select, Offsets, ColOffset, RowsText, DataBytes, RowBytes, CellBytes, PutCell, Stored, KindOf, Times;
    var k := OffsetsMatch(cols[c].values, rows, RecordSize(cols), ColOffset(cols, c), i);
    var size, x, lo := RecordSize(cols), Times(k, RecordSize(cols)), ColOffset(cols, c);
    var hi, data := lo + SizeOf(cols[c].dtype), DataBytes(cols, n, rows);
    RecordAt(cols, n, rows, k);
    RowAt(cols, n, rows[k], c, |cols|);
    RowSize(cols, n, rows[k]);
    SubSlice(data, x, size, lo, hi);
    DataIsText(cols, n, rows);
    StoredKind(cols[c].dtype, cols[c].values[rows[k]]);
    assert data[x + lo..x + hi] <= data[x + lo..];
  }

  /** A flushed bucket is the block of its rows' data and its columns' run starts, padded with zeros. */
  lemma FlushedBucket(cols: seq<Column>, n: nat, rows: seq<nat>)
    requires Packable(cols, n, rows)
    ensures var f := FormOf(cols, n, rows);
      && |BucketContent(cols, n, rows)| <= BUCKET_SIZE && BucketBytes(cols, n, rows) == BlockOf(f, false)
      && GoodBucket(f, TypesOf(cols), BUCKET_SIZE, false)
  {
    hide Put, PutLists, RowsText, DataBytes, IndexBytes, IndexFrom, EntriesFor, InData, Le32, Zeros;
    var f := FormOf(cols, n, rows);
    BucketShape(cols, n, rows);
    DataIsText(cols, n, rows);
    IndexSplit(cols, n, rows, 0);
    IndexBase(cols, n, rows);
    IndexIsPut(cols, n, rows, 0);
    assert f.lists[0..] == f.lists;
    PutIsLe32(4 + |f.data|);
    forall c | 0 <= c < |cols| ensures 8 * |f.lists[c]| <= BUCKET_SIZE && AllInData(f.lists[c], cols[c].dtype, f.data, false) {
      ListsAreWords(cols, n, rows, c);
      forall i | 0 <= i < |f.lists[c]| ensures InData(f.lists[c][i], cols[c].dtype, f.data, false) {
        EntryPlaced(cols, n, rows, c, i);
      }
    }
  }

  ghost predicate AllPackable(cols: seq<Column>, n: nat, buckets: seq<seq<nat>>) {
    forall b :: 0 <= b < |buckets| ==> BucketFits(cols, n, buckets[b]) && Packable(cols, n, buckets[b])
  }

  function FormsOf(cols: seq<Column>, n: nat, buckets: seq<seq<nat>>): (fs: seq<BucketForm>)
    requires AllPackable(cols, n, buckets)
    ensures |fs| == |buckets|
  {
    seq(|buckets|, b requires 0 <= b < |buckets| => FormOf(cols, n, buckets[b]))
  }

  lemma {:induction false} BucketsAreBlocks(cols: seq<Column>, n: nat, buckets: seq<seq<nat>>)
    requires AllPackable(cols, n, buckets)
    ensures BucketsBytes(cols, n, buckets) == BlocksOf(FormsOf(cols, n, buckets), false)
    ensures GoodBuckets(FormsOf(cols, n, buckets), TypesOf(cols), BUCKET_SIZE, false)
  {
    hide BucketFits, Packable, FormOf, BlockOf, GoodBucket, BucketBytes, BucketContent;
    if buckets != [] {
      var last := |buckets| - 1;
      BucketsAreBlocks(cols, n, buckets[..last]);
      FlushedBucket(cols, n, buckets[last]);
      assert FormsOf(cols, n, buckets) == FormsOf(cols, n, buckets[..last]) + [FormOf(cols, n, buckets[last])];
    }
  }

  /** A flushed file byte for byte: header, the blocks of the buckets in order, the bucket index. */
  lemma FlushedFile(cols: seq<Column>, n: nat)
    requires Flushable(cols, n) && n < TWO32
    ensures var buckets := BucketRows(cols, n);
      && AllPackable(cols, n, buckets) && |buckets| < TWO32
      && FileBytes(cols, n) == HeaderBytes(|buckets|) + BlocksOf(FormsOf(cols, n, buckets), false) + IndexFileBytes(FirstRows(buckets), n)
      && GoodBuckets(FormsOf(cols, n, buckets), TypesOf(cols), BUCKET_SIZE, false)
  {
    hide HeaderBytes, BucketsBytes, BlocksOf, FormsOf, IndexFileBytes, GoodBuckets, BucketRows, FixedSize, EntrySize, RecordSize;
    BucketRowsFit(cols, n);
    BucketsAreBlocks(cols, n, BucketRows(cols, n));
    FirstRowsStart(BucketRows(cols, n));
  }

  /** The first row of each bucket. */
  function FirstRows(buckets: seq<seq<nat>>): seq<nat> {
    if buckets == [] || buckets[0] == [] then [] else [buckets[0][0]] + FirstRows(buckets[1..])
  }

  lemma {:induction false} FirstRowsStart(buckets: seq<seq<nat>>)
    requires forall b :: 0 <= b < |buckets| ==> buckets[b] != []
    ensures FirstRows(buckets) == StartRows(buckets)
  {
    if buckets != [] {
      FirstRowsStart(buckets[1..]);
      assert StartRows(buckets) == [buckets[0][0]] + StartRows(buckets[1..]);
    }
  }
}
