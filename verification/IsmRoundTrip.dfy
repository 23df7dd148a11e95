/** What a flushed ISM file gives back: every cell, except where run compression merges zeros of opposite sign. */
module IsmRoundTrip {
  import opened Wrappers
  import opened Bytes
  import opened IsmCells
  import opened IsmRuns
  import opened IsmLayout
  import opened IsmFile

  // ---- lookup ----

  /** The value of the last entry that starts at or before the row. */
  function Lookup(entries: seq<Entry>, row: nat): Option<Cell> {
    if entries == [] then None
    else
      var last := entries[|entries| - 1];
      if last.startRow <= row then Some(last.value) else Lookup(entries[..|entries| - 1], row)
  }

  lemma LookupSnoc(entries: seq<Entry>, e: Entry, row: nat)
    ensures Lookup(entries + [e], row) == if e.startRow <= row then Some(e.value) else Lookup(entries, row)
  {
    assert (entries + [e])[..|entries|] == entries;
  }

  /** In a column's runs the lookup finds the run of the row. */
  lemma {:induction false} LookupHeads(dt: DataType, values: seq<Cell>, n: nat, r: nat)
    requires r < n <= |values|
    ensures RowsIn(Heads(values, n), |values|)
    ensures Lookup(EntriesOf(dt, values, Heads(values, n)), r) == Some(Stored(dt, values[LastHead(values, r)]))
  {
    hide Stored, CellEq, Lookup;
    HeadsAscend(values, n);
    HeadsAscend(values, n - 1);
    var before := EntriesOf(dt, values, Heads(values, n - 1));
    if IsHead(values, n - 1) {
      assert EntriesOf(dt, values, Heads(values, n)) == before + [Entry(n - 1, Stored(dt, values[n - 1]))];
      LookupSnoc(before, Entry(n - 1, Stored(dt, values[n - 1])), r);
      if r < n - 1 {
        LookupHeads(dt, values, n - 1, r);
      }
    } else if r < n - 1 {
      assert Heads(values, n) == Heads(values, n - 1);
      LookupHeads(dt, values, n - 1, r);
    } else {
      assert Heads(values, n) == Heads(values, n - 1);
      LookupHeads(dt, values, n - 1, r - 1);
      LaterRow(dt, values, n - 1);
    }
  }

  /** Past the last listed run the lookup stays with it. */
  lemma LaterRow(dt: DataType, values: seq<Cell>, n: nat)
    requires 0 < n < |values|
    ensures RowsIn(Heads(values, n), |values|)
    ensures Lookup(EntriesOf(dt, values, Heads(values, n)), n) == Lookup(EntriesOf(dt, values, Heads(values, n)), n - 1)
  {
    hide Stored, CellEq, IsHead;
    HeadsAscend(values, n);
    HeadsLast(values, n);
  }

  /** The cell of column c at row r in a file: parse the header, collect the buckets, look the row up. */
  function CellInFile(file: ByteSeq, types: seq<DataType>, c: nat, r: nat): Option<Cell>
    requires c < |types|
  {
    if |file| < HEADER_SIZE then None
    else
      var header :- ParseFileHeader(file[..HEADER_SIZE]);
      var entries :- FileEntries(file, types, header.bucketSize, header.bigEndian, header.nrBuckets);
      Lookup(entries[c], r)
  }

  /** Every cell of a flushed file reads as the stored value of the row that starts its run. */
  lemma CellOfRun(cols: seq<Column>, n: nat, c: nat, r: nat)
    requires Flushable(cols, n) && n < TWO32 && c < |cols| && r < n
    ensures CellInFile(FileBytes(cols, n), TypesOf(cols), c, r)
         == Some(Stored(cols[c].dtype, cols[c].values[LastHead(cols[c].values, r)]))
  {
    assert Rectangular(cols, n);
    hide FileBytes, ParseFileHeader, FileEntries, BucketRows, Lookup, EntriesOf, Heads, Flushable, Rectangular;
    FileRound(cols, n);
    RunsAt(cols, n, c);
    LookupHeads(cols[c].dtype, cols[c].values, n, r);
  }

  lemma RunsAt(cols: seq<Column>, n: nat, c: nat)
    requires Rectangular(cols, n) && c < |cols|
    ensures RowsIn(Heads(cols[c].values, n), |cols[c].values|)
    ensures AllRuns(cols, n)[c] == EntriesOf(cols[c].dtype, cols[c].values, Heads(cols[c].values, n))
  {
    HeadsAscend(cols[c].values, n);
  }

  // ---- exactness ----

  /** Neighbouring cells that compare equal are stored alike. */
  predicate EqualNeighboursStoredAlike(dt: DataType, values: seq<Cell>) {
    forall r :: 0 < r < |values| && CellEq(values[r], values[r - 1]) ==>
      Stored(dt, values[r]) == Stored(dt, values[r - 1])
  }

  lemma {:induction false} RunStoredAlike(dt: DataType, values: seq<Cell>, r: nat)
    requires r < |values| && EqualNeighboursStoredAlike(dt, values)
    ensures Stored(dt, values[LastHead(values, r)]) == Stored(dt, values[r])
  {
    hide Stored, CellEq;
    if !IsHead(values, r) {
      RunStoredAlike(dt, values, r - 1);
    }
  }

  /**
   * The file gives back a column exactly if and only if neighbouring cells of the column that compare equal are
   * stored alike.
   */
  lemma ExactIff(cols: seq<Column>, n: nat, c: nat)
    requires Flushable(cols, n) && n < TWO32 && c < |cols|
    ensures (forall r: nat :: r < n ==>
               CellInFile(FileBytes(cols, n), TypesOf(cols), c, r) == Some(Stored(cols[c].dtype, cols[c].values[r])))
       <==> EqualNeighboursStoredAlike(cols[c].dtype, cols[c].values)
  {
    hide FileBytes, CellInFile, Stored, CellEq, Storable, EntryFits;
    var dt, values := cols[c].dtype, cols[c].values;
    forall r: nat | r < n
      ensures CellInFile(FileBytes(cols, n), TypesOf(cols), c, r) == Some(Stored(dt, values[LastHead(values, r)]))
    {
      CellOfRun(cols, n, c, r);
    }
    if EqualNeighboursStoredAlike(dt, values) {
      forall r: nat | r < n ensures Stored(dt, values[LastHead(values, r)]) == Stored(dt, values[r]) {
        RunStoredAlike(dt, values, r);
      }
    } else {
      var r :| 0 < r < |values| && CellEq(values[r], values[r - 1]) && Stored(dt, values[r]) != Stored(dt, values[r - 1]);
      assert LastHead(values, r) == LastHead(values, r - 1);
    }
  }

  /** A floating-point part that is zero, of either sign. */
  predicate HasZero(v: Cell) {
    match v
    case CFloat(x) => x % 0x8000_0000 == 0
    case CDouble(x) => x % 0x8000_0000_0000_0000 == 0
    case CComplex(x, y) => x % 0x8000_0000 == 0 || y % 0x8000_0000 == 0
    case CDComplex(x, y) => x % 0x8000_0000_0000_0000 == 0 || y % 0x8000_0000_0000_0000 == 0
    case _ => false
  }

  /** Only zeros can compare equal without being identical, so a column without them is always exact. */
  lemma NoZerosIsExact(dt: DataType, values: seq<Cell>)
    requires forall r :: 0 <= r < |values| ==> !HasZero(values[r])
    ensures EqualNeighboursStoredAlike(dt, values)
  {
    hide Stored;
    forall r | 0 < r < |values| && CellEq(values[r], values[r - 1])
      ensures values[r] == values[r - 1]
    {
    }
  }

  /** Column [+0.0, -0.0]: the second row comes back as +0.0. */
  lemma NegativeZeroIsLost()
    ensures var col := Column([], TpDouble, [CDouble(0), CDouble(0x8000_0000_0000_0000)]);
      && Flushable([col], 2)
      && CellInFile(FileBytes([col], 2), [TpDouble], 0, 1) == Some(CDouble(0))
      && Stored(TpDouble, col.values[1]) == CDouble(0x8000_0000_0000_0000)
  {
    hide FileBytes, CellInFile;
    var col := Column([], TpDouble, [CDouble(0), CDouble(0x8000_0000_0000_0000)]);
    assert ColOffset([col], 0) == 0 && RecordSize([col]) == 8;
    assert TypesOf([col]) == [TpDouble];
    CellOfRun([col], 2, 0, 1);
    assert IsHead(col.values, 0) && !IsHead(col.values, 1);
  }

  // ---- sequences of write_cell calls ----

  datatype Write = Write(col: nat, value: Cell, row: nat)

  function WithCell(cols: seq<Column>, w: Write): (r: seq<Column>)
    requires w.col < |cols| && w.row < |cols[w.col].values|
    ensures |r| == |cols|
  {
    cols[w.col := cols[w.col].(values := cols[w.col].values[w.row := w.value])]
  }

  predicate InRange(ws: seq<Write>, ncols: nat, n: nat) {
    forall i :: 0 <= i < |ws| ==> ws[i].col < ncols && ws[i].row < n
  }

  /** The table after these writes. */
  function Written(cols: seq<Column>, n: nat, ws: seq<Write>): (r: seq<Column>)
    requires Rectangular(cols, n) && InRange(ws, |cols|, n)
    ensures Rectangular(r, n) && |r| == |cols|
  {
    if ws == [] then cols else WithCell(Written(cols, n, ws[..|ws| - 1]), ws[|ws| - 1])
  }

  /** The value of the last write to a cell, or what it held before. */
  function LastWritten(ws: seq<Write>, c: nat, r: nat, initial: Cell): Cell {
    if ws == [] then initial
    else
      var w := ws[|ws| - 1];
      if w.col == c && w.row == r then w.value else LastWritten(ws[..|ws| - 1], c, r, initial)
  }

  lemma {:induction false} WrittenCell(cols: seq<Column>, n: nat, ws: seq<Write>, c: nat, r: nat)
    requires Rectangular(cols, n) && InRange(ws, |cols|, n) && c < |cols| && r < n
    ensures Written(cols, n, ws)[c].values[r] == LastWritten(ws, c, r, cols[c].values[r])
    ensures Written(cols, n, ws)[c].dtype == cols[c].dtype && Written(cols, n, ws)[c].name == cols[c].name
  {
    if ws != [] {
      WrittenCell(cols, n, ws[..|ws| - 1], c, r);
    }
  }

  lemma {:induction false} WrittenLayout(cols: seq<Column>, n: nat, ws: seq<Write>)
    requires Rectangular(cols, n) && InRange(ws, |cols|, n)
    ensures TypesOf(Written(cols, n, ws)) == TypesOf(cols)
  {
    if ws != [] {
      WrittenLayout(cols, n, ws[..|ws| - 1]);
      forall c | 0 <= c < |cols| ensures Written(cols, n, ws)[c].dtype == cols[c].dtype {
        assert TypesOf(cols)[c] == cols[c].dtype;
        assert TypesOf(Written(cols, n, ws[..|ws| - 1]))[c] == cols[c].dtype;
      }
    }
  }

  lemma {:induction false} SameTypesSameOffsets(a: seq<Column>, b: seq<Column>, c: nat)
    requires TypesOf(a) == TypesOf(b) && c <= |a|
    ensures |a| == |b| && ColOffset(a, c) == ColOffset(b, c)
  {
    assert |TypesOf(a)| == |TypesOf(b)|;
    if c > 0 {
      SameTypesSameOffsets(a, b, c - 1);
      assert TypesOf(a)[c - 1] == TypesOf(b)[c - 1];
    }
  }

  lemma WrittenFlushable(cols: seq<Column>, n: nat, ws: seq<Write>)
    requires Flushable(cols, n) && InRange(ws, |cols|, n)
    ensures Flushable(Written(cols, n, ws), n)
  {
    hide Written;
    var t := Written(cols, n, ws);
    WrittenLayout(cols, n, ws);
    SameTypesSameOffsets(cols, t, |cols|);
    forall c | 0 <= c < |t| ensures SizeOf(t[c].dtype) > 0 {
      assert TypesOf(t)[c] == t[c].dtype && TypesOf(cols)[c] == cols[c].dtype;
    }
  }

  /**
   * End to end: after any sequence of in-range writes to a table that fits the format, a flushed file gives back,
   * for every cell, the value last written to it in the form its column stores, provided neighbouring cells that
   * compare equal are stored alike.
   */
  lemma ReadBack(cols: seq<Column>, n: nat, ws: seq<Write>, c: nat, r: nat)
    requires Flushable(cols, n) && n < TWO32 && InRange(ws, |cols|, n) && c < |cols| && r < n
    requires EqualNeighboursStoredAlike(cols[c].dtype, Written(cols, n, ws)[c].values)
    ensures Flushable(Written(cols, n, ws), n)
    ensures CellInFile(FileBytes(Written(cols, n, ws), n), TypesOf(cols), c, r)
         == Some(Stored(cols[c].dtype, LastWritten(ws, c, r, cols[c].values[r])))
  {
    assert Rectangular(cols, n);
    hide FileBytes, CellInFile, Stored, CellEq, Written, LastWritten, TypesOf, Flushable, EqualNeighboursStoredAlike;
    var t := Written(cols, n, ws);
    WrittenFlushable(cols, n, ws);
    WrittenLayout(cols, n, ws);
    WrittenCell(cols, n, ws, c, r);
    CellOfRun(t, n, c, r);
    RunStoredAlike(cols[c].dtype, t[c].values, r);
  }

  // ---- compression is minimal ----

  /** Row p stands for row r in a column: r itself or a row that compares equal. */
  predicate StandsFor(values: seq<Cell>, p: nat, r: nat)
    requires p < |values| && r < |values|
  {
    p == r || CellEq(values[r], values[p])
  }

  /** The listed row closest below r stands for r. */
  ghost predicate Covered(values: seq<Cell>, rows: set<nat>, r: nat)
    requires r < |values|
  {
    exists p: nat :: p in rows && p <= r && StandsFor(values, p, r) && forall q :: q in rows ==> q <= p || q > r
  }

  lemma HeadsCover(values: seq<Cell>, r: nat)
    requires r < |values|
    ensures Covered(values, (set h | h in Heads(values, |values|)), r)
  {
    hide CellEq;
    var rows := set h | h in Heads(values, |values|);
    HeadsAscend(values, |values|);
    var p := LastHead(values, r);
    RunEqualsHead(values, r);
    LastHeadIsLast(values, r);
    assert p in rows && StandsFor(values, p, r);
  }

  lemma {:induction false} LastHeadIsLast(values: seq<Cell>, r: nat)
    requires r < |values|
    ensures forall q: nat :: q <= r && IsHead(values, q) ==> q <= LastHead(values, r)
  {
    if !IsHead(values, r) {
      LastHeadIsLast(values, r - 1);
    }
  }

  /** Any set of rows that stands for the whole column contains every run start: no encoding has fewer entries. */
  lemma HeadsAreMinimal(values: seq<Cell>, rows: set<nat>)
    requires forall r: nat :: r < |values| ==> Covered(values, rows, r)
    ensures |Heads(values, |values|)| <= |rows|
  {
    hide CellEq;
    var heads := Heads(values, |values|);
    HeadsAscend(values, |values|);
    forall h | h in heads ensures h in rows {
      HeadIsNeeded(values, rows, h);
    }
    ElementsBelow(heads, rows);
  }

  lemma HeadIsNeeded(values: seq<Cell>, rows: set<nat>, h: nat)
    requires forall r: nat :: r < |values| ==> Covered(values, rows, r)
    requires h < |values| && IsHead(values, h)
    ensures h in rows
  {
    hide CellEq;
    assert Covered(values, rows, h);
    var p: nat :| p in rows && p <= h && StandsFor(values, p, h) && forall q :: q in rows ==> q <= p || q > h;
    if p < h {
      assert Covered(values, rows, h - 1);
      var p': nat :| p' in rows && p' <= h - 1 && StandsFor(values, p', h - 1) && forall q :: q in rows ==> q <= p' || q > h - 1;
      assert p' == p;
      if p < h - 1 {
        EqSymmetric(values[h - 1], values[p]);
        EqTransitive(values[h], values[p], values[h - 1]);
      }
    }
  }

  lemma {:induction false} ElementsBelow(s: seq<nat>, rows: set<nat>)
    requires forall i, j :: 0 <= i < j < |s| ==> s[i] < s[j]
    requires forall x :: x in s ==> x in rows
    ensures |s| <= |rows|
  {
    if s != [] {
      var x := s[|s| - 1];
      forall y | y in s[..|s| - 1] ensures y in rows - {x} {
      }
      ElementsBelow(s[..|s| - 1], rows - {x});
    }
  }

  // ---- buckets follow each other ----

  lemma {:induction false} CutOrdered(rows: seq<nat>, sizes: seq<nat>, i: nat, j: nat, x: nat, y: nat)
    requires Total(sizes) == |rows| && forall a, b :: 0 <= a < b < |rows| ==> rows[a] < rows[b]
    requires i < j < |sizes| && x in Cut(rows, sizes)[i] && y in Cut(rows, sizes)[j]
    ensures x < y
    decreases |sizes|
  {
    var rest := rows[sizes[0]..];
    assert Cut(rows, sizes)[j] == Cut(rest, sizes[1..])[j - 1];
    if i > 0 {
      CutOrdered(rest, sizes[1..], i - 1, j - 1, x, y);
    } else {
      CutWithin(rest, sizes[1..], j - 1, y);
    }
  }

  lemma {:induction false} CutWithin(rows: seq<nat>, sizes: seq<nat>, j: nat, y: nat)
    requires Total(sizes) == |rows| && j < |sizes| && y in Cut(rows, sizes)[j]
    ensures y in rows
    decreases |sizes|
  {
    if j > 0 {
      assert Cut(rows, sizes)[j] == Cut(rows[sizes[0]..], sizes[1..])[j - 1];
      CutWithin(rows[sizes[0]..], sizes[1..], j - 1, y);
    }
  }

  /** Bucket start rows strictly increase, and the rows of a bucket lie between its start and the next start. */
  lemma BucketsInOrder(cols: seq<Column>, n: nat, i: nat, x: nat)
    requires Flushable(cols, n) && i < |BucketRows(cols, n)| && x in BucketRows(cols, n)[i]
    ensures forall b :: 0 <= b < |BucketRows(cols, n)| ==> BucketRows(cols, n)[b] != []
    ensures var starts := StartRows(BucketRows(cols, n));
      && starts[i] <= x < n
      && (i + 1 < |starts| ==> x < starts[i + 1])
      && (i + 1 < |starts| ==> starts[i] < starts[i + 1])
  {
    hide EntrySize, FixedSize, RecordSize, Changed;
    var rows := EntryRows(cols, n, n);
    var sizes := Plan(|rows|, |cols|, RecordSize(cols));
    var buckets := BucketRows(cols, n);
    BucketRowsFit(cols, n);
    EntryRowsAscend(cols, n, n);
    PlanTotal(|rows|, |cols|, RecordSize(cols));
    CutWithin(rows, sizes, i, x);
    CutAscends(rows, sizes, i);
    if i + 1 < |buckets| {
      CutOrdered(rows, sizes, i, i + 1, x, buckets[i + 1][0]);
      CutOrdered(rows, sizes, i, i + 1, buckets[i][0], buckets[i + 1][0]);
    }
  }

  lemma {:induction false} CutAscends(rows: seq<nat>, sizes: seq<nat>, i: nat)
    requires Total(sizes) == |rows| && i < |sizes|
    requires forall a, b :: 0 <= a < b < |rows| ==> rows[a] < rows[b]
    ensures var part := Cut(rows, sizes)[i]; forall a, b :: 0 <= a < b < |part| ==> part[a] < part[b]
    decreases |sizes|
  {
    if i > 0 {
      assert Cut(rows, sizes)[i] == Cut(rows[sizes[0]..], sizes[1..])[i - 1];
      CutAscends(rows[sizes[0]..], sizes[1..], i - 1);
    }
  }

  // ---- what flush demands of its caller ----

  lemma {:induction false} SingleEntryIndex(cols: seq<Column>, n: nat, c: nat)
    requires Rectangular(cols, n) && n > 0 && c <= |cols|
    ensures RowsIn([0], n) && |IndexBytes(cols, n, [0], c)| == 12 * c
  {
    hide Select, Offsets, ColOffset, Le32;
    if c > 0 {
      SingleEntryIndex(cols, n, c - 1);
      SelectFirst(cols[c - 1].values);
    }
  }

  lemma SelectFirst(values: seq<Cell>)
    requires values != []
    ensures RowsIn([0], |values|) && |Select(values, [0])| == 1
  {
    hide CellEq;
    assert ([0])[..0] == [];
    assert Select(values, []) == [];
  }

  /**
   * When one entry does not fit, flush still puts the first row alone into the first bucket, and that bucket's
   * content exceeds the block it is written to: the fitting condition is exactly what keeps flush inside it.
   */
  lemma UnfittingOverflows(cols: seq<Column>, n: nat)
    requires Rectangular(cols, n) && Storable(cols) && n > 0 && !EntryFits(cols)
    ensures RowsIn([0], n) && BucketRows(cols, n) != [] && BucketRows(cols, n)[0] == [0]
    ensures |BucketContent(cols, n, [0])| > BUCKET_SIZE
  {
    hide Changed, RecordSize, Le32, IndexBytes, DataBytes;
    SingleEntryIndex(cols, n, |cols|);
    SizeSum(|cols|, 1, RecordSize(cols));
    var rows := EntryRows(cols, n, n);
    EntryRowsAscend(cols, n, n);
    PlanTotal(|rows|, |cols|, RecordSize(cols));
    assert TakeCount(|rows|, 0, FixedSize(|cols|), EntrySize(|cols|, RecordSize(cols))) == 1;
    assert rows[..1] == [0];
  }
}
