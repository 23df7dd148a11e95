/** IsmReader of src/incremental_stman.cpp: opening a file step by step and searching the entries. */
module IsmReading {
  import opened Arithmetic
  import opened Wrappers
  import opened Bytes
  import opened AipsIo
  import opened IsmCells
  import opened IsmRuns
  import opened IsmLayout
  import opened IsmFile
  import opened IsmRoundTrip
  import opened IsmWriting

  // ---- the table description ----

  datatype StorageManager = StorageManager(typeName: ByteSeq, sequenceNumber: nat)
  datatype ColumnSetup = ColumnSetup(name: ByteSeq, sequenceNumber: nat)
  datatype TableDat = TableDat(rowCount: nat, managers: seq<StorageManager>, setups: seq<ColumnSetup>, descs: seq<ColumnDesc>)

  datatype ReaderColumn = ReaderColumn(name: ByteSeq, dtype: DataType, entries: seq<Entry>)

  /** The type of the first column described under this name. */
  function TypeOf(descs: seq<ColumnDesc>, name: ByteSeq): Option<DataType> {
    if descs == [] then None
    else if descs[0].name == name then Some(descs[0].dtype)
    else TypeOf(descs[1..], name)
  }

  /** The columns set up for a storage manager, without entries; nothing when one is not described. */
  function Resolve(setups: seq<ColumnSetup>, descs: seq<ColumnDesc>, sequenceNumber: nat): Option<seq<ReaderColumn>> {
    if setups == [] then Some([])
    else
      var s := setups[|setups| - 1];
      var before :- Resolve(setups[..|setups| - 1], descs, sequenceNumber);
      if s.sequenceNumber != sequenceNumber then Some(before)
      else
        var dtype :- TypeOf(descs, s.name);
        Some(before + [ReaderColumn(s.name, dtype, [])])
  }

  lemma {:induction false} ResolveFails(setups: seq<ColumnSetup>, descs: seq<ColumnDesc>, sequenceNumber: nat, k: nat)
    requires k <= |setups| && Resolve(setups[..k], descs, sequenceNumber).None?
    ensures Resolve(setups, descs, sequenceNumber).None?
    decreases |setups|
  {
    if k < |setups| {
      assert setups[..|setups| - 1][..k] == setups[..k];
      ResolveFails(setups[..|setups| - 1], descs, sequenceNumber, k);
    } else {
      assert setups[..k] == setups;
    }
  }

  function ColumnTypes(cols: seq<ReaderColumn>): (t: seq<DataType>)
    ensures |t| == |cols|
  {
    seq(|cols|, c requires 0 <= c < |cols| => cols[c].dtype)
  }

  function WithEntries(cols: seq<ReaderColumn>, e: seq<seq<Entry>>): (r: seq<ReaderColumn>)
    requires |cols| == |e|
    ensures |r| == |cols|
  {
    seq(|cols|, c requires 0 <= c < |cols| => cols[c].(entries := cols[c].entries + e[c]))
  }

  /** The columns of a reader after open, before sorting; open adds to the columns it finds. */
  function Opened(before: seq<ReaderColumn>, file: ByteSeq, smIndex: nat, table: TableDat): Option<seq<ReaderColumn>> {
    if smIndex >= |table.managers| then None
    else
      var sm := table.managers[smIndex];
      if sm.typeName != Ascii("IncrementalStMan") || |file| < HEADER_SIZE then None
      else
        var header :- ParseFileHeader(file[..HEADER_SIZE]);
        var added :- Resolve(table.setups, table.descs, sm.sequenceNumber);
        var cols := before + added;
        var e :- FileEntries(file, ColumnTypes(cols), header.bucketSize, header.bigEndian, header.nrBuckets);
        Some(WithEntries(cols, e))
  }

  // ---- parsing with a cursor ----

  /** Little-endian or big-endian word at a position. */
  method ReadWords(bucket: ByteSeq, at: nat, n: nat, big: bool) returns (r: Option<seq<uint32>>)
    requires at <= |bucket|
    ensures r.Some? <==> ParseWords(bucket[at..], n, big).Some?
    ensures r.Some? ==> |r.value| == n && at + 4 * n <= |bucket|
                        && ParseWords(bucket[at..], n, big) == Some((r.value, bucket[at + 4 * n..]))
  {
    hide ParseWord;
    var words := [];
    var pos := at;
    var i := 0;
    ContinueEmpty(ParseWords(bucket[at..], n, big));
    while i < n
      invariant i <= n && |words| == i && pos == at + 4 * i <= |bucket|
      invariant ParseWords(bucket[at..], n, big) == Continue(words, ParseWords(bucket[pos..], n - i, big))
    {
      WordStep(bucket, pos, big);
      if pos + 4 > |bucket| {
        return None;
      }
      var w := WordAt(bucket, pos, big);
      ContinueMore(words, w, ParseWords(bucket[pos + 4..], n - i - 1, big));
      words := words + [w];
      pos := pos + 4;
      i := i + 1;
    }
    assert words + [] == words;
    return Some(words);
  }

  lemma WordStep(bucket: ByteSeq, pos: nat, big: bool)
    requires pos <= |bucket|
    ensures pos + 4 > |bucket| ==> ParseWord(bucket[pos..], big) == None
    ensures pos + 4 <= |bucket| ==> ParseWord(bucket[pos..], big) == Some((WordAt(bucket, pos, big), bucket[pos + 4..]))
  {
    if pos + 4 <= |bucket| {
      assert bucket[pos..][..4] == bucket[pos..pos + 4] && bucket[pos..][4..] == bucket[pos + 4..];
    }
  }

  /** One column's index at a position of the bucket, and the position after it. */
  method ReadColIndex(bucket: ByteSeq, at: nat, big: bool) returns (r: Option<(ColIndex, nat)>)
    requires at <= |bucket|
    ensures r.Some? <==> ParseColIndex(bucket[at..], |bucket|, big).Some?
    ensures r.Some? ==> r.value.1 <= |bucket|
                        && ParseColIndex(bucket[at..], |bucket|, big) == Some((r.value.0, bucket[r.value.1..]))
  {
    hide ParseWord, ParseWords;
    WordStep(bucket, at, big);
    if at + 4 > |bucket| {
      return None;
    }
    var count := WordAt(bucket, at, big);
    var pos := at + 4;
    if count > |bucket| / 8 {
      return None;
    }
    var rows := ReadWords(bucket, pos, count, big);
    if rows.None? {
      return None;
    }
    pos := pos + 4 * count;
    var offsets := ReadWords(bucket, pos, count, big);
    if offsets.None? {
      return None;
    }
    pos := pos + 4 * count;
    return Some((ColIndex(rows.value, offsets.value), pos));
  }

  /** parse_ism_bucket_indices */
  method ReadIndices(bucket: ByteSeq, ncols: nat, big: bool) returns (indices: Option<seq<ColIndex>>)
    ensures indices == ParseBucket(bucket, ncols, big)
  {
    hide ParseWord, ParseColIndex;
    assert bucket[0..] == bucket;
    WordStep(bucket, 0, big);
    if |bucket| < 4 {
      return None;
    }
    var free := WordAt(bucket, 0, big);
    if free > |bucket| || free < 4 {
      return None;
    }
    var pos: nat := free;
    var found := [];
    var c := 0;
    ContinueEmpty(ParseColIndices(bucket[free..], ncols, |bucket|, big));
    while c < ncols
      invariant c <= ncols && |found| == c && pos <= |bucket|
      invariant ParseColIndices(bucket[free..], ncols, |bucket|, big)
             == Continue(found, ParseColIndices(bucket[pos..], ncols - c, |bucket|, big))
    {
      var r := ReadColIndex(bucket, pos, big);
      if r.None? {
        return None;
      }
      ContinueMore(found, r.value.0, ParseColIndices(bucket[r.value.1..], ncols - c - 1, |bucket|, big));
      found := found + [r.value.0];
      pos := r.value.1;
      c := c + 1;
    }
    assert found + [] == found;
    return Some(found);
  }

  /** The entries one column has in a bucket; `s` starts at the bucket's data origin. */
  method ReadColumn(s: ByteSeq, index: ColIndex, dtype: DataType, big: bool) returns (e: Option<seq<Entry>>)
    requires |index.rows| == |index.offsets|
    ensures e == ReadEntries(s, index, dtype, big)
  {
    hide ReadCell;
    var entries: seq<Entry> := [];
    var i := 0;
    assert index == Rest(index, 0);
    AfterNothing(ReadEntries(s, index, dtype, big));
    while i < |index.rows|
      invariant i <= |index.rows|
      invariant ReadEntries(s, index, dtype, big) == After(entries, ReadEntries(s, Rest(index, i), dtype, big))
    {
      assert Rest(index, i + 1) == ColIndex(Rest(index, i).rows[1..], Rest(index, i).offsets[1..]);
      if index.offsets[i] > |s| {
        return None;
      }
      var v := ReadCell(s[index.offsets[i]..], dtype, big);
      if v.None? {
        return None;
      }
      AfterMore(entries, Entry(index.rows[i], v.value), ReadEntries(s, Rest(index, i + 1), dtype, big));
      entries := entries + [Entry(index.rows[i], v.value)];
      i := i + 1;
    }
    assert entries + [] == entries;
    return Some(entries);
  }

  ghost function Rest(index: ColIndex, i: nat): (r: ColIndex)
    requires |index.rows| == |index.offsets| && i <= |index.rows|
    ensures |r.rows| == |r.offsets| == |index.rows| - i
  {
    ColIndex(index.rows[i..], index.offsets[i..])
  }

  ghost function After(xs: seq<Entry>, p: Option<seq<Entry>>): Option<seq<Entry>> {
    var ys :- p;
    Some(xs + ys)
  }

  lemma AfterNothing(p: Option<seq<Entry>>)
    ensures After([], p) == p
  {
    if p.Some? {
      assert [] + p.value == p.value;
    }
  }

  lemma AfterMore(xs: seq<Entry>, x: Entry, p: Option<seq<Entry>>)
    ensures After(xs, After([x], p)) == After(xs + [x], p)
  {
    if p.Some? {
      assert xs + ([x] + p.value) == xs + [x] + p.value;
    }
  }

  // ---- sorting ----

  predicate SortedByRow(e: seq<Entry>) {
    forall i, j :: 0 <= i < j < |e| ==> e[i].startRow <= e[j].startRow
  }

  /** The result of sorting: std::sort leaves the order of entries with equal start rows open. */
  ghost predicate SortOf(s: seq<Entry>, e: seq<Entry>) {
    SortedByRow(s) && multiset(s) == multiset(e)
  }

  method SortEntries(e: seq<Entry>) returns (s: seq<Entry>)
    ensures SortOf(s, e)
  {
    s := [];
    var i := 0;
    while i < |e|
      invariant i <= |e| && SortOf(s, e[..i])
    {
      s := InsertEntry(s, e[i]);
      assert e[..i + 1] == e[..i] + [e[i]];
      i := i + 1;
    }
    assert e[..i] == e;
  }

  method InsertEntry(s: seq<Entry>, x: Entry) returns (t: seq<Entry>)
    requires SortedByRow(s)
    ensures SortOf(t, s + [x])
  {
    var k: nat := |s|;
    while k > 0 && s[k - 1].startRow > x.startRow
      invariant 0 <= k <= |s| && forall i :: k <= i < |s| ==> s[i].startRow > x.startRow
    {
      k := k - 1;
    }
    t := s[..k] + [x] + s[k..];
    InsertSorts(s, x, k);
    InsertKeeps(s, x, k);
  }

  lemma InsertSorts(s: seq<Entry>, x: Entry, k: nat)
    requires SortedByRow(s) && k <= |s| && (k > 0 ==> s[k - 1].startRow <= x.startRow)
    requires forall i :: k <= i < |s| ==> s[i].startRow > x.startRow
    ensures SortedByRow(s[..k] + [x] + s[k..])
  {
  }

  lemma InsertKeeps(s: seq<Entry>, x: Entry, k: nat)
    requires k <= |s|
    ensures multiset(s[..k] + [x] + s[k..]) == multiset(s + [x])
  {
    assert s == s[..k] + s[k..];
  }

  /** Entries with strictly ascending rows have only one sorted order. */
  lemma {:induction false} SortUnique(s: seq<Entry>, e: seq<Entry>)
    requires SortOf(s, e) && forall i, j :: 0 <= i < j < |e| ==> e[i].startRow < e[j].startRow
    ensures s == e
    decreases |e|
  {
    SameCount(s, e);
    if e != [] {
      var k := |e| - 1;
      SameLast(s, e);
      FrontSort(s, e);
      SortUnique(s[..k], e[..k]);
      assert s == s[..k] + [s[k]] && e == e[..k] + [e[k]];
    }
  }

  lemma SameCount(s: seq<Entry>, e: seq<Entry>)
    requires multiset(s) == multiset(e)
    ensures |s| == |e|
  {
    assert |multiset(s)| == |s| && |multiset(e)| == |e|;
  }

  lemma FrontSort(s: seq<Entry>, e: seq<Entry>)
    requires SortOf(s, e) && s != [] && e != [] && s[|s| - 1] == e[|e| - 1]
    ensures SortOf(s[..|s| - 1], e[..|e| - 1])
  {
    FrontCount(s);
    FrontCount(e);
  }

  lemma FrontCount(s: seq<Entry>)
    requires s != []
    ensures multiset(s[..|s| - 1]) == multiset(s) - multiset{s[|s| - 1]}
  {
    assert s == s[..|s| - 1] + [s[|s| - 1]];
  }

  lemma SameLast(s: seq<Entry>, e: seq<Entry>)
    requires SortOf(s, e) && |s| == |e| > 0 && forall i, j :: 0 <= i < j < |e| ==> e[i].startRow < e[j].startRow
    ensures s[|s| - 1] == e[|e| - 1]
  {
    var k := |e| - 1;
    assert s[k] in multiset(e) && e[k] in multiset(s);
    var i :| 0 <= i < |e| && e[i] == s[k];
    var j :| 0 <= j < |s| && s[j] == e[k];
    assert s[j].startRow <= s[k].startRow;
  }

  // ---- the reader ----

  function FindColumn(cols: seq<ReaderColumn>, name: ByteSeq): (i: nat)
    ensures i <= |cols|
    ensures i < |cols| ==> cols[i].name == name
    ensures forall j :: 0 <= j < i ==> cols[j].name != name
  {
    if cols == [] then 0 else if cols[0].name == name then 0
    else
      var i := FindColumn(cols[1..], name);
      assert forall j :: 1 <= j < i + 1 ==> cols[j] == cols[1..][j - 1];
      i + 1
  }

  /** read_cell: the last entry at or before the row in the first column of this name. */
  function CellOf(cols: seq<ReaderColumn>, rowCount: nat, name: ByteSeq, row: nat): Option<Cell> {
    var i := FindColumn(cols, name);
    if i == |cols| || row >= rowCount then None else Lookup(cols[i].entries, row)
  }

  /** The value of entry k: the last one of the first column of this name that starts at or before the row. */
  ghost predicate Answers(cols: seq<ReaderColumn>, name: ByteSeq, row: nat, c: nat, k: nat) {
    && c < |cols| && cols[c].name == name && (forall d :: 0 <= d < c ==> cols[d].name != name)
    && k < |cols[c].entries| && cols[c].entries[k].startRow <= row
    && forall j :: k < j < |cols[c].entries| ==> cols[c].entries[j].startRow > row
  }

  lemma {:induction false} LookupIsLast(entries: seq<Entry>, row: nat) returns (k: nat)
    ensures match Lookup(entries, row)
      case None => forall j :: 0 <= j < |entries| ==> entries[j].startRow > row
      case Some(v) =>
        && k < |entries| && entries[k].startRow <= row && entries[k].value == v
        && forall j :: k < j < |entries| ==> entries[j].startRow > row
  {
    k := 0;
    if entries != [] {
      var last := |entries| - 1;
      k := last;
      if entries[last].startRow > row {
        k := LookupIsLast(entries[..last], row);
      }
    }
  }

  /** read_cell has an answer exactly for rows of the table and names with an entry at or before the row, and it is that entry's value. */
  lemma CellAnswered(cols: seq<ReaderColumn>, rowCount: nat, name: ByteSeq, row: nat)
    ensures CellOf(cols, rowCount, name, row).Some? <==> row < rowCount && exists c: nat, k: nat :: Answers(cols, name, row, c, k)
    ensures forall c: nat, k: nat :: row < rowCount && Answers(cols, name, row, c, k) ==>
      CellOf(cols, rowCount, name, row) == Some(cols[c].entries[k].value)
  {
    hide Lookup, FindColumn;
    var i := FindColumn(cols, name);
    if i < |cols| {
      var k := LookupIsLast(cols[i].entries, row);
      assert Lookup(cols[i].entries, row).Some? ==> Answers(cols, name, row, i, k);
      forall c: nat, j: nat | Answers(cols, name, row, c, j) ensures c == i && Lookup(cols[i].entries, row) == Some(cols[i].entries[j].value) {
        assert c == i;
        assert j == k;
      }
    }
  }

  // ---- which columns a manager has ----

  /** Names set up for the manager, in order. */
  function SetUpFor(setups: seq<ColumnSetup>, sequenceNumber: nat): seq<ByteSeq> {
    if setups == [] then []
    else (if setups[0].sequenceNumber == sequenceNumber then [setups[0].name] else []) + SetUpFor(setups[1..], sequenceNumber)
  }

  lemma {:induction false} SetUpSnoc(setups: seq<ColumnSetup>, s: ColumnSetup, sequenceNumber: nat)
    ensures SetUpFor(setups + [s], sequenceNumber)
         == SetUpFor(setups, sequenceNumber) + if s.sequenceNumber == sequenceNumber then [s.name] else []
  {
    if setups == [] {
      assert ([] + [s])[1..] == [];
    } else {
      SetUpSnoc(setups[1..], s, sequenceNumber);
      assert (setups + [s])[1..] == setups[1..] + [s];
    }
  }

  /** The first description of the name gives the type. */
  predicate DescribedAs(descs: seq<ColumnDesc>, name: ByteSeq, dtype: DataType) {
    exists k :: 0 <= k < |descs| && FirstDescribed(descs, name, k) && descs[k].dtype == dtype
  }

  predicate FirstDescribed(descs: seq<ColumnDesc>, name: ByteSeq, k: nat)
    requires k < |descs|
  {
    descs[k].name == name && forall j :: 0 <= j < k ==> descs[j].name != name
  }

  lemma {:induction false} TypeDescribed(descs: seq<ColumnDesc>, name: ByteSeq)
    ensures TypeOf(descs, name).None? <==> forall k :: 0 <= k < |descs| ==> descs[k].name != name
    ensures TypeOf(descs, name).Some? ==> DescribedAs(descs, name, TypeOf(descs, name).value)
  {
    if descs != [] {
      if descs[0].name == name {
        assert FirstDescribed(descs, name, 0);
      } else {
        TypeDescribed(descs[1..], name);
        if TypeOf(descs, name).Some? {
          var k :| 0 <= k < |descs| - 1 && FirstDescribed(descs[1..], name, k) && descs[1..][k].dtype == TypeOf(descs, name).value;
          assert FirstDescribed(descs, name, k + 1);
        }
      }
    }
  }

  /** The reader's columns are those set up for the manager, in order, each with the type described first under its name. */
  lemma {:induction false} ColumnsResolved(setups: seq<ColumnSetup>, descs: seq<ColumnDesc>, sequenceNumber: nat)
    ensures var r, names := Resolve(setups, descs, sequenceNumber), SetUpFor(setups, sequenceNumber);
      && (r.None? <==> exists c :: 0 <= c < |names| && TypeOf(descs, names[c]).None?)
      && (r.Some? ==> |r.value| == |names| && forall c :: 0 <= c < |names| ==>
            r.value[c].name == names[c] && r.value[c].entries == [] && DescribedAs(descs, names[c], r.value[c].dtype))
  {
    hide TypeOf, DescribedAs;
    if setups != [] {
      var last := |setups| - 1;
      var front, s := setups[..last], setups[last];
      ColumnsResolved(front, descs, sequenceNumber);
      SetUpSnoc(front, s, sequenceNumber);
      assert setups == front + [s];
      TypeDescribed(descs, s.name);
      var names := SetUpFor(front, sequenceNumber);
      if s.sequenceNumber == sequenceNumber {
        assert (names + [s.name])[|names|] == s.name;
      }
      forall c | 0 <= c < |names| ensures SetUpFor(setups, sequenceNumber)[c] == names[c] { }
    }
  }

  /** Same columns, each with its entries sorted. */
  ghost predicate SortedColumns(s: seq<ReaderColumn>, cols: seq<ReaderColumn>) {
    |s| == |cols| && forall c :: 0 <= c < |s| ==>
      s[c].name == cols[c].name && s[c].dtype == cols[c].dtype && SortOf(s[c].entries, cols[c].entries)
  }

  lemma NoBuckets(file: ByteSeq, types: seq<DataType>, bucketSize: nat, big: bool)
    ensures FileEntries(file, types, bucketSize, big, 0) == Some(seq(|types|, _ => []))
  {
  }

  /** One more bucket of the file. */
  lemma OneMoreBucket(file: ByteSeq, types: seq<DataType>, bucketSize: nat, big: bool, b: nat)
    requires FileEntries(file, types, bucketSize, big, b).Some?
    ensures var at := HEADER_SIZE + Times(b, bucketSize);
      FileEntries(file, types, bucketSize, big, b + 1) ==
        if |file| < at + bucketSize || |file| < at + 4 then None
        else
          match ParseBucket(file[at..at + bucketSize], |types|, big)
          case None => None
          case Some(indices) =>
            match BucketEntries(file[at + 4..], indices, types, big)
            case None => None
            case Some(e) => Some(Appended(FileEntries(file, types, bucketSize, big, b).value, e))
  {
    hide ParseBucket, BucketEntries, Appended;
  }


  class IsmReader {
    var columns: seq<ReaderColumn>
    var rowCount: nat
    var isOpen: bool

    constructor ()
      ensures columns == [] && !isOpen
    {
      columns := [];
      rowCount := 0;
      isOpen := false;
    }

    /** What the binary search relies on. */
    ghost predicate Sorted()
      reads this
    {
      forall c :: 0 <= c < |columns| ==> SortedByRow(columns[c].entries)
    }

    method Open(file: ByteSeq, smIndex: nat, table: TableDat) returns (ok: bool)
      modifies this
      ensures ok <==> Opened(old(columns), file, smIndex, table).Some?
      ensures ok ==> isOpen && SortedColumns(columns, Opened(old(columns), file, smIndex, table).value)
      ensures !ok ==> isOpen == old(isOpen)
      ensures rowCount == table.rowCount
    {
      hide ParseFileHeader, Resolve, FileEntries, ColumnTypes, WithEntries, SortedColumns;
      rowCount := table.rowCount;
      if smIndex >= |table.managers| {
        return false;
      }
      var sm := table.managers[smIndex];
      if sm.typeName != Ascii("IncrementalStMan") || |file| < HEADER_SIZE {
        return false;
      }
      var header := ParseFileHeader(file[..HEADER_SIZE]);
      if header.None? {
        return false;
      }
      ok := AddColumns(table, sm.sequenceNumber);
      if !ok {
        return;
      }
      ghost var cols := columns;
      ok := ReadBuckets(file, header.value);
      if !ok {
        return;
      }
      SortAll();
      isOpen := true;
    }

    method AddColumns(table: TableDat, sequenceNumber: nat) returns (ok: bool)
      modifies `columns
      ensures ok <==> Resolve(table.setups, table.descs, sequenceNumber).Some?
      ensures ok ==> columns == old(columns) + Resolve(table.setups, table.descs, sequenceNumber).value
    {
      var setups := table.setups;
      var i := 0;
      assert old(columns) + [] == old(columns);
      while i < |setups|
        invariant i <= |setups|
        invariant var r := Resolve(setups[..i], table.descs, sequenceNumber); r.Some? && columns == old(columns) + r.value
      {
        var s := setups[i];
        assert setups[..i + 1][..i] == setups[..i];
        if s.sequenceNumber == sequenceNumber {
          var dtype := FindType(table.descs, s.name);
          if dtype.None? {
            ResolveFails(setups, table.descs, sequenceNumber, i + 1);
            return false;
          }
          columns := columns + [ReaderColumn(s.name, dtype.value, [])];
        }
        i := i + 1;
      }
      assert setups[..i] == setups;
      return true;
    }

    /** Adds the entries of every bucket to the columns. */
    method ReadBuckets(file: ByteSeq, header: FileHeader) returns (ok: bool)
      modifies `columns
      ensures var e := FileEntries(file, ColumnTypes(old(columns)), header.bucketSize, header.bigEndian, header.nrBuckets);
        && (ok <==> e.Some?)
        && (ok ==> columns == WithEntries(old(columns), e.value))
    {
      hide ParseBucket, BucketEntries, Appended, FileEntries, WithEntries;
      ghost var types := ColumnTypes(columns);
      NoBuckets(file, types, header.bucketSize, header.bigEndian);
      var bs, big := header.bucketSize, header.bigEndian;
      var b := 0;
      NothingAdded(columns);
      while b < header.nrBuckets
        invariant b <= header.nrBuckets && |columns| == |old(columns)|
        invariant var e := FileEntries(file, types, bs, big, b); e.Some? && columns == WithEntries(old(columns), e.value)
      {
        OneMoreBucket(file, types, bs, big, b);
        ghost var acc := FileEntries(file, types, bs, big, b).value;
        var at := HEADER_SIZE + Times(b, bs);
        if |file| < at + bs {
          EntriesFail(file, types, bs, big, b + 1, header.nrBuckets);
          return false;
        }
        var indices := ReadIndices(file[at..at + bs], |columns|, big);
        if indices.None? || |file| < at + 4 {
          EntriesFail(file, types, bs, big, b + 1, header.nrBuckets);
          return false;
        }
        SameTypes(old(columns), acc);
        ok := ReadBucket(file[at + 4..], indices.value, big);
        if !ok {
          EntriesFail(file, types, bs, big, b + 1, header.nrBuckets);
          return;
        }
        AppendTwice(old(columns), acc, BucketEntries(file[at + 4..], indices.value, types, big).value);
        b := b + 1;
      }
      return true;
    }

    method ReadBucket(s: ByteSeq, indices: seq<ColIndex>, big: bool) returns (ok: bool)
      requires |indices| == |columns| && forall c :: 0 <= c < |indices| ==> |indices[c].rows| == |indices[c].offsets|
      modifies `columns
      ensures var e := BucketEntries(s, indices, ColumnTypes(old(columns)), big);
        && (ok <==> e.Some?)
        && (ok ==> columns == WithEntries(old(columns), e.value))
    {
      hide ReadEntries, BucketEntries;
      ghost var types := ColumnTypes(columns);
      assert BucketEntries(s, [], [], big) == Some([]) by { NoColumns(s, big); }
      assert indices[..0] == [] && types[..0] == [];
      var c := 0;
      while c < |columns|
        invariant c <= |columns| == |old(columns)|
        invariant BucketEntries(s, indices[..c], types[..c], big).Some?
        invariant forall d :: c <= d < |columns| ==> columns[d] == old(columns)[d]
        invariant columns[..c] == WithEntries(old(columns)[..c], BucketEntries(s, indices[..c], types[..c], big).value)
      {
        BucketStep(s, indices, types, big, c);
        var e := ReadColumn(s, indices[c], columns[c].dtype, big);
        if e.None? {
          BucketFails(s, indices, types, big, c + 1);
          return false;
        }
        columns := columns[c := columns[c].(entries := columns[c].entries + e.value)];
        c := c + 1;
      }
      assert indices[..c] == indices && types[..c] == types && columns[..c] == columns && old(columns)[..c] == old(columns);
      return true;
    }

    method SortAll()
      modifies `columns
      ensures SortedColumns(columns, old(columns))
    {
      var c := 0;
      while c < |columns|
        invariant c <= |columns| == |old(columns)|
        invariant SortedColumns(columns[..c], old(columns)[..c])
        invariant forall d :: c <= d < |columns| ==> columns[d] == old(columns)[d]
      {
        var s := SortEntries(columns[c].entries);
        columns := columns[c := columns[c].(entries := s)];
        c := c + 1;
      }
      assert columns[..c] == columns && old(columns)[..c] == old(columns);
    }

    /** Linear search for the column, binary search for the row. */
    method ReadCell(name: ByteSeq, row: nat) returns (v: Option<Cell>)
      requires Sorted()
      ensures v == if isOpen then CellOf(columns, rowCount, name, row) else None
    {
      if !isOpen {
        return None;
      }
      var i := 0;
      while i < |columns| && columns[i].name != name
        invariant i <= |columns| && forall j :: 0 <= j < i ==> columns[j].name != name
      {
        i := i + 1;
      }
      assert i == FindColumn(columns, name);
      if i == |columns| || row >= rowCount {
        return None;
      }
      var entries := columns[i].entries;
      var k := UpperBound(entries, row);
      LookupBefore(entries, row, k);
      if k == 0 {
        return None;
      }
      return Some(entries[k - 1].value);
    }
  }

  /** The first position whose entry starts after the row. */
  method UpperBound(e: seq<Entry>, row: nat) returns (k: nat)
    requires SortedByRow(e)
    ensures k <= |e|
    ensures forall i :: 0 <= i < k ==> e[i].startRow <= row
    ensures forall i :: k <= i < |e| ==> e[i].startRow > row
  {
    var lo, hi := 0, |e|;
    while lo < hi
      invariant 0 <= lo <= hi <= |e|
      invariant forall i :: 0 <= i < lo ==> e[i].startRow <= row
      invariant forall i :: hi <= i < |e| ==> e[i].startRow > row
    {
      var mid := (lo + hi) / 2;
      if row < e[mid].startRow {
        hi := mid;
      } else {
        lo := mid + 1;
      }
    }
    k := lo;
  }

  lemma {:induction false} LookupBefore(e: seq<Entry>, row: nat, k: nat)
    requires k <= |e| && (forall i :: 0 <= i < k ==> e[i].startRow <= row) && forall i :: k <= i < |e| ==> e[i].startRow > row
    ensures Lookup(e, row) == if k == 0 then None else Some(e[k - 1].value)
    decreases |e|
  {
    if k < |e| {
      LookupBefore(e[..|e| - 1], row, k);
    }
  }

  method FindType(descs: seq<ColumnDesc>, name: ByteSeq) returns (t: Option<DataType>)
    ensures t == TypeOf(descs, name)
  {
    var i := 0;
    assert descs[0..] == descs;
    while i < |descs|
      invariant i <= |descs| && TypeOf(descs, name) == TypeOf(descs[i..], name)
    {
      if descs[i].name == name {
        return Some(descs[i].dtype);
      }
      assert descs[i..][1..] == descs[i + 1..];
      i := i + 1;
    }
    return None;
  }

  lemma NothingAdded(cols: seq<ReaderColumn>)
    ensures cols == WithEntries(cols, seq(|ColumnTypes(cols)|, _ => []))
  {
    var w := WithEntries(cols, seq(|ColumnTypes(cols)|, _ => []));
    forall c | 0 <= c < |cols| ensures w[c] == cols[c] {
      assert cols[c].entries + [] == cols[c].entries;
    }
  }

  lemma SameTypes(cols: seq<ReaderColumn>, e: seq<seq<Entry>>)
    requires |cols| == |e|
    ensures ColumnTypes(WithEntries(cols, e)) == ColumnTypes(cols)
  {
  }

  lemma AppendTwice(cols: seq<ReaderColumn>, a: seq<seq<Entry>>, b: seq<seq<Entry>>)
    requires |cols| == |a| == |b|
    ensures WithEntries(WithEntries(cols, a), b) == WithEntries(cols, Appended(a, b))
  {
    forall c | 0 <= c < |cols| ensures WithEntries(WithEntries(cols, a), b)[c] == WithEntries(cols, Appended(a, b))[c] {
      assert cols[c].entries + a[c] + b[c] == cols[c].entries + (a[c] + b[c]);
    }
  }

  lemma {:induction false} EntriesFail(file: ByteSeq, types: seq<DataType>, bucketSize: nat, big: bool, b: nat, n: nat)
    requires b <= n && FileEntries(file, types, bucketSize, big, b).None?
    ensures FileEntries(file, types, bucketSize, big, n).None?
    decreases n
  {
    hide ParseBucket, BucketEntries, Appended, Times;
    if b < n {
      EntriesFail(file, types, bucketSize, big, b, n - 1);
    }
  }

  lemma NoColumns(s: ByteSeq, big: bool)
    ensures BucketEntries(s, [], [], big) == Some([])
  {
  }

  lemma BucketStep(s: ByteSeq, indices: seq<ColIndex>, types: seq<DataType>, big: bool, c: nat)
    requires |indices| == |types| && c < |types|
    requires forall d :: 0 <= d < |indices| ==> |indices[d].rows| == |indices[d].offsets|
    requires BucketEntries(s, indices[..c], types[..c], big).Some?
    ensures BucketEntries(s, indices[..c + 1], types[..c + 1], big)
         == match ReadEntries(s, indices[c], types[c], big)
            case None => None
            case Some(e) => Some(BucketEntries(s, indices[..c], types[..c], big).value + [e])
  {
    hide ReadEntries;
    assert indices[..c + 1][..c] == indices[..c] && types[..c + 1][..c] == types[..c];
  }

  lemma {:induction false} BucketFails(s: ByteSeq, indices: seq<ColIndex>, types: seq<DataType>, big: bool, c: nat)
    requires |indices| == |types| && c <= |types|
    requires forall d :: 0 <= d < |indices| ==> |indices[d].rows| == |indices[d].offsets|
    requires BucketEntries(s, indices[..c], types[..c], big).None?
    ensures BucketEntries(s, indices, types, big).None?
    decreases |types|
  {
    hide ReadEntries;
    if c < |types| {
      var last := |types| - 1;
      assert indices[..last][..c] == indices[..c] && types[..last][..c] == types[..c];
      BucketFails(s, indices[..last], types[..last], big, c);
    } else {
      assert indices[..c] == indices && types[..c] == types;
    }
  }

  // ---- end to end ----

  /** The table description that belongs to these columns: its ISM entry resolves to their names and types. */
  predicate Describes(table: TableDat, smIndex: nat, cols: seq<Column>, n: nat) {
    && table.rowCount == n
    && smIndex < |table.managers|
    && table.managers[smIndex].typeName == Ascii("IncrementalStMan")
    && var r := Resolve(table.setups, table.descs, table.managers[smIndex].sequenceNumber);
    && r.Some? && |r.value| == |cols|
    && forall c :: 0 <= c < |cols| ==> r.value[c] == ReaderColumn(cols[c].name, cols[c].dtype, [])
  }

  /** A fresh reader opens a flushed file and finds exactly the runs of every column. */
  lemma OpenFlushed(cols: seq<Column>, n: nat, smIndex: nat, table: TableDat)
    requires Flushable(cols, n) && n < TWO32 && Describes(table, smIndex, cols, n)
    ensures var o := Opened([], FileBytes(cols, n), smIndex, table);
      o.Some? && |o.value| == |cols|
      && forall c :: 0 <= c < |cols| ==> o.value[c] == ReaderColumn(cols[c].name, cols[c].dtype, RunEntries(cols[c]))
  {
    hide FileBytes, ParseFileHeader, FileEntries, BucketRows, Storable, EntryFits, RunEntries, Resolve;
    FileRound(cols, n);
    var added := Resolve(table.setups, table.descs, table.managers[smIndex].sequenceNumber).value;
    assert [] + added == added;
    assert ColumnTypes(added) == TypesOf(cols);
    assert WithEntries(added, AllRuns(cols, n)) == seq(|cols|, c requires 0 <= c < |cols| =>
      ReaderColumn(cols[c].name, cols[c].dtype, RunEntries(cols[c]))) by {
      forall c | 0 <= c < |cols| ensures [] + RunEntries(cols[c]) == RunEntries(cols[c]) { }
    }
  }

  predicate UniqueNames(cols: seq<Column>) {
    forall c, d :: 0 <= c < d < |cols| ==> cols[c].name != cols[d].name
  }

  /** However the entries were sorted, read_cell gives the stored value of the row's run. */
  lemma ReadAfterOpen(cols: seq<Column>, n: nat, smIndex: nat, table: TableDat, sorted: seq<ReaderColumn>, c: nat, r: nat)
    requires Flushable(cols, n) && n < TWO32 && Describes(table, smIndex, cols, n) && UniqueNames(cols)
    requires Opened([], FileBytes(cols, n), smIndex, table).Some?
    requires SortedColumns(sorted, Opened([], FileBytes(cols, n), smIndex, table).value)
    requires c < |cols| && r < n
    ensures CellOf(sorted, n, cols[c].name, r)
         == Some(Stored(cols[c].dtype, cols[c].values[LastHead(cols[c].values, r)]))
  {
    hide FileBytes, Opened, Storable, EntryFits, Stored, EntriesOf, Heads, Lookup, Describes;
    OpenFlushed(cols, n, smIndex, table);
    var e := RunEntries(cols[c]);
    RunsAscend(cols[c]);
    SortUnique(sorted[c].entries, e);
    assert FindColumn(sorted, cols[c].name) == c;
    LookupHeads(cols[c].dtype, cols[c].values, n, r);
  }

  lemma RunsAscend(col: Column)
    ensures var e := RunEntries(col); forall i, j :: 0 <= i < j < |e| ==> e[i].startRow < e[j].startRow
  {
    hide Heads, Stored;
    HeadsAscend(col.values, |col.values|);
  }

  /**
   * The whole path: set up a writer, write any cells, flush, open the bytes with a fresh reader, read a cell. The
   * result is the value last written there, in the form the column stores, provided neighbouring cells of the
   * column that compare equal are stored alike.
   */
  method WriteThenRead(descs: seq<ColumnDesc>, n: nat, ws: seq<Write>, smIndex: nat, table: TableDat, c: nat, r: nat)
    returns (v: Option<Cell>)
    requires n < TWO32 && InRange(ws, |descs|, n) && c < |descs| && r < n
    requires Flushable(Fresh(descs, n), n) && UniqueNames(Fresh(descs, n)) && Describes(table, smIndex, Fresh(descs, n), n)
    requires EqualNeighboursStoredAlike(descs[c].dtype, Written(Fresh(descs, n), n, ws)[c].values)
    ensures v == Some(Stored(descs[c].dtype, LastWritten(ws, c, r, DEFAULT_CELL)))
  {
    hide Stored, LastWritten, FileBytes, Opened, EqualNeighboursStoredAlike, Flushable, Describes, UniqueNames, Fresh, CellOf;
    ghost var start := Fresh(descs, n);
    var writer := new IsmWriter();
    writer.Setup(descs, n);
    var i := 0;
    while i < |ws|
      invariant i <= |ws| && writer.Valid() && writer.isSetup && writer.rowCount == n
      invariant writer.columns == Written(start, n, ws[..i])
    {
      var ok := writer.WriteCell(ws[i].col, ws[i].value, ws[i].row);
      assert ws[..i + 1][..i] == ws[..i];
      i := i + 1;
    }
    assert ws[..i] == ws;
    ghost var cols := Written(start, n, ws);
    FlushableParts(start, n, ws);
    var file := writer.Flush();
    var reader := new IsmReader();
    SameDescription(start, n, ws, smIndex, table);
    OpenFlushed(cols, n, smIndex, table);
    var ok := reader.Open(file.value, smIndex, table);
    ReadAfterOpen(cols, n, smIndex, table, reader.columns, c, r);
    WrittenValue(descs, n, ws, c, r);
    v := reader.ReadCell(descs[c].name, r);
  }

  /** The start of the run of a written cell is stored like the value last written to it. */
  lemma WrittenValue(descs: seq<ColumnDesc>, n: nat, ws: seq<Write>, c: nat, r: nat)
    requires InRange(ws, |descs|, n) && c < |descs| && r < n
    requires EqualNeighboursStoredAlike(descs[c].dtype, Written(Fresh(descs, n), n, ws)[c].values)
    ensures var col := Written(Fresh(descs, n), n, ws)[c];
      && col.name == descs[c].name && col.dtype == descs[c].dtype && |col.values| == n
      && Stored(col.dtype, col.values[LastHead(col.values, r)]) == Stored(descs[c].dtype, LastWritten(ws, c, r, DEFAULT_CELL))
  {
    hide Stored, LastWritten, EqualNeighboursStoredAlike, Fresh;
    FreshColumn(descs, n, c, r);
    WrittenCell(Fresh(descs, n), n, ws, c, r);
    RunStoredAlike(descs[c].dtype, Written(Fresh(descs, n), n, ws)[c].values, r);
  }

  lemma FreshColumn(descs: seq<ColumnDesc>, n: nat, c: nat, r: nat)
    requires c < |descs| && r < n
    ensures Fresh(descs, n)[c].name == descs[c].name && Fresh(descs, n)[c].dtype == descs[c].dtype
    ensures Fresh(descs, n)[c].values[r] == DEFAULT_CELL
  {
  }

  lemma FlushableParts(start: seq<Column>, n: nat, ws: seq<Write>)
    requires Flushable(start, n) && InRange(ws, |start|, n)
    ensures var cols := Written(start, n, ws); Flushable(cols, n) && Storable(cols) && (n > 0 ==> EntryFits(cols))
  {
    WrittenFlushable(start, n, ws);
  }

  /** Writes change neither names nor types. */
  lemma SameDescription(start: seq<Column>, n: nat, ws: seq<Write>, smIndex: nat, table: TableDat)
    requires Rectangular(start, n) && InRange(ws, |start|, n)
    requires UniqueNames(start) && Describes(table, smIndex, start, n)
    ensures UniqueNames(Written(start, n, ws)) && Describes(table, smIndex, Written(start, n, ws), n)
  {
    forall c | 0 <= c < |start|
      ensures Written(start, n, ws)[c].name == start[c].name && Written(start, n, ws)[c].dtype == start[c].dtype
    {
      WrittenNames(start, n, ws, c);
    }
  }

  lemma {:induction false} WrittenNames(start: seq<Column>, n: nat, ws: seq<Write>, c: nat)
    requires Rectangular(start, n) && InRange(ws, |start|, n) && c < |start|
    ensures Written(start, n, ws)[c].name == start[c].name && Written(start, n, ws)[c].dtype == start[c].dtype
  {
    if ws != [] {
      WrittenNames(start, n, ws[..|ws| - 1], c);
    }
  }
}
