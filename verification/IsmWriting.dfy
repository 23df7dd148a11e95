/** IsmWriter of src/incremental_stman.cpp: cells updated in place, and flush building the file step by step. */
module IsmWriting {
  import opened Arithmetic
  import opened Wrappers
  import opened Bytes
  import opened AipsIo
  import opened IsmCells
  import opened IsmRuns
  import opened IsmLayout
  import opened IsmFile
  import opened IsmRoundTrip

  // ---- bytes written in place ----

  lemma LowBytesFirst(v: nat)
    ensures EncodeLe(v, 4) == [v % 256, ShiftRight(v, 1) % 256, ShiftRight(v, 2) % 256, ShiftRight(v, 3) % 256]
  {
    var v1, v2, v3 := ShiftRight(v, 1), ShiftRight(v, 2), ShiftRight(v, 3);
    assert v1 == v / 256 && v2 == v1 / 256 && v3 == v2 / 256;
    assert EncodeLe(v3 / 256, 0) == [];
    assert EncodeLe(v3, 1) == [v3 % 256];
    assert EncodeLe(v2, 2) == [v2 % 256, v3 % 256];
    assert EncodeLe(v1, 3) == [v1 % 256, v2 % 256, v3 % 256];
  }

  /** write_le_u32_buf; the value is cast to 32 bits. */
  method WriteLe32(p: array<Byte>, at: nat, value: nat)
    requires at + 4 <= p.Length
    modifies p
    ensures p[..] == old(p[..at]) + Le32(value) + old(p[at + 4..])
  {
    hide EncodeLe, ShiftRight;
    var v: uint32 := value % TWO32;
    p[at] := v % 256;
    p[at + 1] := ShiftRight(v, 1) % 256;
    p[at + 2] := ShiftRight(v, 2) % 256;
    p[at + 3] := ShiftRight(v, 3) % 256;
    LowBytesFirst(v);
    assert p[..at] == old(p[..at]) && p[at + 4..] == old(p[at + 4..]);
    assert p[at..at + 4] == EncodeLe(v, 4);
    assert p[..] == p[..at] + p[at..at + 4] + p[at + 4..];
  }

  /** The array starts with this content and is zero beyond. */
  ghost predicate Holds(p: array<Byte>, content: ByteSeq)
    reads p
  {
    |content| <= p.Length && p[..] == content + Zeros(p.Length - |content|)
  }

  method Append32(p: array<Byte>, at: nat, v: nat, ghost content: ByteSeq)
    requires Holds(p, content) && at == |content| && at + 4 <= p.Length
    modifies p
    ensures Holds(p, content + Le32(v))
  {
    hide Le32;
    assert p[..at] == content && p[at + 4..] == Zeros(p.Length - at - 4);
    WriteLe32(p, at, v);
  }

  /** memcpy */
  method AppendBytes(p: array<Byte>, at: nat, b: ByteSeq, ghost content: ByteSeq)
    requires Holds(p, content) && at == |content| && at + |b| <= p.Length
    modifies p
    ensures Holds(p, content + b)
  {
    var i := 0;
    while i < |b|
      invariant i <= |b| && Holds(p, content + b[..i])
    {
      p[at + i] := b[i];
      assert b[..i + 1] == b[..i] + [b[i]];
      i := i + 1;
    }
    assert b[..i] == b;
  }

  // ---- first and second pass ----

  /** First pass: mark the rows in which some column changes. */
  method MarkRows(cols: seq<Column>, n: nat) returns (written: array<bool>)
    requires Rectangular(cols, n)
    ensures fresh(written) && written.Length == n
    ensures forall r :: 0 <= r < n ==> (written[r] <==> Changed(cols, n, r))
  {
    hide CellEq;
    written := new bool[n](_ => false);
    var r := 0;
    while r < n
      invariant r <= n
      invariant forall i :: 0 <= i < r ==> (written[i] <==> Changed(cols, n, i))
      invariant forall i :: r <= i < n ==> !written[i]
    {
      if r == 0 {
        written[0] := true;
      } else {
        var c := 0;
        while c < |cols|
          invariant c <= |cols| && !written[r]
          invariant forall d :: 0 <= d < c ==> !IsHead(cols[d].values, r)
          invariant forall i :: 0 <= i < r ==> (written[i] <==> Changed(cols, n, i))
          invariant forall i :: r < i < n ==> !written[i]
        {
          if !CellEq(cols[c].values[r], cols[c].values[r - 1]) {
            written[r] := true;
            break;
          }
          c := c + 1;
        }
      }
      r := r + 1;
    }
  }

  /** Second pass: for each column the rows at which its value differs from its previous entry. */
  method ColumnEntries(cols: seq<Column>, n: nat, written: array<bool>) returns (entries: seq<seq<nat>>)
    requires Rectangular(cols, n) && written.Length == n
    requires forall r :: 0 <= r < n ==> (written[r] <==> Changed(cols, n, r))
    ensures |entries| == |cols|
    ensures forall c :: 0 <= c < |cols| ==> entries[c] == Heads(cols[c].values, n)
  {
    hide CellEq, Kept, Changed;
    entries := seq(|cols|, _ => []);
    var first := true;
    var r := 0;
    while r < n
      invariant r <= n && |entries| == |cols| && (first <==> r == 0)
      invariant forall c :: 0 <= c < |cols| ==> entries[c] == Heads(cols[c].values, r)
    {
      if written[r] {
        entries := StoreChanges(cols, n, r, first, entries);
        first := false;
      } else {
        assert !Changed(cols, n, r);
        NotFirst(cols, n, r);
        forall c | 0 <= c < |cols| ensures Heads(cols[c].values, r + 1) == entries[c] {
          FirstIsChanged(cols, n, r, c);
        }
      }
      r := r + 1;
    }
  }

  lemma NotFirst(cols: seq<Column>, n: nat, r: nat)
    requires Rectangular(cols, n) && r < n && !Changed(cols, n, r)
    ensures r > 0
  {
  }

  /** Adds row r to every column whose value differs from its last entry, or to all at the first row. */
  method StoreChanges(cols: seq<Column>, n: nat, r: nat, first: bool, before: seq<seq<nat>>) returns (entries: seq<seq<nat>>)
    requires Rectangular(cols, n) && r < n && |before| == |cols| && (first <==> r == 0)
    requires forall c :: 0 <= c < |cols| ==> before[c] == Heads(cols[c].values, r)
    ensures |entries| == |cols|
    ensures forall c :: 0 <= c < |cols| ==> entries[c] == Heads(cols[c].values, r + 1)
  {
    hide CellEq, IsHead;
    entries := before;
    var c := 0;
    while c < |cols|
      invariant c <= |cols| && |entries| == |cols|
      invariant forall d :: 0 <= d < c ==> entries[d] == Heads(cols[d].values, r + 1)
      invariant forall d :: c <= d < |cols| ==> entries[d] == Heads(cols[d].values, r)
    {
      var values := cols[c].values;
      HeadDecision(values, r);
      if r > 0 { HeadsLast(values, r); }
      var store := first;
      if !store && entries[c] != [] {
        var prev := entries[c][|entries[c]| - 1];
        if !CellEq(values[r], values[prev]) {
          store := true;
        }
      }
      assert store <==> IsHead(values, r);
      if store {
        entries := entries[c := entries[c] + [r]];
      }
      c := c + 1;
    }
  }

  method CollectRows(cols: seq<Column>, n: nat, written: array<bool>) returns (rows: seq<nat>)
    requires Rectangular(cols, n) && written.Length == n
    requires forall r :: 0 <= r < n ==> (written[r] <==> Changed(cols, n, r))
    ensures rows == EntryRows(cols, n, n)
  {
    hide Changed;
    rows := [];
    var r := 0;
    while r < n
      invariant r <= n && rows == EntryRows(cols, n, r)
    {
      if written[r] {
        rows := rows + [r];
      }
      r := r + 1;
    }
  }

  // ---- the plan ----

  datatype BucketPlan = BucketPlan(first: nat, count: nat)

  predicate PlanWithin(plans: seq<BucketPlan>, n: nat) {
    forall i :: 0 <= i < |plans| ==> plans[i].first + plans[i].count <= n
  }

  ghost function Slices(rows: seq<nat>, plans: seq<BucketPlan>): (s: seq<seq<nat>>)
    requires PlanWithin(plans, |rows|)
    ensures |s| == |plans|
  {
    seq(|plans|, i requires 0 <= i < |plans| => rows[plans[i].first..plans[i].first + plans[i].count])
  }

  /** Buckets still to be planned from position `at` on. */
  ghost function Remaining(rows: seq<nat>, at: nat, ncols: nat, size: nat): seq<seq<nat>>
    requires at <= |rows|
  {
    PlanTotal(|rows| - at, ncols, size);
    Cut(rows[at..], Plan(|rows| - at, ncols, size))
  }

  lemma RemainingStep(rows: seq<nat>, at: nat, ncols: nat, size: nat)
    requires at < |rows|
    ensures var k := TakeCount(|rows| - at, 0, FixedSize(ncols), EntrySize(ncols, size));
      Remaining(rows, at, ncols, size) == [rows[at..at + k]] + Remaining(rows, at + k, ncols, size)
  {
    hide TakeCount;
    var k := TakeCount(|rows| - at, 0, FixedSize(ncols), EntrySize(ncols, size));
    PlanTotal(|rows| - at, ncols, size);
    PlanTotal(|rows| - at - k, ncols, size);
    assert rows[at..][..k] == rows[at..at + k] && rows[at..][k..] == rows[at + k..];
    var p := Plan(|rows| - at, ncols, size);
    assert p == [k] + Plan(|rows| - at - k, ncols, size);
    assert p[1..] == Plan(|rows| - at - k, ncols, size);
  }

  /** Greedily assigns entry rows to buckets. */
  method PlanBuckets(rows: seq<nat>, ncols: nat, recordSize: nat) returns (plans: seq<BucketPlan>)
    ensures PlanWithin(plans, |rows|)
    ensures Slices(rows, plans) == Remaining(rows, 0, ncols, recordSize)
  {
    hide Remaining, FixedSize, EntrySize, TakeCount;
    plans := [];
    var curStart := 0;
    while curStart < |rows|
      invariant curStart <= |rows| && PlanWithin(plans, |rows|)
      invariant Slices(rows, plans) + Remaining(rows, curStart, ncols, recordSize) == Remaining(rows, 0, ncols, recordSize)
    {
      var count := FillBucket(|rows| - curStart, ncols, recordSize);
      RemainingStep(rows, curStart, ncols, recordSize);
      ghost var before := plans;
      plans := plans + [BucketPlan(curStart, count)];
      assert Slices(rows, plans) == Slices(rows, before) + [rows[curStart..curStart + count]];
      curStart := curStart + count;
    }
    NothingRemains(rows, ncols, recordSize);
  }

  lemma NothingRemains(rows: seq<nat>, ncols: nat, recordSize: nat)
    ensures Remaining(rows, |rows|, ncols, recordSize) == []
  {
  }

  method FillBucket(available: nat, ncols: nat, recordSize: nat) returns (count: nat)
    ensures count == TakeCount(available, 0, FixedSize(ncols), EntrySize(ncols, recordSize))
  {
    hide FixedSize, EntrySize;
    var used: nat := FixedSize(ncols);
    count := 0;
    var total := EntrySize(ncols, recordSize);
    ghost var target := TakeCount(available, 0, used, total);
    while count < available
      invariant count <= available && TakeCount(available, count, used, total) == target
    {
      if used + total > BUCKET_SIZE && count > 0 {
        break;
      }
      used := used + total;
      count := count + 1;
    }
  }

  // ---- one bucket ----

  datatype ColEntry = ColEntry(row: nat, dataOffset: nat)

  function RowsOf(e: seq<ColEntry>): (r: seq<nat>)
    ensures |r| == |e|
  {
    seq(|e|, i requires 0 <= i < |e| => e[i].row)
  }

  function OffsetsOf(e: seq<ColEntry>): (o: seq<nat>)
    ensures |o| == |e|
  {
    seq(|e|, i requires 0 <= i < |e| => e[i].dataOffset)
  }

  /** Packs the values of one row. */
  method PackRow(cols: seq<Column>, n: nat, r: nat, before: ByteSeq) returns (data: ByteSeq)
    requires Rectangular(cols, n) && Storable(cols) && r < n
    ensures data == before + RowBytes(cols, n, r, |cols|)
  {
    hide CellBytes;
    data := before;
    var c := 0;
    while c < |cols|
      invariant c <= |cols| && data == before + RowBytes(cols, n, r, c)
    {
      data := data + CellBytes(cols[c].dtype, cols[c].values[r]);
      c := c + 1;
    }
  }

  /** Whether the column has an entry at this row. */
  method HasEntry(entries: seq<nat>, r: nat) returns (found: bool)
    ensures found <==> r in entries
  {
    found := false;
    var i := 0;
    while i < |entries|
      invariant i <= |entries| && !found && r !in entries[..i]
    {
      if entries[i] == r {
        found := true;
        break;
      }
      i := i + 1;
    }
  }

  /** The per-column entries of a bucket that holds these rows. */
  ghost predicate Recorded(e: seq<seq<ColEntry>>, cols: seq<Column>, n: nat, rows: seq<nat>)
    requires Rectangular(cols, n) && RowsIn(rows, n)
  {
    |e| == |cols| && forall c :: 0 <= c < |cols| ==> RecordedFor(e[c], cols, n, rows, c)
  }

  ghost predicate RecordedFor(e: seq<ColEntry>, cols: seq<Column>, n: nat, rows: seq<nat>, c: nat)
    requires Rectangular(cols, n) && RowsIn(rows, n) && c < |cols|
  {
    RowsOf(e) == Select(cols[c].values, rows)
    && OffsetsOf(e) == Offsets(cols[c].values, rows, RecordSize(cols), ColOffset(cols, c))
  }

  lemma RecordedSnoc(e: seq<ColEntry>, cols: seq<Column>, n: nat, rows: seq<nat>, c: nat, r: nat)
    requires Rectangular(cols, n) && RowsIn(rows, n) && c < |cols| && r < n && RecordedFor(e, cols, n, rows, c)
    ensures RowsIn(rows + [r], n)
    ensures var e' := if IsHead(cols[c].values, r)
                      then e + [ColEntry(r, Times(|rows|, RecordSize(cols)) + ColOffset(cols, c))] else e;
      RecordedFor(e', cols, n, rows + [r], c)
  {
    hide IsHead, RecordSize, ColOffset, Times, Select, Offsets;
    var values := cols[c].values;
    SelectSnoc(values, rows, r);
    OffsetsSnoc(values, rows, r, RecordSize(cols), ColOffset(cols, c));
    if IsHead(values, r) {
      var x := ColEntry(r, Times(|rows|, RecordSize(cols)) + ColOffset(cols, c));
      assert RowsOf(e + [x]) == RowsOf(e) + [r] && OffsetsOf(e + [x]) == OffsetsOf(e) + [x.dataOffset];
    }
  }

  lemma SelectSnoc(values: seq<Cell>, rows: seq<nat>, r: nat)
    requires r < |values| && RowsIn(rows + [r], |values|) && RowsIn(rows, |values|)
    ensures Select(values, rows + [r]) == Select(values, rows) + if IsHead(values, r) then [r] else []
  {
    hide IsHead;
    assert (rows + [r])[..|rows|] == rows;
  }

  lemma OffsetsSnoc(values: seq<Cell>, rows: seq<nat>, r: nat, size: nat, offset: nat)
    requires r < |values| && RowsIn(rows + [r], |values|) && RowsIn(rows, |values|)
    ensures Offsets(values, rows + [r], size, offset)
         == Offsets(values, rows, size, offset) + if IsHead(values, r) then [Times(|rows|, size) + offset] else []
  {
    hide IsHead, Times;
    assert (rows + [r])[..|rows|] == rows;
  }

  /** Records row r, whose record starts at `offset`, for every column with an entry there. */
  method RecordRow(cols: seq<Column>, n: nat, colEntries: seq<seq<nat>>, colOffsets: seq<nat>, r: nat, offset: nat,
                   before: seq<seq<ColEntry>>, ghost rows: seq<nat>) returns (e: seq<seq<ColEntry>>)
    requires Rectangular(cols, n) && RowsIn(rows, n) && r < n && |colEntries| == |colOffsets| == |cols|
    requires forall c :: 0 <= c < |cols| ==> colEntries[c] == Heads(cols[c].values, n) && colOffsets[c] == ColOffset(cols, c)
    requires offset == Times(|rows|, RecordSize(cols)) && Recorded(before, cols, n, rows)
    ensures RowsIn(rows + [r], n) && Recorded(e, cols, n, rows + [r])
  {
    hide IsHead, RecordSize, ColOffset, Times, RecordedFor;
    e := before;
    var c := 0;
    while c < |cols|
      invariant c <= |cols| && |e| == |cols|
      invariant forall d :: 0 <= d < c ==> RecordedFor(e[d], cols, n, rows + [r], d)
      invariant forall d :: c <= d < |cols| ==> RecordedFor(e[d], cols, n, rows, d)
    {
      RecordedSnoc(e[c], cols, n, rows, c, r);
      HeadsAscend(cols[c].values, n);
      var found := HasEntry(colEntries[c], r);
      if found {
        e := e[c := e[c] + [ColEntry(r, offset + colOffsets[c])]];
      }
      c := c + 1;
    }
  }

  /** Data area and per-column entries of a bucket. */
  method PackBucket(cols: seq<Column>, n: nat, colEntries: seq<seq<nat>>, colOffsets: seq<nat>, rows: seq<nat>)
    returns (data: ByteSeq, e: seq<seq<ColEntry>>)
    requires Rectangular(cols, n) && Storable(cols) && RowsIn(rows, n) && |colEntries| == |colOffsets| == |cols|
    requires forall c :: 0 <= c < |cols| ==> colEntries[c] == Heads(cols[c].values, n) && colOffsets[c] == ColOffset(cols, c)
    ensures data == DataBytes(cols, n, rows)
    ensures Recorded(e, cols, n, rows)
  {
    hide RowBytes, RecordSize, Times, Heads, ColOffset, Recorded, Storable, Rectangular;
    data := [];
    e := seq(|cols|, _ => []);
    NothingRecorded(cols, n, e);
    var i := 0;
    while i < |rows|
      invariant i <= |rows| && RowsIn(rows[..i], n)
      invariant data == DataBytes(cols, n, rows[..i]) && Recorded(e, cols, n, rows[..i])
    {
      var offset := |data|;
      data := PackRow(cols, n, rows[i], data);
      e := RecordRow(cols, n, colEntries, colOffsets, rows[i], offset, e, rows[..i]);
      assert rows[..i + 1] == rows[..i] + [rows[i]];
      assert rows[..i + 1][..i] == rows[..i];
      i := i + 1;
    }
    assert rows[..|rows|] == rows;
  }

  lemma NothingRecorded(cols: seq<Column>, n: nat, e: seq<seq<ColEntry>>)
    requires Rectangular(cols, n) && |e| == |cols| && forall c :: 0 <= c < |e| ==> e[c] == []
    ensures Recorded(e, cols, n, [])
  {
  }

  /** Writes count, rows and offsets of one column at `at`. */
  method WriteColumnIndex(bucket: array<Byte>, at: nat, e: seq<ColEntry>, ghost content: ByteSeq) returns (pos: nat)
    requires Holds(bucket, content) && at == |content| && at + 4 + 8 * |e| <= bucket.Length
    modifies bucket
    ensures Holds(bucket, content + ListBytes(RowsOf(e), OffsetsOf(e)))
    ensures pos == at + 4 + 8 * |e|
  {
    hide Le32, Holds;
    Append32(bucket, at, |e|, content);
    ghost var rows, offsets := RowsOf(e), OffsetsOf(e);
    ghost var start := content + Le32(|e|);
    assert start + Le32s(rows[..0]) == start;
    pos := at + 4;
    var i := 0;
    while i < |e|
      invariant i <= |e| && pos == at + 4 + 4 * i && Holds(bucket, start + Le32s(rows[..i]))
    {
      Append32(bucket, pos, e[i].row, start + Le32s(rows[..i]));
      WordsSnoc(start, rows, i);
      pos := pos + 4;
      i := i + 1;
    }
    assert rows[..i] == rows;
    start := start + Le32s(rows);
    assert start + Le32s(offsets[..0]) == start;
    i := 0;
    while i < |e|
      invariant i <= |e| && pos == at + 4 + 4 * |e| + 4 * i && Holds(bucket, start + Le32s(offsets[..i]))
    {
      Append32(bucket, pos, e[i].dataOffset, start + Le32s(offsets[..i]));
      WordsSnoc(start, offsets, i);
      pos := pos + 4;
      i := i + 1;
    }
    assert offsets[..i] == offsets;
    assert start + Le32s(offsets) == content + ListBytes(rows, offsets);
  }

  lemma WordsSnoc(start: ByteSeq, vs: seq<nat>, i: nat)
    requires i < |vs|
    ensures start + Le32s(vs[..i]) + Le32(vs[i]) == start + Le32s(vs[..i + 1])
  {
    hide Le32;
    assert vs[..i + 1][..i] == vs[..i];
  }

  /** Builds one bucket in a zeroed block of the bucket size. */
  method BuildBucket(cols: seq<Column>, n: nat, colEntries: seq<seq<nat>>, colOffsets: seq<nat>, rows: seq<nat>)
    returns (bucket: array<Byte>)
    requires BucketFits(cols, n, rows) && |colEntries| == |colOffsets| == |cols|
    requires forall c :: 0 <= c < |cols| ==> colEntries[c] == Heads(cols[c].values, n) && colOffsets[c] == ColOffset(cols, c)
    ensures fresh(bucket) && bucket[..] == FittingBucket(cols, n, rows)
  {
    hide Heads, DataBytes, FixedSize, EntrySize, RecordSize, Le32, Select, Offsets, IndexBytes;
    var data, e := PackBucket(cols, n, colEntries, colOffsets, rows);
    ContentFits(cols, n, rows);
    bucket := new Byte[BUCKET_SIZE](_ => 0);
    assert Holds(bucket, []);
    WriteIndices(cols, n, rows, bucket, data, e);
  }

  method WriteIndices(cols: seq<Column>, n: nat, rows: seq<nat>, bucket: array<Byte>, data: ByteSeq, e: seq<seq<ColEntry>>)
    requires Rectangular(cols, n) && Storable(cols) && RowsIn(rows, n)
    requires |BucketContent(cols, n, rows)| <= bucket.Length && Holds(bucket, [])
    requires data == DataBytes(cols, n, rows) && Recorded(e, cols, n, rows)
    modifies bucket
    ensures Holds(bucket, BucketContent(cols, n, rows))
  {
    hide DataBytes, Le32, RecordedFor, Holds, Rectangular, Storable, ListBytes;
    ghost var start := Le32(4 + |data|) + data;
    assert [] + Le32(4 + |data|) == Le32(4 + |data|);
    Append32(bucket, 0, 4 + |data|, []);
    AppendBytes(bucket, 4, data, Le32(4 + |data|));
    var pos := 4 + |data|;
    assert start + IndexBytes(cols, n, rows, 0) == start;
    var c := 0;
    while c < |cols|
      invariant c <= |cols| && pos == |start| + |IndexBytes(cols, n, rows, c)|
      invariant Holds(bucket, start + IndexBytes(cols, n, rows, c))
    {
      ghost var before := IndexBytes(cols, n, rows, c);
      IndexStep(e[c], cols, n, rows, c, start);
      pos := WriteColumnIndex(bucket, pos, e[c], start + before);
      c := c + 1;
    }
  }

  /** There is room for the next column's index, and it continues the index bytes. */
  lemma IndexStep(e: seq<ColEntry>, cols: seq<Column>, n: nat, rows: seq<nat>, c: nat, start: ByteSeq)
    requires Rectangular(cols, n) && RowsIn(rows, n) && c < |cols| && RecordedFor(e, cols, n, rows, c)
    ensures |IndexBytes(cols, n, rows, c)| + 4 + 8 * |e| == |IndexBytes(cols, n, rows, c + 1)|
    ensures |IndexBytes(cols, n, rows, c + 1)| <= |IndexBytes(cols, n, rows, |cols|)|
    ensures start + IndexBytes(cols, n, rows, c) + ListBytes(RowsOf(e), OffsetsOf(e)) == start + IndexBytes(cols, n, rows, c + 1)
  {
    hide ListBytes, Select, Offsets, IndexFrom;
    IndexSplit(cols, n, rows, c + 1);
  }

  // ---- header and bucket index ----

  /** The 512-byte header, its object length patched in at the end. */
  method BuildHeader(nrBuckets: nat) returns (header: array<Byte>)
    ensures fresh(header) && header[..] == HeaderBytes(nrBuckets)
  {
    hide Le32, Ascii, Holds, HeaderTail;
    header := new Byte[HEADER_SIZE](_ => 0);
    ZeroHolds(header);
    ghost var magic := Le32(MAGIC);
    assert [] + magic == magic;
    Append32(header, 0, MAGIC, []);
    Append32(header, 4, 0, magic);
    WriteHeaderTail(header, nrBuckets, magic + Le32(0));
    HoldsSplit(header, magic, Le32(0), HeaderTail(nrBuckets));
    WriteLe32(header, 4, 57 - 4);
  }

  /** Type string, version, endian flag, core fields. */
  method WriteHeaderTail(header: array<Byte>, nrBuckets: nat, ghost start: ByteSeq)
    requires header.Length == HEADER_SIZE && |start| == 8 && Holds(header, start)
    modifies header
    ensures Holds(header, start + HeaderTail(nrBuckets))
  {
    hide Le32, Ascii, Holds;
    var name := Ascii("IncrementalStMan");
    ghost var b := start;
    Append32(header, 8, 16, b); b := b + Le32(16);
    AppendBytes(header, 12, name, b); b := b + name;
    Append32(header, 28, 5, b); b := b + Le32(5);
    AppendBytes(header, 32, [0], b); b := b + [0];
    Append32(header, 33, BUCKET_SIZE, b); b := b + Le32(BUCKET_SIZE);
    Append32(header, 37, nrBuckets, b); b := b + Le32(nrBuckets);
    Append32(header, 41, 1, b); b := b + Le32(1);
    Append32(header, 45, 0, b); b := b + Le32(0);
    Append32(header, 49, 0xFFFF_FFFF, b); b := b + Le32(0xFFFF_FFFF);
    Append32(header, 53, 0, b); b := b + Le32(0);
    assert b == start + HeaderTail(nrBuckets);
  }

  lemma ZeroHolds(p: array<Byte>)
    requires forall i :: 0 <= i < p.Length ==> p[i] == 0
    ensures Holds(p, [])
  {
    assert p[..] == Zeros(p.Length);
  }

  lemma HoldsSplit(p: array<Byte>, a: ByteSeq, b: ByteSeq, c: ByteSeq)
    requires Holds(p, a + b + c)
    ensures |a| + |b| <= p.Length
    ensures p[..|a|] == a
    ensures p[|a| + |b|..] == c + Zeros(p.Length - |a| - |b| - |c|)
  {
    var s := a + b + c + Zeros(p.Length - |a| - |b| - |c|);
    assert p[..|a|] == s[..|a|] == a;
    assert p[|a| + |b|..] == s[|a| + |b|..];
  }

  /** Overwrites the word at `at`. */
  function Patched(buf: ByteSeq, at: nat, v: nat): (b: ByteSeq)
    requires at + 4 <= |buf|
    ensures |b| == |buf|
  {
    buf[..at] + Le32(v) + buf[at + 4..]
  }

  /** A Block object: placeholder length, type, version, count, values; then the length is patched. */
  method AppendBlock(before: ByteSeq, values: seq<nat>) returns (buf: ByteSeq)
    ensures buf == before + BlockBytes(values)
  {
    hide Le32, Ascii;
    var at := |before|;
    buf := before + Le32(0) + Le32(5) + Ascii("Block") + Le32(1) + Le32(|values|);
    ghost var start := buf;
    assert start + Le32s(values[..0]) == start;
    var i := 0;
    while i < |values|
      invariant i <= |values| && buf == start + Le32s(values[..i])
    {
      buf := buf + Le32(values[i]);
      WordsSnoc(start, values, i);
      i := i + 1;
    }
    assert values[..i] == values;
    buf := Patched(buf, at, |buf| - at);
    assert buf[at..at + 4] == Le32(21 + 4 * |values|);
  }

  /** The ISMIndex object that ends the file. */
  method BuildIndex(starts: seq<nat>, rowCount: nat) returns (buf: ByteSeq)
    ensures buf == IndexFileBytes(starts, rowCount)
  {
    hide Le32, Ascii, BlockBytes;
    buf := Le32(MAGIC);
    var at := |buf|;
    buf := buf + Le32(0) + Le32(8) + Ascii("ISMIndex") + Le32(1) + Le32(|starts|);
    buf := AppendBlock(buf, starts + [rowCount]);
    buf := AppendBlock(buf, Iota(|starts|));
    ghost var tail := IndexTail(starts, rowCount);
    assert buf == Le32(MAGIC) + Le32(0) + tail;
    buf := Patched(buf, at, |buf| - at);
    assert buf == Le32(MAGIC) + Le32(4 + |tail|) + tail;
  }

  // ---- the writer ----

  datatype ColumnDesc = ColumnDesc(name: ByteSeq, dtype: DataType)

  /** setup: every cell default-constructed. */
  function Fresh(descs: seq<ColumnDesc>, n: nat): (cols: seq<Column>)
    ensures Rectangular(cols, n) && |cols| == |descs|
  {
    seq(|descs|, c requires 0 <= c < |descs| => Column(descs[c].name, descs[c].dtype, seq(n, _ => DEFAULT_CELL)))
  }

  class IsmWriter {
    var columns: seq<Column>
    var rowCount: nat
    var isSetup: bool

    ghost predicate Valid()
      reads this
    {
      Rectangular(columns, rowCount)
    }

    constructor ()
      ensures Valid() && !isSetup
    {
      columns := [];
      rowCount := 0;
      isSetup := false;
    }

    method Setup(descs: seq<ColumnDesc>, n: nat)
      modifies this
      ensures Valid() && isSetup && rowCount == n && columns == Fresh(descs, n)
    {
      rowCount := n;
      columns := [];
      var i := 0;
      while i < |descs|
        invariant i <= |descs| && columns == Fresh(descs[..i], n) && rowCount == n
      {
        columns := columns + [Column(descs[i].name, descs[i].dtype, seq(n, _ => DEFAULT_CELL))];
        i := i + 1;
      }
      assert descs[..i] == descs;
      isSetup := true;
    }

    method WriteCell(colIndex: nat, value: Cell, row: nat) returns (ok: bool)
      requires Valid()
      modifies this
      ensures Valid() && isSetup == old(isSetup) && rowCount == old(rowCount)
      ensures ok == (isSetup && colIndex < old(|columns|) && row < rowCount)
      ensures columns == if ok then WithCell(old(columns), Write(colIndex, value, row)) else old(columns)
    {
      if !isSetup || colIndex >= |columns| || row >= rowCount {
        return false;
      }
      columns := columns[colIndex := columns[colIndex].(values := columns[colIndex].values[row := value])];
      return true;
    }

    /** Fails on an unsupported column type; otherwise the file as described by FileBytes. */
    method Flush() returns (file: Option<ByteSeq>)
      requires Valid() && rowCount <= TWO32
      requires isSetup && Storable(columns) && rowCount > 0 ==> EntryFits(columns)
      ensures isSetup && Storable(columns) ==> file == Some(FileBytes(columns, rowCount))
      ensures !(isSetup && Storable(columns)) ==> file == None
    {
      if !isSetup {
        return None;
      }
      var sizes := ColumnSizes(columns);
      if sizes.None? {
        return None;
      }
      var offsets := ColumnOffsets(columns, sizes.value);
      var f := BuildFile(columns, rowCount, sizes.value, offsets);
      return Some(f);
    }
  }

  ghost predicate SizesOf(cols: seq<Column>, sizes: seq<nat>) {
    |sizes| == |cols| && forall c :: 0 <= c < |cols| ==> sizes[c] == SizeOf(cols[c].dtype)
  }

  method ColumnSizes(cols: seq<Column>) returns (sizes: Option<seq<nat>>)
    ensures sizes.Some? <==> Storable(cols)
    ensures sizes.Some? ==> SizesOf(cols, sizes.value)
  {
    hide SizeOf;
    var s := [];
    var c := 0;
    while c < |cols|
      invariant c <= |cols| && SizesOf(cols[..c], s) && Storable(cols[..c])
    {
      var size := SizeOf(cols[c].dtype);
      if size == 0 {
        return None;
      }
      s := s + [size];
      assert cols[..c + 1] == cols[..c] + [cols[c]];
      c := c + 1;
    }
    assert cols[..c] == cols;
    return Some(s);
  }

  method ColumnOffsets(cols: seq<Column>, sizes: seq<nat>) returns (offsets: seq<nat>)
    requires SizesOf(cols, sizes)
    ensures |offsets| == |cols| && forall c :: 0 <= c < |cols| ==> offsets[c] == ColOffset(cols, c)
  {
    hide SizeOf, Storable;
    offsets := [];
    var off := 0;
    var c := 0;
    while c < |cols|
      invariant c <= |cols| && |offsets| == c && off == ColOffset(cols, c)
      invariant forall d :: 0 <= d < c ==> offsets[d] == ColOffset(cols, d)
    {
      offsets := offsets + [off];
      off := off + sizes[c];
      c := c + 1;
    }
  }

  method EntryRecordSize(cols: seq<Column>, sizes: seq<nat>) returns (size: nat)
    requires SizesOf(cols, sizes)
    ensures size == RecordSize(cols)
  {
    hide SizeOf;
    size := 0;
    var c := 0;
    while c < |cols|
      invariant c <= |cols| && size == ColOffset(cols, c)
    {
      size := size + sizes[c];
      c := c + 1;
    }
  }

  /** All planned buckets one after the other, and the row each starts with. */
  method BuildBuckets(cols: seq<Column>, n: nat, colEntries: seq<seq<nat>>, colOffsets: seq<nat>, rows: seq<nat>,
                      plans: seq<BucketPlan>, ghost buckets: seq<seq<nat>>) returns (bytes: ByteSeq, starts: seq<nat>)
    requires PlanWithin(plans, |rows|) && Slices(rows, plans) == buckets
    requires forall i :: 0 <= i < |buckets| ==> BucketFits(cols, n, buckets[i])
    requires Rectangular(cols, n) && |colEntries| == |colOffsets| == |cols|
    requires forall c :: 0 <= c < |cols| ==> colEntries[c] == Heads(cols[c].values, n) && colOffsets[c] == ColOffset(cols, c)
    ensures bytes == BucketsBytes(cols, n, buckets) && starts == StartRows(buckets)
  {
    hide Heads, ColOffset, FittingBucket, Times, Rectangular, FixedSize, EntrySize, RecordSize;
    bytes, starts := [], [];
    var i := 0;
    while i < |plans|
      invariant i <= |plans|
      invariant bytes == BucketsBytes(cols, n, buckets[..i]) && starts == StartRows(buckets[..i])
    {
      var p := plans[i];
      assert buckets[i] == rows[p.first..p.first + p.count];
      assert BucketFits(cols, n, buckets[i]);
      starts := starts + [rows[p.first]];
      var bucket := BuildBucket(cols, n, colEntries, colOffsets, rows[p.first..p.first + p.count]);
      bytes := bytes + bucket[..];
      assert buckets[..i + 1][..i] == buckets[..i];
      i := i + 1;
    }
    assert buckets[..i] == buckets;
  }

  method BuildFile(cols: seq<Column>, n: nat, sizes: seq<nat>, offsets: seq<nat>) returns (file: ByteSeq)
    requires Flushable(cols, n) && SizesOf(cols, sizes) && |offsets| == |cols|
    requires forall c :: 0 <= c < |cols| ==> offsets[c] == ColOffset(cols, c)
    ensures file == FileBytes(cols, n)
  {
    hide Changed, Heads, EntryRows, HeaderBytes, IndexFileBytes, BucketsBytes, BucketFits, ColOffset, RecordSize, Slices, Plan;
    var written := MarkRows(cols, n);
    var colEntries := ColumnEntries(cols, n, written);
    var size := EntryRecordSize(cols, sizes);
    var rows := CollectRows(cols, n, written);
    var plans := PlanBuckets(rows, |cols|, size);
    BucketRowsFit(cols, n);
    ghost var buckets := BucketRows(cols, n);
    assert Remaining(rows, 0, |cols|, size) == buckets by { assert rows[0..] == rows; }
    var bytes, starts := BuildBuckets(cols, n, colEntries, offsets, rows, plans, buckets);
    var header := BuildHeader(|plans|);
    var index := BuildIndex(starts, n);
    file := header[..] + bytes + index;
  }
}
