/** Run-length compression of the columns of src/incremental_stman.cpp, and the plan that packs it into buckets. */
module IsmRuns {
  import opened Arithmetic
  import opened Bytes
  import opened IsmCells

  datatype Column = Column(name: ByteSeq, dtype: DataType, values: seq<Cell>)

  predicate Rectangular(cols: seq<Column>, n: nat) {
    forall c :: 0 <= c < |cols| ==> |cols[c].values| == n
  }

  // ---- the meaning: runs of equal neighbours ----

  /** Row r starts a run: it is the first row or compares unequal to the row before. */
  predicate IsHead(values: seq<Cell>, r: nat)
    requires r < |values|
  {
    r == 0 || !CellEq(values[r], values[r - 1])
  }

  /** The run starts among the first n rows, ascending. */
  function Heads(values: seq<Cell>, n: nat): seq<nat>
    requires n <= |values|
  {
    if n == 0 then [] else Heads(values, n - 1) + if IsHead(values, n - 1) then [n - 1] else []
  }

  /** The start of the run that row r belongs to. */
  function LastHead(values: seq<Cell>, r: nat): (h: nat)
    requires r < |values|
    ensures h <= r && IsHead(values, h)
  {
    if IsHead(values, r) then r else LastHead(values, r - 1)
  }

  /** Every row of a run compares equal to the row that starts it. */
  lemma {:induction false} RunEqualsHead(values: seq<Cell>, r: nat)
    requires r < |values|
    ensures LastHead(values, r) < r ==> CellEq(values[r], values[LastHead(values, r)])
  {
    if !IsHead(values, r) {
      RunEqualsHead(values, r - 1);
      var p := LastHead(values, r - 1);
      if p < r - 1 {
        EqTransitive(values[r], values[r - 1], values[p]);
      }
    }
  }

  /** Comparing with the start of the previous run decides the same as comparing with the row before. */
  lemma HeadByRun(values: seq<Cell>, r: nat)
    requires 0 < r < |values|
    ensures IsHead(values, r) <==> !CellEq(values[r], values[LastHead(values, r - 1)])
  {
    var p := LastHead(values, r - 1);
    RunEqualsHead(values, r - 1);
    if p < r - 1 {
      if CellEq(values[r], values[p]) {
        EqSymmetric(values[r - 1], values[p]);
        EqTransitive(values[r], values[p], values[r - 1]);
      } else if CellEq(values[r], values[r - 1]) {
        EqTransitive(values[r], values[r - 1], values[p]);
      }
    }
  }

  lemma {:induction false} HeadsLast(values: seq<Cell>, n: nat)
    requires 0 < n <= |values|
    ensures var h := Heads(values, n); h != [] && h[|h| - 1] == LastHead(values, n - 1)
  {
    if !IsHead(values, n - 1) {
      HeadsLast(values, n - 1);
    }
  }

  /** Entries are exactly the run starts, strictly ascending. */
  lemma {:induction false} HeadsAscend(values: seq<Cell>, n: nat)
    requires n <= |values|
    ensures forall i :: 0 <= i < |Heads(values, n)| ==> Heads(values, n)[i] < n && IsHead(values, Heads(values, n)[i])
    ensures forall i, j :: 0 <= i < j < |Heads(values, n)| ==> Heads(values, n)[i] < Heads(values, n)[j]
    ensures forall r: nat :: r < n && IsHead(values, r) ==> r in Heads(values, n)
  {
    if n > 0 {
      HeadsAscend(values, n - 1);
    }
  }

  // ---- the two passes of flush ----

  /** First pass: some column differs from the row before. */
  predicate Changed(cols: seq<Column>, n: nat, r: nat)
    requires Rectangular(cols, n) && r < n
  {
    r == 0 || exists c :: 0 <= c < |cols| && IsHead(cols[c].values, r)
  }

  lemma HeadIsChanged(cols: seq<Column>, n: nat, c: nat, r: nat)
    requires Rectangular(cols, n) && r < n && c < |cols| && IsHead(cols[c].values, r)
    ensures Changed(cols, n, r)
  {
  }

  /** Rows below `upto` that get a packed entry record. */
  function EntryRows(cols: seq<Column>, n: nat, upto: nat): (rows: seq<nat>)
    requires Rectangular(cols, n) && upto <= n
  {
    if upto == 0 then []
    else EntryRows(cols, n, upto - 1) + if Changed(cols, n, upto - 1) then [upto - 1] else []
  }

  /** Second pass: among the entry rows, those that differ from the last one kept for this column. */
  function Kept(values: seq<Cell>, rows: seq<nat>): (k: seq<nat>)
    requires forall i :: 0 <= i < |rows| ==> rows[i] < |values|
    ensures forall i :: 0 <= i < |k| ==> k[i] < |values|
  {
    if rows == [] then []
    else
      var k := Kept(values, rows[..|rows| - 1]);
      var r := rows[|rows| - 1];
      if k == [] || !CellEq(values[r], values[k[|k| - 1]]) then k + [r] else k
  }

  lemma {:induction false} EntryRowsAscend(cols: seq<Column>, n: nat, upto: nat)
    requires Rectangular(cols, n) && upto <= n
    ensures forall i :: 0 <= i < |EntryRows(cols, n, upto)| ==> EntryRows(cols, n, upto)[i] < upto
    ensures forall i, j :: 0 <= i < j < |EntryRows(cols, n, upto)| ==>
              EntryRows(cols, n, upto)[i] < EntryRows(cols, n, upto)[j]
    ensures upto > 0 ==> EntryRows(cols, n, upto) != [] && EntryRows(cols, n, upto)[0] == 0
  {
    if upto > 0 {
      EntryRowsAscend(cols, n, upto - 1);
    }
  }

  lemma KeptSnoc(values: seq<Cell>, rows: seq<nat>, r: nat)
    requires forall i :: 0 <= i < |rows| ==> rows[i] < |values|
    requires r < |values|
    ensures var k := Kept(values, rows);
      Kept(values, rows + [r]) == if k == [] || !CellEq(values[r], values[k[|k| - 1]]) then k + [r] else k
  {
    assert (rows + [r])[..|rows|] == rows;
  }

  /**
   * The filter that only compares neighbouring rows loses nothing: the entries kept for a column among the
   * entry rows are all of that column's run starts.
   */
  lemma {:induction false} KeptAreHeads(cols: seq<Column>, n: nat, upto: nat, c: nat)
    requires Rectangular(cols, n) && upto <= n && c < |cols|
    ensures forall i :: 0 <= i < |EntryRows(cols, n, upto)| ==> EntryRows(cols, n, upto)[i] < n
    ensures Kept(cols[c].values, EntryRows(cols, n, upto)) == Heads(cols[c].values, upto)
  {
    EntryRowsAscend(cols, n, upto);
    if upto > 0 {
      hide CellEq, Changed, IsHead, Kept, EntryRows, Heads;
      var values, r := cols[c].values, upto - 1;
      NextRow(cols, n, r, c);
      EntryRowsAscend(cols, n, r);
      KeptAreHeads(cols, n, r, c);
      HeadDecision(values, r);
      if Changed(cols, n, r) {
        KeptSnoc(values, EntryRows(cols, n, r), r);
        assert EntryRows(cols, n, upto) == EntryRows(cols, n, r) + [r];
      } else {
        FirstIsChanged(cols, n, r, c);
        assert EntryRows(cols, n, upto) == EntryRows(cols, n, r) && Heads(values, upto) == Heads(values, r);
      }
    }
  }

  lemma NextRow(cols: seq<Column>, n: nat, r: nat, c: nat)
    requires Rectangular(cols, n) && r < n && c < |cols|
    ensures EntryRows(cols, n, r + 1) == EntryRows(cols, n, r) + if Changed(cols, n, r) then [r] else []
    ensures Heads(cols[c].values, r + 1) == Heads(cols[c].values, r) + if IsHead(cols[c].values, r) then [r] else []
  {
    hide Changed, IsHead;
  }

  /** The second pass's test decides whether row r starts a run. */
  lemma HeadDecision(values: seq<Cell>, r: nat)
    requires r < |values|
    ensures forall i :: 0 <= i < |Heads(values, r)| ==> Heads(values, r)[i] < |values|
    ensures var h := Heads(values, r);
      (h == [] || !CellEq(values[r], values[h[|h| - 1]])) <==> IsHead(values, r)
  {
    HeadsAscend(values, r);
    if r > 0 {
      HeadsLast(values, r);
      HeadByRun(values, r);
    }
  }

  lemma FirstIsChanged(cols: seq<Column>, n: nat, r: nat, c: nat)
    requires Rectangular(cols, n) && r < n && c < |cols| && !Changed(cols, n, r)
    ensures !IsHead(cols[c].values, r)
  {
  }

  /** The rows among `rows` that start a run, in order. */
  function Select(values: seq<Cell>, rows: seq<nat>): (s: seq<nat>)
    requires forall i :: 0 <= i < |rows| ==> rows[i] < |values|
    ensures |s| <= |rows| && forall i :: 0 <= i < |s| ==> s[i] < |values|
  {
    if rows == [] then []
    else
      var r := rows[|rows| - 1];
      Select(values, rows[..|rows| - 1]) + if IsHead(values, r) then [r] else []
  }

  lemma {:induction false} SelectConcat(values: seq<Cell>, a: seq<nat>, b: seq<nat>)
    requires forall i :: 0 <= i < |a + b| ==> (a + b)[i] < |values|
    ensures forall i :: 0 <= i < |a| ==> a[i] < |values|
    ensures forall i :: 0 <= i < |b| ==> b[i] < |values|
    ensures Select(values, a + b) == Select(values, a) + Select(values, b)
  {
    forall i | 0 <= i < |a| ensures a[i] < |values| { assert (a + b)[i] == a[i]; }
    forall i | 0 <= i < |b| ensures b[i] < |values| { assert (a + b)[|a| + i] == b[i]; }
    if b == [] {
      assert a + b == a;
    } else {
      var b' := b[..|b| - 1];
      assert (a + b)[..|a + b| - 1] == a + b';
      SelectConcat(values, a, b');
    }
  }

  lemma {:induction false} SelectEntryRows(cols: seq<Column>, n: nat, upto: nat, c: nat)
    requires Rectangular(cols, n) && upto <= n && c < |cols|
    ensures forall i :: 0 <= i < |EntryRows(cols, n, upto)| ==> EntryRows(cols, n, upto)[i] < n
    ensures Select(cols[c].values, EntryRows(cols, n, upto)) == Heads(cols[c].values, upto)
  {
    hide CellEq, Changed, IsHead;
    EntryRowsAscend(cols, n, upto);
    if upto > 0 {
      SelectEntryRows(cols, n, upto - 1, c);
      var rows := EntryRows(cols, n, upto);
      if Changed(cols, n, upto - 1) {
        assert rows[..|rows| - 1] == EntryRows(cols, n, upto - 1);
      } else {
        if IsHead(cols[c].values, upto - 1) { HeadIsChanged(cols, n, c, upto - 1); }
        assert rows == EntryRows(cols, n, upto - 1);
      }
    }
  }

  // ---- packing ----

  const BUCKET_SIZE: nat := 32768

  /** Bytes of one bucket before any entry: the free-offset word and one count per column. */
  function FixedSize(ncols: nat): nat { 4 + 4 * ncols }

  /** Upper bound for one entry: its record and one row and offset word per column. */
  function EntrySize(ncols: nat, recordSize: nat): nat { recordSize + 8 * ncols }

  /** How many of `available` entries the greedy loop takes after `count` of them used `used` bytes. */
  function TakeCount(available: nat, count: nat, used: nat, each: nat): (k: nat)
    requires count <= available
    ensures count <= k <= available && (available > 0 ==> k > 0)
    decreases available - count
  {
    if count == available then count
    else if used + each > BUCKET_SIZE && count > 0 then count
    else TakeCount(available, count + 1, used + each, each)
  }

  /** Bucket sizes for `available` entries in order. */
  function Plan(available: nat, ncols: nat, recordSize: nat): (p: seq<nat>)
    ensures forall i :: 0 <= i < |p| ==> p[i] > 0
    decreases available
  {
    if available == 0 then []
    else
      var k := TakeCount(available, 0, FixedSize(ncols), EntrySize(ncols, recordSize));
      [k] + Plan(available - k, ncols, recordSize)
  }

  lemma {:induction false} TakeFits(available: nat, count: nat, used: nat, each: nat, fixed: nat)
    requires count <= available && used == fixed + count * each
    requires count > 0 ==> used <= BUCKET_SIZE
    requires fixed + each <= BUCKET_SIZE
    ensures var k := TakeCount(available, count, used, each); k > 0 ==> fixed + k * each <= BUCKET_SIZE
    decreases available - count
  {
    Distribute(each, count);
    if count < available && !(used + each > BUCKET_SIZE && count > 0) {
      assert count == 0 ==> used == fixed;
      TakeFits(available, count + 1, used + each, each, fixed);
    }
  }

  /** If one entry fits, every bucket's worst case fits. */
  lemma {:induction false} PlanFits(available: nat, ncols: nat, recordSize: nat)
    requires FixedSize(ncols) + EntrySize(ncols, recordSize) <= BUCKET_SIZE
    ensures var p := Plan(available, ncols, recordSize);
      forall i :: 0 <= i < |p| ==> FixedSize(ncols) + p[i] * EntrySize(ncols, recordSize) <= BUCKET_SIZE
    decreases available
  {
    if available > 0 {
      var each, fixed := EntrySize(ncols, recordSize), FixedSize(ncols);
      TakeFits(available, 0, fixed, each, fixed);
      var k := TakeCount(available, 0, fixed, each);
      PlanFits(available - k, ncols, recordSize);
      var p := Plan(available, ncols, recordSize);
      forall i | 0 <= i < |p| ensures fixed + p[i] * each <= BUCKET_SIZE {
        if i > 0 {
          assert p[i] == Plan(available - k, ncols, recordSize)[i - 1];
        }
      }
    }
  }

  lemma {:induction false} TakeStops(available: nat, count: nat, used: nat, each: nat, fixed: nat)
    requires count <= available && used == fixed + count * each
    ensures var k := TakeCount(available, count, used, each); k < available ==> fixed + (k + 1) * each > BUCKET_SIZE
    decreases available - count
  {
    Distribute(each, count);
    if count < available && !(used + each > BUCKET_SIZE && count > 0) {
      TakeStops(available, count + 1, used + each, each, fixed);
    }
  }

  /**
   * Packing is greedy: but for the last bucket, one more entry would not fit, counted as a free-offset word, a count per
   * column, and for each entry its record with a row and an offset word per column.
   */
  lemma {:induction false} PlanIsGreedy(available: nat, ncols: nat, recordSize: nat, i: nat)
    requires i + 1 < |Plan(available, ncols, recordSize)|
    ensures 4 + 4 * ncols + (Plan(available, ncols, recordSize)[i] + 1) * (recordSize + 8 * ncols) > 32768
    decreases available
  {
    var each, fixed := EntrySize(ncols, recordSize), FixedSize(ncols);
    var k := TakeCount(available, 0, fixed, each);
    if i > 0 {
      PlanIsGreedy(available - k, ncols, recordSize, i - 1);
    } else {
      TakeStops(available, 0, fixed, each, fixed);
    }
  }

  /** Consecutive runs of `rows` with the planned sizes. */
  function Cut(rows: seq<nat>, sizes: seq<nat>): (buckets: seq<seq<nat>>)
    requires Total(sizes) == |rows|
    ensures |buckets| == |sizes|
    ensures forall i :: 0 <= i < |sizes| ==> |buckets[i]| == sizes[i]
  {
    if sizes == [] then [] else [rows[..sizes[0]]] + Cut(rows[sizes[0]..], sizes[1..])
  }

  function Total(sizes: seq<nat>): nat {
    if sizes == [] then 0 else sizes[0] + Total(sizes[1..])
  }

  ghost function Joined(buckets: seq<seq<nat>>): seq<nat> {
    if buckets == [] then [] else buckets[0] + Joined(buckets[1..])
  }

  lemma {:induction false} PlanTotal(available: nat, ncols: nat, recordSize: nat)
    ensures Total(Plan(available, ncols, recordSize)) == available
    decreases available
  {
    if available > 0 {
      var k := TakeCount(available, 0, FixedSize(ncols), EntrySize(ncols, recordSize));
      PlanTotal(available - k, ncols, recordSize);
    }
  }

  /** The buckets hold the entry rows in order, without loss or repetition. */
  lemma {:induction false} CutJoins(rows: seq<nat>, sizes: seq<nat>)
    requires Total(sizes) == |rows|
    ensures Joined(Cut(rows, sizes)) == rows
  {
    if sizes != [] {
      CutJoins(rows[sizes[0]..], sizes[1..]);
      assert rows == rows[..sizes[0]] + rows[sizes[0]..];
    }
  }
}
