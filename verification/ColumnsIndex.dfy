/** src/columns_index.cpp: an index ordered by a key comparison, against a scan of the rows. */
module ColumnsIndex {
  import opened Wrappers

  /** Key cells; floating-point alternatives as reals, so without NaN. */
  datatype KeyCell =
    | KBool(b: bool)
    | KInt(i: int)
    | KUInt(u: int)
    | KInt64(l: int)
    | KFloat(f: real)
    | KDouble(d: real)
    | KComplex(re: real, im: real)
    | KDComplex(dre: real, dim: real)
    | KString(s: seq<nat>)

  type Key = seq<KeyCell>

  // ---- comparison ----

  /** Position of the alternative in the variant. */
  function Index(c: KeyCell): nat {
    match c
    case KBool(_) => 0
    case KInt(_) => 1
    case KUInt(_) => 2
    case KInt64(_) => 3
    case KFloat(_) => 4
    case KDouble(_) => 5
    case KComplex(_, _) => 6
    case KDComplex(_, _) => 7
    case KString(_) => 8
  }

  function CompareInt(a: int, b: int): int { if a < b then -1 else if b < a then 1 else 0 }

  function CompareReal(a: real, b: real): int { if a < b then -1 else if b < a then 1 else 0 }

  function ComparePair(a: real, x: real, b: real, y: real): int {
    if CompareReal(a, b) != 0 then CompareReal(a, b) else CompareReal(x, y)
  }

  function CompareText(a: seq<nat>, b: seq<nat>): int {
    if a == [] then if b == [] then 0 else -1
    else if b == [] then 1
    else if a[0] != b[0] then CompareInt(a[0], b[0])
    else CompareText(a[1..], b[1..])
  }

  /** cell_compare: by alternative, then by value. */
  function CellCompare(a: KeyCell, b: KeyCell): int {
    if Index(a) != Index(b) then CompareInt(Index(a), Index(b))
    else
      match a
      case KBool(x) => CompareInt(if x then 1 else 0, if b.b then 1 else 0)
      case KInt(x) => CompareInt(x, b.i)
      case KUInt(x) => CompareInt(x, b.u)
      case KInt64(x) => CompareInt(x, b.l)
      case KFloat(x) => CompareReal(x, b.f)
      case KDouble(x) => CompareReal(x, b.d)
      case KComplex(x, y) => ComparePair(x, y, b.re, b.im)
      case KDComplex(x, y) => ComparePair(x, y, b.dre, b.dim)
      case KString(x) => CompareText(x, b.s)
  }

  /** KeyCompare: lexicographic, a proper prefix first. */
  predicate Below(a: Key, b: Key) {
    if a == [] || b == [] then |a| < |b|
    else if CellCompare(a[0], b[0]) != 0 then CellCompare(a[0], b[0]) < 0
    else Below(a[1..], b[1..])
  }

  /** The loop of KeyCompare. */
  method CompareKeys(a: Key, b: Key) returns (below: bool)
    ensures below == Below(a, b)
  {
    hide CellCompare;
    var i := 0;
    assert a[0..] == a && b[0..] == b;
    while i < |a| && i < |b|
      invariant i <= |a| && i <= |b| && Below(a, b) == Below(a[i..], b[i..])
    {
      var c := CellCompare(a[i], b[i]);
      if c < 0 {
        return true;
      }
      if c > 0 {
        return false;
      }
      assert a[i..][1..] == a[i + 1..] && b[i..][1..] == b[i + 1..];
      i := i + 1;
    }
    return |a| < |b|;
  }

  // ---- a strict total order ----

  lemma {:induction false} TextOrder(a: seq<nat>, b: seq<nat>)
    ensures CompareText(a, b) == -CompareText(b, a) && (CompareText(a, b) == 0 <==> a == b)
    ensures -1 <= CompareText(a, b) <= 1
  {
    if a != [] && b != [] && a[0] == b[0] {
      TextOrder(a[1..], b[1..]);
      assert a == [a[0]] + a[1..] && b == [b[0]] + b[1..];
    }
  }

  lemma {:induction false} TextTransitive(a: seq<nat>, b: seq<nat>, c: seq<nat>)
    requires CompareText(a, b) < 0 && CompareText(b, c) < 0
    ensures CompareText(a, c) < 0
  {
    if a != [] && b != [] && c != [] && a[0] == b[0] == c[0] {
      TextTransitive(a[1..], b[1..], c[1..]);
    }
  }

  lemma CellOrder(a: KeyCell, b: KeyCell)
    ensures CellCompare(a, b) == -CellCompare(b, a) && (CellCompare(a, b) == 0 <==> a == b)
  {
    hide CompareText;
    if a.KString? && b.KString? {
      TextOrder(a.s, b.s);
    }
  }

  lemma CellTransitive(a: KeyCell, b: KeyCell, c: KeyCell)
    requires CellCompare(a, b) < 0 && CellCompare(b, c) < 0
    ensures CellCompare(a, c) < 0
  {
    hide CompareText;
    if a.KString? && b.KString? && c.KString? {
      TextTransitive(a.s, b.s, c.s);
    }
  }

  /** Exactly one of two keys comes first unless they are equal. */
  lemma {:induction false} Trichotomy(a: Key, b: Key)
    ensures !(Below(a, b) && Below(b, a))
    ensures a == b <==> !Below(a, b) && !Below(b, a)
  {
    hide CellCompare;
    if a != [] && b != [] {
      CellOrder(a[0], b[0]);
      if a[0] == b[0] {
        Trichotomy(a[1..], b[1..]);
        assert a == [a[0]] + a[1..] && b == [b[0]] + b[1..];
      }
    }
  }

  lemma {:induction false} Transitive(a: Key, b: Key, c: Key)
    requires Below(a, b) && Below(b, c)
    ensures Below(a, c)
  {
    hide CellCompare;
    if a != [] && b != [] && c != [] {
      CellOrder(a[0], b[0]);
      CellOrder(b[0], c[0]);
      CellOrder(a[0], c[0]);
      if a[0] == b[0] == c[0] {
        Transitive(a[1..], b[1..], c[1..]);
      } else if a[0] != b[0] && b[0] != c[0] {
        CellTransitive(a[0], b[0], c[0]);
      }
    }
  }

  // ---- the scan ----

  /** The rows among the first n whose key is k, ascending. */
  function Scan(keys: seq<Key>, n: nat, k: Key): seq<nat>
    requires n <= |keys|
  {
    if n == 0 then [] else Scan(keys, n - 1, k) + if keys[n - 1] == k then [n - 1] else []
  }

  lemma {:induction false} ScanIsExact(keys: seq<Key>, n: nat, k: Key)
    requires n <= |keys|
    ensures forall r: nat :: r in Scan(keys, n, k) <==> r < n && keys[r] == k
    ensures forall i, j :: 0 <= i < j < |Scan(keys, n, k)| ==> Scan(keys, n, k)[i] < Scan(keys, n, k)[j]
  {
    if n > 0 {
      ScanIsExact(keys, n - 1, k);
      var before := Scan(keys, n - 1, k);
      forall i | 0 <= i < |before| ensures before[i] < n - 1 {
        assert before[i] in before;
      }
    }
  }

  // ---- the index ----

  datatype Node = Node(key: Key, rows: seq<nat>)

  ghost predicate Ordered(index: seq<Node>) {
    forall i, j :: 0 <= i < j < |index| ==> Below(index[i].key, index[j].key)
  }

  /** The position of the first key that does not come before k. */
  method LowerBound(index: seq<Node>, k: Key) returns (p: nat)
    requires Ordered(index)
    ensures p <= |index|
    ensures forall i :: 0 <= i < p ==> Below(index[i].key, k)
    ensures forall i :: p <= i < |index| ==> !Below(index[i].key, k)
  {
    hide Below;
    var lo, hi := 0, |index|;
    while lo < hi
      invariant 0 <= lo <= hi <= |index|
      invariant forall i :: 0 <= i < lo ==> Below(index[i].key, k)
      invariant forall i :: hi <= i < |index| ==> !Below(index[i].key, k)
    {
      var mid := (lo + hi) / 2;
      var below := CompareKeys(index[mid].key, k);
      if below {
        forall i | 0 <= i < mid ensures Below(index[i].key, k) {
          Transitive(index[i].key, index[mid].key, k);
        }
        lo := mid + 1;
      } else {
        forall i | mid < i < |index| ensures !Below(index[i].key, k) {
          if Below(index[i].key, k) {
            Transitive(index[mid].key, index[i].key, k);
          }
        }
        hi := mid;
      }
    }
    p := lo;
  }

  /** The rows stored for a key. */
  ghost function RowsFor(index: seq<Node>, k: Key): seq<nat> {
    if index == [] then []
    else if index[|index| - 1].key == k then index[|index| - 1].rows
    else RowsFor(index[..|index| - 1], k)
  }

  lemma {:induction false} RowsAt(index: seq<Node>, p: nat)
    requires Ordered(index) && p < |index|
    ensures RowsFor(index, index[p].key) == index[p].rows
    decreases |index|
  {
    hide Below;
    if p < |index| - 1 {
      Trichotomy(index[p].key, index[|index| - 1].key);
      RowsAt(index[..|index| - 1], p);
    }
  }

  lemma {:induction false} NoRows(index: seq<Node>, k: Key)
    requires forall i :: 0 <= i < |index| ==> index[i].key != k
    ensures RowsFor(index, k) == []
  {
    if index != [] {
      NoRows(index[..|index| - 1], k);
    }
  }

  lemma {:induction false} RowsSplit(a: seq<Node>, b: seq<Node>, k: Key)
    requires forall i :: 0 <= i < |b| ==> b[i].key != k
    ensures RowsFor(a + b, k) == RowsFor(a, k)
    decreases |b|
  {
    if b == [] {
      assert a + b == a;
    } else {
      assert (a + b)[..|a + b| - 1] == a + b[..|b| - 1];
      RowsSplit(a, b[..|b| - 1], k);
    }
  }

  datatype Table = Table(columns: map<string, seq<KeyCell>>, nrow: nat)

  predicate HasColumns(t: Table, names: seq<string>) {
    forall i :: 0 <= i < |names| ==> names[i] in t.columns && |t.columns[names[i]]| == t.nrow
  }

  /** make_key_from_row */
  function KeyOfRow(t: Table, names: seq<string>, r: nat): Key
    requires HasColumns(t, names) && r < t.nrow
  {
    seq(|names|, i requires 0 <= i < |names| => t.columns[names[i]][r])
  }

  function KeysOf(t: Table, names: seq<string>): (k: seq<Key>)
    requires HasColumns(t, names)
    ensures |k| == t.nrow
  {
    seq(t.nrow, r requires 0 <= r < t.nrow => KeyOfRow(t, names, r))
  }

  /** make_key: nothing when the record lacks a key column. */
  function MakeKey(names: seq<string>, rec: map<string, KeyCell>): Option<Key> {
    if exists i :: 0 <= i < |names| && names[i] !in rec then None
    else Some(seq(|names|, i requires 0 <= i < |names| => rec[names[i]]))
  }

  /** Row r has the record's values in all of these columns. */
  ghost predicate RowMatches(t: Table, names: seq<string>, rec: map<string, KeyCell>, r: nat)
    requires HasColumns(t, names) && r < t.nrow
  {
    forall name :: name in names ==> name in rec && t.columns[name][r] == rec[name]
  }

  /** There is a key exactly if the record has all key columns, and then the scan finds exactly the rows with the record's values. */
  lemma RowsFound(t: Table, names: seq<string>, rec: map<string, KeyCell>)
    requires HasColumns(t, names)
    ensures MakeKey(names, rec).None? <==> exists name :: name in names && name !in rec
    ensures MakeKey(names, rec).Some? ==> forall r: nat ::
      r in Scan(KeysOf(t, names), t.nrow, MakeKey(names, rec).value) <==> r < t.nrow && RowMatches(t, names, rec, r)
  {
    if MakeKey(names, rec).Some? {
      var k := MakeKey(names, rec).value;
      ScanIsExact(KeysOf(t, names), t.nrow, k);
      forall r: nat | r < t.nrow ensures KeysOf(t, names)[r] == k <==> RowMatches(t, names, rec, r) {
        KeyMatches(t, names, rec, r);
      }
    }
  }

  lemma KeyMatches(t: Table, names: seq<string>, rec: map<string, KeyCell>, r: nat)
    requires HasColumns(t, names) && r < t.nrow && MakeKey(names, rec).Some?
    ensures KeyOfRow(t, names, r) == MakeKey(names, rec).value <==> RowMatches(t, names, rec, r)
  {
    var a, b := KeyOfRow(t, names, r), MakeKey(names, rec).value;
    if a == b {
      forall name | name in names ensures name in rec && t.columns[name][r] == rec[name] {
        var i :| 0 <= i < |names| && names[i] == name;
        assert a[i] == b[i];
      }
    } else {
      var i :| 0 <= i < |names| && a[i] != b[i];
      assert names[i] in names;
    }
  }

  class ColumnsIndex {
    const table: Table
    const keyColumns: seq<string>
    var index: seq<Node>

    /** Keys in order, each with exactly its rows among the first n. */
    ghost predicate Holds(n: nat)
      requires HasColumns(table, keyColumns) && n <= table.nrow
      reads this
    {
      Ordered(index) && forall k: Key :: RowsFor(index, k) == Scan(KeysOf(table, keyColumns), n, k)
    }

    ghost predicate Valid()
      reads this
    {
      keyColumns != [] && HasColumns(table, keyColumns) && Holds(table.nrow)
    }

    constructor (table: Table, keyColumns: seq<string>)
      requires keyColumns != [] && HasColumns(table, keyColumns)
      ensures Valid() && this.table == table && this.keyColumns == keyColumns
    {
      this.table := table;
      this.keyColumns := keyColumns;
      index := [];
      new;
      Build();
    }

    method Build()
      requires keyColumns != [] && HasColumns(table, keyColumns)
      modifies this
      ensures Valid()
    {
      index := [];
      var r := 0;
      while r < table.nrow
        invariant r <= table.nrow && Holds(r)
      {
        AddRow(KeyOfRow(table, keyColumns, r), r);
        r := r + 1;
      }
    }

    /** index_[key].push_back(r) */
    method AddRow(k: Key, r: nat)
      requires Ordered(index)
      modifies this
      ensures Ordered(index)
      ensures RowsFor(index, k) == RowsFor(old(index), k) + [r]
      ensures forall j: Key :: j != k ==> RowsFor(index, j) == RowsFor(old(index), j)
    {
      hide Below, RowsFor;
      var p := LowerBound(index, k);
      var found := false;
      if p < |index| {
        var above := CompareKeys(k, index[p].key);
        Trichotomy(k, index[p].key);
        found := !above;
      }
      if found {
        ReplaceRows(index, p, index[p].rows + [r]);
        RowsAt(index, p);
        index := index[p := Node(k, index[p].rows + [r])];
      } else {
        InsertNode(index, p, Node(k, [r]));
        index := index[..p] + [Node(k, [r])] + index[p..];
      }
    }

    /** get_row_numbers: exactly the rows whose key columns equal the record's, ascending. */
    method GetRowNumbers(rec: map<string, KeyCell>) returns (rows: Option<seq<nat>>)
      requires Valid()
      ensures rows == match MakeKey(keyColumns, rec)
        case None => None
        case Some(k) => Some(Scan(KeysOf(table, keyColumns), table.nrow, k))
      ensures rows.None? <==> exists name :: name in keyColumns && name !in rec
      ensures rows.Some? ==> forall r: nat :: r in rows.value <==> r < table.nrow && RowMatches(table, keyColumns, rec, r)
      ensures rows.Some? ==> forall i, j :: 0 <= i < j < |rows.value| ==> rows.value[i] < rows.value[j]
    {
      RowsFound(table, keyColumns, rec);
      var key := MakeKey(keyColumns, rec);
      if key.None? {
        return None;
      }
      ScanIsExact(KeysOf(table, keyColumns), table.nrow, key.value);
      var r := Find(index, key.value);
      return Some(r);
    }

    /** get_row_number: succeeds exactly when one row matches. */
    method GetRowNumber(rec: map<string, KeyCell>) returns (row: Option<nat>)
      requires Valid()
      ensures row.Some? <==>
        MakeKey(keyColumns, rec).Some? && |Scan(KeysOf(table, keyColumns), table.nrow, MakeKey(keyColumns, rec).value)| == 1
      ensures row.Some? ==>
        Scan(KeysOf(table, keyColumns), table.nrow, MakeKey(keyColumns, rec).value) == [row.value]
    {
      var rows := GetRowNumbers(rec);
      if rows.None? || |rows.value| != 1 {
        return None;
      }
      return Some(rows.value[0]);
    }
  }

  method Find(index: seq<Node>, k: Key) returns (rows: seq<nat>)
    requires Ordered(index)
    ensures rows == RowsFor(index, k)
  {
    hide Below, RowsFor;
    var p := LowerBound(index, k);
    if p < |index| {
      var above := CompareKeys(k, index[p].key);
      Trichotomy(k, index[p].key);
      if !above {
        RowsAt(index, p);
        return index[p].rows;
      }
    }
    Absent(index, p, k);
    NoRows(index, k);
    return [];
  }

  /** A key that its lower bound does not hold is not in the index. */
  lemma Absent(index: seq<Node>, p: nat, k: Key)
    requires Ordered(index) && p <= |index| && (p < |index| ==> Below(k, index[p].key))
    requires forall i :: 0 <= i < p ==> Below(index[i].key, k)
    ensures forall i :: 0 <= i < |index| ==> index[i].key != k
    ensures forall i :: p <= i < |index| ==> Below(k, index[i].key)
  {
    hide Below;
    forall i | p <= i < |index| ensures Below(k, index[i].key) {
      if p < i {
        Transitive(k, index[p].key, index[i].key);
      }
    }
    forall i | 0 <= i < |index| ensures index[i].key != k {
      Trichotomy(index[i].key, k);
    }
  }

  lemma {:induction false} ReplaceRows(index: seq<Node>, p: nat, rows: seq<nat>)
    requires Ordered(index) && p < |index|
    ensures var after := index[p := Node(index[p].key, rows)];
      && Ordered(after) && RowsFor(after, index[p].key) == rows
      && forall j: Key :: j != index[p].key ==> RowsFor(after, j) == RowsFor(index, j)
    decreases |index|
  {
    hide Below;
    var after := index[p := Node(index[p].key, rows)];
    assert Ordered(after);
    RowsAt(after, p);
    if p < |index| - 1 {
      var front := index[..|index| - 1];
      ReplaceRows(front, p, rows);
      assert after[..|after| - 1] == front[p := Node(front[p].key, rows)];
    } else {
      assert after[..|after| - 1] == index[..|index| - 1];
    }
  }

  lemma InsertNode(index: seq<Node>, p: nat, n: Node)
    requires Ordered(index) && p <= |index| && (p < |index| ==> Below(n.key, index[p].key))
    requires forall i :: 0 <= i < p ==> Below(index[i].key, n.key)
    ensures var after := index[..p] + [n] + index[p..];
      && Ordered(after) && RowsFor(after, n.key) == RowsFor(index, n.key) + n.rows
      && forall j: Key :: j != n.key ==> RowsFor(after, j) == RowsFor(index, j)
  {
    hide Below, RowsFor, Ordered;
    var after := index[..p] + [n] + index[p..];
    Absent(index, p, n.key);
    NoRows(index, n.key);
    InsertOrdered(index, p, n);
    assert after[p] == n && [] + n.rows == n.rows;
    RowsAt(after, p);
    forall j: Key | j != n.key ensures RowsFor(after, j) == RowsFor(index, j) {
      OtherRows(index, p, n, j);
    }
  }

  lemma OtherRows(index: seq<Node>, p: nat, n: Node, j: Key)
    requires p <= |index| && j != n.key
    ensures RowsFor(index[..p] + [n] + index[p..], j) == RowsFor(index, j)
  {
    hide RowsFor;
    SkipNode(index[..p], n, index[p..], j);
    assert index == index[..p] + index[p..];
  }

  lemma InsertOrdered(index: seq<Node>, p: nat, n: Node)
    requires Ordered(index) && p <= |index| && forall i :: p <= i < |index| ==> Below(n.key, index[i].key)
    requires forall i :: 0 <= i < p ==> Below(index[i].key, n.key)
    ensures Ordered(index[..p] + [n] + index[p..])
  {
    hide Below;
  }

  /** A node with another key in the middle changes nothing for this key. */
  lemma {:induction false} SkipNode(a: seq<Node>, n: Node, b: seq<Node>, k: Key)
    requires n.key != k
    ensures RowsFor(a + [n] + b, k) == RowsFor(a + b, k)
    decreases |b|
  {
    if b == [] {
      assert a + [n] + b == a + [n] && a + b == a;
      assert (a + [n])[..|a|] == a;
    } else {
      var front := b[..|b| - 1];
      assert (a + [n] + b)[..|a| + |b|] == a + [n] + front && (a + b)[..|a + b| - 1] == a + front;
      SkipNode(a, n, front, k);
    }
  }

  // ---- the order, by the first difference ----

  /** Up to i both agree; there the first one ends or has the smaller character. */
  predicate TextFirstAt(a: seq<nat>, b: seq<nat>, i: nat) {
    i <= |a| && i < |b| && a[..i] == b[..i] && (i == |a| || a[i] < b[i])
  }

  lemma {:induction false} TextByFirstDifference(a: seq<nat>, b: seq<nat>)
    ensures CompareText(a, b) < 0 <==> exists i: nat :: TextFirstAt(a, b, i)
  {
    if a != [] && b != [] && a[0] == b[0] {
      TextByFirstDifference(a[1..], b[1..]);
      if CompareText(a, b) < 0 {
        var i: nat :| TextFirstAt(a[1..], b[1..], i);
        assert a[..i + 1] == [a[0]] + a[1..][..i] && b[..i + 1] == [b[0]] + b[1..][..i];
        assert TextFirstAt(a, b, i + 1);
      }
      forall i: nat | TextFirstAt(a, b, i) ensures CompareText(a, b) < 0 {
        assert a[1..][..i - 1] == a[..i][1..] && b[1..][..i - 1] == b[..i][1..];
        assert TextFirstAt(a[1..], b[1..], i - 1);
      }
    } else {
      assert CompareText(a, b) < 0 ==> TextFirstAt(a, b, 0);
    }
  }

  /** Booleans come before 32-bit integers, then unsigned ones, 64-bit ones, floats, doubles, both complex kinds and text. */
  predicate EarlierKind(a: KeyCell, b: KeyCell) {
    match a
    case KBool(_) => !b.KBool?
    case KInt(_) => !b.KBool? && !b.KInt?
    case KUInt(_) => !b.KBool? && !b.KInt? && !b.KUInt?
    case KInt64(_) => b.KFloat? || b.KDouble? || b.KComplex? || b.KDComplex? || b.KString?
    case KFloat(_) => b.KDouble? || b.KComplex? || b.KDComplex? || b.KString?
    case KDouble(_) => b.KComplex? || b.KDComplex? || b.KString?
    case KComplex(_, _) => b.KDComplex? || b.KString?
    case KDComplex(_, _) => b.KString?
    case KString(_) => false
  }

  /** The order on cells: kind first, then false before true, numbers by size, complex ones by real part first, text by its characters. */
  ghost predicate CellFirst(a: KeyCell, b: KeyCell) {
    match (a, b)
    case (KBool(x), KBool(y)) => !x && y
    case (KInt(x), KInt(y)) => x < y
    case (KUInt(x), KUInt(y)) => x < y
    case (KInt64(x), KInt64(y)) => x < y
    case (KFloat(x), KFloat(y)) => x < y
    case (KDouble(x), KDouble(y)) => x < y
    case (KComplex(x, u), KComplex(y, v)) => x < y || (x == y && u < v)
    case (KDComplex(x, u), KDComplex(y, v)) => x < y || (x == y && u < v)
    case (KString(x), KString(y)) => exists i: nat :: TextFirstAt(x, y, i)
    case _ => EarlierKind(a, b)
  }

  lemma CellByKindAndValue(a: KeyCell, b: KeyCell)
    ensures CellCompare(a, b) < 0 <==> CellFirst(a, b)
  {
    hide TextFirstAt, CompareText;
    if a.KString? && b.KString? {
      TextByFirstDifference(a.s, b.s);
    }
  }

  /** Up to i both agree; there the first one ends or has the earlier cell. */
  ghost predicate KeyFirstAt(a: Key, b: Key, i: nat) {
    i <= |a| && i < |b| && a[..i] == b[..i] && (i == |a| || CellFirst(a[i], b[i]))
  }

  lemma SameHead(a: Key, b: Key, i: nat)
    ensures KeyFirstAt(a, b, i) && i > 0 ==> a != [] && b != [] && a[0] == b[0]
  {
    hide CellFirst;
    if KeyFirstAt(a, b, i) && i > 0 {
      assert a[0] == a[..i][0] == b[..i][0] == b[0];
    }
  }

  /** The first difference behind equal first cells. */
  lemma LaterDifference(a: Key, b: Key, i: nat)
    requires a != [] && b != [] && a[0] == b[0]
    ensures KeyFirstAt(a[1..], b[1..], i) <==> KeyFirstAt(a, b, i + 1)
  {
    hide CellFirst;
    if i < |a| && i < |b| {
      assert a[..i + 1] == [a[0]] + a[1..][..i] && b[..i + 1] == [b[0]] + b[1..][..i];
      assert a[1..][..i] == a[..i + 1][1..] && b[1..][..i] == b[..i + 1][1..];
    }
  }

  /** The key order is decided at the first difference. */
  lemma {:induction false} KeyByFirstDifference(a: Key, b: Key)
    ensures Below(a, b) <==> exists i: nat :: KeyFirstAt(a, b, i)
  {
    hide CellCompare, CellFirst;
    if a != [] && b != [] {
      CellOrder(a[0], b[0]);
      CellByKindAndValue(a[0], b[0]);
      CellByKindAndValue(b[0], a[0]);
    }
    if a != [] && b != [] && a[0] == b[0] {
      KeyByFirstDifference(a[1..], b[1..]);
      if Below(a, b) {
        var i: nat :| KeyFirstAt(a[1..], b[1..], i);
        LaterDifference(a, b, i);
      }
      forall i: nat | KeyFirstAt(a, b, i) ensures Below(a, b) {
        if i > 0 {
          LaterDifference(a, b, i - 1);
        }
      }
    } else {
      assert Below(a, b) ==> KeyFirstAt(a, b, 0);
      forall i: nat | KeyFirstAt(a, b, i) ensures Below(a, b) {
        SameHead(a, b, i);
      }
    }
  }
}
