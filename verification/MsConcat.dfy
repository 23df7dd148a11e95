/** src/ms_concat.cpp and the row vectors of src/ms_writer.cpp: joining two measurement sets, renumbering the second. */
module MsConcat {
  import opened Wrappers

  datatype Antenna = Antenna(name: string, station: string, kind: string, mount: string, dishDiameter: real)
  datatype Field = Field(name: string, code: string, time: real, sourceId: int)
  datatype SpectralWindow = SpectralWindow(name: string, numChan: int, refFrequency: real)
  datatype DataDesc = DataDesc(spw: int, pol: int)
  datatype Polarization = Polarization(numCorr: int)
  datatype Observation = Observation(telescope: string, observer: string)
  datatype State = State(sig: bool, ref: bool, obsMode: string)

  /** The columns of a main row that are copied as they are. */
  datatype RowValues = RowValues(arrayId: int, exposure: real, feed1: int, feed2: int, flagRow: bool, interval: real,
                                 processorId: int, scanNumber: int, time: real, timeCentroid: real,
                                 uvw: seq<real>, sigma: seq<real>, weight: seq<real>)

  datatype MainRow = MainRow(antenna1: int, antenna2: int, fieldId: int, dataDescId: int, observationId: int, stateId: int,
                             values: RowValues)

  datatype MeasurementSet = MeasurementSet(
    antennas: seq<Antenna>, fields: seq<Field>, spws: seq<SpectralWindow>, dataDescs: seq<DataDesc>,
    polarizations: seq<Polarization>, observations: seq<Observation>, states: seq<State>, rows: seq<MainRow>)

  /** Identifiers of the second set against those of the output. */
  type IdMap = map<int, int>

  function Apply(m: IdMap, id: int): int {
    if id in m then m[id] else id
  }

  predicate InRange(id: int, n: nat) {
    0 <= id < n
  }

  // ---- names ----

  function NamesOf<R>(rows: seq<R>, name: R -> string): (n: seq<string>)
    ensures |n| == |rows|
  {
    seq(|rows|, i requires 0 <= i < |rows| => name(rows[i]))
  }

  /** Where a name map of the first set leads: the last row of this name. */
  function LastNamed(names: seq<string>, n: string): (r: Option<nat>)
    ensures r.Some? ==> r.value < |names| && names[r.value] == n
    ensures r.None? ==> n !in names
  {
    if names == [] then None
    else if names[|names| - 1] == n then Some(|names| - 1)
    else LastNamed(names[..|names| - 1], n)
  }

  /** Rows of the second table whose name the first does not have. */
  function NewRows<R>(names1: seq<string>, rows2: seq<R>, name: R -> string): (n: seq<R>)
    ensures |n| <= |rows2|
  {
    if rows2 == [] then []
    else
      var last := rows2[|rows2| - 1];
      NewRows(names1, rows2[..|rows2| - 1], name) + if name(last) in names1 then [] else [last]
  }

  /** The output identifier of row r of the second table. */
  function NewId<R>(names1: seq<string>, rows2: seq<R>, name: R -> string, r: nat): nat
    requires r < |rows2|
  {
    match LastNamed(names1, name(rows2[r]))
    case Some(i) => i
    case None => |names1| + |NewRows(names1, rows2[..r], name)|
  }

  function NameRemap<R>(names1: seq<string>, rows2: seq<R>, name: R -> string): IdMap {
    NameRemapBelow(names1, rows2, name, |rows2|)
  }

  function NameRemapBelow<R>(names1: seq<string>, rows2: seq<R>, name: R -> string, n: nat): IdMap
    requires n <= |rows2|
  {
    map r | 0 <= r < n :: NewId(names1, rows2, name, r)
  }

  lemma NameRemapNext<R>(names1: seq<string>, rows2: seq<R>, name: R -> string, n: nat)
    requires n < |rows2|
    ensures NameRemapBelow(names1, rows2, name, n + 1)
         == NameRemapBelow(names1, rows2, name, n)[n := NewId(names1, rows2, name, n)]
  {
    hide NewId;
  }

  function MergedRows<R>(rows1: seq<R>, rows2: seq<R>, name: R -> string): seq<R> {
    rows1 + NewRows(NamesOf(rows1, name), rows2, name)
  }

  lemma NewRowsPrefix<R>(names1: seq<string>, rows2: seq<R>, name: R -> string, r: nat)
    requires r < |rows2|
    ensures var before := NewRows(names1, rows2[..r], name);
      NewRows(names1, rows2[..r + 1], name) == before + if name(rows2[r]) in names1 then [] else [rows2[r]]
  {
    assert rows2[..r + 1][..r] == rows2[..r];
  }

  lemma {:induction false} NewRowAt<R>(names1: seq<string>, rows2: seq<R>, name: R -> string, r: nat, n: nat)
    requires r < n <= |rows2| && name(rows2[r]) !in names1
    ensures var k := |NewRows(names1, rows2[..r], name)|;
      k < |NewRows(names1, rows2[..n], name)| && NewRows(names1, rows2[..n], name)[k] == rows2[r]
  {
    NewRowsPrefix(names1, rows2, name, n - 1);
    if r < n - 1 {
      NewRowAt(names1, rows2, name, r, n - 1);
    }
  }

  /** The renumbered row of the output carries the name the row had in the second table. */
  lemma RenumberedKeepsName<R>(rows1: seq<R>, rows2: seq<R>, name: R -> string, r: nat)
    requires r < |rows2|
    ensures var id := NewId(NamesOf(rows1, name), rows2, name, r);
      id < |MergedRows(rows1, rows2, name)| && name(MergedRows(rows1, rows2, name)[id]) == name(rows2[r])
  {
    var names1 := NamesOf(rows1, name);
    assert rows2[..|rows2|] == rows2;
    if name(rows2[r]) !in names1 {
      NewRowAt(names1, rows2, name, r, |rows2|);
    }
  }

  predicate Distinct(names: seq<string>) {
    forall i, j :: 0 <= i < j < |names| ==> names[i] != names[j]
  }

  /** Names that are unique in both tables stay unique in the output. */
  lemma {:induction false} MergeKeepsDistinct<R>(rows1: seq<R>, rows2: seq<R>, name: R -> string)
    requires Distinct(NamesOf(rows1, name)) && Distinct(NamesOf(rows2, name))
    ensures Distinct(NamesOf(MergedRows(rows1, rows2, name), name))
    decreases |rows2|
  {
    var merged := MergedRows(rows1, rows2, name);
    if rows2 == [] {
      assert merged == rows1;
    } else {
      var front := rows2[..|rows2| - 1];
      var last := rows2[|rows2| - 1];
      assert NamesOf(front, name) == NamesOf(rows2, name)[..|rows2| - 1];
      MergeKeepsDistinct(rows1, front, name);
      if name(last) in NamesOf(rows1, name) {
        assert merged == MergedRows(rows1, front, name);
      } else {
        assert merged == MergedRows(rows1, front, name) + [last];
        assert NamesOf(merged, name) == NamesOf(MergedRows(rows1, front, name), name) + [name(last)];
        forall i | 0 <= i < |merged| - 1 ensures name(merged[i]) != name(last) {
          if i < |rows1| {
            assert NamesOf(rows1, name)[i] == name(merged[i]);
          } else {
            NewRowsFrom(NamesOf(rows1, name), front, name, i - |rows1|);
            assert forall k :: 0 <= k < |front| ==> NamesOf(rows2, name)[k] == name(front[k]);
            assert NamesOf(rows2, name)[|rows2| - 1] == name(last);
          }
        }
      }
    }
  }

  lemma {:induction false} NewRowsFrom<R>(names1: seq<string>, rows2: seq<R>, name: R -> string, i: nat)
    requires i < |NewRows(names1, rows2, name)|
    ensures exists k :: 0 <= k < |rows2| && rows2[k] == NewRows(names1, rows2, name)[i]
    decreases |rows2|
  {
    var front := rows2[..|rows2| - 1];
    if i < |NewRows(names1, front, name)| {
      NewRowsFrom(names1, front, name, i);
      var k :| 0 <= k < |front| && front[k] == NewRows(names1, front, name)[i];
      assert rows2[k] == NewRows(names1, rows2, name)[i];
    } else {
      assert rows2[|rows2| - 1] == NewRows(names1, rows2, name)[i];
    }
  }

  // ---- data descriptions ----

  /** A data description of the second set with its spectral window renumbered. */
  function Renumbered(spws: IdMap, d: DataDesc): DataDesc {
    DataDesc(Apply(spws, d.spw), d.pol)
  }

  function FirstIndex(dds: seq<DataDesc>, d: DataDesc): (i: nat)
    ensures i <= |dds| && (i < |dds| ==> dds[i] == d) && d !in dds[..i]
  {
    if dds == [] then 0 else if dds[0] == d then 0 else FirstIndex(dds[1..], d) + 1
  }

  function NewDescs(dd1: seq<DataDesc>, dd2: seq<DataDesc>, spws: IdMap): (n: seq<DataDesc>) {
    if dd2 == [] then []
    else
      var d := Renumbered(spws, dd2[|dd2| - 1]);
      NewDescs(dd1, dd2[..|dd2| - 1], spws) + if d in dd1 then [] else [d]
  }

  function NewDescId(dd1: seq<DataDesc>, dd2: seq<DataDesc>, spws: IdMap, r: nat): nat
    requires r < |dd2|
  {
    var i := FirstIndex(dd1, Renumbered(spws, dd2[r]));
    if i < |dd1| then i else |dd1| + |NewDescs(dd1, dd2[..r], spws)|
  }

  function DescRemap(dd1: seq<DataDesc>, dd2: seq<DataDesc>, spws: IdMap): IdMap {
    DescRemapBelow(dd1, dd2, spws, |dd2|)
  }

  function DescRemapBelow(dd1: seq<DataDesc>, dd2: seq<DataDesc>, spws: IdMap, n: nat): IdMap
    requires n <= |dd2|
  {
    map r | 0 <= r < n :: NewDescId(dd1, dd2, spws, r)
  }

  lemma DescRemapNext(dd1: seq<DataDesc>, dd2: seq<DataDesc>, spws: IdMap, n: nat)
    requires n < |dd2|
    ensures DescRemapBelow(dd1, dd2, spws, n + 1) == DescRemapBelow(dd1, dd2, spws, n)[n := NewDescId(dd1, dd2, spws, n)]
  {
    hide NewDescId;
  }

  lemma NewDescsNext(dd1: seq<DataDesc>, dd2: seq<DataDesc>, spws: IdMap, n: nat)
    requires n < |dd2|
    ensures var d := Renumbered(spws, dd2[n]);
      NewDescs(dd1, dd2[..n + 1], spws) == NewDescs(dd1, dd2[..n], spws) + if d in dd1 then [] else [d]
  {
    assert dd2[..n + 1][..n] == dd2[..n];
  }

  lemma {:induction false} NewDescAt(dd1: seq<DataDesc>, dd2: seq<DataDesc>, spws: IdMap, r: nat, n: nat)
    requires r < n <= |dd2| && Renumbered(spws, dd2[r]) !in dd1
    ensures var k := |NewDescs(dd1, dd2[..r], spws)|;
      k < |NewDescs(dd1, dd2[..n], spws)| && NewDescs(dd1, dd2[..n], spws)[k] == Renumbered(spws, dd2[r])
  {
    assert dd2[..n][..n - 1] == dd2[..n - 1];
    if r < n - 1 {
      NewDescAt(dd1, dd2, spws, r, n - 1);
    }
  }

  lemma RenumberedDesc(dd1: seq<DataDesc>, dd2: seq<DataDesc>, spws: IdMap, r: nat)
    requires r < |dd2|
    ensures var id := NewDescId(dd1, dd2, spws, r);
      var merged := dd1 + NewDescs(dd1, dd2, spws);
      id < |merged| && merged[id] == Renumbered(spws, dd2[r])
  {
    var d := Renumbered(spws, dd2[r]);
    assert dd2[..|dd2|] == dd2;
    var i := FirstIndex(dd1, d);
    if i == |dd1| {
      assert dd1[..i] == dd1;
      NewDescAt(dd1, dd2, spws, r, |dd2|);
    }
  }

  // ---- the whole output ----

  datatype Remaps = Remaps(antennas: IdMap, fields: IdMap, spws: IdMap, dataDescs: IdMap, states: IdMap)

  function AntennaName(a: Antenna): string { a.name }

  function FieldName(f: Field): string { f.name }

  function SpwName(s: SpectralWindow): string { s.name }

  function ShiftedId(offset: nat, id: nat): nat { offset + id }

  /** Identifiers below n moved behind `offset` rows. */
  function Shifted(offset: nat, n: nat): IdMap {
    map r | 0 <= r < n :: ShiftedId(offset, r)
  }

  function RemapsOf(ms1: MeasurementSet, ms2: MeasurementSet): Remaps {
    var spws := NameRemap(NamesOf(ms1.spws, SpwName), ms2.spws, SpwName);
    Remaps(NameRemap(NamesOf(ms1.antennas, AntennaName), ms2.antennas, AntennaName),
           NameRemap(NamesOf(ms1.fields, FieldName), ms2.fields, FieldName),
           spws, DescRemap(ms1.dataDescs, ms2.dataDescs, spws),
           Shifted(|ms1.states|, |ms2.states|))
  }

  /** A main row of the second set in the output; the observation identifier stays as it was. */
  function Moved(m: Remaps, row: MainRow): MainRow {
    row.(antenna1 := Apply(m.antennas, row.antenna1), antenna2 := Apply(m.antennas, row.antenna2),
         fieldId := Apply(m.fields, row.fieldId), dataDescId := Apply(m.dataDescs, row.dataDescId),
         stateId := Apply(m.states, row.stateId))
  }

  function MovedRows(m: Remaps, rows: seq<MainRow>): (r: seq<MainRow>)
    ensures |r| == |rows|
  {
    seq(|rows|, i requires 0 <= i < |rows| => Moved(m, rows[i]))
  }

  function Joined(ms1: MeasurementSet, ms2: MeasurementSet): MeasurementSet {
    var m := RemapsOf(ms1, ms2);
    MeasurementSet(
      MergedRows(ms1.antennas, ms2.antennas, AntennaName), MergedRows(ms1.fields, ms2.fields, FieldName),
      MergedRows(ms1.spws, ms2.spws, SpwName), ms1.dataDescs + NewDescs(ms1.dataDescs, ms2.dataDescs, m.spws),
      ms1.polarizations, ms1.observations + ms2.observations, ms1.states + ms2.states,
      ms1.rows + MovedRows(m, ms2.rows))
  }

  predicate KeysHold(ms: MeasurementSet, row: MainRow) {
    && InRange(row.antenna1, |ms.antennas|) && InRange(row.antenna2, |ms.antennas|)
    && InRange(row.fieldId, |ms.fields|) && InRange(row.dataDescId, |ms.dataDescs|)
    && InRange(row.observationId, |ms.observations|) && InRange(row.stateId, |ms.states|)
  }

  predicate ForeignKeys(ms: MeasurementSet) {
    forall r :: 0 <= r < |ms.rows| ==> KeysHold(ms, ms.rows[r])
  }

  /**
   * What a row refers to: two antennas, a field and a spectral window by name, a polarization by number, a state. Nobody
   * checks that the spectral window of a data description exists.
   */
  datatype References = References(antenna1: string, antenna2: string, field: string, window: Option<string>, pol: int, state: State)

  function WindowOf(ms: MeasurementSet, d: DataDesc): Option<string> {
    if InRange(d.spw, |ms.spws|) then Some(ms.spws[d.spw].name) else None
  }

  function ReferencesOf(ms: MeasurementSet, row: MainRow): References
    requires KeysHold(ms, row)
  {
    References(ms.antennas[row.antenna1].name, ms.antennas[row.antenna2].name, ms.fields[row.fieldId].name,
               WindowOf(ms, ms.dataDescs[row.dataDescId]), ms.dataDescs[row.dataDescId].pol, ms.states[row.stateId])
  }

  lemma AntennaMoves(ms1: MeasurementSet, ms2: MeasurementSet, id: int)
    requires InRange(id, |ms2.antennas|)
    ensures var out := MergedRows(ms1.antennas, ms2.antennas, AntennaName);
      var id' := Apply(RemapsOf(ms1, ms2).antennas, id);
      InRange(id', |out|) && out[id'].name == ms2.antennas[id].name
  {
    hide NewId, MergedRows;
    RenumberedKeepsName(ms1.antennas, ms2.antennas, AntennaName, id);
  }

  lemma FieldMoves(ms1: MeasurementSet, ms2: MeasurementSet, id: int)
    requires InRange(id, |ms2.fields|)
    ensures var out := MergedRows(ms1.fields, ms2.fields, FieldName);
      var id' := Apply(RemapsOf(ms1, ms2).fields, id);
      InRange(id', |out|) && out[id'].name == ms2.fields[id].name
  {
    hide NewId, MergedRows;
    RenumberedKeepsName(ms1.fields, ms2.fields, FieldName, id);
  }

  lemma SpwMoves(ms1: MeasurementSet, ms2: MeasurementSet, id: int)
    requires InRange(id, |ms2.spws|)
    ensures var out := MergedRows(ms1.spws, ms2.spws, SpwName);
      var id' := Apply(RemapsOf(ms1, ms2).spws, id);
      InRange(id', |out|) && out[id'].name == ms2.spws[id].name
  {
    hide NewId, MergedRows;
    RenumberedKeepsName(ms1.spws, ms2.spws, SpwName, id);
  }

  lemma DescMoves(ms1: MeasurementSet, ms2: MeasurementSet, id: int)
    requires InRange(id, |ms2.dataDescs|)
    ensures var m, out := RemapsOf(ms1, ms2), Joined(ms1, ms2);
      var id' := Apply(m.dataDescs, id);
      InRange(id', |out.dataDescs|) && out.dataDescs[id'] == Renumbered(m.spws, ms2.dataDescs[id])
  {
    hide NameRemap, NewDescId, NewDescs, MergedRows;
    RenumberedDesc(ms1.dataDescs, ms2.dataDescs, RemapsOf(ms1, ms2).spws, id);
  }

  /** The window exists in the set, or its number does not exist in the output either. */
  predicate WindowSettled(ms: MeasurementSet, out: MeasurementSet, d: DataDesc) {
    InRange(d.spw, |ms.spws|) || !InRange(d.spw, |out.spws|)
  }

  lemma WindowMoves(ms1: MeasurementSet, ms2: MeasurementSet, d: DataDesc)
    ensures var out := Joined(ms1, ms2);
      WindowOf(out, Renumbered(RemapsOf(ms1, ms2).spws, d)) == WindowOf(ms2, d) <==> WindowSettled(ms2, out, d)
  {
    hide NewId, NewDescs, MergedRows;
    if InRange(d.spw, |ms2.spws|) {
      SpwMoves(ms1, ms2, d.spw);
    }
  }

  lemma StateMoves(ms1: MeasurementSet, ms2: MeasurementSet, id: int)
    requires InRange(id, |ms2.states|)
    ensures var id' := Apply(RemapsOf(ms1, ms2).states, id);
      InRange(id', |ms1.states + ms2.states|) && (ms1.states + ms2.states)[id'] == ms2.states[id]
  {
    hide NameRemap, DescRemap;
  }

  /**
   * Rows of the first set refer to the same things in the output, but for a spectral window that did not exist: it is still
   * missing exactly if the output has no window of that number.
   */
  lemma FirstKeepsReferences(ms1: MeasurementSet, ms2: MeasurementSet, row: MainRow)
    requires KeysHold(ms1, row)
    ensures var out := Joined(ms1, ms2);
      && KeysHold(out, row)
      && ReferencesOf(out, row).(window := None) == ReferencesOf(ms1, row).(window := None)
      && (ReferencesOf(out, row) == ReferencesOf(ms1, row) <==> WindowSettled(ms1, out, ms1.dataDescs[row.dataDescId]))
    ensures Joined(ms1, ms2).observations[row.observationId] == ms1.observations[row.observationId]
  {
    hide NewRows, NewDescs, RemapsOf;
  }

  /** Rows of the second set, renumbered, refer to the same things in the output, with the same exception. */
  lemma SecondKeepsReferences(ms1: MeasurementSet, ms2: MeasurementSet, row: MainRow)
    requires KeysHold(ms2, row)
    ensures var moved, out := Moved(RemapsOf(ms1, ms2), row), Joined(ms1, ms2);
      && KeysHold(out, moved)
      && ReferencesOf(out, moved).(window := None) == ReferencesOf(ms2, row).(window := None)
      && (ReferencesOf(out, moved) == ReferencesOf(ms2, row) <==> WindowSettled(ms2, out, ms2.dataDescs[row.dataDescId]))
  {
    hide NewDescs, MergedRows, RemapsOf, Apply, WindowOf, WindowSettled;
    AntennaMoves(ms1, ms2, row.antenna1);
    AntennaMoves(ms1, ms2, row.antenna2);
    FieldMoves(ms1, ms2, row.fieldId);
    DescMoves(ms1, ms2, row.dataDescId);
    WindowMoves(ms1, ms2, ms2.dataDescs[row.dataDescId]);
    StateMoves(ms1, ms2, row.stateId);
  }

  /** If both inputs satisfy the foreign-key check, so does the output. */
  lemma JoinKeepsForeignKeys(ms1: MeasurementSet, ms2: MeasurementSet)
    requires ForeignKeys(ms1) && ForeignKeys(ms2)
    ensures ForeignKeys(Joined(ms1, ms2)) && |Joined(ms1, ms2).rows| == |ms1.rows| + |ms2.rows|
  {
    hide KeysHold, RemapsOf, Moved, MergedRows, NewDescs;
    var out := Joined(ms1, ms2);
    forall r | 0 <= r < |out.rows| ensures KeysHold(out, out.rows[r]) {
      if r < |ms1.rows| {
        FirstKeepsReferences(ms1, ms2, ms1.rows[r]);
      } else {
        SecondKeepsReferences(ms1, ms2, ms2.rows[r - |ms1.rows|]);
      }
    }
  }

  /** Every row of the second set, found behind the first set's rows, has the observation it had. */
  predicate ObservationsKept(ms1: MeasurementSet, ms2: MeasurementSet, out: MeasurementSet)
    requires |out.rows| == |ms1.rows| + |ms2.rows| && ForeignKeys(ms2) && ForeignKeys(out)
  {
    forall r :: 0 <= r < |ms2.rows| ==>
      KeysHold(ms2, ms2.rows[r]) && KeysHold(out, out.rows[|ms1.rows| + r])
      && out.observations[out.rows[|ms1.rows| + r].observationId] == ms2.observations[ms2.rows[r].observationId]
  }

  predicate UsesObservation(ms: MeasurementSet, id: nat) {
    exists r :: 0 <= r < |ms.rows| && ms.rows[r].observationId == id
  }

  /** Counted from the second set's own list, the observation in place `id` of the joined list is the same. */
  predicate SameObservation(ms1: MeasurementSet, ms2: MeasurementSet, id: nat)
    requires id < |ms2.observations|
  {
    var n := |ms1.observations|;
    (if id < n then ms1.observations[id] else ms2.observations[id - n]) == ms2.observations[id]
  }

  /** The observations of the second set repeat those of the first. */
  predicate ObservationsRepeat(ms1: MeasurementSet, ms2: MeasurementSet) {
    ms2.observations <= ms1.observations + ms2.observations
  }

  /**
   * Observation identifiers of the second set are not renumbered: its rows keep their observations if and only if every
   * observation they use is also the one of that number in the joined list.
   */
  lemma ObservationsKeptIff(ms1: MeasurementSet, ms2: MeasurementSet)
    requires ForeignKeys(ms2) && ForeignKeys(Joined(ms1, ms2))
    ensures ObservationsKept(ms1, ms2, Joined(ms1, ms2)) <==>
      forall id: nat :: id < |ms2.observations| && UsesObservation(ms2, id) ==> SameObservation(ms1, ms2, id)
  {
    hide NewDescs, MergedRows, RemapsOf, UsesObservation, SameObservation, ObservationsKept;
    var out := Joined(ms1, ms2);
    if forall id: nat :: id < |ms2.observations| && UsesObservation(ms2, id) ==> SameObservation(ms1, ms2, id) {
      KeptBySame(ms1, ms2);
    }
    if ObservationsKept(ms1, ms2, out) {
      forall id: nat | id < |ms2.observations| && UsesObservation(ms2, id) ensures SameObservation(ms1, ms2, id) {
        SameByKept(ms1, ms2, id);
      }
    }
  }

  lemma ObservationInPlace(ms1: MeasurementSet, ms2: MeasurementSet, r: nat)
    requires r < |ms2.rows|
    ensures var out := Joined(ms1, ms2);
      && |out.rows| == |ms1.rows| + |ms2.rows|
      && out.rows[|ms1.rows| + r].observationId == ms2.rows[r].observationId
      && out.observations == ms1.observations + ms2.observations
  {
    hide NewDescs, MergedRows, RemapsOf, Apply;
  }

  lemma KeptBySame(ms1: MeasurementSet, ms2: MeasurementSet)
    requires ForeignKeys(ms2) && ForeignKeys(Joined(ms1, ms2))
    requires forall id: nat :: id < |ms2.observations| && UsesObservation(ms2, id) ==> SameObservation(ms1, ms2, id)
    ensures ObservationsKept(ms1, ms2, Joined(ms1, ms2))
  {
    hide RemapsOf, MergedRows, NewDescs;
    var out := Joined(ms1, ms2);
    assert |out.rows| == |ms1.rows| + |ms2.rows|;
    hide Joined;
    forall r | 0 <= r < |ms2.rows|
      ensures KeysHold(ms2, ms2.rows[r]) && KeysHold(out, out.rows[|ms1.rows| + r])
      ensures out.observations[out.rows[|ms1.rows| + r].observationId] == ms2.observations[ms2.rows[r].observationId]
    {
      ObservationInPlace(ms1, ms2, r);
      var id := ms2.rows[r].observationId;
      assert UsesObservation(ms2, id);
      assert SameObservation(ms1, ms2, id);
    }
  }

  lemma SameByKept(ms1: MeasurementSet, ms2: MeasurementSet, id: nat)
    requires ForeignKeys(ms2) && ForeignKeys(Joined(ms1, ms2)) && ObservationsKept(ms1, ms2, Joined(ms1, ms2))
    requires id < |ms2.observations| && UsesObservation(ms2, id)
    ensures SameObservation(ms1, ms2, id)
  {
    hide Joined, KeysHold, ForeignKeys;
    var out := Joined(ms1, ms2);
    var r :| 0 <= r < |ms2.rows| && ms2.rows[r].observationId == id;
    ObservationInPlace(ms1, ms2, r);
    assert KeysHold(out, out.rows[|ms1.rows| + r]);
    assert out.observations[id] == ms2.observations[id];
  }

  /** Where every observation is used, that is the case exactly if the second set's observations repeat the first's. */
  lemma ObservationsRepeatIff(ms1: MeasurementSet, ms2: MeasurementSet)
    requires ForeignKeys(ms2) && ForeignKeys(Joined(ms1, ms2))
    requires forall id: nat :: id < |ms2.observations| ==> UsesObservation(ms2, id)
    ensures ObservationsKept(ms1, ms2, Joined(ms1, ms2)) <==> ObservationsRepeat(ms1, ms2)
  {
    hide ObservationsKept, ForeignKeys, UsesObservation, Joined;
    ObservationsKeptIff(ms1, ms2);
    var joined := ms1.observations + ms2.observations;
    if ObservationsRepeat(ms1, ms2) {
      forall id: nat | id < |ms2.observations| ensures SameObservation(ms1, ms2, id) {
        assert joined[..|ms2.observations|][id] == ms2.observations[id];
      }
    }
    if forall id: nat :: id < |ms2.observations| ==> SameObservation(ms1, ms2, id) {
      forall id: nat | id < |ms2.observations| ensures joined[id] == ms2.observations[id] {
        assert SameObservation(ms1, ms2, id);
      }
      assert joined[..|ms2.observations|] == ms2.observations;
    }
  }

  /** Two sets with one observation each: the second set's rows end up with the first set's observation. */
  lemma ObservationIsLost(ms1: MeasurementSet, ms2: MeasurementSet, row: MainRow)
    requires |ms1.observations| == |ms2.observations| == 1 && KeysHold(ms2, row)
    ensures KeysHold(Joined(ms1, ms2), Moved(RemapsOf(ms1, ms2), row))
    ensures Joined(ms1, ms2).observations[Moved(RemapsOf(ms1, ms2), row).observationId] == ms1.observations[0]
  {
    hide NewDescs, MergedRows, RemapsOf, Apply;
    SecondKeepsReferences(ms1, ms2, row);
  }

  /**
   * Only the first set's polarizations are copied: a description of the second set keeps its polarization if and only
   * if the first set has the same one under the same number.
   */
  lemma PolarizationKept(ms1: MeasurementSet, ms2: MeasurementSet, id: int)
    requires InRange(id, |ms2.dataDescs|) && InRange(ms2.dataDescs[id].pol, |ms2.polarizations|)
    ensures var out := Joined(ms1, ms2);
      var id' := Apply(RemapsOf(ms1, ms2).dataDescs, id);
      var pol := ms2.dataDescs[id].pol;
      InRange(id', |out.dataDescs|)
      && ((InRange(out.dataDescs[id'].pol, |out.polarizations|)
           && out.polarizations[out.dataDescs[id'].pol] == ms2.polarizations[pol])
          <==> pol < |ms1.polarizations| && ms1.polarizations[pol] == ms2.polarizations[pol])
  {
    hide RemapsOf, MergedRows, NewDescs;
    DescMoves(ms1, ms2, id);
  }

  // ---- what the joined tables hold ----

  lemma {:induction false} LastIsLast(names: seq<string>, n: string)
    ensures match LastNamed(names, n)
      case Some(i) => forall j :: i < j < |names| ==> names[j] != n
      case None => n !in names
  {
    if names != [] && names[|names| - 1] != n {
      LastIsLast(names[..|names| - 1], n);
    }
  }

  /**
   * A merged table begins with the first one. A row of the second whose name is there is left out and takes the number of the
   * last row of that name; any other row is in the merged table as it was, behind the first table.
   */
  lemma MergedTable<R>(rows1: seq<R>, rows2: seq<R>, name: R -> string, r: nat)
    requires r < |rows2|
    ensures rows1 <= MergedRows(rows1, rows2, name)
    ensures var id, merged := NewId(NamesOf(rows1, name), rows2, name, r), MergedRows(rows1, rows2, name);
      if exists i :: 0 <= i < |rows1| && name(rows1[i]) == name(rows2[r])
      then id < |rows1| && name(rows1[id]) == name(rows2[r]) && forall j :: id < j < |rows1| ==> name(rows1[j]) != name(rows2[r])
      else |rows1| <= id < |merged| && merged[id] == rows2[r]
  {
    var names1 := NamesOf(rows1, name);
    LastIsLast(names1, name(rows2[r]));
    assert rows2[..|rows2|] == rows2;
    assert forall i :: 0 <= i < |rows1| ==> names1[i] == name(rows1[i]);
    if name(rows2[r]) !in names1 {
      NewRowAt(names1, rows2, name, r, |rows2|);
    }
  }

  /** New rows keep their order. */
  lemma NewRowsInOrder<R>(names1: seq<string>, rows2: seq<R>, name: R -> string, r: nat, s: nat)
    requires r < s < |rows2| && name(rows2[r]) !in names1 && name(rows2[s]) !in names1
    ensures NewId(names1, rows2, name, r) < NewId(names1, rows2, name, s)
  {
    NewRowAt(names1, rows2, name, r, s);
  }

  /** Every row behind the first table is a row of the second with a new name. */
  lemma {:induction false} NewRowsCome<R>(names1: seq<string>, rows2: seq<R>, name: R -> string, id: nat)
    requires |names1| <= id < |names1| + |NewRows(names1, rows2, name)|
    ensures exists r :: 0 <= r < |rows2| && name(rows2[r]) !in names1 && NewId(names1, rows2, name, r) == id
    decreases |rows2|
  {
    var last := |rows2| - 1;
    var front := rows2[..last];
    if id < |names1| + |NewRows(names1, front, name)| {
      NewRowsCome(names1, front, name, id);
      var r :| 0 <= r < last && name(front[r]) !in names1 && NewId(names1, front, name, r) == id;
      assert front[..r] == rows2[..r];
      assert NewId(names1, rows2, name, r) == id;
    } else {
      assert NewId(names1, rows2, name, last) == id;
    }
  }

  /**
   * A data description of the second set, its window renumbered, takes the number of the first equal one of the first set;
   * where there is none it is added behind them.
   */
  lemma MergedDescs(ms1: MeasurementSet, ms2: MeasurementSet, r: nat)
    requires r < |ms2.dataDescs|
    ensures var m, out := RemapsOf(ms1, ms2), Joined(ms1, ms2);
      var id, d := Apply(m.dataDescs, r), DataDesc(Apply(m.spws, ms2.dataDescs[r].spw), ms2.dataDescs[r].pol);
      && ms1.dataDescs <= out.dataDescs && InRange(id, |out.dataDescs|) && out.dataDescs[id] == d
      && if d in ms1.dataDescs then id < |ms1.dataDescs| && d !in ms1.dataDescs[..id] else id >= |ms1.dataDescs|
  {
    hide NameRemap, NewDescs, MergedRows;
    DescMoves(ms1, ms2, r);
    var i := FirstIndex(ms1.dataDescs, Renumbered(RemapsOf(ms1, ms2).spws, ms2.dataDescs[r]));
    assert i == |ms1.dataDescs| ==> ms1.dataDescs[..i] == ms1.dataDescs;
  }

  lemma NewDescsInOrder(dd1: seq<DataDesc>, dd2: seq<DataDesc>, spws: IdMap, r: nat, s: nat)
    requires r < s < |dd2| && Renumbered(spws, dd2[r]) !in dd1 && Renumbered(spws, dd2[s]) !in dd1
    ensures NewDescId(dd1, dd2, spws, r) < NewDescId(dd1, dd2, spws, s)
  {
    NewDescAt(dd1, dd2, spws, r, s);
  }

  lemma {:induction false} NewDescsCome(dd1: seq<DataDesc>, dd2: seq<DataDesc>, spws: IdMap, id: nat)
    requires |dd1| <= id < |dd1| + |NewDescs(dd1, dd2, spws)|
    ensures exists r :: 0 <= r < |dd2| && Renumbered(spws, dd2[r]) !in dd1 && NewDescId(dd1, dd2, spws, r) == id
    decreases |dd2|
  {
    var last := |dd2| - 1;
    var front := dd2[..last];
    if id < |dd1| + |NewDescs(dd1, front, spws)| {
      NewDescsCome(dd1, front, spws, id);
      var r :| 0 <= r < last && Renumbered(spws, front[r]) !in dd1 && NewDescId(dd1, front, spws, r) == id;
      assert front[..r] == dd2[..r];
      assert NewDescId(dd1, dd2, spws, r) == id;
    } else {
      assert NewDescId(dd1, dd2, spws, last) == id;
    }
  }

  /** Row for row: the first set's rows as they were, then the second set's with their identifiers replaced and all else kept. */
  lemma RowsInPlace(ms1: MeasurementSet, ms2: MeasurementSet, r: nat)
    requires r < |ms2.rows|
    ensures var out, m, row := Joined(ms1, ms2), RemapsOf(ms1, ms2), ms2.rows[r];
      && |out.rows| == |ms1.rows| + |ms2.rows| && ms1.rows <= out.rows
      && var moved := out.rows[|ms1.rows| + r];
         && moved.values == row.values && moved.observationId == row.observationId
         && moved.antenna1 == Apply(m.antennas, row.antenna1) && moved.antenna2 == Apply(m.antennas, row.antenna2)
         && moved.fieldId == Apply(m.fields, row.fieldId) && moved.dataDescId == Apply(m.dataDescs, row.dataDescId)
         && moved.stateId == Apply(m.states, row.stateId)
  {
    hide RemapsOf, MergedRows, NewDescs, Apply;
  }

  // ---- the loops ----

  /** A row vector of the writer. */
  class RowVector<R> {
    var rows: seq<R>

    constructor ()
      ensures rows == []
    {
      rows := [];
    }

    /** Appends a row and returns its index. */
    method Add(row: R) returns (id: nat)
      modifies this
      ensures rows == old(rows) + [row] && id == |old(rows)|
    {
      id := |rows|;
      rows := rows + [row];
    }

    method AddAll(more: seq<R>)
      modifies this
      ensures rows == old(rows) + more
    {
      var i := 0;
      assert old(rows) + more[..0] == old(rows);
      while i < |more|
        invariant i <= |more| && rows == old(rows) + more[..i]
      {
        var id := Add(more[i]);
        i := i + 1;
      }
      assert more[..i] == more;
    }
  }

  /** Later rows overwrite earlier ones of the same name. */
  method NameMap(names: seq<string>) returns (m: map<string, nat>)
    ensures forall n :: n in m <==> LastNamed(names, n).Some?
    ensures forall n :: n in m ==> LastNamed(names, n) == Some(m[n])
  {
    m := map[];
    var r := 0;
    while r < |names|
      invariant r <= |names|
      invariant forall n :: n in m <==> LastNamed(names[..r], n).Some?
      invariant forall n :: n in m ==> LastNamed(names[..r], n) == Some(m[n])
    {
      assert names[..r + 1][..r] == names[..r];
      m := m[names[r] := r];
      r := r + 1;
    }
    assert names[..r] == names;
  }

  /** Copies the first table, adds the second without names already there, and records the new identifiers. */
  method MergeByName<R>(out: RowVector<R>, rows1: seq<R>, rows2: seq<R>, name: R -> string) returns (remap: IdMap)
    requires out.rows == []
    modifies out
    ensures out.rows == MergedRows(rows1, rows2, name)
    ensures remap == NameRemap(NamesOf(rows1, name), rows2, name)
  {
    hide LastNamed, NameRemapBelow, NewRows, NamesOf;
    ghost var names1 := NamesOf(rows1, name);
    var existing := NameMap(NamesOf(rows1, name));
    out.AddAll(rows1);
    remap := map[];
    NothingMerged(names1, rows2, name);
    assert rows1 + [] == rows1;
    var r := 0;
    while r < |rows2|
      invariant r <= |rows2| && out.rows == rows1 + NewRows(names1, rows2[..r], name)
      invariant remap == NameRemapBelow(names1, rows2, name, r)
    {
      NewRowsPrefix(names1, rows2, name, r);
      NameRemapNext(names1, rows2, name, r);
      NameKnown(names1, name(rows2[r]));
      if name(rows2[r]) in existing {
        remap := remap[r := existing[name(rows2[r])]];
      } else {
        var id := out.Add(rows2[r]);
        remap := remap[r := id];
      }
      r := r + 1;
    }
    assert rows2[..r] == rows2;
  }

  lemma NothingMerged<R>(names1: seq<string>, rows2: seq<R>, name: R -> string)
    ensures NameRemapBelow(names1, rows2, name, 0) == map[] && NewRows(names1, rows2[..0], name) == []
  {
  }

  lemma NothingDescribed(dd1: seq<DataDesc>, dd2: seq<DataDesc>, spws: IdMap)
    ensures DescRemapBelow(dd1, dd2, spws, 0) == map[] && NewDescs(dd1, dd2[..0], spws) == []
  {
  }

  lemma NameKnown(names: seq<string>, n: string)
    ensures LastNamed(names, n).Some? <==> n in names
  {
  }

  /** Copies the data descriptions of the first set and adds renumbered ones that are not among them. */
  method MergeDescs(out: RowVector<DataDesc>, dd1: seq<DataDesc>, dd2: seq<DataDesc>, spws: IdMap) returns (remap: IdMap)
    requires out.rows == []
    modifies out
    ensures out.rows == dd1 + NewDescs(dd1, dd2, spws) && remap == DescRemap(dd1, dd2, spws)
  {
    hide DescRemapBelow, NewDescs, FirstIndex;
    out.AddAll(dd1);
    remap := map[];
    NothingDescribed(dd1, dd2, spws);
    assert dd1 + [] == dd1;
    var r := 0;
    while r < |dd2|
      invariant r <= |dd2| && out.rows == dd1 + NewDescs(dd1, dd2[..r], spws)
      invariant remap == DescRemapBelow(dd1, dd2, spws, r)
    {
      NewDescsNext(dd1, dd2, spws, r);
      DescRemapNext(dd1, dd2, spws, r);
      var d := Renumbered(spws, dd2[r]);
      var i := FindDesc(dd1, d);
      if i < |dd1| {
        remap := remap[r := i];
      } else {
        assert dd1[..i] == dd1;
        var id := out.Add(d);
        remap := remap[r := id];
      }
      r := r + 1;
    }
    assert dd2[..r] == dd2;
  }

  method FindDesc(dds: seq<DataDesc>, d: DataDesc) returns (i: nat)
    ensures i == FirstIndex(dds, d)
  {
    i := 0;
    assert dds[0..] == dds;
    while i < |dds| && dds[i] != d
      invariant i <= |dds| && FirstIndex(dds, d) == i + FirstIndex(dds[i..], d)
    {
      assert dds[i..][1..] == dds[i + 1..];
      i := i + 1;
    }
  }

  datatype KeyColumn = KeyAntenna1 | KeyAntenna2 | KeyField | KeyDataDesc | KeyObservation | KeyState

  datatype KeyError = KeyError(row: nat, column: KeyColumn)

  predicate KeyHolds(ms: MeasurementSet, row: MainRow, c: KeyColumn) {
    match c
    case KeyAntenna1 => InRange(row.antenna1, |ms.antennas|)
    case KeyAntenna2 => InRange(row.antenna2, |ms.antennas|)
    case KeyField => InRange(row.fieldId, |ms.fields|)
    case KeyDataDesc => InRange(row.dataDescId, |ms.dataDescs|)
    case KeyObservation => InRange(row.observationId, |ms.observations|)
    case KeyState => InRange(row.stateId, |ms.states|)
  }

  /** The key a column holds. */
  function KeyOf(row: MainRow, c: KeyColumn): int {
    if c == KeyAntenna1 then row.antenna1
    else if c == KeyAntenna2 then row.antenna2
    else if c == KeyField then row.fieldId
    else if c == KeyDataDesc then row.dataDescId
    else if c == KeyObservation then row.observationId
    else row.stateId
  }

  /** Rows of the table a key column refers to. */
  function TableSize(ms: MeasurementSet, c: KeyColumn): nat {
    if c in {KeyAntenna1, KeyAntenna2} then |ms.antennas|
    else if c == KeyField then |ms.fields|
    else if c == KeyDataDesc then |ms.dataDescs|
    else if c == KeyObservation then |ms.observations|
    else |ms.states|
  }

  /** A key holds exactly if it numbers a row of the table it refers to. */
  lemma KeyNumbersRow(ms: MeasurementSet, row: MainRow, c: KeyColumn)
    ensures KeyHolds(ms, row, c) <==> 0 <= KeyOf(row, c) < TableSize(ms, c)
  {
  }

  /** The error list of one key. */
  function Report(ms: MeasurementSet, r: nat, c: KeyColumn): seq<KeyError>
    requires r < |ms.rows|
  {
    if KeyHolds(ms, ms.rows[r], c) then [] else [KeyError(r, c)]
  }

  method RowErrors(ms: MeasurementSet, r: nat) returns (errors: seq<KeyError>)
    requires r < |ms.rows|
    ensures forall q: nat, c :: KeyError(q, c) in errors <==> q == r && !KeyHolds(ms, ms.rows[r], c)
  {
    hide KeyHolds;
    errors := Report(ms, r, KeyAntenna1);
    errors := errors + Report(ms, r, KeyAntenna2);
    errors := errors + Report(ms, r, KeyField);
    errors := errors + Report(ms, r, KeyDataDesc);
    errors := errors + Report(ms, r, KeyObservation);
    errors := errors + Report(ms, r, KeyState);
    forall c: KeyColumn ensures KeyError(r, c) in errors <==> !KeyHolds(ms, ms.rows[r], c) {
      match c
      case KeyAntenna1 =>
      case KeyAntenna2 =>
      case KeyField =>
      case KeyDataDesc =>
      case KeyObservation =>
      case KeyState =>
    }
  }

  /** validate_foreign_keys: lists exactly the keys that are out of range. */
  method ValidateForeignKeys(ms: MeasurementSet) returns (errors: seq<KeyError>)
    ensures forall r: nat, c :: KeyError(r, c) in errors <==> r < |ms.rows| && !KeyHolds(ms, ms.rows[r], c)
    ensures errors == [] <==> ForeignKeys(ms)
  {
    hide KeyHolds, ForeignKeys;
    errors := [];
    var r := 0;
    while r < |ms.rows|
      invariant r <= |ms.rows|
      invariant forall q: nat, c :: KeyError(q, c) in errors <==> q < r && !KeyHolds(ms, ms.rows[q], c)
    {
      var e := RowErrors(ms, r);
      errors := errors + e;
      r := r + 1;
    }
    NoErrors(ms, errors);
  }

  lemma NoErrors(ms: MeasurementSet, errors: seq<KeyError>)
    requires forall r: nat, c :: KeyError(r, c) in errors <==> r < |ms.rows| && !KeyHolds(ms, ms.rows[r], c)
    ensures errors == [] <==> ForeignKeys(ms)
  {
    hide InRange;
    if errors != [] {
      var e := errors[0];
      assert KeyError(e.row, e.column) in errors;
    } else {
      forall r | 0 <= r < |ms.rows| ensures KeysHold(ms, ms.rows[r]) {
        forall c ensures KeyHolds(ms, ms.rows[r], c) {
          assert KeyError(r, c) !in errors;
        }
        assert KeyHolds(ms, ms.rows[r], KeyAntenna1) && KeyHolds(ms, ms.rows[r], KeyAntenna2)
          && KeyHolds(ms, ms.rows[r], KeyField) && KeyHolds(ms, ms.rows[r], KeyDataDesc)
          && KeyHolds(ms, ms.rows[r], KeyObservation) && KeyHolds(ms, ms.rows[r], KeyState);
      }
    }
  }

  method MergeNamed<R>(rows1: seq<R>, rows2: seq<R>, name: R -> string) returns (rows: seq<R>, remap: IdMap)
    ensures rows == MergedRows(rows1, rows2, name)
    ensures remap == NameRemap(NamesOf(rows1, name), rows2, name)
  {
    hide MergedRows, NameRemap;
    var out := new RowVector<R>();
    remap := MergeByName(out, rows1, rows2, name);
    rows := out.rows;
  }

  method MergeDataDescs(ms1: MeasurementSet, ms2: MeasurementSet, spws: IdMap) returns (rows: seq<DataDesc>, remap: IdMap)
    ensures rows == ms1.dataDescs + NewDescs(ms1.dataDescs, ms2.dataDescs, spws)
    ensures remap == DescRemap(ms1.dataDescs, ms2.dataDescs, spws)
  {
    hide NewDescs, DescRemap;
    var out := new RowVector<DataDesc>();
    remap := MergeDescs(out, ms1.dataDescs, ms2.dataDescs, spws);
    rows := out.rows;
  }

  method MergeObservations(ms1: MeasurementSet, ms2: MeasurementSet) returns (rows: seq<Observation>)
    ensures rows == ms1.observations + ms2.observations
  {
    var out := new RowVector<Observation>();
    out.AddAll(ms1.observations);
    out.AddAll(ms2.observations);
    rows := out.rows;
  }

  method MergeStates(states1: seq<State>, states2: seq<State>) returns (rows: seq<State>, remap: IdMap)
    ensures rows == states1 + states2 && remap == Shifted(|states1|, |states2|)
  {
    var out := new RowVector<State>();
    out.AddAll(states1);
    remap := map[];
    var r := 0;
    while r < |states2|
      invariant r <= |states2| && out.rows == states1 + states2[..r] && remap == Shifted(|states1|, r)
    {
      var id := out.Add(states2[r]);
      remap := remap[r := id];
      r := r + 1;
    }
    assert states2[..r] == states2;
    rows := out.rows;
  }

  method MergeRows(ms1: MeasurementSet, ms2: MeasurementSet, m: Remaps) returns (rows: seq<MainRow>)
    ensures rows == ms1.rows + MovedRows(m, ms2.rows)
  {
    var out := new RowVector<MainRow>();
    out.AddAll(ms1.rows);
    AddMoved(out, m, ms2.rows);
    rows := out.rows;
  }

  /** ms_concat; nothing when the writer's foreign-key check fails at the end. */
  method Concat(ms1: MeasurementSet, ms2: MeasurementSet) returns (r: Option<(MeasurementSet, Remaps)>)
    ensures r == if ForeignKeys(Joined(ms1, ms2)) then Some((Joined(ms1, ms2), RemapsOf(ms1, ms2))) else None
    ensures ForeignKeys(ms1) && ForeignKeys(ms2) ==> r.Some?
    ensures r.Some? && ForeignKeys(ms2) ==>
      |r.value.0.rows| == |ms1.rows| + |ms2.rows| && ForeignKeys(r.value.0)
      && (ObservationsKept(ms1, ms2, r.value.0) <==>
            forall id: nat :: id < |ms2.observations| && UsesObservation(ms2, id) ==> SameObservation(ms1, ms2, id))
  {
    hide MergedRows, NewDescs, NameRemap, DescRemap, KeysHold, Shifted, MovedRows, ForeignKeys, ObservationsKept, UsesObservation,
      SameObservation;
    var antennas, antennaIds := MergeNamed(ms1.antennas, ms2.antennas, AntennaName);
    var fields, fieldIds := MergeNamed(ms1.fields, ms2.fields, FieldName);
    var spws, spwIds := MergeNamed(ms1.spws, ms2.spws, SpwName);
    var descs, descIds := MergeDataDescs(ms1, ms2, spwIds);
    var observations := MergeObservations(ms1, ms2);
    var states, stateIds := MergeStates(ms1.states, ms2.states);
    var m := Remaps(antennaIds, fieldIds, spwIds, descIds, stateIds);
    var rows := MergeRows(ms1, ms2, m);
    var out := MeasurementSet(antennas, fields, spws, descs, ms1.polarizations, observations, states, rows);
    assert out == Joined(ms1, ms2);
    var errors := ValidateForeignKeys(out);
    if ForeignKeys(ms1) && ForeignKeys(ms2) {
      JoinKeepsForeignKeys(ms1, ms2);
    }
    if errors != [] {
      return None;
    }
    if ForeignKeys(ms2) {
      ObservationsKeptIff(ms1, ms2);
    }
    return Some((out, m));
  }

  method AddMoved(out: RowVector<MainRow>, m: Remaps, rows: seq<MainRow>)
    modifies out
    ensures out.rows == old(out.rows) + MovedRows(m, rows)
  {
    var r := 0;
    while r < |rows|
      invariant r <= |rows| && out.rows == old(out.rows) + MovedRows(m, rows)[..r]
    {
      var id := out.Add(Moved(m, rows[r]));
      r := r + 1;
    }
    assert MovedRows(m, rows)[..r] == MovedRows(m, rows);
  }
}
