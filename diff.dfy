/** `get_diff`: which rows of the older table are gone from the newer one,
    and which rows of the newer table are new, computed the way pandas is
    driven in the source: derive `SurveyType`, tag rows `old`/`new`, stack
    the two frames, drop duplicates keeping the last (for removed rows) or
    the first (for added rows) occurrence, and keep one tag. */
module Diff {
  import opened Outcomes
  import opened Tables
  import opened Dedup

  const SurveyName: string := "Survey"
  const TypeName: string := "Type"
  const SurveyTypeName: string := "SurveyType"
  const VersionName: string := "version"
  const OldTag: string := "old"
  const NewTag: string := "new"

  /** pandas' KeyError for an absent column. */
  datatype DiffError = MissingColumn(name: string)

  datatype DiffResult = DiffResult(removed: Table, added: Table)

  /** `Series.map(str)` on one cell: the missing value prints as "None". */
  function AsString(c: Cell): (s: string)
    ensures c.Text? ==> s == c.text
    ensures c.Missing? ==> s == "None"
  {
    match c
    case Text(s) => s
    case Missing => "None"
  }

  /** One cell of `df['Survey'].map(str) + df['Type']`: string concatenation
      without separator; a missing `Type` gives a missing result. */
  function SurveyTypeCell(survey: Cell, kind: Cell): (k: Cell)
    ensures kind.Missing? <==> k.Missing?
    ensures kind.Text? ==> k == Text(AsString(survey) + kind.text)
  {
    match kind
    case Missing => Missing
    case Text(t) => Text(AsString(survey) + t)
  }

  /** The `SurveyType` of one row laid out under `cols`. */
  function RowKey(cols: seq<string>, row: Row): (k: Cell)
    ensures Lookup(cols, row, TypeName).Missing? <==> k.Missing?
    ensures SurveyName in cols && TypeName in cols && |row| == |cols|
            && row[IndexOf(cols, TypeName)].Text? ==>
              k == Text(AsString(row[IndexOf(cols, SurveyName)]) + row[IndexOf(cols, TypeName)].text)
  {
    SurveyTypeCell(Lookup(cols, row, SurveyName), Lookup(cols, row, TypeName))
  }

  /** The derived column; `Survey` is looked up first, so its absence is the
      error reported when both are absent. */
  function SurveyTypeColumn(t: Table): (r: Result<seq<Cell>, DiffError>)
    ensures SurveyName !in t.columns ==> r == Err(MissingColumn(SurveyName))
    ensures SurveyName in t.columns && TypeName !in t.columns ==> r == Err(MissingColumn(TypeName))
    ensures r.Ok? <==> SurveyName in t.columns && TypeName in t.columns
    ensures r.Ok? ==> |r.value| == |t.rows|
    ensures r.Ok? ==> forall i :: 0 <= i < |t.rows| ==> r.value[i] == RowKey(t.columns, t.rows[i])
  {
    if SurveyName !in t.columns then Err(MissingColumn(SurveyName))
    else if TypeName !in t.columns then Err(MissingColumn(TypeName))
    else Ok(seq(|t.rows|, i requires 0 <= i < |t.rows| => RowKey(t.columns, t.rows[i])))
  }

  /** `df['SurveyType'] = df['Survey'].map(str) + df['Type']`. */
  function WithSurveyType(t: Table): (r: Result<Table, DiffError>)
    requires WellFormed(t)
    ensures r.Ok? <==> SurveyName in t.columns && TypeName in t.columns
    ensures r.Ok? ==> WellFormed(r.value) && |r.value.rows| == |t.rows| && SurveyTypeName in r.value.columns
    ensures r.Ok? ==> r.value.columns == if SurveyTypeName in t.columns then t.columns
                                         else t.columns + [SurveyTypeName]
    ensures r.Ok? ==> forall i :: 0 <= i < |t.rows| ==>
              Lookup(r.value.columns, r.value.rows[i], SurveyTypeName) == RowKey(t.columns, t.rows[i])
    ensures r.Ok? ==> forall i, c :: 0 <= i < |t.rows| && c in t.columns && c != SurveyTypeName ==>
              Lookup(r.value.columns, r.value.rows[i], c) == Lookup(t.columns, t.rows[i], c)
  {
    var col :- SurveyTypeColumn(t);
    Ok(WithColumn(t, SurveyTypeName, col))
  }

  /** `df['version'] = tag`. */
  function Tagged(t: Table, tag: string): (r: Table)
    requires WellFormed(t)
    ensures WellFormed(r) && VersionName in r.columns && |r.rows| == |t.rows|
    ensures Column(r, VersionName) == Constant(Text(tag), |t.rows|)
    ensures r.columns == if VersionName in t.columns then t.columns else t.columns + [VersionName]
    ensures forall i, c :: 0 <= i < |t.rows| && c in t.columns && c != VersionName ==>
              Lookup(r.columns, r.rows[i], c) == Lookup(t.columns, t.rows[i], c)
  {
    WithColumn(t, VersionName, Constant(Text(tag), |t.rows|))
  }

  /** The two frames as `get_diff` leaves them, and the comparison columns
      it fixed after adding `SurveyType` and before adding `version`. */
  datatype Staged = Staged(older: Table, newer: Table, shown: seq<string>)

  /** The first four statements of `get_diff`. */
  function Stage(older: Table, newer: Table): (r: Result<Staged, DiffError>)
    requires WellFormed(older) && WellFormed(newer)
    ensures r.Ok? <==> && SurveyName in older.columns && TypeName in older.columns
                       && SurveyName in newer.columns && TypeName in newer.columns
    ensures SurveyName !in older.columns ==> r == Err(MissingColumn(SurveyName))
    ensures SurveyName in older.columns && TypeName !in older.columns ==> r == Err(MissingColumn(TypeName))
    ensures r.Ok? ==> && |r.value.older.rows| == |older.rows| && |r.value.newer.rows| == |newer.rows|
                      && SurveyTypeName in r.value.shown
                      && forall c :: c in older.columns ==> c in r.value.shown
    ensures r.Ok? ==> r.value.shown == WithSurveyType(older).value.columns
    ensures r.Ok? ==> (VersionName in r.value.shown <==> VersionName in older.columns)
  {
    var o1 :- WithSurveyType(older);
    var n1 :- WithSurveyType(newer);
    Ok(Staged(Tagged(o1, OldTag), Tagged(n1, NewTag), o1.columns))
  }

  /** What the rest of `get_diff` relies on after staging. */
  predicate StagedWell(s: Staged) {
    && WellFormed(s.older) && WellFormed(s.newer)
    && VersionName in s.older.columns && VersionName in s.newer.columns
    && Column(s.older, VersionName) == Constant(Text(OldTag), |s.older.rows|)
    && Column(s.newer, VersionName) == Constant(Text(NewTag), |s.newer.rows|)
    && forall k :: 0 <= k < |s.shown| ==> s.shown[k] in s.older.columns
  }

  lemma StageWell(older: Table, newer: Table)
    requires WellFormed(older) && WellFormed(newer) && Stage(older, newer).Ok?
    ensures StagedWell(Stage(older, newer).value)
  {
    var o1 := WithSurveyType(older).value;
    assert forall c :: c in o1.columns ==> c in Tagged(o1, OldTag).columns;
  }

  /** Columns of `pd.concat([older, newer])`. */
  function FullColumns(s: Staged): (u: seq<string>)
    ensures s.older.columns <= u
    ensures forall c :: c in u <==> c in s.older.columns || c in s.newer.columns
  {
    ColumnUnion(s.older.columns, s.newer.columns)
  }

  /** Every row of `t` laid out under `u`. */
  function AlignRows(t: Table, u: seq<string>): (rows: seq<Row>)
    ensures |rows| == |t.rows|
    ensures forall i :: 0 <= i < |t.rows| ==> rows[i] == Align(t.columns, t.rows[i], u)
  {
    seq(|t.rows|, i requires 0 <= i < |t.rows| => Align(t.columns, t.rows[i], u))
  }

  /** Rows of `pd.concat([older, newer], ignore_index=True)`: the older
      rows, then the newer rows, aligned by column label. */
  function FullSet(s: Staged): (full: seq<Row>)
    ensures |full| == |s.older.rows| + |s.newer.rows|
    ensures forall i :: 0 <= i < |s.older.rows| ==>
              full[i] == Align(s.older.columns, s.older.rows[i], FullColumns(s))
    ensures forall j :: 0 <= j < |s.newer.rows| ==>
              full[|s.older.rows| + j] == Align(s.newer.columns, s.newer.rows[j], FullColumns(s))
  {
    AlignRows(s.older, FullColumns(s)) + AlignRows(s.newer, FullColumns(s))
  }

  /** The `subset` of both `drop_duplicates` calls: a stacked row read
      under the comparison columns. */
  function KeyOf(s: Staged): (key: Row -> Row)
    ensures forall row :: |key(row)| == |s.shown|
  {
    row => Align(FullColumns(s), row, s.shown)
  }

  /** `full_set['version'] == tag`, as a test on stacked positions. */
  function HasTag(s: Staged, tag: string): (has: nat -> bool)
    ensures forall i: nat :: has(i) <==>
              i < |FullSet(s)| && Lookup(FullColumns(s), FullSet(s)[i], VersionName) == Text(tag)
  {
    var u, full := FullColumns(s), FullSet(s);
    (i: nat) => 0 <= i < |full| && Lookup(u, full[i], VersionName) == Text(tag)
  }

  /** Columns left after `.drop(['version'], axis=1)`. */
  function OutputColumns(u: seq<string>): (out: seq<string>)
    ensures |out| <= |u|
    ensures forall c :: c in out <==> c in u && c != VersionName
  {
    Filter(u, c => c != VersionName)
  }

  /** The stacked rows at positions `idx`, without the `version` column. */
  function Outcome(s: Staged, idx: seq<nat>): (t: Table)
    requires forall k :: 0 <= k < |idx| ==> idx[k] < |FullSet(s)|
    ensures WellFormed(t) && t.columns == OutputColumns(FullColumns(s)) && VersionName !in t.columns
    ensures |t.rows| == |idx|
    ensures forall k, c :: 0 <= k < |idx| && c in t.columns ==>
              Lookup(t.columns, t.rows[k], c) == Lookup(FullColumns(s), FullSet(s)[idx[k]], c)
  {
    var u := FullColumns(s);
    var picked := Select(FullSet(s), idx);
    Table(OutputColumns(u), seq(|picked|, k requires 0 <= k < |picked| => Align(u, picked[k], OutputColumns(u))))
  }

  /** The last three statements of `get_diff`. */
  function DiffStaged(s: Staged): (r: DiffResult)
    ensures r.removed.columns == r.added.columns == OutputColumns(FullColumns(s))
    ensures VersionName !in r.removed.columns
    ensures WellFormed(r.removed) && WellFormed(r.added)
    ensures |r.removed.rows| <= |FullSet(s)| && |r.added.rows| <= |FullSet(s)|
  {
    var ks := Keys(FullSet(s), KeyOf(s));
    var removed := Filter(LastIndices(ks, 0), HasTag(s, OldTag));
    var added := Filter(FirstIndices(ks, |ks|), HasTag(s, NewTag));
    assert forall k :: 0 <= k < |removed| ==> removed[k] in removed;
    assert forall k :: 0 <= k < |added| ==> added[k] in added;
    DiffResult(Outcome(s, removed), Outcome(s, added))
  }

  /** `get_diff` on the values of its two frames. */
  function GetDiffSpec(older: Table, newer: Table): (r: Result<DiffResult, DiffError>)
    requires WellFormed(older) && WellFormed(newer)
    ensures r.Ok? <==> && SurveyName in older.columns && TypeName in older.columns
                       && SurveyName in newer.columns && TypeName in newer.columns
    ensures SurveyName !in older.columns ==> r == Err(MissingColumn(SurveyName))
    ensures SurveyName in older.columns && TypeName !in older.columns ==> r == Err(MissingColumn(TypeName))
    ensures r.Ok? ==> && r.value.removed.columns == r.value.added.columns
                      && VersionName !in r.value.removed.columns
                      && SurveyTypeName in r.value.removed.columns
                      && WellFormed(r.value.removed) && WellFormed(r.value.added)
  {
    var s :- Stage(older, newer);
    StageWell(older, newer);
    assert SurveyTypeName in s.older.columns;
    Ok(DiffStaged(s))
  }

  /** A mutable pandas DataFrame, as far as `get_diff` uses one. */
  class Frame {
    var columns: seq<string>
    var rows: seq<Row>

    function Value(): Table
      reads this
    {
      Table(columns, rows)
    }

    predicate Valid()
      reads this
    {
      WellFormed(Value())
    }

    constructor (t: Table)
      requires WellFormed(t)
      ensures Valid() && Value() == t
    {
      columns, rows := t.columns, t.rows;
    }

    /** `df[name] = values`. */
    method SetColumn(name: string, values: seq<Cell>)
      requires Valid() && |values| == |rows|
      modifies this
      ensures Valid() && Value() == WithColumn(old(Value()), name, values)
    {
      var t := WithColumn(Value(), name, values);
      columns, rows := t.columns, t.rows;
    }
  }

  /** The first four statements of `get_diff`, on the caller's frames:
      add `SurveyType` to each, fix the comparison columns, add `version`.
      A missing column stops it, leaving what was already added. */
  method StageFrames(older: Frame, newer: Frame) returns (r: Result<seq<string>, DiffError>)
    requires older != newer && older.Valid() && newer.Valid()
    modifies older, newer
    ensures older.Valid() && newer.Valid()
    ensures Stage(old(older.Value()), old(newer.Value())).Ok? <==> r.Ok?
    ensures r.Ok? ==> Stage(old(older.Value()), old(newer.Value())).value
                      == Staged(older.Value(), newer.Value(), r.value)
    ensures r.Err? ==> r == Stage(old(older.Value()), old(newer.Value())).PropagateFailure()
    ensures WithSurveyType(old(older.Value())).Err? ==>
              older.Value() == old(older.Value()) && newer.Value() == old(newer.Value())
    ensures WithSurveyType(old(older.Value())).Ok? && WithSurveyType(old(newer.Value())).Err? ==>
              older.Value() == WithSurveyType(old(older.Value())).value && newer.Value() == old(newer.Value())
  {
    var key0 := SurveyTypeColumn(older.Value());
    if key0.Err? {
      return Err(key0.error);
    }
    older.SetColumn(SurveyTypeName, key0.value);
    var key1 := SurveyTypeColumn(newer.Value());
    if key1.Err? {
      return Err(key1.error);
    }
    newer.SetColumn(SurveyTypeName, key1.value);
    var shown := older.columns;
    older.SetColumn(VersionName, Constant(Text(OldTag), |older.rows|));
    newer.SetColumn(VersionName, Constant(Text(NewTag), |newer.rows|));
    r := Ok(shown);
  }

  /** The last three statements of `get_diff`, with the stacked frame held
      in an array and both duplicate drops done by a scan over it. */
  method DiffStagedFrames(s: Staged) returns (d: DiffResult)
    ensures d == DiffStaged(s)
  {
    var stacked := FullSet(s);
    var full := new Row[|stacked|](i requires 0 <= i < |stacked| => stacked[i]);
    assert full[..] == stacked;
    var keptLast := KeepLast(full, KeyOf(s));
    var keptFirst := KeepFirst(full, KeyOf(s));
    var removed := Filter(keptLast, HasTag(s, OldTag));
    var added := Filter(keptFirst, HasTag(s, NewTag));
    assert forall k :: 0 <= k < |removed| ==> removed[k] in removed;
    assert forall k :: 0 <= k < |added| ==> added[k] in added;
    d := DiffResult(Outcome(s, removed), Outcome(s, added));
  }

  /** `get_diff(old, new)`. On success it returns the removed and the added
      rows; either way it leaves on the caller's frames the columns it added
      before returning or failing. */
  method GetDiff(older: Frame, newer: Frame) returns (r: Result<DiffResult, DiffError>)
    requires older != newer && older.Valid() && newer.Valid()
    modifies older, newer
    ensures older.Valid() && newer.Valid()
    ensures r == GetDiffSpec(old(older.Value()), old(newer.Value()))
    ensures WithSurveyType(old(older.Value())).Err? ==>
              older.Value() == old(older.Value()) && newer.Value() == old(newer.Value())
    ensures WithSurveyType(old(older.Value())).Ok? && WithSurveyType(old(newer.Value())).Err? ==>
              older.Value() == WithSurveyType(old(older.Value())).value && newer.Value() == old(newer.Value())
    ensures r.Ok? ==> && older.Value() == Tagged(WithSurveyType(old(older.Value())).value, OldTag)
                      && newer.Value() == Tagged(WithSurveyType(old(newer.Value())).value, NewTag)
  {
    var shown := StageFrames(older, newer);
    if shown.Err? {
      return Err(shown.error);
    }
    var d := DiffStagedFrames(Staged(older.Value(), newer.Value(), shown.value));
    r := Ok(d);
  }
}
