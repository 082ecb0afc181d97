/** What `get_diff` computes, stated without the stacking trick: removed
    rows are the older rows whose comparison columns match no newer row,
    added rows the newer rows whose comparison columns match no older row. */
module DiffProperties {
  import opened Outcomes
  import opened Tables
  import opened Dedup
  import opened Diff

  /** Each older (newer) row read under the comparison columns. */
  function OldKeys(s: Staged): seq<Row> { AlignRows(s.older, s.shown) }
  function NewKeys(s: Staged): seq<Row> { AlignRows(s.newer, s.shown) }

  /** Each older (newer) row as it appears in the output. */
  function OldOut(s: Staged): seq<Row> { AlignRows(s.older, OutputColumns(FullColumns(s))) }
  function NewOut(s: Staged): seq<Row> { AlignRows(s.newer, OutputColumns(FullColumns(s))) }

  /** Reference definition of the removed rows: among the older rows, one
      per key (the last), those whose key no newer row has. */
  function RemovedRef(s: Staged): seq<nat> {
    LastAbsent(OldKeys(s), NewKeys(s))
  }

  /** Reference definition of the added rows: among the newer rows, one per
      key (the first), those whose key no older row has. */
  function AddedRef(s: Staged): seq<nat> {
    FirstAbsent(NewKeys(s), OldKeys(s))
  }

  /** Reading a stacked row under the comparison columns gives the same as
      reading the original row under them. */
  lemma StackedKeys(s: Staged)
    requires StagedWell(s)
    ensures Keys(FullSet(s), KeyOf(s)) == OldKeys(s) + NewKeys(s)
  {
    var u := FullColumns(s);
    var full := FullSet(s);
    var n := |s.older.rows|;
    assert forall k :: 0 <= k < |s.shown| ==> s.shown[k] in u;
    forall i | 0 <= i < |full|
      ensures Keys(full, KeyOf(s))[i] == (OldKeys(s) + NewKeys(s))[i]
    {
      if i < n {
        AlignTwice(s.older.columns, s.older.rows[i], u, s.shown);
      } else {
        AlignTwice(s.newer.columns, s.newer.rows[i - n], u, s.shown);
      }
    }
  }

  /** The `version` cell of a stacked row tells which frame it came from. */
  lemma StackedTags(s: Staged)
    requires StagedWell(s)
    ensures forall i: nat :: i < |FullSet(s)| ==> (HasTag(s, OldTag)(i) <==> i < |s.older.rows|)
    ensures forall i: nat :: i < |FullSet(s)| ==> (HasTag(s, NewTag)(i) <==> i >= |s.older.rows|)
  {
    var u := FullColumns(s);
    var full := FullSet(s);
    var n := |s.older.rows|;
    forall i: nat | i < |full|
      ensures Lookup(u, full[i], VersionName) == if i < n then Text(OldTag) else Text(NewTag)
    {
      if i < n {
        LookupAligned(s.older.columns, s.older.rows[i], u, VersionName);
        assert Column(s.older, VersionName)[i] == Text(OldTag);
      } else {
        LookupAligned(s.newer.columns, s.newer.rows[i - n], u, VersionName);
        assert Column(s.newer, VersionName)[i - n] == Text(NewTag);
      }
    }
  }

  /** The central fact: keep-last then filter `old` picks exactly the
      reference removed rows; keep-first then filter `new` picks exactly the
      reference added rows, shifted past the older rows. */
  lemma PickedPositions(s: Staged)
    requires StagedWell(s)
    ensures var ks := Keys(FullSet(s), KeyOf(s));
            && Filter(LastIndices(ks, 0), HasTag(s, OldTag)) == RemovedRef(s)
            && Filter(FirstIndices(ks, |ks|), HasTag(s, NewTag)) == Shift(AddedRef(s), |s.older.rows|)
  {
    StackedKeys(s);
    StackedTags(s);
    LastOfFirstPart(OldKeys(s), NewKeys(s), HasTag(s, OldTag));
    FirstOfSecondPart(OldKeys(s), NewKeys(s), HasTag(s, NewTag));
  }

  /** Output columns are columns of the stacked frame. */
  lemma OutputWithin(u: seq<string>)
    ensures forall k :: 0 <= k < |OutputColumns(u)| ==> OutputColumns(u)[k] in u
  {
    var o := OutputColumns(u);
    assert forall k :: 0 <= k < |o| ==> o[k] in o;
  }

  /** Picking stacked positions of older rows yields those older rows
      under the output columns. */
  lemma OutcomeOfOlder(s: Staged, idx: seq<nat>)
    requires forall k :: 0 <= k < |idx| ==> idx[k] < |s.older.rows|
    ensures Outcome(s, idx).rows == Select(OldOut(s), idx)
  {
    var u := FullColumns(s);
    OutputWithin(u);
    forall k | 0 <= k < |idx| ensures Outcome(s, idx).rows[k] == OldOut(s)[idx[k]] {
      AlignTwice(s.older.columns, s.older.rows[idx[k]], u, OutputColumns(u));
    }
  }

  /** Picking stacked positions of newer rows yields those newer rows
      under the output columns. */
  lemma OutcomeOfNewer(s: Staged, idx: seq<nat>)
    requires forall k :: 0 <= k < |idx| ==> idx[k] < |s.newer.rows|
    ensures forall k :: 0 <= k < |idx| ==> Shift(idx, |s.older.rows|)[k] < |FullSet(s)|
    ensures Outcome(s, Shift(idx, |s.older.rows|)).rows == Select(NewOut(s), idx)
  {
    var u := FullColumns(s);
    var sh := Shift(idx, |s.older.rows|);
    OutputWithin(u);
    forall k | 0 <= k < |idx| ensures Outcome(s, sh).rows[k] == NewOut(s)[idx[k]] {
      assert FullSet(s)[sh[k]] == Align(s.newer.columns, s.newer.rows[idx[k]], u);
      AlignTwice(s.newer.columns, s.newer.rows[idx[k]], u, OutputColumns(u));
    }
  }

  /** `get_diff` after staging equals the reference definitions: removed
      rows are the older rows (one per key, the last) whose key is absent
      from the newer rows, added rows the newer rows (one per key, the
      first) whose key is absent from the older rows, each without
      `version`. */
  lemma DiffStagedIsSetDifference(s: Staged)
    requires StagedWell(s)
    ensures DiffStaged(s).removed == Table(OutputColumns(FullColumns(s)), Select(OldOut(s), RemovedRef(s)))
    ensures DiffStaged(s).added == Table(OutputColumns(FullColumns(s)), Select(NewOut(s), AddedRef(s)))
  {
    PickedPositions(s);
    OutcomeOfOlder(s, RemovedRef(s));
    OutcomeOfNewer(s, AddedRef(s));
  }

  /** The comparison columns survive the dropping of `version` when they
      do not include it. */
  lemma ShownInOutput(s: Staged)
    requires StagedWell(s) && VersionName !in s.shown
    ensures forall k :: 0 <= k < |s.shown| ==> s.shown[k] in OutputColumns(FullColumns(s))
  {
  }

  /** An output row still carries its comparison key. */
  lemma KeysRecoverable(s: Staged)
    requires StagedWell(s) && VersionName !in s.shown
    ensures forall i :: 0 <= i < |s.older.rows| ==>
              Align(OutputColumns(FullColumns(s)), OldOut(s)[i], s.shown) == OldKeys(s)[i]
    ensures forall j :: 0 <= j < |s.newer.rows| ==>
              Align(OutputColumns(FullColumns(s)), NewOut(s)[j], s.shown) == NewKeys(s)[j]
  {
    var out := OutputColumns(FullColumns(s));
    ShownInOutput(s);
    forall i | 0 <= i < |s.older.rows|
      ensures Align(out, OldOut(s)[i], s.shown) == OldKeys(s)[i]
    {
      AlignTwice(s.older.columns, s.older.rows[i], out, s.shown);
    }
    forall j | 0 <= j < |s.newer.rows|
      ensures Align(out, NewOut(s)[j], s.shown) == NewKeys(s)[j]
    {
      AlignTwice(s.newer.columns, s.newer.rows[j], out, s.shown);
    }
  }

  /** Rows picked at positions whose keys `other` lacks carry keys that
      `other` lacks. */
  lemma PickedKeys(outRows: seq<Row>, keys: seq<Row>, other: seq<Row>, idx: seq<nat>,
                   out: seq<string>, shown: seq<string>)
    requires |outRows| == |keys|
    requires forall i :: 0 <= i < |keys| ==> Align(out, outRows[i], shown) == keys[i]
    requires forall k :: 0 <= k < |idx| ==> idx[k] < |keys| && keys[idx[k]] !in other
    ensures forall r :: r in Select(outRows, idx) ==>
              Align(out, r, shown) in keys && Align(out, r, shown) !in other
  {
    forall r | r in Select(outRows, idx)
      ensures Align(out, r, shown) in keys && Align(out, r, shown) !in other
    {
      var k :| 0 <= k < |idx| && Select(outRows, idx)[k] == r;
      assert Align(out, r, shown) == keys[idx[k]];
    }
  }

  /** Every removed row has a key found among the older rows and not among
      the newer rows; every added row the other way round; so no row is
      reported as both removed and added. Needs a page without a column
      named `version`: otherwise the tag is part of the key. */
  lemma DiffDisjoint(s: Staged)
    requires StagedWell(s) && VersionName !in s.shown
    ensures var d, out := DiffStaged(s), OutputColumns(FullColumns(s));
            && (forall r :: r in d.removed.rows ==>
                  Align(out, r, s.shown) in OldKeys(s) && Align(out, r, s.shown) !in NewKeys(s))
            && (forall r :: r in d.added.rows ==>
                  Align(out, r, s.shown) in NewKeys(s) && Align(out, r, s.shown) !in OldKeys(s))
            && (forall r :: r in d.removed.rows ==> r !in d.added.rows)
  {
    var out := OutputColumns(FullColumns(s));
    DiffStagedIsSetDifference(s);
    KeysRecoverable(s);
    PickedKeys(OldOut(s), OldKeys(s), NewKeys(s), RemovedRef(s), out, s.shown);
    PickedKeys(NewOut(s), NewKeys(s), OldKeys(s), AddedRef(s), out, s.shown);
  }

  /** `DiffDisjoint` stated on the two pages: when the older page has no
      column named `version`, no row is reported both as removed and as
      added. */
  lemma GetDiffDisjoint(older: Table, newer: Table)
    requires WellFormed(older) && WellFormed(newer)
    requires SurveyName in older.columns && TypeName in older.columns
    requires SurveyName in newer.columns && TypeName in newer.columns
    requires VersionName !in older.columns
    ensures GetDiffSpec(older, newer).Ok?
    ensures var d := GetDiffSpec(older, newer).value;
            forall r :: r in d.removed.rows ==> r !in d.added.rows
  {
    StageWell(older, newer);
    DiffDisjoint(Stage(older, newer).value);
  }

  /** Tagging leaves every comparison column of a row as it was, when the
      frame had no `version` column of its own. */
  lemma TaggedKeys(w: Table, tag: string)
    requires WellFormed(w) && VersionName !in w.columns
    ensures var tagged := Tagged(w, tag);
            forall i :: 0 <= i < |w.rows| ==>
              Align(tagged.columns, tagged.rows[i], w.columns) == Align(w.columns, w.rows[i], w.columns)
  {
  }

  /** Comparing a table with itself reports nothing removed and nothing
      added, provided it has no column named `version`. */
  lemma GetDiffIdentity(t: Table)
    requires WellFormed(t) && SurveyName in t.columns && TypeName in t.columns
    requires VersionName !in t.columns
    ensures GetDiffSpec(t, t).Ok?
    ensures GetDiffSpec(t, t).value.removed.rows == []
    ensures GetDiffSpec(t, t).value.added.rows == []
  {
    var w := WithSurveyType(t).value;
    var s := Stage(t, t).value;
    assert VersionName !in w.columns;
    StageWell(t, t);
    TaggedKeys(w, OldTag);
    TaggedKeys(w, NewTag);
    assert OldKeys(s) == NewKeys(s);
    NothingAbsentFromItself(OldKeys(s));
    DiffStagedIsSetDifference(s);
  }

  /** Dropping `version` from a layout that ends with it gives back the
      layout before it. */
  lemma {:induction false} OutputColumnsDropVersion(a: seq<string>)
    requires VersionName !in a
    ensures OutputColumns(a + [VersionName]) == a
  {
    if a != [] {
      assert (a + [VersionName])[1..] == a[1..] + [VersionName];
      OutputColumnsDropVersion(a[1..]);
    }
  }

  /** `df['SurveyType'] = ...` on a frame without that column appends, to
      each row, the key computed from the row itself. */
  lemma SurveyTypeAppended(t: Table)
    requires WellFormed(t) && SurveyName in t.columns && TypeName in t.columns
    requires SurveyTypeName !in t.columns
    ensures WithSurveyType(t).value.columns == t.columns + [SurveyTypeName]
    ensures forall i :: 0 <= i < |t.rows| ==>
              WithSurveyType(t).value.rows[i] == t.rows[i] + [RowKey(t.columns, t.rows[i])]
  {
  }

  /** Two scrapes of one layout that `get_diff` compares row by row. */
  predicate OneLayout(older: Table, newer: Table) {
    && WellFormed(older) && WellFormed(newer) && older.columns == newer.columns
    && DistinctNames(older.columns)
    && SurveyName in older.columns && TypeName in older.columns
    && SurveyTypeName !in older.columns && VersionName !in older.columns
  }

  /** The staged layout of two frames that share one layout. */
  lemma SameSchemaLayout(older: Table, newer: Table)
    requires OneLayout(older, newer)
    ensures Stage(older, newer).Ok?
    ensures var s := Stage(older, newer).value;
            && s.shown == older.columns + [SurveyTypeName]
            && s.older == Tagged(WithSurveyType(older).value, OldTag)
            && s.newer == Tagged(WithSurveyType(newer).value, NewTag)
            && s.older.columns == s.newer.columns == s.shown + [VersionName]
            && DistinctNames(s.shown) && VersionName !in s.shown
            && FullColumns(s) == s.shown + [VersionName]
            && OutputColumns(FullColumns(s)) == s.shown
  {
    var s := Stage(older, newer).value;
    var shown := older.columns + [SurveyTypeName];
    assert DistinctNames(shown);
    assert VersionName !in shown;
    var c2 := shown + [VersionName];
    assert s.older.columns == c2 && s.newer.columns == c2;
    ColumnUnionCovered(c2, c2);
    OutputColumnsDropVersion(shown);
  }

  /** When both frames share one layout of distinct labels, each staged
      key is the row with its `SurveyType`, and the output layout is the
      comparison layout. */
  lemma SameSchemaStaging(older: Table, newer: Table)
    requires OneLayout(older, newer)
    ensures Stage(older, newer).Ok?
    ensures var s := Stage(older, newer).value;
            && s.shown == older.columns + [SurveyTypeName]
            && OutputColumns(FullColumns(s)) == s.shown
            && OldKeys(s) == OldOut(s) == WithSurveyType(older).value.rows
            && NewKeys(s) == NewOut(s) == WithSurveyType(newer).value.rows
  {
    var o, n := WithSurveyType(older).value, WithSurveyType(newer).value;
    SameSchemaLayout(older, newer);
    var s := Stage(older, newer).value;
    var shown := s.shown;
    SurveyTypeAppended(older);
    SurveyTypeAppended(newer);
    TaggedKeys(o, OldTag);
    TaggedKeys(n, NewTag);
    forall i | 0 <= i < |o.rows| ensures OldKeys(s)[i] == o.rows[i] {
      AlignSelf(shown, o.rows[i]);
    }
    forall j | 0 <= j < |n.rows| ensures NewKeys(s)[j] == n.rows[j] {
      AlignSelf(shown, n.rows[j]);
    }
  }

  /** With a shared layout, `get_diff` is plain set difference on whole
      rows (with their `SurveyType`): the removed rows are exactly the older
      rows absent from the newer table, the added rows exactly the newer
      rows absent from the older table, each reported once, under the
      frame's columns followed by `SurveyType`. */
  lemma SameSchemaDiff(older: Table, newer: Table)
    requires OneLayout(older, newer)
    ensures GetDiffSpec(older, newer).Ok?
    ensures var d := GetDiffSpec(older, newer).value;
            var o, n := WithSurveyType(older).value.rows, WithSurveyType(newer).value.rows;
            && d.removed.columns == older.columns + [SurveyTypeName]
            && d.added.columns == older.columns + [SurveyTypeName]
            && Distinct(d.removed.rows) && Distinct(d.added.rows)
            && (forall r :: r in d.removed.rows <==> r in o && r !in n)
            && (forall r :: r in d.added.rows <==> r in n && r !in o)
  {
    var s := Stage(older, newer).value;
    SameSchemaStaging(older, newer);
    StageWell(older, newer);
    DiffStagedIsSetDifference(s);
    LastAbsentSpec(OldKeys(s), NewKeys(s));
    FirstAbsentSpec(NewKeys(s), OldKeys(s));
  }

  /** A row with its `SurveyType` appended, as `get_diff` reports it. */
  function Keyed(cols: seq<string>, row: Row): Row {
    row + [RowKey(cols, row)]
  }

  /** `SurveyType` adds no distinction: two rows of one layout are equal
      with it exactly when they are equal without it. */
  lemma KeyedInjective(cols: seq<string>, x: Row, y: Row)
    requires |x| == |cols| && |y| == |cols|
    ensures Keyed(cols, x) == Keyed(cols, y) <==> x == y
  {
    if Keyed(cols, x) == Keyed(cols, y) {
      assert x == Keyed(cols, x)[..|cols|];
      assert y == Keyed(cols, y)[..|cols|];
    }
  }

  /** Membership of a keyed row among the keyed rows of `t` is membership
      of the plain row among the rows of `t`. */
  lemma KeyedMembership(t: Table, row: Row)
    requires WellFormed(t) && SurveyName in t.columns && TypeName in t.columns
    requires SurveyTypeName !in t.columns && |row| == |t.columns|
    ensures Keyed(t.columns, row) in WithSurveyType(t).value.rows <==> row in t.rows
  {
    var w := WithSurveyType(t).value;
    SurveyTypeAppended(t);
    if Keyed(t.columns, row) in w.rows {
      var j :| 0 <= j < |w.rows| && w.rows[j] == Keyed(t.columns, row);
      KeyedInjective(t.columns, row, t.rows[j]);
    }
    if row in t.rows {
      var j :| 0 <= j < |t.rows| && t.rows[j] == row;
      assert w.rows[j] == Keyed(t.columns, row);
    }
  }

  /** Keyed rows of `a` absent from the keyed rows of `b` are the keyed
      forms of the rows of `a` absent from `b`. */
  lemma RowDifference(a: Table, b: Table, picked: seq<Row>)
    requires WellFormed(a) && WellFormed(b) && a.columns == b.columns
    requires SurveyName in a.columns && TypeName in a.columns && SurveyTypeName !in a.columns
    requires forall r :: r in picked <==>
               r in WithSurveyType(a).value.rows && r !in WithSurveyType(b).value.rows
    ensures forall r :: r in picked <==>
              exists i :: 0 <= i < |a.rows| && a.rows[i] !in b.rows && r == Keyed(a.columns, a.rows[i])
  {
    var wa := WithSurveyType(a).value.rows;
    SurveyTypeAppended(a);
    forall r ensures r in picked <==>
                       exists i :: 0 <= i < |a.rows| && a.rows[i] !in b.rows && r == Keyed(a.columns, a.rows[i])
    {
      if r in picked {
        var i :| 0 <= i < |wa| && wa[i] == r;
        KeyedMembership(b, a.rows[i]);
      }
      if exists i :: 0 <= i < |a.rows| && a.rows[i] !in b.rows && r == Keyed(a.columns, a.rows[i]) {
        var i :| 0 <= i < |a.rows| && a.rows[i] !in b.rows && r == Keyed(a.columns, a.rows[i]);
        KeyedMembership(b, a.rows[i]);
        assert wa[i] == r;
      }
    }
  }

  /** The promise of `get_diff` for two scrapes of one page layout: the
      removed rows are the older rows that the newer table lacks, the added
      rows the newer rows that the older table lacks, each with its
      `SurveyType` appended and each reported once. */
  lemma GetDiffIsRowDifference(older: Table, newer: Table)
    requires OneLayout(older, newer)
    ensures GetDiffSpec(older, newer).Ok?
    ensures var d, cols := GetDiffSpec(older, newer).value, older.columns;
            && Distinct(d.removed.rows) && Distinct(d.added.rows)
            && (forall r :: r in d.removed.rows <==>
                  exists i :: 0 <= i < |older.rows| && older.rows[i] !in newer.rows
                           && r == Keyed(cols, older.rows[i]))
            && (forall r :: r in d.added.rows <==>
                  exists j :: 0 <= j < |newer.rows| && newer.rows[j] !in older.rows
                           && r == Keyed(cols, newer.rows[j]))
  {
    SameSchemaDiff(older, newer);
    var d := GetDiffSpec(older, newer).value;
    RowDifference(older, newer, d.removed.rows);
    RowDifference(newer, older, d.added.rows);
  }

  function TextRow(cells: seq<string>): Row {
    seq(|cells|, i requires 0 <= i < |cells| => Text(cells[i]))
  }

  /** The keyed rows of a table with one row appended. */
  lemma KeyedAppended(older: Table, newer: Table, row: Row)
    requires OneLayout(older, newer)
    requires newer.rows == older.rows + [row] && row !in older.rows
    ensures var o := WithSurveyType(older).value.rows;
            && WithSurveyType(newer).value.rows == o + [Keyed(older.columns, row)]
            && Keyed(older.columns, row) !in o
  {
    SurveyTypeAppended(older);
    SurveyTypeAppended(newer);
    assert newer.rows[|older.rows|] == row;
    KeyedMembership(older, row);
  }

  /** A row appended to the page: nothing is removed and exactly that row
      is added, with its `SurveyType`. */
  lemma AppendedRowDiff(older: Table, newer: Table, row: Row)
    requires OneLayout(older, newer)
    requires newer.rows == older.rows + [row] && row !in older.rows
    ensures GetDiffSpec(older, newer).Ok?
    ensures GetDiffSpec(older, newer).value.removed.rows == []
    ensures GetDiffSpec(older, newer).value.added.rows == [Keyed(older.columns, row)]
  {
    SameSchemaDiff(older, newer);
    KeyedAppended(older, newer, row);
    var d := GetDiffSpec(older, newer).value;
    AppendedDifference(WithSurveyType(older).value.rows, Keyed(older.columns, row), d.removed.rows, d.added.rows);
  }

  /** The keyed rows of two one-row tables with different rows. */
  lemma KeyedReplaced(older: Table, newer: Table)
    requires OneLayout(older, newer)
    requires |older.rows| == 1 && |newer.rows| == 1 && older.rows[0] != newer.rows[0]
    ensures WithSurveyType(older).value.rows == [Keyed(older.columns, older.rows[0])]
    ensures WithSurveyType(newer).value.rows == [Keyed(older.columns, newer.rows[0])]
    ensures Keyed(older.columns, older.rows[0]) != Keyed(older.columns, newer.rows[0])
  {
    SurveyTypeAppended(older);
    SurveyTypeAppended(newer);
    KeyedInjective(older.columns, older.rows[0], newer.rows[0]);
  }

  /** A one-row page whose row changed: the old row is removed and the new
      one added, each with its `SurveyType`. */
  lemma ReplacedRowDiff(older: Table, newer: Table)
    requires OneLayout(older, newer)
    requires |older.rows| == 1 && |newer.rows| == 1 && older.rows[0] != newer.rows[0]
    ensures GetDiffSpec(older, newer).Ok?
    ensures GetDiffSpec(older, newer).value.removed.rows == [Keyed(older.columns, older.rows[0])]
    ensures GetDiffSpec(older, newer).value.added.rows == [Keyed(older.columns, newer.rows[0])]
  {
    SameSchemaDiff(older, newer);
    KeyedReplaced(older, newer);
    var d := GetDiffSpec(older, newer).value;
    ReplacedDifference(Keyed(older.columns, older.rows[0]), Keyed(older.columns, newer.rows[0]),
                       d.removed.rows, d.added.rows);
  }

  /** The key of a row under `Survey`, `Type` and one more column. */
  lemma KeyOfThreeColumns(third: string, survey: string, kind: string, value: string)
    requires third != SurveyName && third != TypeName
    ensures Keyed(["Survey", "Type", third], TextRow([survey, kind, value]))
            == TextRow([survey, kind, value, survey + kind])
  {
    assert IndexOf(["Survey", "Type", third], SurveyName) == 0;
    assert IndexOf(["Survey", "Type", third], TypeName) == 1;
  }

  /** A country added to a survey's list: nothing removed, the new row
      added with its `SurveyType`. */
  lemma CountryAddedScenario(survey: string, kind: string, present: string, added: string)
    requires present != added
    ensures var cols := ["Survey", "Type", "Country"];
            var older := Table(cols, [TextRow([survey, kind, present])]);
            var newer := Table(cols, [TextRow([survey, kind, present]), TextRow([survey, kind, added])]);
            && WellFormed(older) && WellFormed(newer)
            && GetDiffSpec(older, newer).Ok?
            && GetDiffSpec(older, newer).value.removed.rows == []
            && GetDiffSpec(older, newer).value.added.rows
               == [TextRow([survey, kind, added, survey + kind])]
  {
    var cols := ["Survey", "Type", "Country"];
    var oldRow, newRow := TextRow([survey, kind, present]), TextRow([survey, kind, added]);
    var older, newer := Table(cols, [oldRow]), Table(cols, [oldRow, newRow]);
    assert oldRow != newRow by { assert oldRow[2] != newRow[2]; }
    assert newer.rows == older.rows + [newRow];
    AppendedRowDiff(older, newer, newRow);
    KeyOfThreeColumns("Country", survey, kind, added);
  }

  /** A row whose date changed: the old row is removed and the new one
      added, although both have the same `SurveyType`. */
  lemma RowModifiedScenario(survey: string, kind: string, before: string, after: string)
    requires before != after
    ensures var cols := ["Survey", "Type", "Date"];
            var older := Table(cols, [TextRow([survey, kind, before])]);
            var newer := Table(cols, [TextRow([survey, kind, after])]);
            && WellFormed(older) && WellFormed(newer)
            && GetDiffSpec(older, newer).Ok?
            && GetDiffSpec(older, newer).value.removed.rows == [TextRow([survey, kind, before, survey + kind])]
            && GetDiffSpec(older, newer).value.added.rows == [TextRow([survey, kind, after, survey + kind])]
  {
    var cols := ["Survey", "Type", "Date"];
    var was, now := TextRow([survey, kind, before]), TextRow([survey, kind, after]);
    var older, newer := Table(cols, [was]), Table(cols, [now]);
    assert was != now by { assert was[2] != now[2]; }
    ReplacedRowDiff(older, newer);
    KeyOfThreeColumns("Date", survey, kind, before);
    KeyOfThreeColumns("Date", survey, kind, after);
  }

  /** When the comparison columns include `version`, every older key
      carries the `old` tag and every newer key the `new` tag, so no key is
      shared. */
  lemma TagInKeys(s: Staged)
    requires StagedWell(s) && VersionName in s.shown
    ensures forall i, j :: 0 <= i < |s.older.rows| && 0 <= j < |s.newer.rows| ==>
              OldKeys(s)[i] != NewKeys(s)[j]
  {
    var k := IndexOf(s.shown, VersionName);
    forall i, j | 0 <= i < |s.older.rows| && 0 <= j < |s.newer.rows|
      ensures OldKeys(s)[i] != NewKeys(s)[j]
    {
      assert Column(s.older, VersionName)[i] == Text(OldTag);
      assert Column(s.newer, VersionName)[j] == Text(NewTag);
      assert OldKeys(s)[i][k] != NewKeys(s)[j][k];
    }
  }

  /** A page whose table has its own `version` column: the tag overwrites
      it and becomes part of the comparison, so comparing a non-empty table
      with itself reports rows as removed and as added. */
  lemma VersionColumnBreaksIdentity(t: Table)
    requires WellFormed(t) && SurveyName in t.columns && TypeName in t.columns
    requires VersionName in t.columns && |t.rows| > 0
    ensures GetDiffSpec(t, t).Ok?
    ensures GetDiffSpec(t, t).value.removed.rows != []
    ensures GetDiffSpec(t, t).value.added.rows != []
  {
    var s := Stage(t, t).value;
    StageWell(t, t);
    var w := WithSurveyType(t).value;
    assert VersionName in w.columns;
    TagInKeys(s);
    var ok, nk := OldKeys(s), NewKeys(s);
    assert ok[0] !in nk && nk[0] !in ok;
    LastAbsentSpec(ok, nk);
    FirstAbsentSpec(nk, ok);
    assert ok[0] in Select(ok, RemovedRef(s));
    assert nk[0] in Select(nk, AddedRef(s));
    DiffStagedIsSetDifference(s);
  }

  /** With its own `version` column, a one-row page compared with itself
      reports the same row both as removed and as added: the tag differs
      in the comparison, but `version` is dropped from the output. */
  lemma VersionColumnSharedRow(t: Table)
    requires WellFormed(t) && SurveyName in t.columns && TypeName in t.columns
    requires VersionName in t.columns && |t.rows| == 1
    ensures GetDiffSpec(t, t).Ok?
    ensures var d := GetDiffSpec(t, t).value;
            && d.removed.rows != [] && d.added.rows != []
            && forall r :: r in d.removed.rows <==> r in d.added.rows
  {
    VersionColumnBreaksIdentity(t);
    var s := Stage(t, t).value;
    StageWell(t, t);
    DiffStagedIsSetDifference(s);
    SharedRowStaged(s, WithSurveyType(t).value);
  }

  /** The staged form of `VersionColumnSharedRow`, on the reference
      removed and added rows. */
  lemma SharedRowStaged(s: Staged, w: Table)
    requires StagedWell(s) && WellFormed(w) && VersionName in w.columns && |w.rows| == 1
    requires s.older == Tagged(w, OldTag) && s.newer == Tagged(w, NewTag)
    requires Select(OldOut(s), RemovedRef(s)) != [] && Select(NewOut(s), AddedRef(s)) != []
    ensures forall r :: r in Select(OldOut(s), RemovedRef(s)) <==> r in Select(NewOut(s), AddedRef(s))
  {
    TwinsShareOutput(s, w);
    PicksOfOne(OldOut(s), NewOut(s), RemovedRef(s), AddedRef(s));
  }

  /** Two frames that differ only in their `version` tag give the same
      output rows. */
  lemma TwinsShareOutput(s: Staged, w: Table)
    requires StagedWell(s) && WellFormed(w) && VersionName in w.columns
    requires s.older == Tagged(w, OldTag) && s.newer == Tagged(w, NewTag)
    ensures forall i :: 0 <= i < |w.rows| ==> OldOut(s)[i] == NewOut(s)[i]
  {
    var u := OutputColumns(FullColumns(s));
    forall i, k | 0 <= i < |w.rows| && 0 <= k < |u| ensures OldOut(s)[i][k] == NewOut(s)[i][k] {
      assert u[k] in FullColumns(s) && u[k] != VersionName;
      assert Lookup(s.older.columns, s.older.rows[i], u[k]) == Lookup(w.columns, w.rows[i], u[k]);
      assert Lookup(s.newer.columns, s.newer.rows[i], u[k]) == Lookup(w.columns, w.rows[i], u[k]);
    }
  }

  /** Non-empty picks from two one-element lists that hold the same
      element hold the same elements. */
  lemma PicksOfOne<T>(a: seq<T>, b: seq<T>, ia: seq<nat>, ib: seq<nat>)
    requires |a| == 1 && |b| == 1 && a[0] == b[0]
    requires forall k :: 0 <= k < |ia| ==> ia[k] < |a|
    requires forall k :: 0 <= k < |ib| ==> ib[k] < |b|
    requires Select(a, ia) != [] && Select(b, ib) != []
    ensures forall r :: r in Select(a, ia) <==> r in Select(b, ib)
  {
    assert Select(a, ia)[0] == a[0] && Select(b, ib)[0] == b[0];
  }
}
