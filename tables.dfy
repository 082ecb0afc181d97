/** The row-level view of a pandas DataFrame used by the watcher: named
    columns and rows of cells, where a cell is either text or pandas'
    missing value (None/NaN). */
module Tables {

  datatype Cell = Text(text: string) | Missing

  type Row = seq<Cell>

  datatype Table = Table(columns: seq<string>, rows: seq<Row>)

  /** Every row has one cell per column. */
  predicate WellFormed(t: Table) {
    forall i :: 0 <= i < |t.rows| ==> |t.rows[i]| == |t.columns|
  }

  predicate DistinctNames(cols: seq<string>) {
    forall p, q :: 0 <= p < q < |cols| ==> cols[p] != cols[q]
  }

  /** Position of the first column labelled `name`. */
  function IndexOf(cols: seq<string>, name: string): (i: nat)
    requires name in cols
    ensures i < |cols| && cols[i] == name
    ensures forall k :: 0 <= k < i ==> cols[k] != name
  {
    if cols[0] == name then 0 else 1 + IndexOf(cols[1..], name)
  }

  /** In a list of distinct labels, a label's position is its index. */
  lemma IndexOfDistinct(cols: seq<string>, k: nat)
    requires DistinctNames(cols) && k < |cols|
    ensures IndexOf(cols, cols[k]) == k
  {
  }

  /** The cell of `row` under label `name` (the first column so labelled);
      the missing value when no column has that label. */
  function Lookup(cols: seq<string>, row: Row, name: string): (c: Cell)
    ensures name !in cols ==> c == Missing
    ensures name in cols && |row| == |cols| ==> c == row[IndexOf(cols, name)]
  {
    if name in cols && IndexOf(cols, name) < |row| then row[IndexOf(cols, name)] else Missing
  }

  /** `row`, read under labels `cols`, re-laid out under labels `target`:
      what pandas does when it aligns frames by column label. */
  function Align(cols: seq<string>, row: Row, target: seq<string>): (r: Row)
    ensures |r| == |target|
    ensures forall k :: 0 <= k < |target| ==> r[k] == Lookup(cols, row, target[k])
  {
    seq(|target|, k requires 0 <= k < |target| => Lookup(cols, row, target[k]))
  }

  /** Aligning to a wider layout loses nothing: reading a label of the
      wider layout gives the cell of the original row. */
  lemma LookupAligned(cols: seq<string>, row: Row, target: seq<string>, name: string)
    requires name in target
    ensures Lookup(target, Align(cols, row, target), name) == Lookup(cols, row, name)
  {
  }

  /** Aligning twice is aligning once, when the second layout only uses
      labels of the first. */
  lemma AlignTwice(cols: seq<string>, row: Row, mid: seq<string>, target: seq<string>)
    requires forall k :: 0 <= k < |target| ==> target[k] in mid
    ensures Align(mid, Align(cols, row, mid), target) == Align(cols, row, target)
  {
    forall k | 0 <= k < |target|
      ensures Align(mid, Align(cols, row, mid), target)[k] == Align(cols, row, target)[k]
    {
      LookupAligned(cols, row, mid, target[k]);
    }
  }

  /** Aligning a row to its own distinct labels gives the row back. */
  lemma AlignSelf(cols: seq<string>, row: Row)
    requires DistinctNames(cols) && |row| == |cols|
    ensures Align(cols, row, cols) == row
  {
    forall k | 0 <= k < |cols| ensures Align(cols, row, cols)[k] == row[k] {
      IndexOfDistinct(cols, k);
    }
  }

  /** The cells of one column, top to bottom. */
  function Column(t: Table, name: string): (c: seq<Cell>)
    ensures |c| == |t.rows|
    ensures forall i :: 0 <= i < |t.rows| ==> c[i] == Lookup(t.columns, t.rows[i], name)
  {
    seq(|t.rows|, i requires 0 <= i < |t.rows| => Lookup(t.columns, t.rows[i], name))
  }

  /** `df[name] = values`: overwrite the first column with that label, or
      append a new column at the right when there is none. */
  function WithColumn(t: Table, name: string, values: seq<Cell>): (r: Table)
    requires WellFormed(t) && |values| == |t.rows|
    ensures WellFormed(r) && |r.rows| == |t.rows|
    ensures name in t.columns ==> r.columns == t.columns
    ensures name !in t.columns ==> r.columns == t.columns + [name]
    ensures Column(r, name) == values
    ensures forall i, c :: 0 <= i < |t.rows| && c in t.columns && c != name ==>
              Lookup(r.columns, r.rows[i], c) == Lookup(t.columns, t.rows[i], c)
  {
    if name in t.columns then
      var k := IndexOf(t.columns, name);
      Table(t.columns, seq(|t.rows|, i requires 0 <= i < |t.rows| => t.rows[i][k := values[i]]))
    else
      var r := Table(t.columns + [name], seq(|t.rows|, i requires 0 <= i < |t.rows| => t.rows[i] + [values[i]]));
      assert forall i, c :: 0 <= i < |t.rows| && c in t.columns && c != name ==>
               Lookup(r.columns, r.rows[i], c) == Lookup(t.columns, t.rows[i], c) by {
        forall i, c | 0 <= i < |t.rows| && c in t.columns && c != name
          ensures Lookup(r.columns, r.rows[i], c) == Lookup(t.columns, t.rows[i], c)
        {
          IndexOfPrefix(t.columns, [name], c);
        }
      }
      r
  }

  /** A label found in a prefix is found at the same position in the whole. */
  lemma {:induction false} IndexOfPrefix(a: seq<string>, b: seq<string>, name: string)
    requires name in a
    ensures IndexOf(a + b, name) == IndexOf(a, name)
  {
    if a[0] != name {
      assert (a + b)[1..] == a[1..] + b;
      IndexOfPrefix(a[1..], b, name);
    }
  }

  /** The labels of `a`, then those of `b` that `a` lacks: the columns of
      `pd.concat([a, b])`. */
  function ColumnUnion(a: seq<string>, b: seq<string>): (u: seq<string>)
    ensures forall c :: c in u <==> c in a || c in b
    ensures a <= u
    ensures forall k :: |a| <= k < |u| ==> u[k] in b && u[k] !in u[..k]
    decreases |b|
  {
    if b == [] then a
    else if b[0] in a then ColumnUnion(a, b[1..])
    else
      var u := ColumnUnion(a + [b[0]], b[1..]);
      assert a <= a + [b[0]];
      u
  }

  /** The union adds nothing when `b` only repeats labels of `a`. */
  lemma {:induction false} ColumnUnionCovered(a: seq<string>, b: seq<string>)
    requires forall c :: c in b ==> c in a
    ensures ColumnUnion(a, b) == a
    decreases |b|
  {
    if b != [] {
      assert b[0] in b;
      assert forall c :: c in b[1..] ==> c in b;
      ColumnUnionCovered(a, b[1..]);
    }
  }

  /** A column holding the same cell in every row. */
  function Constant(c: Cell, n: nat): (s: seq<Cell>)
    ensures |s| == n && forall i :: 0 <= i < n ==> s[i] == c
  {
    seq(n, _ => c)
  }
}
