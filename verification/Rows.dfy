/** Reading rows of a column that is stored in row groups: the slices of `cat`, `export` and `tail`
    and the random rows of `sample` (src/cli/commands.c). */
module Rows {
  import opened Bytes
  import opened Modulo

  /** The column as one sequence: row group after row group. */
  function Flatten<T>(groups: seq<seq<T>>): seq<T>
  {
    if groups == [] then [] else Flatten(groups[..|groups| - 1]) + groups[|groups| - 1]
  }

  lemma FlattenNext<T>(groups: seq<seq<T>>, i: nat)
    requires i < |groups|
    ensures Flatten(groups[..i + 1]) == Flatten(groups[..i]) + groups[i]
  {
    assert groups[..i + 1][..i] == groups[..i];
  }

  lemma FlattenOne<T>(group: seq<T>)
    ensures Flatten<T>([]) == [] && Flatten([group]) == group
  {
    assert [group][..0] == [];
  }

  /** Every part of the column is a prefix of it. */
  lemma {:induction false} FlattenPrefix<T>(groups: seq<seq<T>>, i: nat)
    requires i <= |groups|
    ensures Flatten(groups[..i]) <= Flatten(groups)
    decreases |groups| - i
  {
    if i < |groups| {
      FlattenNext(groups, i);
      FlattenPrefix(groups, i + 1);
    } else {
      assert groups[..i] == groups;
    }
  }

  function Min(a: int, b: int): int
  {
    if a < b then a else b
  }

  /** Rows offset .. offset + limit, as far as there are any. */
  function Slice<T>(s: seq<T>, offset: nat, limit: nat): seq<T>
  {
    s[Min(offset, |s|)..Min(offset + limit, |s|)]
  }

  /** Row by row. */
  lemma SliceRows<T>(s: seq<T>, offset: nat, limit: nat)
    ensures |Slice(s, offset, limit)| ==
            if offset + limit <= |s| then limit else if offset <= |s| then |s| - offset else 0
    ensures forall i | 0 <= i < |Slice(s, offset, limit)| :: Slice(s, offset, limit)[i] == s[offset + i]
  {
  }

  lemma SliceOfPrefix<T>(p: seq<T>, s: seq<T>, offset: nat, limit: nat)
    requires p <= s
    ensures Slice(p, offset, limit) <= Slice(s, offset, limit)
    ensures |Slice(p, offset, limit)| == limit ==> Slice(p, offset, limit) == Slice(s, offset, limit)
  {
    assert Slice(p, offset, limit) == Slice(s, offset, limit)[..|Slice(p, offset, limit)|];
  }

  /** What the next group adds to a slice. */
  lemma SliceGrows<T>(p: seq<T>, g: seq<T>, offset: nat, limit: nat)
    requires |Slice(p, offset, limit)| < limit
    ensures var skip := if offset > |p| then offset - |p| else 0;
            Slice(p + g, offset, limit) == Slice(p, offset, limit) + Slice(g, skip, limit - |Slice(p, offset, limit)|)
  {
  }

  /** The reader of one column chunk: a cursor over its values. */
  class ColumnReader<T> {
    const rows: seq<T>
    var pos: nat

    ghost predicate Valid()
      reads this
    {
      pos <= |rows|
    }

    constructor (rows: seq<T>)
      ensures Valid() && this.rows == rows && pos == 0
    {
      this.rows, pos := rows, 0;
    }

    method Skip(n: nat)
      requires Valid()
      modifies this
      ensures Valid() && pos == Min(old(pos) + n, |rows|)
    {
      pos := Min(pos + n, |rows|);
    }

    method ReadBatch(max: nat) returns (values: seq<T>)
      requires Valid()
      modifies this
      ensures Valid() && pos == Min(old(pos) + max, |rows|) && values == rows[old(pos)..pos]
    {
      var start := pos;
      pos := Min(pos + max, |rows|);
      values := rows[start..pos];
    }
  }

  /** Index of a cell in the flat string matrix. */
  function CellAt(row: nat, col: nat, numCols: nat): (i: nat)
    requires col < numCols
  {
    TimesNonNegative(row, numCols);
    Times(row, numCols) + col
  }

  lemma CellUnique(row: nat, col: nat, numCols: nat, rows: nat)
    requires col < numCols
    ensures Remainder(CellAt(row, col, numCols), numCols) == col
    ensures CellAt(row, col, numCols) == row * numCols + col
    ensures row < rows ==> CellAt(row, col, numCols) < rows * numCols
  {
    CellRemainder(row, col, numCols);
    if row < rows {
      CellBelow(row, col, numCols, rows);
    }
  }

  lemma CellRemainder(row: nat, col: nat, numCols: nat)
    requires col < numCols
    ensures Remainder(CellAt(row, col, numCols), numCols) == col
  {
    hide Times, Remainder;
    TimesCommutes(row, numCols);
    DividedOnce(CellAt(row, col, numCols), numCols, row, col);
  }

  lemma CellBelow(row: nat, col: nat, numCols: nat, rows: nat)
    requires col < numCols && row < rows
    ensures CellAt(row, col, numCols) < Times(rows, numCols)
  {
    hide Times;
    TimesMonotone(row + 1, rows, numCols);
    TimesAdd(numCols, row, 1);
    TimesSmall(numCols);
  }

  /** Column `col` of the matrix holds `values` from the first row on. */
  ghost predicate ColumnHolds<T>(cells: seq<T>, col: nat, numCols: nat, values: seq<T>)
    requires col < numCols
  {
    forall r | 0 <= r < |values| :: CellAt(r, col, numCols) < |cells| && cells[CellAt(r, col, numCols)] == values[r]
  }

  /** Only column `col` may differ. */
  ghost predicate SameElsewhere<T>(was: seq<T>, now: seq<T>, col: nat, numCols: nat)
    requires col < numCols
  {
    |was| == |now| && forall k | 0 <= k < |was| && Remainder(k, numCols) != col :: now[k] == was[k]
  }

  /** The cells of one batch, below the rows already there. */
  method StoreBatch<T>(cells: array<T>, col: nat, numCols: nat, ghost above: seq<T>, rows: nat, batch: seq<T>)
    requires col < numCols && rows == |above| && (rows + |batch|) * numCols <= cells.Length
    requires ColumnHolds(cells[..], col, numCols, above)
    modifies cells
    ensures ColumnHolds(cells[..], col, numCols, above + batch)
    ensures SameElsewhere(old(cells[..]), cells[..], col, numCols)
  {
    hide CellAt, Remainder;
    for i := 0 to |batch|
      invariant ColumnHolds(cells[..], col, numCols, above + batch[..i])
      invariant SameElsewhere(old(cells[..]), cells[..], col, numCols)
    {
      ghost var before, held := cells[..], above + batch[..i];
      CellUnique(rows + i, col, numCols, rows + |batch|);
      cells[CellAt(rows + i, col, numCols)] := batch[i];
      assert above + batch[..i + 1] == held + [batch[i]];
      forall r | 0 <= r < rows + i ensures CellAt(r, col, numCols) != CellAt(rows + i, col, numCols) {
        CellsDiffer(r, rows + i, col, numCols);
      }
    }
    assert batch[..|batch|] == batch;
  }

  lemma CellsDiffer(r: nat, r': nat, col: nat, numCols: nat)
    requires col < numCols && r < r'
    ensures CellAt(r, col, numCols) < CellAt(r', col, numCols)
  {
    hide Times;
    CellBelow(r, col, numCols, r');
  }

  // ---- cat and export ----

  /** Skip to the first row wanted of a group, and read on from there. */
  method ReadGroup<T>(group: seq<T>, skipInGroup: nat, want: nat) returns (values: seq<T>)
    ensures values == Slice(group, skipInGroup, want)
  {
    var col := new ColumnReader(group);
    if skipInGroup > 0 { col.Skip(skipInGroup); }
    values := col.ReadBatch(want);
  }

  /** read_column_strings: the slice of the whole column, whatever the row groups, goes to column
      `dstCol` of the matrix, and nothing else there changes. */
  method ReadColumnStrings<T>(groups: seq<seq<T>>, offset: nat, limit: nat, cells: array<T>, numCols: nat, dstCol: nat)
    returns (rowsOutput: nat)
    requires dstCol < numCols && limit * numCols <= cells.Length
    modifies cells
    ensures rowsOutput == |Slice(Flatten(groups), offset, limit)|
    ensures ColumnHolds(cells[..], dstCol, numCols, Slice(Flatten(groups), offset, limit))
    ensures SameElsewhere(old(cells[..]), cells[..], dstCol, numCols)
  {
    hide ColumnHolds, Slice, Flatten;
    var rowsSeen, rg := 0, 0;
    rowsOutput := 0;
    ghost var out: seq<T> := [];
    StartSlice(groups, offset, limit, cells[..], dstCol, numCols);
    while rg < |groups| && rowsOutput < limit
      invariant rg <= |groups| && rowsSeen == |Flatten(groups[..rg])|
      invariant out == Slice(Flatten(groups[..rg]), offset, limit) && rowsOutput == |out| <= limit
      invariant ColumnHolds(cells[..], dstCol, numCols, out)
      invariant SameElsewhere(old(cells[..]), cells[..], dstCol, numCols)
      decreases |groups| - rg
    {
      ghost var part := Flatten(groups[..rg]);
      FlattenNext(groups, rg);
      SliceGrows(part, groups[rg], offset, limit);
      if rowsSeen + |groups[rg]| <= offset {
        NothingToRead(part, groups[rg], offset, limit);
      } else {
        var skipInGroup := if offset - rowsSeen < 0 then 0 else offset - rowsSeen;
        var want, remaining := limit - rowsOutput, |groups[rg]| - skipInGroup;
        if want > remaining { want := remaining; }
        var batch := ReadGroup(groups[rg], skipInGroup, want);
        SliceWithin(groups[rg], skipInGroup, want, limit - rowsOutput);
        MulMonotone(rowsOutput + |batch|, limit, numCols);
        StoreBatch(cells, dstCol, numCols, out, rowsOutput, batch);
        out, rowsOutput := out + batch, rowsOutput + |batch|;
      }
      rowsSeen := rowsSeen + |groups[rg]|;
      rg := rg + 1;
    }
    FlattenPrefix(groups, rg);
    SliceOfPrefix(Flatten(groups[..rg]), Flatten(groups), offset, limit);
    assert rg == |groups| ==> groups[..rg] == groups;
  }

  lemma StartSlice<T>(groups: seq<seq<T>>, offset: nat, limit: nat, cells: seq<T>, col: nat, numCols: nat)
    requires col < numCols
    ensures Flatten(groups[..0]) == [] && Slice(Flatten(groups[..0]), offset, limit) == []
    ensures ColumnHolds(cells, col, numCols, [])
  {
  }

  lemma NothingToRead<T>(p: seq<T>, g: seq<T>, offset: nat, limit: nat)
    requires |p| + |g| <= offset
    ensures Slice(p + g, offset, limit) == Slice(p, offset, limit) == []
  {
  }

  /** Wanting no more than is left in the group changes nothing. */
  lemma SliceWithin<T>(s: seq<T>, skip: nat, want: nat, limit: nat)
    requires skip <= |s| && want == Min(limit, |s| - skip)
    ensures Slice(s, skip, want) == Slice(s, skip, limit) && |Slice(s, skip, limit)| <= limit
  {
  }

  /** read_rows: every selected column, sliced alike, in its place in the matrix. */
  method ReadRows<T>(columns: seq<seq<seq<T>>>, offset: nat, limit: nat, cells: array<T>) returns (produced: nat)
    requires columns != [] && limit * |columns| <= cells.Length
    modifies cells
    ensures forall c | 0 <= c < |columns| ::
              ColumnHolds(cells[..], c, |columns|, Slice(Flatten(columns[c]), offset, limit))
    ensures forall c | 0 <= c < |columns| :: |Slice(Flatten(columns[c]), offset, limit)| <= produced
    ensures exists c | 0 <= c < |columns| :: |Slice(Flatten(columns[c]), offset, limit)| == produced
  {
    hide ColumnHolds, Slice, Flatten;
    produced := 0;
    for i := 0 to |columns|
      invariant forall c | 0 <= c < i :: ColumnHolds(cells[..], c, |columns|, Slice(Flatten(columns[c]), offset, limit))
      invariant forall c | 0 <= c < i :: |Slice(Flatten(columns[c]), offset, limit)| <= produced
      invariant if i == 0 then produced == 0
                else exists c | 0 <= c < i :: |Slice(Flatten(columns[c]), offset, limit)| == produced
    {
      ghost var before := cells[..];
      var n := ReadColumnStrings(columns[i], offset, limit, cells, |columns|, i);
      if n > produced { produced := n; }
      forall c | 0 <= c < i
        ensures ColumnHolds(cells[..], c, |columns|, Slice(Flatten(columns[c]), offset, limit))
      {
        HoldsStill(before, cells[..], c, i, |columns|, Slice(Flatten(columns[c]), offset, limit));
      }
    }
  }

  lemma HoldsStill<T>(was: seq<T>, now: seq<T>, c: nat, written: nat, numCols: nat, values: seq<T>)
    requires c < numCols && written < numCols && c != written
    requires ColumnHolds(was, c, numCols, values) && SameElsewhere(was, now, written, numCols)
    ensures ColumnHolds(now, c, numCols, values)
  {
    hide CellAt, Remainder;
    forall r | 0 <= r < |values| ensures now[CellAt(r, c, numCols)] == values[r] {
      CellUnique(r, c, numCols, r + 1);
    }
  }

  // ---- the options of cat and export ----

  /** Whether --offset and --limit ask for row `r`: a negative limit is none. */
  predicate IsAsked(r: nat, optOffset: int, optLimit: int)
  {
    optOffset <= r && (optLimit < 0 || r < Start(optOffset) + optLimit)
  }

  function Start(optOffset: int): nat
  {
    if optOffset < 0 then 0 else optOffset
  }

  predicate Between(r: nat, offset: nat, limit: nat)
  {
    offset <= r < offset + limit
  }

  /** The rows asked for, as far as there are any. */
  function Asked<T>(rows: seq<T>, optOffset: int, optLimit: int): seq<T>
  {
    Slice(rows, Start(optOffset), if optLimit < 0 then |rows| else optLimit)
  }

  /** Row by row: from the offset, or from the first for a negative one, for as many as the limit says,
      or for all there are when it is negative. */
  lemma AskedRows<T>(rows: seq<T>, optOffset: int, optLimit: int)
    ensures forall i | 0 <= i < |Asked(rows, optOffset, optLimit)| ::
              Asked(rows, optOffset, optLimit)[i] == rows[if optOffset < 0 then i else optOffset + i]
    ensures optOffset >= |rows| ==> Asked(rows, optOffset, optLimit) == []
    ensures optOffset < |rows| ==>
              var left := if optOffset < 0 then |rows| else |rows| - optOffset;
              |Asked(rows, optOffset, optLimit)| == if optLimit < 0 || optLimit > left then left else optLimit
  {
  }

  /** A range of rows that are there selects what is asked for if it has just the rows that are. */
  lemma ClampedSlice<T>(rows: seq<T>, optOffset: int, optLimit: int, offset: nat, limit: nat)
    requires offset + limit <= |rows|
    requires forall r: nat | r < |rows| :: Between(r, offset, limit) <==> IsAsked(r, optOffset, optLimit)
    ensures Slice(rows, offset, limit) == Asked(rows, optOffset, optLimit)
  {
    var start := Start(optOffset);
    if limit > 0 {
      assert Between(offset, offset, limit) && Between(offset + limit - 1, offset, limit);
      assert offset > 0 ==> !Between(offset - 1, offset, limit);
      assert offset == start;
      assert offset + limit < |rows| ==> !Between(offset + limit, offset, limit);
    } else if start < |rows| {
      assert !Between(start, offset, limit);
    }
  }

  /** The clamping in cmd_cat and cmd_export: what is left are rows that are there, and no row that
      was asked for is lost. */
  method ClampSlice(total: nat, optOffset: int, optLimit: int) returns (offset: nat, limit: nat)
    ensures offset + limit <= total
    ensures forall r: nat | r < total :: Between(r, offset, limit) <==> IsAsked(r, optOffset, optLimit)
  {
    offset := if optOffset < 0 then 0 else optOffset;
    if offset > total { offset := total; }
    limit := if optLimit < 0 then total - offset else optLimit;
    if limit > total - offset { limit := total - offset; }
  }

  /** The matrix that cmd_cat prints, and cmd_export below its header: in every selected column
      exactly the rows that were asked for. */
  method ReadSelected<T>(columns: seq<seq<seq<Option<T>>>>, total: nat, optOffset: int, optLimit: int)
    returns (cells: array<Option<T>>, numRows: nat)
    requires forall c | 0 <= c < |columns| :: |Flatten(columns[c])| == total
    ensures fresh(cells) && numRows * |columns| <= cells.Length
    ensures forall c | 0 <= c < |columns| :: numRows == |Asked(Flatten(columns[c]), optOffset, optLimit)|
    ensures forall c | 0 <= c < |columns| ::
              ColumnHolds(cells[..], c, |columns|, Asked(Flatten(columns[c]), optOffset, optLimit))
  {
    hide ColumnHolds, Slice, Flatten, Asked, Between, IsAsked;
    var offset, limit := ClampSlice(total, optOffset, optLimit);
    forall c | 0 <= c < |columns|
      ensures Slice(Flatten(columns[c]), offset, limit) == Asked(Flatten(columns[c]), optOffset, optLimit)
      ensures |Slice(Flatten(columns[c]), offset, limit)| == limit
    {
      ClampedSlice(Flatten(columns[c]), optOffset, optLimit, offset, limit);
      SliceInside(Flatten(columns[c]), offset, limit);
    }
    cells, numRows := new Option<T>[limit * |columns|](_ => None), 0;
    if limit <= 0 || |columns| == 0 {
      forall c | 0 <= c < |columns|
        ensures ColumnHolds(cells[..], c, |columns|, Asked(Flatten(columns[c]), optOffset, optLimit))
      {
        HoldsNothing(cells[..], c, |columns|, Asked(Flatten(columns[c]), optOffset, optLimit));
      }
      return;
    }
    numRows := ReadRows(columns, offset, limit, cells);
  }

  lemma SliceInside<T>(s: seq<T>, offset: nat, limit: nat)
    requires offset + limit <= |s|
    ensures |Slice(s, offset, limit)| == limit
  {
  }

  lemma HoldsNothing<T>(cells: seq<T>, c: nat, numCols: nat, values: seq<T>)
    requires c < numCols && |values| == 0
    ensures ColumnHolds(cells, c, numCols, values)
  {
  }

  // ---- tail ----

  /** One column of tail: `n` rows from `skipRows` on. */
  method TailColumn<T>(groups: seq<seq<T>>, skipRows: nat, n: nat) returns (out: seq<T>)
    ensures out == Slice(Flatten(groups), skipRows, n)
  {
    hide Slice, Flatten;
    var rowsSeen, rg := 0, 0;
    out := [];
    assert Flatten(groups[..0]) == [] by { FlattenNothing(groups[..0]); }
    NothingToRead([], Flatten(groups[..0]), skipRows, n);
    assert [] + Flatten(groups[..0]) == Flatten(groups[..0]);
    while rg < |groups| && |out| < n
      invariant rg <= |groups| && rowsSeen == |Flatten(groups[..rg])|
      invariant out == Slice(Flatten(groups[..rg]), skipRows, n) && |out| <= n
      decreases |groups| - rg
    {
      ghost var part := Flatten(groups[..rg]);
      FlattenNext(groups, rg);
      SliceGrows(part, groups[rg], skipRows, n);
      if rowsSeen + |groups[rg]| <= skipRows {
        NothingToRead(part, groups[rg], skipRows, n);
      } else {
        var skipInGroup := if skipRows - rowsSeen < 0 then 0 else skipRows - rowsSeen;
        var batch := ReadGroup(groups[rg], skipInGroup, n - |out|);
        SliceLength(groups[rg], skipInGroup, n - |out|);
        out := out + batch;
      }
      rowsSeen := rowsSeen + |groups[rg]|;
      rg := rg + 1;
    }
    FlattenPrefix(groups, rg);
    SliceOfPrefix(Flatten(groups[..rg]), Flatten(groups), skipRows, n);
    assert rg == |groups| ==> groups[..rg] == groups;
  }

  /** The last n rows, or all of them, of every column. */
  method Tail<T>(columns: seq<seq<seq<T>>>, total: nat, n0: int) returns (cells: array<Option<T>>, numRows: nat)
    requires forall c | 0 <= c < |columns| :: |Flatten(columns[c])| == total
    ensures fresh(cells) && numRows == if n0 > total then total else if n0 < 0 then 0 else n0
    ensures forall c | 0 <= c < |columns| ::
              ColumnHolds(cells[..], c, |columns|, Filled(Flatten(columns[c])[total - numRows..]))
  {
    hide ColumnHolds, Slice, Flatten;
    numRows := if n0 > total then total else if n0 <= 0 then 0 else n0;
    cells := new Option<T>[numRows * |columns|](_ => None);
    forall c | 0 <= c < |columns|
      ensures Slice(Flatten(columns[c]), total - numRows, numRows) == Flatten(columns[c])[total - numRows..]
    {
      LastRows(Flatten(columns[c]), numRows);
    }
    for c := 0 to |columns|
      invariant forall i | 0 <= i < c ::
                  ColumnHolds(cells[..], i, |columns|, Filled(Flatten(columns[i])[total - numRows..]))
    {
      var out := TailColumn(columns[c], total - numRows, numRows);
      ghost var before := cells[..];
      AddCells(cells, c, |columns|, Filled(out));
      forall i | 0 <= i < c
        ensures ColumnHolds(cells[..], i, |columns|, Filled(Flatten(columns[i])[total - numRows..]))
      {
        HoldsStill(before, cells[..], i, c, |columns|, Filled(Flatten(columns[i])[total - numRows..]));
      }
    }
  }

  /** Values as the cells they fill. */
  function Filled<T>(values: seq<T>): (r: seq<Option<T>>)
    ensures |r| == |values| && forall k | 0 <= k < |r| :: r[k] == Some(values[k])
  {
    seq(|values|, k requires 0 <= k < |values| => Some(values[k]))
  }

  /** table_add_cell, for the cells of a column from the first row on. */
  method AddCells<T>(cells: array<T>, col: nat, numCols: nat, values: seq<T>)
    requires col < numCols && |values| * numCols <= cells.Length
    modifies cells
    ensures ColumnHolds(cells[..], col, numCols, values)
    ensures SameElsewhere(old(cells[..]), cells[..], col, numCols)
  {
    hide ColumnHolds;
    HoldsNothing(cells[..], col, numCols, []);
    StoreBatch(cells, col, numCols, [], 0, values);
    assert [] + values == values;
  }

  lemma FlattenNothing<T>(groups: seq<seq<T>>)
    requires groups == []
    ensures Flatten(groups) == []
  {
  }

  lemma SliceLength<T>(s: seq<T>, offset: nat, limit: nat)
    ensures |Slice(s, offset, limit)| <= limit
  {
  }

  lemma LastRows<T>(rows: seq<T>, n: nat)
    requires n <= |rows|
    ensures Slice(rows, |rows| - n, n) == rows[|rows| - n..]
  {
  }

  // ---- sample ----

  predicate Ascending(a: seq<int>)
  {
    forall i, j | 0 <= i < j < |a| :: a[i] <= a[j]
  }

  predicate StrictlyAscending(a: seq<int>)
  {
    forall i, j | 0 <= i < j < |a| :: a[i] < a[j]
  }

  /** The in-place removal of duplicates from the sorted indices. */
  method RemoveDuplicates(indices: array<int>, n: nat) returns (unique: nat)
    requires 1 <= n <= indices.Length && Ascending(indices[..n])
    modifies indices
    ensures 1 <= unique <= n && StrictlyAscending(indices[..unique])
    ensures forall i, j | 0 <= i < j < unique :: indices[i] < indices[j]
    ensures forall x :: x in indices[..unique] <==> x in old(indices[..n])
    ensures indices[n..] == old(indices[n..])
  {
    unique := 1;
    ghost var was := indices[..];
    assert was[..n] == indices[..n];
    for i := 1 to n
      invariant 1 <= unique <= i
      invariant forall k | i <= k < indices.Length :: indices[k] == was[k]
      invariant StrictlyAscending(indices[..unique]) && indices[unique - 1] == was[i - 1]
      invariant forall x :: x in indices[..unique] <==> x in was[..i]
    {
      ghost var kept := indices[..unique];
      assert was[..i + 1] == was[..i] + [was[i]];
      assert was[i - 1] == was[..n][i - 1] && was[i] == was[..n][i];
      if indices[i] != indices[unique - 1] {
        indices[unique] := indices[i];
        unique := unique + 1;
        assert indices[..unique] == kept + [was[i]];
      }
    }
    ghost var kept := indices[..unique];
    forall i, j | 0 <= i < j < unique ensures indices[i] < indices[j] {
      assert kept[i] < kept[j];
    }
  }

  /** The cursor of cmd_sample over one column. */
  method SampleColumn<T>(groups: seq<seq<T>>, indices: seq<int>) returns (out: seq<Option<T>>)
    requires StrictlyAscending(indices)
    requires forall k | 0 <= k < |indices| :: 0 <= indices[k] < |Flatten(groups)|
    ensures |out| == |indices|
    ensures forall k | 0 <= k < |indices| :: out[k] == Some(Flatten(groups)[indices[k]])
  {
    hide Flatten;
    var rgRowStart, rg := 0, 0;
    out := [];
    assert Flatten(groups[..0]) == [] by { FlattenNothing(groups[..0]); }
    while rg < |groups| && |out| < |indices|
      invariant rg <= |groups| && rgRowStart == |Flatten(groups[..rg])| && |out| <= |indices|
      invariant |out| < |indices| ==> indices[|out|] >= rgRowStart
      invariant forall k | 0 <= k < |out| :: out[k] == Some(Flatten(groups)[indices[k]])
      decreases |groups| - rg
    {
      FlattenNext(groups, rg);
      FlattenPrefix(groups, rg + 1);
      var rgRowEnd := rgRowStart + |groups[rg]|;
      if indices[|out|] < rgRowEnd {
        var cells := SampleGroup(groups[rg], rgRowStart, indices, |out|);
        forall k | |out| <= k < |out| + |cells|
          ensures cells[k - |out|] == Some(Flatten(groups)[indices[k]])
        {
          assert Flatten(groups)[indices[k]] == Flatten(groups[..rg + 1])[indices[k]];
        }
        out := out + cells;
      }
      rgRowStart := rgRowEnd;
      rg := rg + 1;
    }
    assert rg == |groups| ==> groups[..rg] == groups;
  }

  /** The sampled rows of one group: skip forward to each, and read one value. */
  method SampleGroup<T>(group: seq<T>, rgRowStart: nat, indices: seq<int>, first: nat) returns (cells: seq<Option<T>>)
    requires StrictlyAscending(indices) && first < |indices| && rgRowStart <= indices[first]
    ensures first + |cells| <= |indices|
    ensures forall k | first <= k < first + |cells| ::
              0 <= indices[k] - rgRowStart < |group| && cells[k - first] == Some(group[indices[k] - rgRowStart])
    ensures first + |cells| < |indices| ==> indices[first + |cells|] >= rgRowStart + |group|
  {
    var col := new ColumnReader(group);
    var posInRg, sampleIdx := 0, first;
    cells := [];
    while sampleIdx < |indices| && indices[sampleIdx] < rgRowStart + |group|
      invariant sampleIdx == first + |cells| <= |indices| && fresh(col)
      invariant col.Valid() && col.pos == posInRg && col.rows == group
      invariant sampleIdx < |indices| ==> indices[sampleIdx] >= rgRowStart + posInRg
      invariant forall k | first <= k < sampleIdx ::
                  0 <= indices[k] - rgRowStart < |group| && cells[k - first] == Some(group[indices[k] - rgRowStart])
    {
      var skip := indices[sampleIdx] - rgRowStart - posInRg;
      if skip > 0 {
        col.Skip(skip);
        posInRg := posInRg + skip;
      }
      var got := col.ReadBatch(1);
      posInRg := posInRg + 1;
      cells := cells + [if |got| <= 0 then None else Some(got[0])];
      sampleIdx := sampleIdx + 1;
    }
  }

  /** The rows with these numbers. */
  function Picked<T>(rows: seq<T>, indices: seq<int>): (r: seq<Option<T>>)
    requires forall k | 0 <= k < |indices| :: 0 <= indices[k] < |rows|
    ensures |r| == |indices| && forall k | 0 <= k < |r| :: r[k] == Some(rows[indices[k]])
  {
    seq(|indices|, k requires 0 <= k < |indices| => Some(rows[indices[k]]))
  }

  /** The column loop of cmd_sample. */
  method SampleColumns<T>(columns: seq<seq<seq<T>>>, total: nat, indices: seq<int>) returns (cells: array<Option<T>>)
    requires StrictlyAscending(indices) && forall k | 0 <= k < |indices| :: 0 <= indices[k] < total
    requires forall c | 0 <= c < |columns| :: |Flatten(columns[c])| == total
    ensures fresh(cells)
    ensures forall c | 0 <= c < |columns| ::
              ColumnHolds(cells[..], c, |columns|, Picked(Flatten(columns[c]), indices))
  {
    hide ColumnHolds, Flatten, StrictlyAscending;
    cells := new Option<T>[|indices| * |columns|](_ => None);
    for c := 0 to |columns|
      invariant forall i | 0 <= i < c :: ColumnHolds(cells[..], i, |columns|, Picked(Flatten(columns[i]), indices))
    {
      var out := SampleColumn(columns[c], indices);
      ghost var before := cells[..];
      AddCells(cells, c, |columns|, out);
      forall i | 0 <= i < c ensures ColumnHolds(cells[..], i, |columns|, Picked(Flatten(columns[i]), indices)) {
        HoldsStill(before, cells[..], i, c, |columns|, Picked(Flatten(columns[i]), indices));
      }
      assert out == Picked(Flatten(columns[c]), indices);
    }
  }

  /** The sorted random indices lose their duplicates, and row k of the table is row indices[k] of
      every column, whatever the row groups. */
  method Sample<T>(columns: seq<seq<seq<T>>>, total: nat, indices: array<int>, n: nat)
    returns (cells: array<Option<T>>, numRows: nat)
    requires 1 <= n <= indices.Length && Ascending(indices[..n])
    requires forall c | 0 <= c < |columns| :: |Flatten(columns[c])| == total
    requires forall x | x in indices[..n] :: 0 <= x < total
    modifies indices
    ensures fresh(cells) && 1 <= numRows <= n && forall i, j | 0 <= i < j < numRows :: indices[i] < indices[j]
    ensures forall x :: x in indices[..numRows] <==> x in old(indices[..n])
    ensures forall k | 0 <= k < numRows :: 0 <= indices[k] < total
    ensures forall c | 0 <= c < |columns| ::
              ColumnHolds(cells[..], c, |columns|, Picked(Flatten(columns[c]), indices[..numRows]))
  {
    hide ColumnHolds, Flatten;
    numRows := RemoveDuplicates(indices, n);
    var kept := indices[..numRows];
    assert forall k | 0 <= k < numRows :: kept[k] in kept;
    cells := SampleColumns(columns, total, kept);
  }
}
