/** The "Data Summary" counts, the value-count tables and the tail view: pure
    aggregates of the table the dashboard shows. */
module Summary {
  import opened Tables
  import opened Ranking
  import opened MissingAnalysis

  // ---------------------------------------------------------------------
  // Rows
  // ---------------------------------------------------------------------

  /** Row `i`: the cell of every column at that position. */
  function Row(t: Table, i: nat): (r: seq<Cell>)
    requires WellFormed(t) && i < Rows(t)
    ensures |r| == |t.columns|
    ensures forall j :: 0 <= j < |t.columns| ==> r[j] == t.columns[j].cells[i]
  {
    seq(|t.columns|, j requires 0 <= j < |t.columns| => t.columns[j].cells[i])
  }

  function RowsOf(t: Table): (rs: seq<seq<Cell>>)
    requires WellFormed(t)
    ensures |rs| == Rows(t)
    ensures forall i :: 0 <= i < Rows(t) ==> rs[i] == Row(t, i)
  {
    seq(Rows(t), i requires 0 <= i < Rows(t) => Row(t, i))
  }

  // ---------------------------------------------------------------------
  // Missing values over the whole table
  // ---------------------------------------------------------------------

  /** `isnull().sum().sum()`: the null cells of every column together. */
  function TotalMissing(cs: seq<Column>): nat
  {
    if cs == [] then 0 else NullCount(cs[0].cells) + TotalMissing(cs[1..])
  }

  lemma {:induction false} TotalMissingEntries(cs: seq<Column>, rows: nat)
    ensures TotalMissing(cs) == KeySum(Entries(cs, rows), Count)
  {
    if cs != [] {
      TotalMissingEntries(cs[1..], rows);
      assert Entries(cs, rows)[1..] == Entries(cs[1..], rows);
    }
  }

  /** Dropping the zero entries keeps the sum of the counts. */
  lemma {:induction false} PositiveKeySum(es: seq<MissingEntry>)
    ensures KeySum(Positive(es), Count) == KeySum(es, Count)
  {
    if es != [] {
      PositiveKeySum(es[1..]);
      if es[0].count > 0 {
        assert Positive(es)[1..] == Positive(es[1..]);
      } else {
        assert Positive(es) == Positive(es[1..]);
      }
    }
  }

  /** The missing total is the sum of the per-column report, and also of the
      "needs fixing" view, which leaves out only zero counts. */
  lemma TotalMissingIsReportSum(t: Table)
    requires WellFormed(t)
    ensures TotalMissing(t.columns) == KeySum(MissingReport(t), Count)
    ensures TotalMissing(t.columns) == KeySum(MissingToFix(t), Count)
  {
    TotalMissingEntries(t.columns, Rows(t));
    PositiveKeySum(MissingReport(t));
    SortDescKeySum(Positive(MissingReport(t)), Count);
  }

  /** The total is zero exactly when no column has a null, and never more
      than the number of cells. */
  lemma {:induction false} TotalMissingRange(cs: seq<Column>, rows: nat)
    requires forall j :: 0 <= j < |cs| ==> |cs[j].cells| == rows
    ensures TotalMissing(cs) <= |cs| * rows
    ensures TotalMissing(cs) == 0 <==> forall j :: 0 <= j < |cs| ==> !HasMissing(cs[j])
  {
    if cs != [] {
      TotalMissingRange(cs[1..], rows);
      assert forall j :: 1 <= j < |cs| ==> cs[j] == cs[1..][j - 1];
      assert NullCount(cs[0].cells) <= rows;
      MulStep(|cs|, rows);
      assert NullCount(cs[0].cells) == 0 ==> !HasMissing(cs[0]);
    }
  }

  // ---------------------------------------------------------------------
  // Duplicate rows
  // ---------------------------------------------------------------------

  /** `duplicated()`: row `i` is marked when some earlier row equals it. */
  function Duplicated<T(==)>(rs: seq<T>): seq<bool>
  {
    seq(|rs|, i requires 0 <= i < |rs| => rs[i] in rs[..i])
  }

  function Trues(d: seq<bool>): nat
  {
    if d == [] then 0 else Trues(d[..|d| - 1]) + (if d[|d| - 1] then 1 else 0)
  }

  /** `duplicated()` marks of a sequence of rows, summed. */
  function DuplicateRows<T(==)>(rs: seq<T>): nat
  {
    Trues(Duplicated(rs))
  }

  /** Every row is either the first of its kind or a duplicate: the duplicate
      count and the number of distinct rows add up to the row count. */
  lemma {:induction false} DuplicatesAndDistinct<T>(rs: seq<T>)
    ensures DuplicateRows(rs) + |set r | r in rs| == |rs|
  {
    if rs != [] {
      var init := rs[..|rs| - 1];
      var x := rs[|rs| - 1];
      DuplicatesAndDistinct(init);
      assert rs == init + [x];
      assert Duplicated(rs)[..|rs| - 1] == Duplicated(init) by {
        forall i | 0 <= i < |init| ensures rs[..i] == init[..i] { }
      }
      var before := set r | r in init;
      assert (set r | r in rs) == before + {x};
      if x !in before {
        assert |before + {x}| == |before| + 1;
      } else {
        assert before + {x} == before;
      }
    }
  }

  lemma DuplicateRowsBound<T>(rs: seq<T>)
    ensures rs != [] ==> DuplicateRows(rs) < |rs|
  {
    DuplicatesAndDistinct(rs);
    if rs != [] {
      assert {rs[0]} <= (set r | r in rs);
      assert |{rs[0]}| == 1;
    }
  }

  // ---------------------------------------------------------------------
  // Column kinds
  // ---------------------------------------------------------------------

  /** Number of columns whose kind is in `ks`. */
  function CountKinds(cs: seq<Column>, ks: set<Kind>): nat
  {
    if cs == [] then 0 else (if cs[0].kind in ks then 1 else 0) + CountKinds(cs[1..], ks)
  }

  /** `select_dtypes(include=np.number)`. */
  function NumericColumns(t: Table): nat { CountKinds(t.columns, {Numeric}) }

  /** `select_dtypes(include="object")`. */
  function ObjectColumns(t: Table): nat { CountKinds(t.columns, {Text, Mixed}) }

  lemma {:induction false} CountKindsUnion(cs: seq<Column>, a: set<Kind>, b: set<Kind>)
    requires a !! b
    ensures CountKinds(cs, a) + CountKinds(cs, b) == CountKinds(cs, a + b)
  {
    if cs != [] {
      CountKindsUnion(cs[1..], a, b);
    }
  }

  lemma {:induction false} CountKindsAll(cs: seq<Column>, ks: set<Kind>)
    ensures CountKinds(cs, ks) <= |cs|
    ensures CountKinds(cs, ks) == |cs| <==> forall j :: 0 <= j < |cs| ==> cs[j].kind in ks
  {
    if cs != [] {
      CountKindsAll(cs[1..], ks);
      assert forall j :: 1 <= j < |cs| ==> cs[j] == cs[1..][j - 1];
    }
  }

  /** The numeric and the object columns are disjoint, so together they are at
      most all columns, and exactly all when no column is of another kind. */
  lemma KindCounts(t: Table)
    ensures NumericColumns(t) + ObjectColumns(t) <= |t.columns|
    ensures NumericColumns(t) + ObjectColumns(t) == |t.columns| <==>
      forall j :: 0 <= j < |t.columns| ==> t.columns[j].kind != Other
  {
    CountKindsUnion(t.columns, {Numeric}, {Text, Mixed});
    CountKindsAll(t.columns, {Numeric, Text, Mixed});
    assert {Numeric} + {Text, Mixed} == {Numeric, Text, Mixed};
  }

  // ---------------------------------------------------------------------
  // The "Data Summary" table
  // ---------------------------------------------------------------------

  /** `df.duplicated().sum()`: pandas returns no marks at all for an empty
      frame, and a frame without columns is empty whatever its row count. */
  function DuplicateCount(t: Table): nat
    requires WellFormed(t)
  {
    if |t.columns| == 0 then 0 else DuplicateRows(RowsOf(t))
  }

  datatype DataSummary = DataSummary(
    rows: nat, columns: nat, missing: nat, duplicates: nat, numeric: nat, objects: nat)

  function Summarize(t: Table): DataSummary
    requires WellFormed(t)
  {
    DataSummary(Rows(t), |t.columns|, TotalMissing(t.columns), DuplicateCount(t),
                NumericColumns(t), ObjectColumns(t))
  }

  /** What the summary reports: the missing total is the sum of the report's
      counts and fits in the table; duplicates and distinct rows make up the
      rows, except that a table without columns has no duplicates; numeric
      and object columns are at most all columns. */
  lemma SummaryFacts(t: Table)
    requires WellFormed(t)
    ensures var s := Summarize(t);
      && s.rows == Rows(t) && s.columns == |t.columns|
      && s.missing == KeySum(MissingReport(t), Count)
      && s.missing <= s.rows * s.columns
      && (s.columns > 0 ==> s.duplicates + |set r | r in RowsOf(t)| == s.rows)
      && (s.columns == 0 ==> s.duplicates == 0)
      && (s.rows > 0 ==> s.duplicates < s.rows)
      && s.numeric + s.objects <= s.columns
  {
    TotalMissingIsReportSum(t);
    TotalMissingRange(t.columns, Rows(t));
    assert |t.columns| * Rows(t) == Rows(t) * |t.columns|;
    DuplicatesAndDistinct(RowsOf(t));
    DuplicateRowsBound(RowsOf(t));
    KindCounts(t);
  }

  // ---------------------------------------------------------------------
  // Value counts
  // ---------------------------------------------------------------------

  datatype ValueCount = ValueCount(value: Cell, count: nat)

  function Tallied(e: ValueCount): nat { e.count }

  /** The distinct cells, null included, in order of first occurrence. */
  function DistinctCells(cells: seq<Cell>): (d: seq<Cell>)
    ensures forall c :: c in d <==> c in cells
    ensures forall a, b :: 0 <= a < b < |d| ==> d[a] != d[b]
  {
    if cells == [] then []
    else
      var init := cells[..|cells| - 1];
      var x := cells[|cells| - 1];
      assert cells == init + [x];
      if x in init then DistinctCells(init) else DistinctCells(init) + [x]
  }

  function Tally(cells: seq<Cell>, d: seq<Cell>): (r: seq<ValueCount>)
    ensures |r| == |d|
    ensures forall k :: 0 <= k < |d| ==> r[k] == ValueCount(d[k], Occurrences(cells, d[k]))
  {
    if d == [] then [] else [ValueCount(d[0], Occurrences(cells, d[0]))] + Tally(cells, d[1..])
  }

  /** `value_counts(dropna=False)`: one entry per distinct cell, null
      included, with its number of occurrences, most frequent first. */
  function ValueCounts(cells: seq<Cell>): seq<ValueCount>
  {
    SortDesc(Tally(cells, DistinctCells(cells)), Tallied)
  }

  lemma {:induction false} TallyAppend(cells: seq<Cell>, x: Cell, d: seq<Cell>)
    requires forall a, b :: 0 <= a < b < |d| ==> d[a] != d[b]
    ensures KeySum(Tally(cells + [x], d), Tallied) == KeySum(Tally(cells, d), Tallied) + (if x in d then 1 else 0)
  {
    if d != [] {
      assert (cells + [x])[..|cells + [x]| - 1] == cells;
      assert forall a, b :: 0 <= a < b < |d[1..]| ==> d[1..][a] != d[1..][b] by {
        forall a, b | 0 <= a < b < |d[1..]| ensures d[1..][a] != d[1..][b] {
          assert d[1..][a] == d[a + 1] && d[1..][b] == d[b + 1];
        }
      }
      TallyAppend(cells, x, d[1..]);
      assert x in d <==> x == d[0] || x in d[1..];
      assert d[0] == x ==> x !in d[1..] by {
        forall k | 0 <= k < |d[1..]| ensures d[1..][k] != d[0] {
          assert d[1..][k] == d[k + 1];
        }
      }
    }
  }

  lemma {:induction false} TallyExtend(cells: seq<Cell>, d: seq<Cell>, y: Cell)
    ensures KeySum(Tally(cells, d + [y]), Tallied) == KeySum(Tally(cells, d), Tallied) + Occurrences(cells, y)
  {
    if d != [] {
      assert (d + [y])[1..] == d[1..] + [y];
      TallyExtend(cells, d[1..], y);
    } else {
      assert Tally(cells, [y])[1..] == [];
    }
  }

  /** The occurrences of the distinct cells add up to the number of cells. */
  lemma {:induction false} TallyTotal(cells: seq<Cell>)
    ensures KeySum(Tally(cells, DistinctCells(cells)), Tallied) == |cells|
  {
    if cells != [] {
      var init := cells[..|cells| - 1];
      var x := cells[|cells| - 1];
      assert cells == init + [x];
      var d := DistinctCells(init);
      TallyTotal(init);
      TallyAppend(init, x, d);
      if x !in init {
        TallyExtend(cells, d, x);
        if Occurrences(init, x) > 0 {
          OccurrencesPositive(init, x);
        }
      }
    }
  }

  /** A value at two positions occurs at least twice in the multiset. */
  lemma TwoPositions<T>(s: seq<T>, a: nat, b: nat)
    requires a < b < |s|
    ensures s[a] == s[b] ==> multiset(s)[s[a]] >= 2
  {
    assert s == s[..b] + [s[b]] + s[b + 1..];
    assert s[a] in s[..b];
  }

  /** In a sequence without repeats, every element occurs once. */
  lemma {:induction false} OnceEach<T>(s: seq<T>, x: T)
    requires forall a, b :: 0 <= a < b < |s| ==> s[a] != s[b]
    ensures multiset(s)[x] <= 1
  {
    if s != [] {
      assert s == [s[0]] + s[1..];
      assert forall a, b :: 0 <= a < b < |s[1..]| ==> s[1..][a] != s[1..][b] by {
        forall a, b | 0 <= a < b < |s[1..]| ensures s[1..][a] != s[1..][b] {
          assert s[1..][a] == s[a + 1] && s[1..][b] == s[b + 1];
        }
      }
      OnceEach(s[1..], x);
      assert s[0] !in s[1..] by {
        forall k | 0 <= k < |s[1..]| ensures s[1..][k] != s[0] {
          assert s[1..][k] == s[k + 1];
        }
      }
    }
  }

  /** Sorting the tally keeps its entries. */
  lemma ValueCountsSameEntries(cells: seq<Cell>)
    ensures forall e :: e in ValueCounts(cells) <==> e in Tally(cells, DistinctCells(cells))
  {
    var s := Tally(cells, DistinctCells(cells));
    var r := ValueCounts(cells);
    forall e ensures e in r <==> e in s {
      assert e in r <==> e in multiset(r);
    }
  }

  /** Each entry of the value-count table is a cell of the column with its
      number of occurrences, and every cell, null included, has its entry. */
  lemma ValueCountsEntries(cells: seq<Cell>)
    ensures var r := ValueCounts(cells);
      && (forall k :: 0 <= k < |r| ==> r[k].value in cells && r[k].count == Occurrences(cells, r[k].value) > 0)
      && (forall i :: 0 <= i < |cells| ==> ValueCount(cells[i], Occurrences(cells, cells[i])) in r)
  {
    var d := DistinctCells(cells);
    var s := Tally(cells, d);
    var r := ValueCounts(cells);
    ValueCountsSameEntries(cells);
    forall k | 0 <= k < |r| ensures r[k].value in cells && r[k].count == Occurrences(cells, r[k].value) > 0 {
      assert r[k] in s;
      var m :| 0 <= m < |s| && s[m] == r[k];
      OccurrencesCount(cells, r[k].value);
    }
    forall i | 0 <= i < |cells| ensures ValueCount(cells[i], Occurrences(cells, cells[i])) in r {
      assert cells[i] in d;
      var m :| 0 <= m < |d| && d[m] == cells[i];
      assert s[m] == ValueCount(cells[i], Occurrences(cells, cells[i]));
    }
  }

  /** No cell has two entries. */
  lemma ValueCountsDistinct(cells: seq<Cell>)
    ensures var r := ValueCounts(cells);
      forall a, b :: 0 <= a < b < |r| ==> r[a].value != r[b].value
  {
    var d := DistinctCells(cells);
    var s := Tally(cells, d);
    var r := ValueCounts(cells);
    ValueCountsEntries(cells);
    assert forall a, b :: 0 <= a < b < |s| ==> s[a] != s[b];
    forall a, b | 0 <= a < b < |r| ensures r[a].value != r[b].value {
      TwoPositions(r, a, b);
      OnceEach(s, r[a]);
    }
  }

  /** The counts add up to the number of rows, the largest count first. */
  lemma ValueCountsTotal(cells: seq<Cell>)
    ensures NonIncreasing(ValueCounts(cells), Tallied)
    ensures KeySum(ValueCounts(cells), Tallied) == |cells|
  {
    SortDescKeySum(Tally(cells, DistinctCells(cells)), Tallied);
    TallyTotal(cells);
  }

  // ---------------------------------------------------------------------
  // Combined value counts of several columns
  // ---------------------------------------------------------------------

  datatype ColumnValueCount = ColumnValueCount(column: string, value: Cell, count: nat)

  function Labelled(name: string, vs: seq<ValueCount>): (r: seq<ColumnValueCount>)
    ensures |r| == |vs|
    ensures forall k :: 0 <= k < |vs| ==> r[k] == ColumnValueCount(name, vs[k].value, vs[k].count)
  {
    if vs == [] then [] else [ColumnValueCount(name, vs[0].value, vs[0].count)] + Labelled(name, vs[1..])
  }

  function Counted(e: ColumnValueCount): nat { e.count }

  /** The combined table of the single-chart mode: the value counts of each
      selected column in turn, each entry labelled with its column. */
  function CombinedCounts(t: Table, sel: seq<string>): seq<ColumnValueCount>
    requires AllPresent(t, sel)
  {
    if sel == [] then []
    else
      assert sel[0] in sel;
      Labelled(sel[0], ValueCounts(Col(t, sel[0]).cells)) + CombinedCounts(t, sel[1..])
  }

  lemma {:induction false} KeySumConcat<T>(a: seq<T>, b: seq<T>, key: T -> nat)
    ensures KeySum(a + b, key) == KeySum(a, key) + KeySum(b, key)
  {
    if a != [] {
      assert (a + b)[0] == a[0] && (a + b)[1..] == a[1..] + b;
      KeySumConcat(a[1..], b, key);
    } else {
      assert a + b == b;
    }
  }

  lemma {:induction false} LabelledSum(name: string, vs: seq<ValueCount>)
    ensures KeySum(Labelled(name, vs), Counted) == KeySum(vs, Tallied)
  {
    if vs != [] {
      LabelledSum(name, vs[1..]);
      assert Labelled(name, vs)[1..] == Labelled(name, vs[1..]);
    }
  }

  lemma MulStep(n: nat, m: nat)
    requires n > 0
    ensures n * m == m + (n - 1) * m
  {
  }

  /** Each selected column contributes its rows once: the combined counts add
      up to the number of selected columns times the number of rows. */
  lemma {:induction false} CombinedCountsTotal(t: Table, sel: seq<string>)
    requires WellFormed(t) && AllPresent(t, sel)
    ensures KeySum(CombinedCounts(t, sel), Counted) == |sel| * Rows(t)
  {
    if sel != [] {
      PresentTail(t, sel);
      assert sel[0] in sel;
      var c := Col(t, sel[0]);
      var vs := ValueCounts(c.cells);
      CombinedCountsTotal(t, sel[1..]);
      ValueCountsTotal(c.cells);
      assert ColumnFits(c, Rows(t));
      LabelledSum(sel[0], vs);
      KeySumConcat(Labelled(sel[0], vs), CombinedCounts(t, sel[1..]), Counted);
      MulStep(|sel|, Rows(t));
    }
  }

  /** Every entry of the combined table counts a cell of a selected column. */
  lemma {:induction false} CombinedCountsEntries(t: Table, sel: seq<string>)
    requires AllPresent(t, sel)
    ensures forall e :: e in CombinedCounts(t, sel) ==>
      && e.column in sel
      && e.count == Occurrences(Col(t, e.column).cells, e.value) > 0
  {
    if sel != [] {
      PresentTail(t, sel);
      assert sel[0] in sel;
      var c := Col(t, sel[0]);
      var vs := ValueCounts(c.cells);
      var head := Labelled(sel[0], vs);
      var rest := CombinedCounts(t, sel[1..]);
      CombinedCountsEntries(t, sel[1..]);
      ValueCountsEntries(c.cells);
      assert CombinedCounts(t, sel) == head + rest;
      forall e | e in head
        ensures e.column in sel && e.count == Occurrences(Col(t, e.column).cells, e.value) > 0
      {
        var k :| 0 <= k < |head| && head[k] == e;
        assert e == ColumnValueCount(sel[0], vs[k].value, vs[k].count);
        assert sel[0] in sel;
      }
      assert forall n :: n in sel[1..] ==> n in sel;
    }
  }

  /** Every cell of a selected column has its entry, labelled with that
      column and carrying its number of occurrences. */
  lemma {:induction false} CombinedCountsComplete(t: Table, sel: seq<string>)
    requires AllPresent(t, sel)
    ensures forall n, i :: n in sel && 0 <= i < |Col(t, n).cells| ==>
      var c := Col(t, n).cells[i];
      ColumnValueCount(n, c, Occurrences(Col(t, n).cells, c)) in CombinedCounts(t, sel)
  {
    if sel != [] {
      PresentTail(t, sel);
      assert sel[0] in sel;
      var cells := Col(t, sel[0]).cells;
      var vs := ValueCounts(cells);
      var head := Labelled(sel[0], vs);
      CombinedCountsComplete(t, sel[1..]);
      ValueCountsEntries(cells);
      assert CombinedCounts(t, sel) == head + CombinedCounts(t, sel[1..]);
      forall i | 0 <= i < |cells|
        ensures ColumnValueCount(sel[0], cells[i], Occurrences(cells, cells[i])) in head
      {
        var k :| 0 <= k < |vs| && vs[k] == ValueCount(cells[i], Occurrences(cells, cells[i]));
        assert head[k] == ColumnValueCount(sel[0], cells[i], Occurrences(cells, cells[i]));
      }
    }
  }

  /** Every entry of the combined table is labelled with a selected column. */
  lemma CombinedCountsColumns(t: Table, sel: seq<string>)
    requires AllPresent(t, sel)
    ensures forall e :: e in CombinedCounts(t, sel) ==> e.column in sel
  {
    CombinedCountsEntries(t, sel);
  }

  /** No (column, value) pair has two entries. */
  predicate PairsDistinct(r: seq<ColumnValueCount>)
  {
    forall a, b :: 0 <= a < b < |r| ==> r[a].column != r[b].column || r[a].value != r[b].value
  }

  /** One column's labelled counts followed by entries of other columns keep
      every (column, value) pair single. */
  lemma PairsDistinctAppend(name: string, vs: seq<ValueCount>, rest: seq<ColumnValueCount>)
    requires forall a, b :: 0 <= a < b < |vs| ==> vs[a].value != vs[b].value
    requires forall e :: e in rest ==> e.column != name
    requires PairsDistinct(rest)
    ensures PairsDistinct(Labelled(name, vs) + rest)
  {
    var head := Labelled(name, vs);
    var r := head + rest;
    forall a, b | 0 <= a < b < |r|
      ensures r[a].column != r[b].column || r[a].value != r[b].value
    {
      if b < |head| {
        assert r[a] == head[a] && r[b] == head[b];
      } else if a < |head| {
        assert r[a] == head[a];
        assert r[b] == rest[b - |head|] && r[b] in rest;
      } else {
        assert r[a] == rest[a - |head|] && r[b] == rest[b - |head|];
      }
    }
  }

  /** With no column selected twice, no (column, value) pair has two entries. */
  lemma {:induction false} CombinedCountsDistinct(t: Table, sel: seq<string>)
    requires AllPresent(t, sel) && Distinct(sel)
    ensures PairsDistinct(CombinedCounts(t, sel))
  {
    if sel != [] {
      PresentTail(t, sel);
      HeadNotInTail(sel);
      assert sel[0] in sel;
      var cells := Col(t, sel[0]).cells;
      ValueCountsDistinct(cells);
      CombinedCountsColumns(t, sel[1..]);
      CombinedCountsDistinct(t, sel[1..]);
      PairsDistinctAppend(sel[0], ValueCounts(cells), CombinedCounts(t, sel[1..]));
    }
  }

  // ---------------------------------------------------------------------
  // The tail view
  // ---------------------------------------------------------------------

  /** `tail()`: the last five rows, or all of them when there are fewer. */
  function Tail(t: Table): (r: Table)
    requires WellFormed(t)
    ensures WellFormed(r)
    ensures Rows(r) == if Rows(t) < 5 then Rows(t) else 5
    ensures r.index == t.index[Rows(t) - Rows(r)..]
    ensures Names(r.columns) == Names(t.columns)
    ensures forall j :: 0 <= j < |t.columns| ==> r.columns[j].kind == t.columns[j].kind
    ensures forall i :: 0 <= i < Rows(r) ==> Row(r, i) == Row(t, Rows(t) - Rows(r) + i)
  {
    var start := if Rows(t) < 5 then 0 else Rows(t) - 5;
    var cs := seq(|t.columns|, j requires 0 <= j < |t.columns| =>
      Column(t.columns[j].name, t.columns[j].kind, t.columns[j].cells[start..]));
    var r := Table(t.index[start..], cs);
    SameNames(cs, t.columns);
    r
  }
}
