/** The in-memory table the dashboard analyses: an ordered sequence of named,
    typed columns of equal length over a shared row index. A null cell is
    `None`. The column's `Kind` stands in for the pandas dtype. */
module Tables {

  datatype Option<+T> = None | Some(value: T)

  /** A non-null cell value. */
  datatype Value = Num(x: real) | Str(s: string)

  type Cell = Option<Value>

  /** The dtype family of a column:
      Numeric — a number dtype (`is_numeric_dtype`, `select_dtypes(np.number)`);
      Text    — a column `is_string_dtype` accepts;
      Mixed   — object dtype that `is_string_dtype` rejects;
      Other   — bool, datetime, category and the like (neither number nor object). */
  datatype Kind = Numeric | Text | Mixed | Other

  datatype Column = Column(name: string, kind: Kind, cells: seq<Cell>)

  /** `index` holds the row labels; its length is the row count even when
      every column has been dropped. */
  datatype Table = Table(index: seq<int>, columns: seq<Column>)

  function Rows(t: Table): nat { |t.index| }

  function Names(cs: seq<Column>): (r: seq<string>)
    ensures |r| == |cs|
    ensures forall j :: 0 <= j < |cs| ==> r[j] == cs[j].name
  {
    if cs == [] then [] else [cs[0].name] + Names(cs[1..])
  }

  /** Replacing columns by ones of the same names keeps the name list. */
  lemma SameNames(cs: seq<Column>, ds: seq<Column>)
    requires |cs| == |ds| && forall j :: 0 <= j < |cs| ==> cs[j].name == ds[j].name
    ensures Names(cs) == Names(ds)
  {
    assert forall j :: 0 <= j < |cs| ==> Names(cs)[j] == Names(ds)[j];
  }

  /** A cell agrees with the dtype of its column. */
  predicate FitsKind(k: Kind, c: Cell)
  {
    match c
    case None => true
    case Some(v) =>
      match k
      case Numeric => v.Num?
      case Text => v.Str?
      case Mixed => true
      case Other => true
  }

  predicate ColumnFits(col: Column, rows: nat)
  {
    && |col.cells| == rows
    && forall i :: 0 <= i < |col.cells| ==> FitsKind(col.kind, col.cells[i])
  }

  predicate DistinctNames(cs: seq<Column>)
  {
    forall j, k :: 0 <= j < k < |cs| ==> cs[j].name != cs[k].name
  }

  /** Equal column lengths, unique names, cells that agree with their dtype. */
  predicate WellFormed(t: Table)
  {
    && DistinctNames(t.columns)
    && forall j :: 0 <= j < |t.columns| ==> ColumnFits(t.columns[j], |t.index|)
  }

  predicate HasColumn(t: Table, name: string)
  {
    name in Names(t.columns)
  }

  /** Position of the column called `name` (`df[name]`): the first one so named. */
  function IndexOf(cs: seq<Column>, name: string): (j: nat)
    requires name in Names(cs)
    ensures j < |cs| && cs[j].name == name
    ensures forall k :: 0 <= k < j ==> cs[k].name != name
  {
    if cs[0].name == name then 0
    else
      assert Names(cs) == [cs[0].name] + Names(cs[1..]);
      1 + IndexOf(cs[1..], name)
  }

  /** The column called `name`: `df[name]`. */
  function Col(t: Table, name: string): (c: Column)
    requires HasColumn(t, name)
    ensures c in t.columns && c.name == name
  {
    t.columns[IndexOf(t.columns, name)]
  }

  /** With unique names, the column called `cs[j].name` is column `j`. */
  lemma IndexOfUnique(cs: seq<Column>, j: nat)
    requires DistinctNames(cs) && j < |cs|
    ensures cs[j].name in Names(cs) && IndexOf(cs, cs[j].name) == j
  {
  }

  /** Number of cells equal to `c`; a null counts as a value of its own. */
  function Occurrences(cells: seq<Cell>, c: Cell): (n: nat)
    ensures n <= |cells|
  {
    if cells == [] then 0
    else Occurrences(cells[..|cells| - 1], c) + (if cells[|cells| - 1] == c then 1 else 0)
  }

  /** A cell that occurs at all is one of the cells. */
  lemma {:induction false} OccurrencesPositive(cells: seq<Cell>, c: Cell)
    requires Occurrences(cells, c) > 0
    ensures c in cells
  {
    var init := cells[..|cells| - 1];
    if cells[|cells| - 1] != c {
      OccurrencesPositive(init, c);
      assert c in init;
      assert cells == init + [cells[|cells| - 1]];
    }
  }

  /** A cell that is one of the cells occurs at least once. */
  lemma {:induction false} OccurrencesCount(cells: seq<Cell>, c: Cell)
    requires c in cells
    ensures Occurrences(cells, c) > 0
  {
    var init := cells[..|cells| - 1];
    if cells[|cells| - 1] != c {
      assert cells == init + [cells[|cells| - 1]];
      OccurrencesCount(init, c);
    }
  }

  /** Every name of the selection names a column of `t`. */
  predicate AllPresent(t: Table, sel: seq<string>)
  {
    forall n :: n in sel ==> HasColumn(t, n)
  }

  /** No name is selected twice. */
  predicate Distinct(sel: seq<string>)
  {
    forall a, b :: 0 <= a < b < |sel| ==> sel[a] != sel[b]
  }

  lemma PresentTail(t: Table, sel: seq<string>)
    requires AllPresent(t, sel) && sel != []
    ensures AllPresent(t, sel[1..])
  {
    assert forall n :: n in sel[1..] ==> n in sel;
  }

  /** The first name of a selection without repeats is not among the rest. */
  lemma HeadNotInTail(sel: seq<string>)
    requires Distinct(sel) && sel != []
    ensures sel[0] !in sel[1..] && Distinct(sel[1..])
  {
    forall b | 0 <= b < |sel[1..]| ensures sel[1..][b] != sel[0] {
      assert sel[1..][b] == sel[b + 1];
    }
  }

  /** Number of null cells (`isnull().sum()` of one column). */
  function NullCount(cells: seq<Cell>): (n: nat)
    ensures n <= |cells|
  {
    Occurrences(cells, None)
  }

  /** No cell holds a value. */
  predicate AllNull(cells: seq<Cell>)
  {
    forall i :: 0 <= i < |cells| ==> cells[i].None?
  }

  /** The column has at least one null cell. */
  predicate HasMissing(col: Column) { NullCount(col.cells) > 0 }

  /** A column has missing count 0 exactly when none of its cells is null. */
  lemma {:induction false} NullCountZero(cells: seq<Cell>)
    ensures NullCount(cells) == 0 <==> forall i :: 0 <= i < |cells| ==> cells[i].Some?
  {
    if cells != [] {
      var init := cells[..|cells| - 1];
      NullCountZero(init);
      assert forall i :: 0 <= i < |init| ==> init[i] == cells[i];
    }
  }

  /** Same table with column `j` replaced. */
  function WithColumn(t: Table, j: nat, col: Column): (r: Table)
    requires j < |t.columns|
    ensures r.index == t.index && |r.columns| == |t.columns| && r.columns[j] == col
    ensures forall k :: 0 <= k < |t.columns| && k != j ==> r.columns[k] == t.columns[k]
  {
    Table(t.index, t.columns[j := col])
  }

  /** Ascending positions `i` in `[from, n)` at which `keep(i)` holds. */
  function Where(n: nat, keep: nat -> bool, from: nat := 0): (p: seq<nat>)
    requires from <= n
    decreases n - from
    ensures forall k :: 0 <= k < |p| ==> from <= p[k] < n && keep(p[k])
    ensures forall k, l :: 0 <= k < l < |p| ==> p[k] < p[l]
    ensures |p| <= n - from
  {
    if from == n then []
    else (if keep(from) then [from] else []) + Where(n, keep, from + 1)
  }

  /** Every position in `[from, n)` that satisfies `keep` is listed. */
  lemma {:induction false} WhereComplete(n: nat, keep: nat -> bool, from: nat, i: nat)
    requires from <= i < n && keep(i)
    decreases n - from
    ensures i in Where(n, keep, from)
  {
    if i > from {
      WhereComplete(n, keep, from + 1, i);
    }
  }

  /** The elements of `s` at positions `p`, in that order. */
  function Pick<T>(s: seq<T>, p: seq<nat>): (r: seq<T>)
    requires forall k :: 0 <= k < |p| ==> p[k] < |s|
    ensures |r| == |p|
    ensures forall k :: 0 <= k < |p| ==> r[k] == s[p[k]]
  {
    if p == [] then [] else [s[p[0]]] + Pick(s, p[1..])
  }
}
