/** The remediation actions of the missing-value workflow, as functions of
    the table: dropping rows, dropping columns, and the per-column imputation
    loop's meaning (its method form is `Dashboard.Frame.Impute`). */
module Remediation {
  import opened Tables

  // ---------------------------------------------------------------------
  // Dropping rows: `df.dropna(subset=selected_cols)`
  // ---------------------------------------------------------------------

  /** Row `i` has a value in every column named in `sel`. */
  predicate RowComplete(cs: seq<Column>, sel: seq<string>, i: nat)
  {
    forall j :: 0 <= j < |cs| && cs[j].name in sel ==> i < |cs[j].cells| && cs[j].cells[i].Some?
  }

  function CompleteAt(cs: seq<Column>, sel: seq<string>): nat -> bool
  {
    (i: nat) => RowComplete(cs, sel, i)
  }

  /** The table restricted to the rows at positions `p`, in that order. */
  function KeepRows(t: Table, p: seq<nat>): (r: Table)
    requires WellFormed(t)
    requires forall k :: 0 <= k < |p| ==> p[k] < |t.index|
    ensures Rows(r) == |p| && |r.columns| == |t.columns|
    ensures forall k :: 0 <= k < |p| ==> r.index[k] == t.index[p[k]]
    ensures forall j :: 0 <= j < |t.columns| ==>
      && r.columns[j].name == t.columns[j].name
      && r.columns[j].kind == t.columns[j].kind
      && r.columns[j].cells == Pick(t.columns[j].cells, p)
  {
    assert forall j :: 0 <= j < |t.columns| ==> |t.columns[j].cells| == |t.index| by {
      forall j | 0 <= j < |t.columns| ensures |t.columns[j].cells| == |t.index| {
        assert ColumnFits(t.columns[j], |t.index|);
      }
    }
    Table(Pick(t.index, p),
          seq(|t.columns|, j requires 0 <= j < |t.columns| =>
            Column(t.columns[j].name, t.columns[j].kind, Pick(t.columns[j].cells, p))))
  }

  /** `r` holds exactly the rows of `t` that satisfy `keep`, in their original
      order: there is an ascending choice of rows of `t`, made of every row
      that satisfies `keep` and no other, whose labels and cells are `r`'s. */
  ghost predicate KeepsExactly(t: Table, r: Table, keep: nat -> bool)
  {
    && |r.columns| == |t.columns|
    && exists p: seq<nat> ::
      && |p| == |r.index|
      && (forall k, l :: 0 <= k < l < |p| ==> p[k] < p[l])
      && (forall i :: 0 <= i < |t.index| ==> (keep(i) <==> i in p))
      && (forall k :: 0 <= k < |p| ==> p[k] < |t.index| && r.index[k] == t.index[p[k]])
      && (forall j, k :: 0 <= j < |t.columns| && 0 <= k < |p| ==>
            k < |r.columns[j].cells| && p[k] < |t.columns[j].cells| &&
            r.columns[j].cells[k] == t.columns[j].cells[p[k]])
  }

  lemma KeepRowsExactly(t: Table, keep: nat -> bool, p: seq<nat>)
    requires WellFormed(t)
    requires forall k :: 0 <= k < |p| ==> p[k] < |t.index| && keep(p[k])
    requires forall k, l :: 0 <= k < l < |p| ==> p[k] < p[l]
    requires forall i :: 0 <= i < Rows(t) && keep(i) ==> i in p
    ensures KeepsExactly(t, KeepRows(t, p), keep)
  {
    var r := KeepRows(t, p);
    forall i | 0 <= i < Rows(t) && i in p ensures keep(i) {
      var k :| 0 <= k < |p| && p[k] == i;
    }
    forall j, k | 0 <= j < |t.columns| && 0 <= k < |p|
      ensures k < |r.columns[j].cells| && p[k] < |t.columns[j].cells|
      ensures r.columns[j].cells[k] == t.columns[j].cells[p[k]]
    {
      assert ColumnFits(t.columns[j], Rows(t));
    }
  }

  /** Rows kept from a well-formed table still form one. */
  lemma KeepRowsWellFormed(t: Table, p: seq<nat>)
    requires WellFormed(t)
    requires forall k :: 0 <= k < |p| ==> p[k] < |t.index|
    ensures WellFormed(KeepRows(t, p))
  {
    var r := KeepRows(t, p);
    forall j | 0 <= j < |r.columns| ensures ColumnFits(r.columns[j], Rows(r)) {
      assert ColumnFits(t.columns[j], Rows(t));
      forall k | 0 <= k < |p| ensures FitsKind(r.columns[j].kind, r.columns[j].cells[k]) {
        assert r.columns[j].cells[k] == t.columns[j].cells[p[k]];
      }
    }
  }

  /** A column named in `sel` keeps no null once only complete rows remain. */
  lemma KeptColumnsComplete(t: Table, sel: seq<string>, p: seq<nat>, j: nat)
    requires WellFormed(t)
    requires forall k :: 0 <= k < |p| ==> p[k] < |t.index| && RowComplete(t.columns, sel, p[k])
    requires j < |t.columns| && t.columns[j].name in sel
    ensures NullCount(KeepRows(t, p).columns[j].cells) == 0
  {
    var cells := KeepRows(t, p).columns[j].cells;
    forall k | 0 <= k < |cells| ensures cells[k].Some? {
      assert RowComplete(t.columns, sel, p[k]);
    }
    NullCountZero(cells);
  }

  /** "Drop rows with missing values": keeps exactly the rows with a value in
      every selected column, in their original order, with every column
      (name and dtype) kept; the selected columns then have no null left. */
  function DropNullRows(t: Table, sel: seq<string>): (r: Table)
    requires WellFormed(t)
    ensures WellFormed(r)
    ensures Rows(r) <= Rows(t)
    ensures KeepsExactly(t, r, CompleteAt(t.columns, sel))
    ensures |r.columns| == |t.columns|
    ensures forall j :: 0 <= j < |t.columns| ==>
      r.columns[j].name == t.columns[j].name && r.columns[j].kind == t.columns[j].kind
    ensures forall j :: 0 <= j < |r.columns| && r.columns[j].name in sel ==> NullCount(r.columns[j].cells) == 0
  {
    var p := Where(Rows(t), CompleteAt(t.columns, sel));
    DropNullRowsFacts(t, sel, p);
    KeepRows(t, p)
  }

  lemma DropNullRowsFacts(t: Table, sel: seq<string>, p: seq<nat>)
    requires WellFormed(t)
    requires p == Where(Rows(t), CompleteAt(t.columns, sel))
    ensures var r := KeepRows(t, p);
      && WellFormed(r)
      && KeepsExactly(t, r, CompleteAt(t.columns, sel))
      && forall j :: 0 <= j < |r.columns| && r.columns[j].name in sel ==> NullCount(r.columns[j].cells) == 0
  {
    var keep := CompleteAt(t.columns, sel);
    forall i | 0 <= i < Rows(t) && keep(i) ensures i in p {
      WhereComplete(Rows(t), keep, 0, i);
    }
    KeepFacts(t, sel, p);
  }

  lemma KeepFacts(t: Table, sel: seq<string>, p: seq<nat>)
    requires WellFormed(t)
    requires forall k :: 0 <= k < |p| ==> p[k] < |t.index| && CompleteAt(t.columns, sel)(p[k])
    requires forall k, l :: 0 <= k < l < |p| ==> p[k] < p[l]
    requires forall i :: 0 <= i < Rows(t) && CompleteAt(t.columns, sel)(i) ==> i in p
    ensures var r := KeepRows(t, p);
      && WellFormed(r)
      && KeepsExactly(t, r, CompleteAt(t.columns, sel))
      && forall j :: 0 <= j < |r.columns| && r.columns[j].name in sel ==> NullCount(r.columns[j].cells) == 0
  {
    KeepRowsExactly(t, CompleteAt(t.columns, sel), p);
    KeepRowsWellFormed(t, p);
    forall j | 0 <= j < |t.columns| && t.columns[j].name in sel
      ensures NullCount(KeepRows(t, p).columns[j].cells) == 0
    {
      KeptColumnsComplete(t, sel, p, j);
    }
  }

  // ---------------------------------------------------------------------
  // Dropping columns: `df.drop(columns=selected_cols)`
  // ---------------------------------------------------------------------

  function UnselectedAt(cs: seq<Column>, sel: seq<string>): nat -> bool
  {
    (j: nat) => j < |cs| && cs[j].name !in sel
  }

  /** `r` lists columns of `cs` picked at ascending positions. */
  ghost predicate SubsequenceOf(r: seq<Column>, cs: seq<Column>)
  {
    exists p: seq<nat> ::
      && |p| == |r|
      && (forall k :: 0 <= k < |p| ==> p[k] < |cs| && r[k] == cs[p[k]])
      && (forall k, l :: 0 <= k < l < |p| ==> p[k] < p[l])
  }

  lemma PickedColumns(cs: seq<Column>, sel: seq<string>, p: seq<nat>)
    requires forall k :: 0 <= k < |p| ==> p[k] < |cs| && cs[p[k]].name !in sel
    requires forall k, l :: 0 <= k < l < |p| ==> p[k] < p[l]
    requires forall j :: 0 <= j < |cs| && cs[j].name !in sel ==> j in p
    ensures var r := Pick(cs, p);
      && SubsequenceOf(r, cs)
      && forall c :: c in r <==> c in cs && c.name !in sel
  {
    var r := Pick(cs, p);
    forall c | c in cs && c.name !in sel ensures c in r {
      var j :| 0 <= j < |cs| && cs[j] == c;
      var k :| 0 <= k < |p| && p[k] == j;
      assert r[k] == c;
    }
  }

  lemma PickedColumnsWellFormed(t: Table, p: seq<nat>)
    requires WellFormed(t)
    requires forall k :: 0 <= k < |p| ==> p[k] < |t.columns|
    requires forall k, l :: 0 <= k < l < |p| ==> p[k] < p[l]
    ensures WellFormed(Table(t.index, Pick(t.columns, p)))
  {
    var r := Pick(t.columns, p);
    forall k, l | 0 <= k < l < |r| ensures r[k].name != r[l].name {
      assert r[k] == t.columns[p[k]] && r[l] == t.columns[p[l]];
    }
    forall k | 0 <= k < |r| ensures ColumnFits(r[k], |t.index|) {
      assert r[k] == t.columns[p[k]];
    }
  }

  /** "Drop columns with missing values": removes exactly the selected
      columns, keeps the others in their order, and keeps every row. */
  function DropColumns(t: Table, sel: seq<string>): (r: Table)
    requires WellFormed(t)
    requires forall n :: n in sel ==> HasColumn(t, n)
    ensures WellFormed(r)
    ensures r.index == t.index
    ensures forall c :: c in r.columns <==> c in t.columns && c.name !in sel
    ensures SubsequenceOf(r.columns, t.columns)
  {
    var cs := t.columns;
    var keep := UnselectedAt(cs, sel);
    var p := Where(|cs|, keep);
    forall j | 0 <= j < |cs| && cs[j].name !in sel ensures j in p {
      WhereComplete(|cs|, keep, 0, j);
    }
    PickedColumns(cs, sel, p);
    PickedColumnsWellFormed(t, p);
    Table(t.index, Pick(cs, p))
  }

  // ---------------------------------------------------------------------
  // Imputation: the per-column step of the `for col in selected_cols` loop
  // ---------------------------------------------------------------------

  /** What the user sees: `st.success`, `st.warning`, `st.error`, or the
      traceback of an exception nothing catches. */
  datatype Message =
    | DroppedRows(cols: seq<string>)        // success
    | DroppedColumns(cols: seq<string>)     // success
    | NotNumerical(col: string, stat: Statistic)  // warning: mean/median skipped
    | NotCategorical(col: string)           // warning: mode skipped
    | InvalidFillValue                      // error: the specific-value fill raised
    | ImputationApplied                     // success
    | ModeLookupError(col: string)          // uncaught: `mode()[0]` of a column with no value

  datatype Statistic = Mean | Median

  /** The three fill choices of the imputation branch. */
  datatype Imputer = ByStatistic(stat: Statistic) | ByMode | ByValue(text: string)

  /** `pd.to_numeric(text, errors='ignore')`: a number, NaN (for "nan" or an
      empty text), the text itself, or an exception. */
  datatype Conversion = AsNumber(x: real) | AsMissing | AsText | ConversionRaises

  /** The library routines whose results the model takes as given:
      the mean and median of a numeric column's values (consulted only when
      it has one), the conversion of the fill text, and whether `fillna`
      rejects a value for a column. */
  datatype Library = Library(
    mean: seq<Cell> -> real,
    median: seq<Cell> -> real,
    toNumeric: string -> Conversion,
    fillRaises: (Column, Value) -> bool)

  /** `col.mean()` or `col.median()` of a column that has a value. */
  function StatValue(stat: Statistic, lib: Library, cells: seq<Cell>): real
  {
    if stat == Mean then lib.mean(cells) else lib.median(cells)
  }

  /** Python's `<=` on two strings: code point by code point, a proper
      prefix first. */
  predicate StrLe(a: string, b: string)
  {
    if a == [] then true
    else if b == [] then false
    else if a[0] != b[0] then a[0] < b[0]
    else StrLe(a[1..], b[1..])
  }

  lemma {:induction false} StrLeRefl(a: string)
    ensures StrLe(a, a)
  {
    if a != [] {
      StrLeRefl(a[1..]);
    }
  }

  lemma {:induction false} StrLeTotal(a: string, b: string)
    ensures StrLe(a, b) || StrLe(b, a)
  {
    if a != [] && b != [] && a[0] == b[0] {
      StrLeTotal(a[1..], b[1..]);
    }
  }

  lemma {:induction false} StrLeTrans(a: string, b: string, c: string)
    requires StrLe(a, b) && StrLe(b, c)
    ensures StrLe(a, c)
  {
    if a != [] && b != [] && c != [] && a[0] == b[0] && b[0] == c[0] {
      StrLeTrans(a[1..], b[1..], c[1..]);
    }
  }

  lemma {:induction false} StrLeAntisym(a: string, b: string)
    requires StrLe(a, b) && StrLe(b, a)
    ensures a == b
  {
    if a != [] && b != [] {
      StrLeAntisym(a[1..], b[1..]);
    }
  }

  /** The order `mode()` sorts its result in: numbers by value, strings by
      `StrLe`. A string column, the only kind a mode fill reaches, holds no
      number; numbers are put first only to make the order total. */
  predicate ValueLe(a: Value, b: Value)
  {
    match a
    case Num(x) => b.Num? ==> x <= b.x
    case Str(u) => b.Str? && StrLe(u, b.s)
  }

  lemma ValueLeRefl(a: Value)
    ensures ValueLe(a, a)
  {
    if a.Str? {
      StrLeRefl(a.s);
    }
  }

  lemma ValueLeTotal(a: Value, b: Value)
    ensures ValueLe(a, b) || ValueLe(b, a)
  {
    if a.Str? && b.Str? {
      StrLeTotal(a.s, b.s);
    }
  }

  /** Whatever lies above `b` lies above every `a` below `b`. */
  lemma ValueLeTrans(a: Value, b: Value)
    requires ValueLe(a, b)
    ensures forall c :: ValueLe(b, c) ==> ValueLe(a, c)
  {
    forall c | ValueLe(b, c) ensures ValueLe(a, c) {
      if a.Str? {
        StrLeTrans(a.s, b.s, c.s);
      }
    }
  }

  lemma ValueLeAntisym(a: Value, b: Value)
    requires ValueLe(a, b) && ValueLe(b, a)
    ensures a == b
  {
    if a.Str? {
      StrLeAntisym(a.s, b.s);
    }
  }

  /** The most frequent value among the non-null cells of `cands`, counted in
      `cells`; among values equally frequent, the least in `ValueLe`. */
  function MostFrequent(cells: seq<Cell>, cands: seq<Cell>): (r: Option<Value>)
    ensures r.None? <==> AllNull(cands)
    ensures r.Some? ==> Some(r.value) in cands
    ensures r.Some? ==> forall k :: 0 <= k < |cands| && cands[k].Some? ==>
      && Occurrences(cells, cands[k]) <= Occurrences(cells, Some(r.value))
      && (Occurrences(cells, cands[k]) == Occurrences(cells, Some(r.value)) ==> ValueLe(r.value, cands[k].value))
  {
    if cands == [] then None
    else
      var rest := MostFrequent(cells, cands[1..]);
      assert forall k :: 1 <= k < |cands| ==> cands[k] == cands[1..][k - 1];
      match cands[0]
      case None => rest
      case Some(v) =>
        ValueLeRefl(v);
        if rest.None? then Some(v)
        else
          var n := Occurrences(cells, Some(v));
          var m := Occurrences(cells, Some(rest.value));
          if n > m then Some(v)
          else if n == m && ValueLe(v, rest.value) then
            ValueLeTrans(v, rest.value);
            Some(v)
          else
            ValueLeTotal(v, rest.value);
            rest
  }

  /** `mode()[0]`: the non-null value of maximum frequency, the least one in
      sorted order when several tie, or `None` when the column has no value
      at all (where `mode()[0]` raises). */
  function Mode(cells: seq<Cell>): (r: Option<Value>)
    ensures r.None? <==> AllNull(cells)
    ensures r.Some? ==> Some(r.value) in cells
    ensures r.Some? ==> forall w :: Occurrences(cells, Some(w)) <= Occurrences(cells, Some(r.value))
    ensures r.Some? ==> forall w :: Occurrences(cells, Some(w)) == Occurrences(cells, Some(r.value)) ==> ValueLe(r.value, w)
  {
    var r := MostFrequent(cells, cells);
    if r.Some? then
      OccurrencesCount(cells, Some(r.value));
      forall w | Occurrences(cells, Some(w)) > 0
        ensures Occurrences(cells, Some(w)) <= Occurrences(cells, Some(r.value))
        ensures Occurrences(cells, Some(w)) == Occurrences(cells, Some(r.value)) ==> ValueLe(r.value, w)
      {
        OccurrencesPositive(cells, Some(w));
        var k :| 0 <= k < |cells| && cells[k] == Some(w);
      }
      r
    else r
  }

  /** The mode is the one value that is most frequent and least among the
      most frequent: any value with those two properties is the mode. */
  lemma ModeUnique(cells: seq<Cell>, w: Value)
    requires Some(w) in cells
    requires forall u :: Occurrences(cells, Some(u)) <= Occurrences(cells, Some(w))
    requires forall u :: Occurrences(cells, Some(u)) == Occurrences(cells, Some(w)) ==> ValueLe(w, u)
    ensures Mode(cells) == Some(w)
  {
    var k :| 0 <= k < |cells| && cells[k] == Some(w);
    assert !AllNull(cells);
    var m := Mode(cells).value;
    ValueLeAntisym(m, w);
  }

  /** The dtype after `fillna(v)` on a column that has a null: a number into
      a string column or a string into a number column makes it mixed object. */
  function Upcast(k: Kind, v: Value): Kind
  {
    match k
    case Numeric => if v.Num? then Numeric else Mixed
    case Text => if v.Str? then Text else Mixed
    case Mixed => Mixed
    case Other => Other
  }

  function FillCells(cells: seq<Cell>, v: Value): (r: seq<Cell>)
    ensures |r| == |cells|
    ensures forall i :: 0 <= i < |cells| ==> r[i] == if cells[i].None? then Some(v) else cells[i]
  {
    seq(|cells|, i requires 0 <= i < |cells| => if cells[i].None? then Some(v) else cells[i])
  }

  /** `col.fillna(v)`: every null becomes `v`, every value stays. */
  function FillNulls(c: Column, v: Value): (r: Column)
    ensures r.name == c.name
    ensures r.cells == FillCells(c.cells, v)
    ensures r.kind == if HasMissing(c) then Upcast(c.kind, v) else c.kind
  {
    Column(c.name, if HasMissing(c) then Upcast(c.kind, v) else c.kind, FillCells(c.cells, v))
  }

  /** The filled column has no null, holds `v` where the nulls were, keeps
      every value, still agrees with its dtype, and is the column itself
      when it had no null to fill. */
  lemma FillNullsSound(c: Column, v: Value, rows: nat)
    requires ColumnFits(c, rows)
    ensures var r := FillNulls(c, v);
      && ColumnFits(r, rows)
      && NullCount(r.cells) == 0
      && (forall i :: 0 <= i < |c.cells| && c.cells[i].None? ==> r.cells[i] == Some(v))
      && (forall i :: 0 <= i < |c.cells| && c.cells[i].Some? ==> r.cells[i] == c.cells[i])
      && (!HasMissing(c) ==> r == c)
  {
    var r := FillNulls(c, v);
    NullCountZero(r.cells);
    if !HasMissing(c) {
      NullCountZero(c.cells);
      assert r.cells == c.cells;
    }
  }

  datatype Step = Filled(col: Column) | Skipped(warning: Message) | Raised | Crashed

  function Converted(text: string, lib: Library): Option<Value>
  {
    match lib.toNumeric(text)
    case AsNumber(x) => Some(Num(x))
    case AsText => Some(Str(text))
    case AsMissing => None
    case ConversionRaises => None
  }

  /** The `try` block fails for column `c`: the conversion raises, or
      `fillna` rejects the converted value. Filling with NaN never fails. */
  predicate Rejects(c: Column, text: string, lib: Library)
  {
    || lib.toNumeric(text).ConversionRaises?
    || (Converted(text, lib).Some? && lib.fillRaises(c, Converted(text, lib).value))
  }

  /** One pass of the loop body for column `c`: mean and median only on a
      numeric column, mode only on a string column, otherwise a warning; the
      specific value inside `try`, whose failure ends the loop. A statistic of
      a column without any value is NaN, so is a fill text such as "nan", and
      filling with NaN changes nothing. */
  function ImputeColumn(c: Column, how: Imputer, lib: Library): (s: Step)
    ensures s.Filled? ==> s.col.name == c.name
  {
    match how
    case ByStatistic(stat) =>
      if c.kind != Numeric then Skipped(NotNumerical(c.name, stat))
      else if AllNull(c.cells) then Filled(c)
      else Filled(FillNulls(c, Num(StatValue(stat, lib, c.cells))))
    case ByMode =>
      if c.kind != Text then Skipped(NotCategorical(c.name))
      else if Mode(c.cells).None? then Crashed
      else Filled(FillNulls(c, Mode(c.cells).value))
    case ByValue(text) =>
      var v := Converted(text, lib);
      if Rejects(c, text, lib) then Raised
      else if v.None? then Filled(c)
      else Filled(FillNulls(c, v.value))
  }

  /** A step touches only the null cells of its own column, keeps its name,
      and keeps it in agreement with its dtype. */
  lemma ImputeColumnSound(c: Column, how: Imputer, lib: Library, rows: nat)
    requires ColumnFits(c, rows)
    ensures var s := ImputeColumn(c, how, lib);
      s.Filled? ==>
        && s.col.name == c.name
        && ColumnFits(s.col, rows)
        && forall i :: 0 <= i < |c.cells| && c.cells[i].Some? ==> s.col.cells[i] == c.cells[i]
  {
    var s := ImputeColumn(c, how, lib);
    if s.Filled? && s.col != c {
      match how
      case ByStatistic(stat) =>
        FillNullsSound(c, Num(StatValue(stat, lib, c.cells)), rows);
      case ByMode =>
        FillNullsSound(c, Mode(c.cells).value, rows);
      case ByValue(text) =>
        FillNullsSound(c, Converted(text, lib).value, rows);
    }
  }

  /** The loop body for a fill choice, as a function of the column it reads. */
  function BodyOf(how: Imputer, lib: Library): Column -> Step
  {
    c => ImputeColumn(c, how, lib)
  }

  /** A loop body that writes back a column under the name it read it by. */
  ghost predicate KeepsNames(body: Column -> Step)
  {
    forall c :: body(c).Filled? ==> body(c).col.name == c.name
  }

  lemma BodyKeepsNames(how: Imputer, lib: Library)
    ensures KeepsNames(BodyOf(how, lib))
  {
  }

  // ---------------------------------------------------------------------
  // Imputation: the whole loop
  // ---------------------------------------------------------------------

  datatype Imputation = Imputation(table: Table, log: seq<Message>)

  /** `for col in selected_cols` with loop body `body`: each column is read
      from the table as the earlier passes left it; a warning skips a column,
      a failed fill breaks out (the success message still follows), and an
      uncaught error ends the run with no success message. */
  function RunLoop(t: Table, body: Column -> Step, sel: seq<string>): Imputation
    requires KeepsNames(body) && AllPresent(t, sel)
    decreases |sel|
  {
    if sel == [] then Imputation(t, [ImputationApplied])
    else
      assert HasColumn(t, sel[0]);
      var j := IndexOf(t.columns, sel[0]);
      PresentTail(t, sel);
      match body(t.columns[j])
      case Filled(c) =>
        var t' := Table(t.index, t.columns[j := c]);
        SameNames(t.columns, t'.columns);
        assert AllPresent(t', sel[1..]);
        RunLoop(t', body, sel[1..])
      case Skipped(w) =>
        var r := RunLoop(t, body, sel[1..]);
        Imputation(r.table, [w] + r.log)
      case Raised => Imputation(t, [InvalidFillValue, ImputationApplied])
      case Crashed => Imputation(t, [ModeLookupError(sel[0])])
  }

  /** The imputation branch of the workflow ("Apply Imputation"). */
  function ImputeLoop(t: Table, how: Imputer, sel: seq<string>, lib: Library): Imputation
    requires AllPresent(t, sel)
  {
    BodyKeepsNames(how, lib);
    RunLoop(t, BodyOf(how, lib), sel)
  }

  // ---------------------------------------------------------------------
  // Imputation: what the loop does to each column
  // ---------------------------------------------------------------------

  /** The loop body's outcome for the column named `n` of `t`. */
  function StepFor(t: Table, body: Column -> Step, n: string): Step
    requires HasColumn(t, n)
  {
    body(t.columns[IndexOf(t.columns, n)])
  }

  /** How many selected columns the loop passes before a failed fill or an
      uncaught error stops it (all of them when nothing stops it). */
  function Reached(t: Table, body: Column -> Step, sel: seq<string>): (k: nat)
    requires AllPresent(t, sel)
    ensures k <= |sel|
  {
    if sel == [] then 0
    else
      var s := StepFor(t, body, sel[0]);
      PresentTail(t, sel);
      if s.Raised? || s.Crashed? then 0 else 1 + Reached(t, body, sel[1..])
  }

  /** Column `c` once the loop has passed over the names in `done`. */
  function AfterPass(c: Column, body: Column -> Step, done: seq<string>): Column
  {
    if c.name in done && body(c).Filled? then body(c).col else c
  }

  /** The warnings issued while passing over the first `k` selected names, in order. */
  function Warnings(t: Table, body: Column -> Step, sel: seq<string>, k: nat): seq<Message>
    requires AllPresent(t, sel) && k <= |sel|
  {
    if k == 0 then []
    else
      var s := StepFor(t, body, sel[0]);
      PresentTail(t, sel);
      (if s.Skipped? then [s.warning] else []) + Warnings(t, body, sel[1..], k - 1)
  }

  /** The messages that close the run once the loop stops at position `k`. */
  function Closing(t: Table, body: Column -> Step, sel: seq<string>, k: nat): seq<Message>
    requires AllPresent(t, sel) && k <= |sel|
  {
    if k == |sel| then [ImputationApplied]
    else if StepFor(t, body, sel[k]).Raised? then [InvalidFillValue, ImputationApplied]
    else [ModeLookupError(sel[k])]
  }

  /** Replacing column `j` by one of the same name leaves the step for every
      other name as it was. */
  lemma StepForOther(t: Table, j: nat, c: Column, body: Column -> Step, m: string)
    requires DistinctNames(t.columns) && j < |t.columns| && c.name == t.columns[j].name
    requires HasColumn(t, m) && m != c.name
    ensures var t' := Table(t.index, t.columns[j := c]);
      HasColumn(t', m) && StepFor(t', body, m) == StepFor(t, body, m)
  {
    var t' := Table(t.index, t.columns[j := c]);
    SameNames(t.columns, t'.columns);
    var jm := IndexOf(t.columns, m);
    IndexOfUnique(t.columns, jm);
    assert DistinctNames(t'.columns) by {
      forall a, b | 0 <= a < b < |t'.columns| ensures t'.columns[a].name != t'.columns[b].name {
        assert t'.columns[a].name == t.columns[a].name && t'.columns[b].name == t.columns[b].name;
      }
    }
    IndexOfUnique(t'.columns, jm);
  }

  predicate SameSteps(t: Table, t': Table, body: Column -> Step, d: seq<string>)
    requires AllPresent(t, d) && AllPresent(t', d)
  {
    forall m :: m in d ==> StepFor(t, body, m) == StepFor(t', body, m)
  }

  /** Agreement on the steps for `d` covers its first name and the rest of it. */
  lemma SameStepsTail(t: Table, t': Table, body: Column -> Step, d: seq<string>)
    requires AllPresent(t, d) && AllPresent(t', d) && SameSteps(t, t', body, d) && d != []
    ensures HasColumn(t, d[0]) && HasColumn(t', d[0])
    ensures StepFor(t, body, d[0]) == StepFor(t', body, d[0])
    ensures AllPresent(t, d[1..]) && AllPresent(t', d[1..]) && SameSteps(t, t', body, d[1..])
  {
    PresentTail(t, d);
    PresentTail(t', d);
    assert d[0] in d;
    assert forall n :: n in d[1..] ==> n in d;
  }

  /** Two tables that agree on the steps for `d` give the same stop point,
      warnings and closing messages over `d`. */
  lemma {:induction false} SameStepsSameReach(t: Table, t': Table, body: Column -> Step, d: seq<string>)
    requires AllPresent(t, d) && AllPresent(t', d) && SameSteps(t, t', body, d)
    ensures Reached(t, body, d) == Reached(t', body, d)
  {
    if d != [] {
      SameStepsTail(t, t', body, d);
      SameStepsSameReach(t, t', body, d[1..]);
    }
  }

  lemma {:induction false} SameStepsSameWarnings(t: Table, t': Table, body: Column -> Step, d: seq<string>, k: nat)
    requires AllPresent(t, d) && AllPresent(t', d) && SameSteps(t, t', body, d) && k <= |d|
    ensures Warnings(t, body, d, k) == Warnings(t', body, d, k)
  {
    if k > 0 {
      SameStepsTail(t, t', body, d);
      SameStepsSameWarnings(t, t', body, d[1..], k - 1);
    }
  }

  lemma SameStepsSameClosing(t: Table, t': Table, body: Column -> Step, d: seq<string>, k: nat)
    requires AllPresent(t, d) && AllPresent(t', d) && SameSteps(t, t', body, d) && k <= |d|
    ensures Closing(t, body, d, k) == Closing(t', body, d, k)
  {
    if k < |d| {
      assert d[k] in d;
    }
  }

  /** Writing back a filled column keeps the names unique and every step for
      the other selected names as it was. */
  lemma FilledTable(t: Table, body: Column -> Step, sel: seq<string>, c: Column)
    requires DistinctNames(t.columns) && AllPresent(t, sel) && Distinct(sel) && sel != []
    requires HasColumn(t, sel[0]) && c.name == sel[0]
    ensures var t' := Table(t.index, t.columns[IndexOf(t.columns, sel[0]) := c]);
      && DistinctNames(t'.columns) && AllPresent(t, sel[1..]) && AllPresent(t', sel[1..])
      && SameSteps(t, t', body, sel[1..])
  {
    var j0 := IndexOf(t.columns, sel[0]);
    var t' := Table(t.index, t.columns[j0 := c]);
    SameNames(t.columns, t'.columns);
    assert DistinctNames(t'.columns) by {
      forall a, b | 0 <= a < b < |t'.columns| ensures t'.columns[a].name != t'.columns[b].name {
        assert t'.columns[a].name == t.columns[a].name && t'.columns[b].name == t.columns[b].name;
      }
    }
    PresentTail(t, sel);
    HeadNotInTail(sel);
    forall m | m in sel[1..] ensures HasColumn(t', m) && StepFor(t, body, m) == StepFor(t', body, m) {
      StepForOther(t, j0, c, body, m);
    }
  }

  /** The log equation, once for the rest of the selection, gives it for a
      selection whose first column is skipped. */
  lemma {:induction false} LogSkipped(t: Table, body: Column -> Step, sel: seq<string>)
    requires KeepsNames(body) && AllPresent(t, sel) && sel != [] && HasColumn(t, sel[0])
    requires StepFor(t, body, sel[0]).Skipped?
    requires AllPresent(t, sel[1..])
    requires var k := Reached(t, body, sel[1..]);
      RunLoop(t, body, sel[1..]).log == Warnings(t, body, sel[1..], k) + Closing(t, body, sel[1..], k)
    ensures var k := Reached(t, body, sel);
      RunLoop(t, body, sel).log == Warnings(t, body, sel, k) + Closing(t, body, sel, k)
  {
    var k := Reached(t, body, sel);
    var w := StepFor(t, body, sel[0]).warning;
    var r' := RunLoop(t, body, sel[1..]);
    assert RunLoop(t, body, sel) == Imputation(r'.table, [w] + r'.log);
    assert k == 1 + Reached(t, body, sel[1..]);
    var ws := Warnings(t, body, sel[1..], k - 1);
    var cs := Closing(t, body, sel[1..], k - 1);
    assert Warnings(t, body, sel, k) == [w] + ws;
    ClosingShift(t, body, sel, k);
    assert r'.log == ws + cs;
    assert [w] + (ws + cs) == ([w] + ws) + cs;
  }

  /** A first column that is filled: the run, its stop point, warnings and
      closing messages are those of the rest of the selection on the table
      with that column written back, one pass later. */
  lemma {:induction false} FilledHead(t: Table, body: Column -> Step, sel: seq<string>, t2: Table)
    requires KeepsNames(body) && DistinctNames(t.columns) && AllPresent(t, sel) && Distinct(sel)
    requires sel != [] && HasColumn(t, sel[0]) && StepFor(t, body, sel[0]).Filled?
    requires t2 == Table(t.index, t.columns[IndexOf(t.columns, sel[0]) := StepFor(t, body, sel[0]).col])
    requires AllPresent(t2, sel[1..])
    ensures var k := Reached(t, body, sel);
      var k1 := Reached(t2, body, sel[1..]);
      && k == 1 + k1
      && RunLoop(t, body, sel) == RunLoop(t2, body, sel[1..])
      && Warnings(t, body, sel, k) == Warnings(t2, body, sel[1..], k1)
      && Closing(t, body, sel, k) == Closing(t2, body, sel[1..], k1)
  {
    PresentTail(t, sel);
    var rest := sel[1..];
    var k := Reached(t, body, sel);
    var k1 := Reached(t2, body, rest);
    assert SameSteps(t, t2, body, rest) by {
      FilledTable(t, body, sel, StepFor(t, body, sel[0]).col);
    }
    assert k == 1 + k1 by {
      SameStepsSameReach(t, t2, body, rest);
    }
    assert Warnings(t, body, sel, k) == Warnings(t2, body, rest, k1) by {
      SameStepsSameWarnings(t, t2, body, rest, k1);
      assert Warnings(t, body, sel, k) == [] + Warnings(t, body, rest, k1);
    }
    assert Closing(t, body, sel, k) == Closing(t2, body, rest, k1) by {
      SameStepsSameClosing(t, t2, body, rest, k1);
      ClosingShift(t, body, sel, k);
    }
  }

  /** The loop's log: the warnings of the columns it passed, in order, then
      the closing messages. */
  lemma {:induction false} RunLoopLog(t: Table, body: Column -> Step, sel: seq<string>)
    requires KeepsNames(body) && DistinctNames(t.columns) && AllPresent(t, sel) && Distinct(sel)
    ensures var k := Reached(t, body, sel);
      RunLoop(t, body, sel).log == Warnings(t, body, sel, k) + Closing(t, body, sel, k)
    decreases |sel|
  {
    if sel != [] {
      PresentTail(t, sel);
      HeadNotInTail(sel);
      assert sel[0] in sel;
      var s0 := StepFor(t, body, sel[0]);
      if s0.Skipped? {
        RunLoopLog(t, body, sel[1..]);
        LogSkipped(t, body, sel);
      } else if s0.Filled? {
        var t' := Table(t.index, t.columns[IndexOf(t.columns, sel[0]) := s0.col]);
        FilledTable(t, body, sel, s0.col);
        RunLoopLog(t', body, sel[1..]);
        FilledHead(t, body, sel, t');
      }
    }
  }

  /** Past the first name, the closing messages are those of the rest. */
  lemma ClosingShift(t: Table, body: Column -> Step, sel: seq<string>, k: nat)
    requires AllPresent(t, sel) && 0 < k <= |sel|
    ensures AllPresent(t, sel[1..])
    ensures Closing(t, body, sel, k) == Closing(t, body, sel[1..], k - 1)
  {
    PresentTail(t, sel);
    if k < |sel| {
      assert sel[k] == sel[1..][k - 1];
    }
  }

  /** A column not named `sel[0]` is passed over in the first `k` names exactly
      when it is in the `k - 1` names after the first. */
  lemma AfterPassShift(c: Column, body: Column -> Step, sel: seq<string>, k: nat)
    requires 0 < k <= |sel| && c.name != sel[0]
    ensures AfterPass(c, body, sel[..k]) == AfterPass(c, body, sel[1..][..k - 1])
  {
    assert sel[..k] == [sel[0]] + sel[1..][..k - 1];
  }

  /** The loop's table: every column ends as the body left it when the loop
      reached its name and the body filled it, and as it was otherwise. */
  lemma {:induction false} RunLoopTable(t: Table, body: Column -> Step, sel: seq<string>)
    requires KeepsNames(body) && DistinctNames(t.columns) && AllPresent(t, sel) && Distinct(sel)
    ensures var r := RunLoop(t, body, sel).table;
      var k := Reached(t, body, sel);
      && r.index == t.index
      && |r.columns| == |t.columns|
      && forall j :: 0 <= j < |t.columns| ==> r.columns[j] == AfterPass(t.columns[j], body, sel[..k])
    decreases |sel|
  {
    var k := Reached(t, body, sel);
    if sel == [] {
      assert sel[..k] == [];
    } else {
      PresentTail(t, sel);
      HeadNotInTail(sel);
      var n := sel[0];
      var j0 := IndexOf(t.columns, n);
      var s0 := body(t.columns[j0]);
      if s0.Raised? || s0.Crashed? {
        assert sel[..k] == [];
      } else if s0.Skipped? {
        RunLoopTable(t, body, sel[1..]);
        forall j | 0 <= j < |t.columns|
          ensures AfterPass(t.columns[j], body, sel[..k]) == AfterPass(t.columns[j], body, sel[1..][..k - 1])
        {
          if t.columns[j].name == n {
            IndexOfUnique(t.columns, j);
          } else {
            AfterPassShift(t.columns[j], body, sel, k);
          }
        }
      } else {
        var t' := Table(t.index, t.columns[j0 := s0.col]);
        FilledTable(t, body, sel, s0.col);
        RunLoopTable(t', body, sel[1..]);
        SameStepsSameReach(t, t', body, sel[1..]);
        forall j | 0 <= j < |t.columns|
          ensures RunLoop(t, body, sel).table.columns[j] == AfterPass(t.columns[j], body, sel[..k])
        {
          if j == j0 {
            assert n in sel[..k];
          } else {
            IndexOfUnique(t.columns, j);
            AfterPassShift(t.columns[j], body, sel, k);
          }
        }
      }
    }
  }
}
