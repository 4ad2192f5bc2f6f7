/** What the imputation loop does as a whole, for each fill choice: which
    columns it fills and with what, which it leaves alone, where it stops and
    what it reports. */
module ImputationOutcomes {
  import opened Tables
  import opened Remediation

  /** Every selected column before position `Reached` lets the loop go on,
      and the one at that position, if any, stops it. */
  lemma {:induction false} ReachedFirstStop(t: Table, body: Column -> Step, sel: seq<string>)
    requires AllPresent(t, sel)
    ensures var k := Reached(t, body, sel);
      && (forall i :: 0 <= i < k ==> !StepFor(t, body, sel[i]).Raised? && !StepFor(t, body, sel[i]).Crashed?)
      && (k < |sel| ==> StepFor(t, body, sel[k]).Raised? || StepFor(t, body, sel[k]).Crashed?)
    decreases |sel|
  {
    if sel != [] {
      PresentTail(t, sel);
      ReachedFirstStop(t, body, sel[1..]);
      var k := Reached(t, body, sel);
      forall i | 1 <= i < k ensures sel[i] == sel[1..][i - 1] { }
      if 0 < k < |sel| {
        assert sel[k] == sel[1..][k - 1];
      }
    }
  }

  /** The warnings of the first `k` passes are exactly the warnings of the
      columns skipped among them. */
  lemma {:induction false} WarningsContent(t: Table, body: Column -> Step, sel: seq<string>, k: nat)
    requires AllPresent(t, sel) && k <= |sel|
    ensures forall m :: m in Warnings(t, body, sel, k) <==>
      exists i :: 0 <= i < k && StepFor(t, body, sel[i]) == Skipped(m)
    decreases k
  {
    if k > 0 {
      PresentTail(t, sel);
      WarningsContent(t, body, sel[1..], k - 1);
      forall m ensures m in Warnings(t, body, sel, k) <==>
        exists i :: 0 <= i < k && StepFor(t, body, sel[i]) == Skipped(m)
      {
        if m in Warnings(t, body, sel[1..], k - 1) {
          var i :| 0 <= i < k - 1 && StepFor(t, body, sel[1..][i]) == Skipped(m);
          assert sel[1..][i] == sel[i + 1];
        }
        if exists i :: 0 <= i < k && StepFor(t, body, sel[i]) == Skipped(m) {
          var i :| 0 <= i < k && StepFor(t, body, sel[i]) == Skipped(m);
          if i > 0 {
            assert sel[1..][i - 1] == sel[i];
          }
        }
      }
    }
  }

  /** No warning when no pass skips its column. */
  lemma {:induction false} WarningsNone(t: Table, body: Column -> Step, sel: seq<string>, k: nat)
    requires AllPresent(t, sel) && k <= |sel|
    requires forall i :: 0 <= i < k ==> !StepFor(t, body, sel[i]).Skipped?
    ensures Warnings(t, body, sel, k) == []
    decreases k
  {
    if k > 0 {
      PresentTail(t, sel);
      forall i | 0 <= i < k - 1 ensures !StepFor(t, body, sel[1..][i]).Skipped? {
        assert sel[1..][i] == sel[i + 1];
      }
      WarningsNone(t, body, sel[1..], k - 1);
    }
  }

  /** With unique names, the step for the name of column `j` is the body's
      result on column `j`. */
  lemma StepForColumn(t: Table, body: Column -> Step, j: nat)
    requires DistinctNames(t.columns) && j < |t.columns|
    ensures HasColumn(t, t.columns[j].name) && StepFor(t, body, t.columns[j].name) == body(t.columns[j])
  {
    IndexOfUnique(t.columns, j);
  }

  /** Column `j` after the loop: filled by the body if the loop reached its
      name and the body filled it, untouched otherwise. */
  lemma AfterLoopColumn(t: Table, how: Imputer, sel: seq<string>, lib: Library, j: nat)
    requires DistinctNames(t.columns) && AllPresent(t, sel) && Distinct(sel) && j < |t.columns|
    ensures var r := ImputeLoop(t, how, sel, lib).table;
      var c := t.columns[j];
      var s := ImputeColumn(c, how, lib);
      var k := Reached(t, BodyOf(how, lib), sel);
      && |r.columns| == |t.columns|
      && r.columns[j] == if c.name in sel[..k] && s.Filled? then s.col else c
  {
    BodyKeepsNames(how, lib);
    RunLoopTable(t, BodyOf(how, lib), sel);
  }

  /** Whatever the fill choice, the loop keeps the table well formed, keeps
      its rows and column names, changes no column that was not selected, and
      changes no cell that held a value: only nulls of selected columns are
      filled. */
  lemma {:induction false} ImputeLoopSound(t: Table, how: Imputer, sel: seq<string>, lib: Library)
    requires WellFormed(t) && AllPresent(t, sel) && Distinct(sel)
    ensures var r := ImputeLoop(t, how, sel, lib).table;
      && WellFormed(r)
      && r.index == t.index
      && Names(r.columns) == Names(t.columns)
      && (forall j :: 0 <= j < |t.columns| && t.columns[j].name !in sel ==> r.columns[j] == t.columns[j])
      && (forall j, i :: 0 <= j < |t.columns| && 0 <= i < |t.columns[j].cells| && t.columns[j].cells[i].Some? ==>
            r.columns[j].cells[i] == t.columns[j].cells[i])
  {
    var r := ImputeLoop(t, how, sel, lib).table;
    BodyKeepsNames(how, lib);
    RunLoopTable(t, BodyOf(how, lib), sel);
    var k := Reached(t, BodyOf(how, lib), sel);
    forall j | 0 <= j < |t.columns|
      ensures r.columns[j].name == t.columns[j].name
      ensures ColumnFits(r.columns[j], |r.index|)
      ensures forall i :: 0 <= i < |t.columns[j].cells| && t.columns[j].cells[i].Some? ==>
            r.columns[j].cells[i] == t.columns[j].cells[i]
      ensures t.columns[j].name !in sel ==> r.columns[j] == t.columns[j]
    {
      AfterLoopColumn(t, how, sel, lib, j);
      ImputeColumnSound(t.columns[j], how, lib, |t.index|);
      if t.columns[j].name !in sel {
        assert t.columns[j].name !in sel[..k];
      }
    }
    SameNames(t.columns, r.columns);
  }

  // ---------------------------------------------------------------------
  // Fill with mean / median
  // ---------------------------------------------------------------------

  /** Mean and median never stop the loop. */
  lemma StatisticReachesAll(t: Table, stat: Statistic, sel: seq<string>, lib: Library)
    requires AllPresent(t, sel)
    ensures Reached(t, BodyOf(ByStatistic(stat), lib), sel) == |sel|
  {
    ReachedFirstStop(t, BodyOf(ByStatistic(stat), lib), sel);
  }

  /** A selected column's warning is among the warnings of the passes over
      the selection, when the loop reaches it. */
  lemma {:induction false} SkippedWarned(t: Table, body: Column -> Step, sel: seq<string>, k: nat, j: nat)
    requires DistinctNames(t.columns) && AllPresent(t, sel) && k <= |sel| && j < |t.columns|
    requires t.columns[j].name in sel[..k] && body(t.columns[j]).Skipped?
    ensures body(t.columns[j]).warning in Warnings(t, body, sel, k)
  {
    WarningsContent(t, body, sel, k);
    var i :| 0 <= i < k && sel[..k][i] == t.columns[j].name;
    StepForColumn(t, body, j);
    assert StepFor(t, body, sel[i]) == Skipped(body(t.columns[j]).warning);
  }

  /** Every warning of the passes over the selection is the warning of a
      selected column that the body skipped. */
  lemma {:induction false} WarningFromColumn(t: Table, body: Column -> Step, sel: seq<string>, k: nat, m: Message)
    requires DistinctNames(t.columns) && AllPresent(t, sel) && k <= |sel|
    requires m in Warnings(t, body, sel, k)
    ensures exists j :: 0 <= j < |t.columns| && t.columns[j].name in sel[..k] && body(t.columns[j]) == Skipped(m)
  {
    WarningsContent(t, body, sel, k);
    var i :| 0 <= i < k && StepFor(t, body, sel[i]) == Skipped(m);
    var j := IndexOf(t.columns, sel[i]);
    assert sel[..k][i] == sel[i];
  }

  /** The log of a mean or median fill: one "not numerical" warning per
      selected column that is not numeric, then the success message. */
  lemma {:induction false} ImputeByStatisticLog(t: Table, stat: Statistic, sel: seq<string>, lib: Library)
    requires DistinctNames(t.columns) && AllPresent(t, sel) && Distinct(sel)
    ensures var log := ImputeLoop(t, ByStatistic(stat), sel, lib).log;
      && |log| > 0 && log[|log| - 1] == ImputationApplied
      && (forall i :: 0 <= i < |log| - 1 ==>
            exists j :: 0 <= j < |t.columns| && t.columns[j].name in sel && t.columns[j].kind != Numeric
                        && log[i] == NotNumerical(t.columns[j].name, stat))
      && (forall j :: 0 <= j < |t.columns| && t.columns[j].name in sel && t.columns[j].kind != Numeric ==>
            NotNumerical(t.columns[j].name, stat) in log)
  {
    var how := ByStatistic(stat);
    var body := BodyOf(how, lib);
    var log := ImputeLoop(t, how, sel, lib).log;
    BodyKeepsNames(how, lib);
    RunLoopLog(t, body, sel);
    StatisticReachesAll(t, stat, sel, lib);
    var w := Warnings(t, body, sel, |sel|);
    assert log == w + [ImputationApplied];
    assert sel[..|sel|] == sel;
    StatisticWarnings(t, stat, sel, lib);
    assert forall i :: 0 <= i < |log| - 1 ==> log[i] == w[i] && w[i] in w;
    forall j | 0 <= j < |t.columns| && t.columns[j].name in sel && t.columns[j].kind != Numeric
      ensures NotNumerical(t.columns[j].name, stat) in log
    {
      SkippedWarned(t, body, sel, |sel|, j);
    }
  }

  /** Every warning of a mean or median fill names a selected column that is not numeric. */
  lemma {:induction false} StatisticWarnings(t: Table, stat: Statistic, sel: seq<string>, lib: Library)
    requires DistinctNames(t.columns) && AllPresent(t, sel)
    ensures forall m :: m in Warnings(t, BodyOf(ByStatistic(stat), lib), sel, |sel|) ==>
      exists j :: 0 <= j < |t.columns| && t.columns[j].name in sel && t.columns[j].kind != Numeric
                  && m == NotNumerical(t.columns[j].name, stat)
  {
    forall m | m in Warnings(t, BodyOf(ByStatistic(stat), lib), sel, |sel|)
      ensures exists j :: 0 <= j < |t.columns| && t.columns[j].name in sel && t.columns[j].kind != Numeric
                          && m == NotNumerical(t.columns[j].name, stat)
    {
      WarningFromColumn(t, BodyOf(ByStatistic(stat), lib), sel, |sel|, m);
      assert sel[..|sel|] == sel;
    }
  }

  /** The table after a mean or median fill: every selected numeric column
      that has a value gets the statistic in each of its nulls and stays
      numeric; a selected column that is not numeric, or has no value at all,
      stays as it was. */
  lemma {:induction false} ImputeByStatisticTable(t: Table, stat: Statistic, sel: seq<string>, lib: Library)
    requires WellFormed(t) && AllPresent(t, sel) && Distinct(sel)
    ensures var r := ImputeLoop(t, ByStatistic(stat), sel, lib).table;
      && WellFormed(r) && r.index == t.index && |r.columns| == |t.columns|
      && forall j :: 0 <= j < |t.columns| && t.columns[j].name in sel ==>
           var c := t.columns[j];
           var d := r.columns[j];
           && (c.kind != Numeric || AllNull(c.cells) ==> d == c)
           && (c.kind == Numeric && !AllNull(c.cells) ==>
                 && d.kind == Numeric
                 && NullCount(d.cells) == 0
                 && forall i :: 0 <= i < |c.cells| && c.cells[i].None? ==> d.cells[i] == Some(Num(StatValue(stat, lib, c.cells))))
  {
    var r := ImputeLoop(t, ByStatistic(stat), sel, lib).table;
    StatisticReachesAll(t, stat, sel, lib);
    ImputeLoopSound(t, ByStatistic(stat), sel, lib);
    assert sel[..|sel|] == sel;
    forall j | 0 <= j < |t.columns| && t.columns[j].name in sel
      ensures var c := t.columns[j];
           var d := r.columns[j];
           && (c.kind != Numeric || AllNull(c.cells) ==> d == c)
           && (c.kind == Numeric && !AllNull(c.cells) ==>
                 && d.kind == Numeric
                 && NullCount(d.cells) == 0
                 && forall i :: 0 <= i < |c.cells| && c.cells[i].None? ==> d.cells[i] == Some(Num(StatValue(stat, lib, c.cells))))
    {
      AfterLoopColumn(t, ByStatistic(stat), sel, lib, j);
      var c := t.columns[j];
      if c.kind == Numeric && !AllNull(c.cells) {
        FillNullsSound(c, Num(StatValue(stat, lib, c.cells)), |t.index|);
      }
    }
  }

  // ---------------------------------------------------------------------
  // Fill with mode
  // ---------------------------------------------------------------------

  /** Where a mode fill stops: it passes every selected column exactly when
      no selected string column is entirely null, and otherwise stops at such
      a column. */
  lemma {:induction false} ModeStop(t: Table, sel: seq<string>, lib: Library)
    requires DistinctNames(t.columns) && AllPresent(t, sel)
    ensures var k := Reached(t, BodyOf(ByMode, lib), sel);
      && (k == |sel| <==>
            forall j :: 0 <= j < |t.columns| && t.columns[j].name in sel && t.columns[j].kind == Text ==>
              !AllNull(t.columns[j].cells))
      && (k < |sel| ==>
            forall j :: 0 <= j < |t.columns| && t.columns[j].name == sel[k] ==>
              t.columns[j].kind == Text && AllNull(t.columns[j].cells))
  {
    var body := BodyOf(ByMode, lib);
    ReachedFirstStop(t, body, sel);
    var k := Reached(t, body, sel);
    if k == |sel| {
      forall j | 0 <= j < |t.columns| && t.columns[j].name in sel && t.columns[j].kind == Text
        ensures !AllNull(t.columns[j].cells)
      {
        var i :| 0 <= i < |sel| && sel[i] == t.columns[j].name;
        StepForColumn(t, body, j);
      }
    } else {
      forall j | 0 <= j < |t.columns| && t.columns[j].name == sel[k]
        ensures t.columns[j].kind == Text && AllNull(t.columns[j].cells)
      {
        StepForColumn(t, body, j);
      }
    }
  }

  /** The log of a mode fill: "not categorical" warnings for selected columns
      that are not string columns, then the success message exactly when no
      selected string column is entirely null; otherwise the run ends with the
      uncaught error of such a column and no success message. */
  lemma {:induction false} ImputeByModeLog(t: Table, sel: seq<string>, lib: Library)
    requires DistinctNames(t.columns) && AllPresent(t, sel) && Distinct(sel)
    ensures var log := ImputeLoop(t, ByMode, sel, lib).log;
      && |log| > 0
      && (log[|log| - 1] == ImputationApplied <==>
            forall j :: 0 <= j < |t.columns| && t.columns[j].name in sel && t.columns[j].kind == Text ==>
              !AllNull(t.columns[j].cells))
      && (log[|log| - 1] != ImputationApplied ==>
            exists j :: 0 <= j < |t.columns| && t.columns[j].name in sel && t.columns[j].kind == Text
                        && AllNull(t.columns[j].cells) && log[|log| - 1] == ModeLookupError(t.columns[j].name))
      && (forall i :: 0 <= i < |log| - 1 ==>
            exists j :: 0 <= j < |t.columns| && t.columns[j].name in sel && t.columns[j].kind != Text
                        && log[i] == NotCategorical(t.columns[j].name))
  {
    var body := BodyOf(ByMode, lib);
    var log := ImputeLoop(t, ByMode, sel, lib).log;
    BodyKeepsNames(ByMode, lib);
    RunLoopLog(t, body, sel);
    ModeStop(t, sel, lib);
    var k := Reached(t, body, sel);
    var w := Warnings(t, body, sel, k);
    assert log == w + Closing(t, body, sel, k);
    if k < |sel| {
      assert sel[k] in sel;
      var j := IndexOf(t.columns, sel[k]);
      assert t.columns[j].name in sel;
    }
    ModeWarnings(t, sel, lib, k);
    assert forall i :: 0 <= i < |log| - 1 ==> log[i] == w[i] && w[i] in w;
  }

  /** A warning of a mode fill names a selected column that is not a string column. */
  lemma {:induction false} ModeWarning(t: Table, sel: seq<string>, lib: Library, k: nat, m: Message)
    requires DistinctNames(t.columns) && AllPresent(t, sel) && k <= |sel|
    requires m in Warnings(t, BodyOf(ByMode, lib), sel, k)
    ensures exists j :: 0 <= j < |t.columns| && t.columns[j].name in sel && t.columns[j].kind != Text
                        && m == NotCategorical(t.columns[j].name)
  {
    WarningFromColumn(t, BodyOf(ByMode, lib), sel, k, m);
    var j :| 0 <= j < |t.columns| && t.columns[j].name in sel[..k]
             && BodyOf(ByMode, lib)(t.columns[j]) == Skipped(m);
    assert ImputeColumn(t.columns[j], ByMode, lib) == Skipped(m);
    var i :| 0 <= i < k && sel[..k][i] == t.columns[j].name;
    assert sel[i] == t.columns[j].name;
  }

  /** Every warning of a mode fill names a selected column that is not a string column. */
  lemma {:induction false} ModeWarnings(t: Table, sel: seq<string>, lib: Library, k: nat)
    requires DistinctNames(t.columns) && AllPresent(t, sel) && k <= |sel|
    ensures forall m :: m in Warnings(t, BodyOf(ByMode, lib), sel, k) ==>
      exists j :: 0 <= j < |t.columns| && t.columns[j].name in sel && t.columns[j].kind != Text
                  && m == NotCategorical(t.columns[j].name)
  {
    forall m | m in Warnings(t, BodyOf(ByMode, lib), sel, k)
      ensures exists j :: 0 <= j < |t.columns| && t.columns[j].name in sel && t.columns[j].kind != Text
                          && m == NotCategorical(t.columns[j].name)
    {
      ModeWarning(t, sel, lib, k, m);
    }
  }

  /** The table after a mode fill: every selected string column the loop
      reached gets the column's mode, a value of greatest frequency, in each of
      its nulls; every other column, including those after an uncaught error,
      stays as it was. */
  lemma {:induction false} ImputeByModeTable(t: Table, sel: seq<string>, lib: Library)
    requires WellFormed(t) && AllPresent(t, sel) && Distinct(sel)
    ensures var r := ImputeLoop(t, ByMode, sel, lib).table;
      var k := Reached(t, BodyOf(ByMode, lib), sel);
      && WellFormed(r) && r.index == t.index && |r.columns| == |t.columns|
      && forall j :: 0 <= j < |t.columns| ==>
           var c := t.columns[j];
           var d := r.columns[j];
           && (c.name in sel[..k] && c.kind == Text ==>
                 && Mode(c.cells).Some?
                 && d.kind == Text
                 && NullCount(d.cells) == 0
                 && forall i :: 0 <= i < |c.cells| && c.cells[i].None? ==> d.cells[i] == Some(Mode(c.cells).value))
           && (c.name !in sel[..k] || c.kind != Text ==> d == c)
  {
    ImputeLoopSound(t, ByMode, sel, lib);
    forall j | 0 <= j < |t.columns| {
      ModeColumn(t, sel, lib, j);
    }
  }

  /** Column `j` after a mode fill. */
  lemma {:induction false} ModeColumn(t: Table, sel: seq<string>, lib: Library, j: nat)
    requires WellFormed(t) && AllPresent(t, sel) && Distinct(sel) && j < |t.columns|
    ensures var r := ImputeLoop(t, ByMode, sel, lib).table;
      var k := Reached(t, BodyOf(ByMode, lib), sel);
      var c := t.columns[j];
      && WellFormed(r) && r.index == t.index && |r.columns| == |t.columns|
      && (c.name in sel[..k] && c.kind == Text ==>
            var d := r.columns[j];
            && Mode(c.cells).Some?
            && d.kind == Text
            && NullCount(d.cells) == 0
            && forall i :: 0 <= i < |c.cells| && c.cells[i].None? ==> d.cells[i] == Some(Mode(c.cells).value))
      && (c.name !in sel[..k] || c.kind != Text ==> r.columns[j] == c)
  {
    var body := BodyOf(ByMode, lib);
    var k := Reached(t, body, sel);
    ImputeLoopSound(t, ByMode, sel, lib);
    AfterLoopColumn(t, ByMode, sel, lib, j);
    var c := t.columns[j];
    if c.name in sel[..k] && c.kind == Text {
      ReachedFirstStop(t, body, sel);
      var i :| 0 <= i < k && sel[..k][i] == c.name;
      assert sel[i] == c.name;
      StepForColumn(t, body, j);
      FillNullsSound(c, Mode(c.cells).value, |t.index|);
    }
  }

  // ---------------------------------------------------------------------
  // Fill with a specific value
  // ---------------------------------------------------------------------

  /** Where a specific-value fill stops: no column the loop passed rejected
      the fill, and the loop stops at the first selected column for which the
      text does not convert or `fillna` rejects the converted value. */
  lemma {:induction false} ValueStop(t: Table, text: string, sel: seq<string>, lib: Library)
    requires DistinctNames(t.columns) && AllPresent(t, sel)
    ensures var k := Reached(t, BodyOf(ByValue(text), lib), sel);
      && (forall j :: 0 <= j < |t.columns| && t.columns[j].name in sel[..k] ==> !Rejects(t.columns[j], text, lib))
      && (k < |sel| ==>
            forall j :: 0 <= j < |t.columns| && t.columns[j].name == sel[k] ==> Rejects(t.columns[j], text, lib))
  {
    var body := BodyOf(ByValue(text), lib);
    ReachedFirstStop(t, body, sel);
    var k := Reached(t, body, sel);
    forall j | 0 <= j < |t.columns| && t.columns[j].name in sel[..k]
      ensures !Rejects(t.columns[j], text, lib)
    {
      var i :| 0 <= i < k && sel[..k][i] == t.columns[j].name;
      assert sel[i] == t.columns[j].name;
      StepForColumn(t, body, j);
    }
    if k < |sel| {
      forall j | 0 <= j < |t.columns| && t.columns[j].name == sel[k]
        ensures Rejects(t.columns[j], text, lib)
      {
        StepForColumn(t, body, j);
      }
    }
  }

  /** The log of a specific-value fill: never a warning; the error message
      precedes the success message exactly when some selected column rejects
      the fill. A text that converts to NaN never fails and shows success alone. */
  lemma {:induction false} ImputeByValueLog(t: Table, text: string, sel: seq<string>, lib: Library)
    requires DistinctNames(t.columns) && AllPresent(t, sel) && Distinct(sel)
    ensures var log := ImputeLoop(t, ByValue(text), sel, lib).log;
      && (log == [ImputationApplied] || log == [InvalidFillValue, ImputationApplied])
      && (log == [ImputationApplied] <==>
            forall j :: 0 <= j < |t.columns| && t.columns[j].name in sel ==> !Rejects(t.columns[j], text, lib))
      && (lib.toNumeric(text).AsMissing? ==> log == [ImputationApplied])
  {
    var body := BodyOf(ByValue(text), lib);
    var log := ImputeLoop(t, ByValue(text), sel, lib).log;
    BodyKeepsNames(ByValue(text), lib);
    RunLoopLog(t, body, sel);
    ValueStop(t, text, sel, lib);
    var k := Reached(t, body, sel);
    WarningsNone(t, body, sel, k);
    assert log == Closing(t, body, sel, k);
    if k == |sel| {
      assert sel[..k] == sel;
    } else {
      var j := IndexOf(t.columns, sel[k]);
      assert t.columns[j].name in sel;
    }
  }

  /** The table after a specific-value fill: the loop fills, with the
      converted value, the selected columns before the first one whose fill
      raises, keeps those fills after the `break`, and leaves every other
      column as it was; a text that converts to NaN or does not convert at
      all changes nothing. */
  lemma {:induction false} ImputeByValueTable(t: Table, text: string, sel: seq<string>, lib: Library)
    requires WellFormed(t) && AllPresent(t, sel) && Distinct(sel)
    ensures var r := ImputeLoop(t, ByValue(text), sel, lib).table;
      var k := Reached(t, BodyOf(ByValue(text), lib), sel);
      var v := Converted(text, lib);
      && WellFormed(r) && r.index == t.index && |r.columns| == |t.columns|
      && (forall j :: 0 <= j < |t.columns| && t.columns[j].name in sel[..k] && v.Some? ==>
            r.columns[j] == FillNulls(t.columns[j], v.value))
      && (forall j :: 0 <= j < |t.columns| && t.columns[j].name !in sel[..k] ==> r.columns[j] == t.columns[j])
      && (v.None? ==> r == t)
  {
    var r := ImputeLoop(t, ByValue(text), sel, lib).table;
    ImputeLoopSound(t, ByValue(text), sel, lib);
    forall j | 0 <= j < |t.columns| {
      ValueColumn(t, text, sel, lib, j);
    }
    if Converted(text, lib).None? {
      assert r.columns == t.columns;
    }
  }

  /** Column `j` after a specific-value fill: filled with the converted value
      if the loop passed it, and as it was otherwise or when the value is NaN
      or the conversion failed. */
  lemma {:induction false} ValueColumn(t: Table, text: string, sel: seq<string>, lib: Library, j: nat)
    requires WellFormed(t) && AllPresent(t, sel) && Distinct(sel) && j < |t.columns|
    ensures var r := ImputeLoop(t, ByValue(text), sel, lib).table;
      var k := Reached(t, BodyOf(ByValue(text), lib), sel);
      var v := Converted(text, lib);
      && |r.columns| == |t.columns|
      && (t.columns[j].name in sel[..k] && v.Some? ==> r.columns[j] == FillNulls(t.columns[j], v.value))
      && (t.columns[j].name !in sel[..k] || v.None? ==> r.columns[j] == t.columns[j])
  {
    ValueStop(t, text, sel, lib);
    AfterLoopColumn(t, ByValue(text), sel, lib, j);
  }
}
