/** The missing-value analysis: per-column null counts and percentages, the
    "needs fixing" view and the list of columns a remediation may target. */
module MissingAnalysis {
  import opened Tables
  import opened Ranking

  /** One row of a missing-value report. `percent` is `None` where pandas
      produces NaN (a table with no rows); rounding to two places is not modelled. */
  datatype MissingEntry = MissingEntry(name: string, count: nat, percent: Option<real>)

  function Percent(count: nat, rows: nat): Option<real>
  {
    if rows == 0 then None else Some(count as real / rows as real * 100.0)
  }

  lemma PercentMonotone(c1: nat, c2: nat, rows: nat)
    requires rows > 0 && c1 >= c2
    ensures Percent(c1, rows).value >= Percent(c2, rows).value
  {
    var r := rows as real;
    assert c1 as real / r >= c2 as real / r by {
      assert c1 as real / r - c2 as real / r == (c1 - c2) as real / r;
    }
  }

  function EntryFor(col: Column, rows: nat): MissingEntry
  {
    MissingEntry(col.name, NullCount(col.cells), Percent(NullCount(col.cells), rows))
  }

  function Entries(cs: seq<Column>, rows: nat): (r: seq<MissingEntry>)
    ensures |r| == |cs|
    ensures forall j :: 0 <= j < |cs| ==> r[j] == EntryFor(cs[j], rows)
  {
    if cs == [] then [] else [EntryFor(cs[0], rows)] + Entries(cs[1..], rows)
  }

  lemma PercentRange(count: nat, rows: nat)
    requires 0 < rows && count <= rows
    ensures 0.0 <= Percent(count, rows).value <= 100.0
  {
    PercentMonotone(rows, count, rows);
    assert rows as real / rows as real == 1.0;
  }

  /** The report `isnull().sum()` with its "Percentage" column: one entry per
      column, in table order, each the number of null cells of that column. */
  function MissingReport(t: Table): (r: seq<MissingEntry>)
    requires WellFormed(t)
    ensures |r| == |t.columns|
    ensures forall j :: 0 <= j < |r| ==> r[j].name == t.columns[j].name
    ensures forall j :: 0 <= j < |r| ==> r[j].count == NullCount(t.columns[j].cells) <= Rows(t)
    ensures forall j :: 0 <= j < |r| ==> r[j].percent == Percent(r[j].count, Rows(t))
    ensures forall j :: 0 <= j < |r| ==> (Rows(t) == 0 <==> r[j].percent.None?)
    ensures forall j :: 0 <= j < |r| && r[j].percent.Some? ==> 0.0 <= r[j].percent.value <= 100.0
  {
    var r := Entries(t.columns, Rows(t));
    forall j | 0 <= j < |r| && Rows(t) > 0
      ensures 0.0 <= r[j].percent.value <= 100.0
    {
      assert ColumnFits(t.columns[j], Rows(t));
      PercentRange(r[j].count, Rows(t));
    }
    r
  }

  function Positive(es: seq<MissingEntry>): (r: seq<MissingEntry>)
    ensures forall e :: e in r <==> e in es && e.count > 0
    ensures |r| <= |es|
  {
    if es == [] then []
    else (if es[0].count > 0 then [es[0]] else []) + Positive(es[1..])
  }

  function Count(e: MissingEntry): nat { e.count }

  /** The "needs fixing" view: the report restricted to columns with at least
      one null, largest percentage first. */
  function MissingToFix(t: Table): (r: seq<MissingEntry>)
    requires WellFormed(t)
  {
    SortDesc(Positive(MissingReport(t)), Count)
  }

  /** The view holds exactly the columns with missing count > 0, each once. */
  lemma MissingToFixContents(t: Table)
    requires WellFormed(t)
    ensures var r := MissingToFix(t);
      && (forall j :: 0 <= j < |t.columns| ==>
            (MissingReport(t)[j] in r <==> HasMissing(t.columns[j])))
      && (forall e :: e in r ==> e in MissingReport(t) && e.count > 0)
      && multiset(r) == multiset(Positive(MissingReport(t)))
  {
    var r := MissingToFix(t);
    forall e ensures e in r <==> e in Positive(MissingReport(t)) {
      assert e in r <==> e in multiset(r);
    }
  }

  /** The view is ordered by non-increasing missing percentage, which is also
      non-increasing missing count. */
  lemma MissingToFixOrdered(t: Table)
    requires WellFormed(t)
    ensures var r := MissingToFix(t);
      forall i, j :: 0 <= i < j < |r| ==>
        && r[i].count >= r[j].count
        && r[i].percent.Some? && r[j].percent.Some?
        && r[i].percent.value >= r[j].percent.value
  {
    var r := MissingToFix(t);
    var rep := MissingReport(t);
    MissingToFixContents(t);
    forall i, j | 0 <= i < j < |r|
      ensures r[i].percent.Some? && r[j].percent.Some?
      ensures r[i].percent.value >= r[j].percent.value
    {
      assert Count(r[i]) >= Count(r[j]);
      assert r[i] in r && r[j] in r;
      var a :| 0 <= a < |rep| && rep[a] == r[i];
      var b :| 0 <= b < |rep| && rep[b] == r[j];
      assert Rows(t) > 0;
      PercentMonotone(r[i].count, r[j].count, Rows(t));
    }
  }

  /** `r` lists names of `cs` picked at ascending positions: table order. */
  ghost predicate InColumnOrder(r: seq<string>, cs: seq<Column>)
  {
    exists p: seq<nat> ::
      && |p| == |r|
      && (forall k :: 0 <= k < |p| ==> p[k] < |cs| && cs[p[k]].name == r[k])
      && (forall k, l :: 0 <= k < l < |p| ==> p[k] < p[l])
  }

  function MissingAt(cs: seq<Column>): nat -> bool
  {
    (j: nat) => j < |cs| && HasMissing(cs[j])
  }

  lemma PickedInOrder(cs: seq<Column>, p: seq<nat>)
    requires forall k :: 0 <= k < |p| ==> p[k] < |cs|
    requires forall k, l :: 0 <= k < l < |p| ==> p[k] < p[l]
    ensures InColumnOrder(Pick(Names(cs), p), cs)
  {
    var names := Names(cs);
    var r := Pick(names, p);
    assert forall k :: 0 <= k < |p| ==> r[k] == names[p[k]] == cs[p[k]].name;
  }

  lemma PickedMissing(cs: seq<Column>, p: seq<nat>, n: string)
    requires forall k :: 0 <= k < |p| ==> p[k] < |cs| && HasMissing(cs[p[k]])
    requires n in Pick(Names(cs), p)
    ensures exists j :: 0 <= j < |cs| && cs[j].name == n && HasMissing(cs[j])
  {
    var r := Pick(Names(cs), p);
    var k :| 0 <= k < |r| && r[k] == n;
    var j := p[k];
    assert 0 <= j < |cs| && cs[j].name == n;
  }

  lemma PickedName(cs: seq<Column>, p: seq<nat>, j: nat)
    requires forall k :: 0 <= k < |p| ==> p[k] < |cs|
    requires j in p
    ensures cs[j].name in Pick(Names(cs), p)
  {
    var k :| 0 <= k < |p| && p[k] == j;
    assert Pick(Names(cs), p)[k] == cs[j].name;
  }

  /** The columns a remediation may target (`cols_with_missing`): exactly the
      names of the columns with missing count > 0, in the table's column order. */
  function ColumnsWithMissing(t: Table): (r: seq<string>)
    ensures forall n :: n in r <==> exists j :: 0 <= j < |t.columns| && t.columns[j].name == n && HasMissing(t.columns[j])
    ensures InColumnOrder(r, t.columns)
    ensures |r| <= |t.columns|
  {
    var cs := t.columns;
    var p := Where(|cs|, MissingAt(cs));
    PickedInOrder(cs, p);
    forall n | n in Pick(Names(cs), p) ensures exists j :: 0 <= j < |cs| && cs[j].name == n && HasMissing(cs[j]) {
      PickedMissing(cs, p, n);
    }
    forall j | 0 <= j < |cs| && HasMissing(cs[j]) ensures cs[j].name in Pick(Names(cs), p) {
      WhereComplete(|cs|, MissingAt(cs), 0, j);
      PickedName(cs, p, j);
    }
    Pick(Names(cs), p)
  }
}
