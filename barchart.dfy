/** The bar chart built from the annual table: the pivot with one row per
    year and one column per water-body type, the per-bar values and labels,
    and the choice between drawing a type's panel and reporting it missing. */
module BarChart {

  import opened Wrappers
  import opened Samples
  import opened Exceedance
  import Decimal

  /** One cell of the pivot: the pair (`total`, `proporcion_exceso`). */
  datatype Cell = Cell(total: nat, proporcion: real)

  /** The unstacked table: `years` is the row index, `types` the second
      level of the column index, `cells` the non-missing (year, type) cells.
      Bars are placed by the value of their year, so the order of the row
      index is not recorded. */
  datatype Pivot = Pivot(years: set<int>, types: set<string>, cells: map<Key, Cell>)

  /** What the source relies on when it divides and scales: no cell of an
      aggregated table stands for an empty group. */
  predicate WellFormed(p: Pivot) {
    forall k :: k in p.cells ==> 1 <= p.cells[k].total && 0.0 <= p.cells[k].proporcion <= 1.0
  }

  predicate NoEmptyGroups(table: map<Key, Group>) {
    forall k :: k in table ==> 1 <= table[k].total && table[k].exceden <= table[k].total
  }

  function YearsOf(table: map<Key, Group>): set<int> {
    set k | k in table :: k.0
  }

  function TypesOf(table: map<Key, Group>): set<string> {
    set k | k in table :: k.1
  }

  /** `unstack('sub_o_sup')`: the same records, reshaped into cells; a
      (year, type) cell is present exactly when that group exists. */
  function Unstack(table: map<Key, Group>): (p: Pivot)
    requires NoEmptyGroups(table)
    ensures WellFormed(p)
    ensures forall k :: k in p.cells <==> k in table
    ensures forall k :: k in table ==>
      p.cells[k] == Cell(table[k].total, ProportionExceso(table[k]))
  {
    Pivot(
      YearsOf(table),
      TypesOf(table),
      map k | k in table :: Cell(table[k].total, ProportionExceso(table[k])))
  }

  /** The row index holds the years, and the column index the types, that
      occur together in some key of the table. */
  lemma UnstackIndex(table: map<Key, Group>)
    requires NoEmptyGroups(table)
    ensures forall y :: y in Unstack(table).years <==> exists t :: (y, t) in table
    ensures forall t :: t in Unstack(table).types <==> exists y :: (y, t) in table
  {
    forall y | y in YearsOf(table) ensures exists t :: (y, t) in table {
      var k :| k in table && k.0 == y;
      var t := k.1;
      assert (y, t) in table;
    }
    forall t | t in TypesOf(table) ensures exists y :: (y, t) in table {
      var k :| k in table && k.1 == t;
      var y := k.0;
      assert (y, t) in table;
    }
  }

  /** `pivot`: the annual table unstacked; its cells all lie in the study
      period and none stands for an empty group. */
  function AnnualPivot(rows: seq<Row>): (p: Pivot)
    ensures WellFormed(p)
    ensures forall k :: k in p.cells ==> FirstYear <= k.0 <= LastYear
  {
    Unstack(AnnualExceedance(rows))
  }

  /** A cell of the pivot, or `None` where the frame holds NaN. */
  function Lookup(p: Pivot, year: int, t: string): (c: Option<Cell>)
    ensures c.Some? <==> (year, t) in p.cells
    ensures c.Some? ==> c.value == p.cells[(year, t)]
  {
    if (year, t) in p.cells then Some(p.cells[(year, t)]) else None
  }

  /** `s` reads "n=" followed by the decimal digits of `n`, written as
      Python writes an integer: no sign and no leading zero. */
  predicate ShowsCount(s: string, n: nat) {
    && |s| > 2
    && s[..2] == "n="
    && Decimal.Canonical(s[2..])
    && Decimal.Value(s[2..]) == n
  }

  /** There is exactly one label for each count: the text `f"n={t}"`. */
  lemma ShowsCountUnique(s: string, n: nat)
    requires ShowsCount(s, n)
    ensures s == "n=" + Decimal.FromNat(n)
  {
    Decimal.FromNatValue(s[2..]);
    assert s == s[..2] + s[2..];
  }

  /** The text above one bar: empty for a missing cell, otherwise "n="
      followed by the decimal digits of the cell's total. */
  function Label(c: Option<Cell>): (s: string)
    ensures s == "" <==> c.None?
    ensures c.Some? ==> ShowsCount(s, c.value.total)
  {
    match c
    case None => ""
    case Some(cell) =>
      var digits := Decimal.FromNat(cell.total);
      Decimal.ValueFromNat(cell.total);
      assert ("n=" + digits)[2..] == digits;
      "n=" + digits
  }

  /** `txt_vals`: the label of each year's bar. */
  function BarLabels(p: Pivot, t: string): (labels: map<int, string>)
    ensures labels.Keys == p.years
    ensures forall y :: y in labels ==> (labels[y] == "" <==> (y, t) !in p.cells)
    ensures forall y :: y in labels && (y, t) in p.cells ==> ShowsCount(labels[y], p.cells[(y, t)].total)
  {
    map y | y in p.years :: Label(Lookup(p, y, t))
  }

  /** `y_vals`: the percentage of exceeding samples of each year, missing
      where the cell is missing. */
  function BarPercents(p: Pivot, t: string): (ys: map<int, Option<real>>)
    ensures ys.Keys == p.years
    ensures forall y :: y in ys ==> (ys[y].Some? <==> (y, t) in p.cells)
    ensures forall y :: y in ys && (y, t) in p.cells ==> ys[y] == Some(p.cells[(y, t)].proporcion * 100.0)
    ensures WellFormed(p) ==> forall y :: y in ys && ys[y].Some? ==> 0.0 <= ys[y].value <= 100.0
  {
    map y | y in p.years ::
      match Lookup(p, y, t)
      case None => None
      case Some(c) => Some(c.proporcion * 100.0)
  }

  /** One subplot: the bars of a type, or the warning printed instead of
      them, which names the type and the types that were found. */
  datatype Panel =
    | Bars(waterType: string, percents: map<int, Option<real>>, labels: map<int, string>)
    | NotFound(waterType: string, available: set<string>)

  /** `add_bar` when the type is a column of the pivot, the warning
      otherwise. */
  function PanelFor(p: Pivot, t: string): (panel: Panel)
    ensures panel.waterType == t
    ensures panel.Bars? <==> t in p.types
    ensures panel.NotFound? ==> panel.available == p.types
    ensures panel.Bars? ==> panel.percents.Keys == panel.labels.Keys == p.years
  {
    if t in p.types then Bars(t, BarPercents(p, t), BarLabels(p, t))
    else NotFound(t, p.types)
  }

  /** The two panels, groundwater first, surface water second. */
  function BarChart(rows: seq<Row>): (panels: seq<Panel>)
    ensures |panels| == 2
    ensures panels[0].waterType == Groundwater && panels[1].waterType == Surface
  {
    var p := AnnualPivot(rows);
    [PanelFor(p, Groundwater), PanelFor(p, Surface)]
  }

  /** Some row with a concentration, sampled in 2012..2024, has type `t`. */
  predicate SurvivorOfType(rows: seq<Row>, t: string) {
    exists r :: r in rows && HasArsenic(r) && InStudyPeriod(r) && r.waterType == Some(t)
  }

  /** A (year, type) cell of the pivot is present exactly when some row with
      a concentration, sampled in 2012..2024, has that year and type. */
  lemma PivotCellPresent(rows: seq<Row>, y: int, t: string)
    ensures Lookup(AnnualPivot(rows), y, t).Some? <==>
      exists r :: r in rows && HasArsenic(r) && InStudyPeriod(r) && r.year == y && r.waterType == Some(t)
  {
    AnnualExceedanceKeys(rows);
    var k := (y, t);
    forall r | r in rows
      ensures KeyOf(r) == Some(k) <==> r.year == y && r.waterType == Some(t)
    {
      KeyOfIs(r, y, t);
    }
  }

  /** `t` is a column of the pivot exactly when some surviving row has type
      `t`. */
  lemma PivotHasType(rows: seq<Row>, t: string)
    ensures t in AnnualPivot(rows).types <==> SurvivorOfType(rows, t)
  {
    var table := AnnualExceedance(rows);
    AnnualExceedanceKeys(rows);
    UnstackIndex(table);
    if SurvivorOfType(rows, t) {
      var r :| r in rows && HasArsenic(r) && InStudyPeriod(r) && r.waterType == Some(t);
      KeyOfIs(r, r.year, t);
      assert (r.year, t) in table;
    }
    if t in AnnualPivot(rows).types {
      var y :| (y, t) in table;
      var r :| r in rows && HasArsenic(r) && InStudyPeriod(r) && KeyOf(r) == Some((y, t));
      KeyOfIs(r, y, t);
    }
  }

  /** A type's panel is drawn exactly when some surviving row has that type;
      otherwise the warning lists exactly the types that do occur. */
  lemma PanelsDrawnIffTypePresent(rows: seq<Row>)
    ensures BarChart(rows)[0].Bars? <==> SurvivorOfType(rows, Groundwater)
    ensures BarChart(rows)[1].Bars? <==> SurvivorOfType(rows, Surface)
    ensures forall i :: 0 <= i < 2 && BarChart(rows)[i].NotFound? ==>
      forall t :: t in BarChart(rows)[i].available <==> SurvivorOfType(rows, t)
  {
    forall t ensures t in AnnualPivot(rows).types <==> SurvivorOfType(rows, t) {
      PivotHasType(rows, t);
    }
  }

  /** A drawn panel shows, for each year of the pivot, the figures of the
      table: where the cell exists the label reads the group's `total` and
      the bar height is the group's `proporcion_exceso` as a percentage;
      where it does not, the label is empty and there is no bar. */
  lemma PanelShowsTable(table: map<Key, Group>, t: string, y: int)
    requires NoEmptyGroups(table)
    requires PanelFor(Unstack(table), t).Bars?
    requires y in PanelFor(Unstack(table), t).labels
    ensures var panel := PanelFor(Unstack(table), t);
      if (y, t) in table then
        && ShowsCount(panel.labels[y], table[(y, t)].total)
        && panel.percents[y] == Some(ProportionExceso(table[(y, t)]) * 100.0)
      else
        panel.labels[y] == "" && panel.percents[y] == None
  {
    var p := Unstack(table);
    var k := (y, t);
    assert PanelFor(p, t) == Bars(t, BarPercents(p, t), BarLabels(p, t));
    if k in table {
      assert k in p.cells && p.cells[k] == Cell(table[k].total, ProportionExceso(table[k]));
      assert Lookup(p, y, t) == Some(p.cells[k]);
    } else {
      assert Lookup(p, y, t) == None;
    }
  }

}
