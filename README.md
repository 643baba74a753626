# Arsenic in Mexican water bodies: annual exceedance model

This project models the computations behind the dashboard's arsenic
charts. The dashboard works on a table of water samples. Each sample has:

- an arsenic concentration (`as_tot_float`);
- a sampling date (`fecha_realizacion_dt`);
- a water-body type (`sub_o_sup`, groundwater "Subterránea" or surface
  water "Superficial");
- a year (`ano`);
- the NOM-127-SSA1-2021 exceedance flag (`supNOM127SSA12021_As`).

What is modelled:

- **The annual exceedance table** (`tabla_excesos_anual`). It drops rows
  without a concentration and keeps the years 2012..2024. It groups the
  survivors by (year, type). Each group gets its size (`total`) and the
  number of rows flagged exactly 1 (`exceden`). From those it derives
  `proporcion_exceso = exceden / total`.
- **The pivot.** The table is unstacked so that years are rows and types
  are columns.
- **The bar values and labels** of one type's panel. The bar height is the
  proportion as a percentage. The label is `n=<total>`, or empty where the
  cell is missing.
- **The choice per panel.** A panel is either drawn, or a warning names the
  missing type and the types that are available.
- **The scatter chart's row selection.** It keeps the rows with a
  concentration, a date and a type.

Modules:

- `Wrappers`: `Option`.
- `Sequences`: order-preserving filtering, the shape of every row filter.
- `Samples`: the row and the study constants.
- `Exceedance`: the table and its proofs.
- `Decimal`: the digits of a count.
- `BarChart`: the pivot and the panels.
- `Scatter`: the scatter selection.

The whole modelled part is a chain of data-frame expressions without state.
So it is written as functions over `seq<Row>` and maps, with lemmas.

The table is specified by a group-by (`Tabulate`, one record per key built
from the key's members). It is then tied, by lemmas, to:

- a row-at-a-time characterisation: appending one row bumps exactly its own
  group's record;
- the filters that come before it;
- the sums over all records;
- the pivot and the panels built from it.

## Model

| member | source | states |
|---|---|---|
| Scatter.ScatterRows | app.py:95-96 | the scatter data keeps a row iff its concentration, date and type are all present, and every kept row has all three |
| Scatter.ScatterRowsKeepOrder | app.py:95-96 | the selection preserves row order: selecting from a concatenation concatenates the selections |
| Scatter.ScatterRowsMultiplicity | app.py:95-96 | a complete row is kept exactly as many times as it occurs, an incomplete one never |
| Exceedance.Survivors | app.py:134-136 | every row left after `dropna` and the year query has a concentration and a year in 2012..2024, and there are no more of them than input rows |
| Exceedance.SurvivorsMembers | app.py:134-136 | a row survives iff it has a concentration and its year lies in 2012..2024 |
| Exceedance.SurvivorsAppend | app.py:134-136 | the filters work row by row and keep the order: the survivors of a concatenation are the concatenated survivors |
| Exceedance.ExcludedRowContributesNothing | app.py:134-141 | inserting a row with no concentration, or with a year outside 2012..2024 (such as 2025), anywhere in the input leaves the whole table unchanged |
| Exceedance.KeyOfIs | app.py:137 | a row falls into group (y, t) iff its year is y and its type is t; a row without a type falls into no group |
| Samples.Exceeds | app.py:140 | a row counts towards `exceden` exactly when its flag equals 1; a flag of 0, any other value or a missing flag does not count |
| Exceedance.MembersOfPresentKey | app.py:137-139 | every key that some row carries has at least one member |
| Exceedance.MembersNonEmpty | app.py:137-139 | a group has members exactly when some row carries its key |
| Exceedance.Record | app.py:138-141 | the aggregated record of a group: `total` is the count of its rows and `exceden` the count of those flagged 1; `exceden <= total`, and `total >= 1` exactly when some row carries the key |
| Exceedance.Tabulate | app.py:137-141 | every record of the group-by has `total >= 1` and `0 <= exceden <= total` |
| Exceedance.TabulateKeys | app.py:137 | a group exists iff some row carries its (year, type) key |
| Exceedance.KeysOfAppendRow | app.py:137 | appending a row adds its key to the set of group keys, or nothing when it has no type |
| Exceedance.MembersOfAbsentKey | app.py:137 | a key that no row carries has no members |
| Exceedance.RecordAppendRow | app.py:137-141 | appending a row raises its own group's `total` by one, and its `exceden` by one exactly when the flag equals 1; every other group's record is unchanged |
| Exceedance.TabulateAppendRow | app.py:137-141 | appending a typed row changes the table only at its own key: a new record (1, flag==1) or the old one bumped |
| Exceedance.TabulateAppendUntypedRow | app.py:137 | a row with a missing type changes no group |
| Exceedance.TabulateSingleRow | app.py:137-141 | one typed row makes a table of one record with total 1, and exceden 1 iff its flag is 1 |
| Exceedance.TabulateSums | app.py:137-141 | summed over all groups, `total` equals the number of typed rows and `exceden` the number of typed rows flagged exactly 1 |
| Exceedance.AnnualExceedance | app.py:133-141 | every record of `tabla_excesos_anual` has a year in 2012..2024, `total >= 1` and `exceden <= total` |
| Exceedance.AnnualExceedanceKeys | app.py:133-137 | a (year, type) record exists iff some row with a concentration, sampled in 2012..2024, has that key |
| Exceedance.AnnualExceedanceSums | app.py:135-141 | the totals of the annual table add up to the number of rows that pass the concentration and year filters and have a type; the `exceden` values add up to how many of those are flagged 1 |
| Exceedance.ProportionExceso | app.py:143-145 | the division never sees a zero total; the proportion lies in [0, 1] and times `total` gives `exceden` exactly |
| Exceedance.TwoGroundwaterSamples2015 | app.py:133-145 | two 2015 "Subterránea" rows flagged 1 and 0 give exactly one record (2015, "Subterránea") with total 2, exceden 1, proportion 1/2 |
| Decimal.FromNat | app.py:161 | a count is written as a canonical numeral: a non-empty string of decimal digits without a leading zero, "0" only for zero |
| Decimal.ValueFromNat | app.py:161 | reading back the digits of a count gives the count |
| Decimal.FromNatValue | app.py:161 | every canonical numeral is the one written for its value, so digits and counts correspond one to one |
| Decimal.FromNatInjective | app.py:161 | distinct counts get distinct labels |
| BarChart.Unstack | app.py:147-150 | after `unstack` a (year, type) cell is present iff that group exists, and it holds the group's total and `proporcion_exceso` |
| BarChart.UnstackIndex | app.py:147-150 | the pivot's rows are the years, and its columns the types, that occur in some group key |
| BarChart.AnnualPivot | app.py:147-150 | `pivot`: the annual table unstacked; every cell lies in 2012..2024, counts at least one sample and has a proportion in [0, 1] |
| BarChart.PivotCellPresent | app.py:133-150 | a pivot cell (y, t) is present iff some row with a concentration, sampled in 2012..2024, has year y and type t |
| BarChart.PivotHasType | app.py:179 | a type is a column of the pivot iff some surviving row has that type |
| BarChart.Lookup | app.py:155-157 | looking up a (year, type) cell gives its value where present and the missing marker (NaN / `<NA>`) otherwise |
| BarChart.Label | app.py:161 | a label is empty iff the cell is missing; otherwise it reads "n=" followed by the canonical decimal digits of the cell's total |
| BarChart.ShowsCountUnique | app.py:161 | the only text that shows a count as a label is exactly `"n=" + str(total)` |
| BarChart.BarLabels | app.py:156-161 | there is one label per pivot year; it is empty iff the cell is missing, and otherwise it shows the cell's total |
| BarChart.BarPercents | app.py:155-160 | there is one bar value per pivot year; it is missing iff the cell is missing, otherwise it is the cell's `proporcion_exceso * 100`, and it lies in [0, 100] |
| BarChart.PanelFor | app.py:179-200 | the panel for a type is drawn iff the type is a pivot column; otherwise the warning names that type and lists exactly the pivot's types |
| BarChart.BarChart | app.py:180-200 | there are two panels, groundwater first and surface water second |
| BarChart.PanelsDrawnIffTypePresent | app.py:179-200 | each panel is drawn iff some row with a concentration, sampled in 2012..2024, has that type; a warning's list of available types is exactly the types of such rows |
| BarChart.PanelShowsTable | app.py:147-161 | a drawn panel's label reads the group's `total` in canonical digits, and its bar is `proporcion_exceso * 100` of the group; where the group does not exist the label is empty and there is no bar |

## Left out

- The Streamlit page, its checkboxes, messages and chart display are left out. They are UI with no computed result.
- Reading the parquet file is left out. It is I/O; the model starts from a sequence of rows.
- The histogram is left out. Its binning is done by Plotly over floating-point bin edges.
- Plotly figure construction, styling, axis ranges, the NOM-127 threshold line and the subplot titles are left out. The panel model records only what each subplot shows (bar heights and labels per year) or the warning printed instead.
- Concentration and date values are opaque. Only their presence is consulted, as in the source.
- Floating-point arithmetic is not modelled. The proportion and the percentage are exact reals.
- The flag is compared with the real 1.0. A flag stored as an integer 1 compares equal in pandas, and the model treats both alike.
- The order of the pivot's rows is not recorded. Bars are placed on the x axis by their year value, so the years are a set.
- The warning is modelled as a value: the missing type plus the set of available types. Its text and the `print` are left out. The list's order follows first appearance in the pivot's columns, which the set does not record.
- The year is an integer. A row whose `ano` is missing would fail the year query and be dropped, which the model does not represent separately.
- Group-by follows default (observed-only) semantics: a key with a missing type forms no group. If `sub_o_sup` were a pandas Categorical with `observed=False`, empty groups with total 0 would appear. That case is not modelled.
- BarChart.BarPercents: the [0, 100] bound is stated only for well-formed pivots, meaning pivots built from a table with no empty group. A pivot from `Unstack` always is one, and `Unstack` ensures it.
- Exceedance.SumBy, the sum over a table's records, is a ghost definition. The source never forms these sums; they exist only to state the counting property.
