/** The row selection behind the scatter chart of concentration against
    sampling date, one facet per water-body type. */
module Scatter {

  import opened Wrappers
  import opened Sequences
  import opened Samples

  /** A row can be plotted when its concentration, date and type are all
      present. */
  predicate Plottable(r: Row) {
    r.arsenic.Some? && r.sampledOn.Some? && r.waterType.Some?
  }

  /** The rows handed to the scatter chart. */
  function ScatterRows(rows: seq<Row>): (kept: seq<Row>)
    ensures |kept| <= |rows|
    ensures forall r :: r in kept <==> r in rows && Plottable(r)
    ensures forall i :: 0 <= i < |kept| ==>
      kept[i].arsenic.Some? && kept[i].sampledOn.Some? && kept[i].waterType.Some?
  {
    FilterMembers(Plottable, rows);
    Filter(Plottable, rows)
  }

  /** The selection keeps the relative order of the rows: the kept rows of a
      prefix precede the kept rows of the remainder. */
  lemma ScatterRowsKeepOrder(a: seq<Row>, b: seq<Row>)
    ensures ScatterRows(a + b) == ScatterRows(a) + ScatterRows(b)
  {
    FilterAppend(Plottable, a, b);
  }

  /** A complete row is kept as many times as it occurs; an incomplete one is
      never kept. */
  lemma ScatterRowsMultiplicity(rows: seq<Row>, r: Row)
    ensures multiset(ScatterRows(rows))[r] == if Plottable(r) then multiset(rows)[r] else 0
  {
    FilterMultiplicity(Plottable, rows, r);
  }

}
