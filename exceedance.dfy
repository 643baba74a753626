/** The annual exceedance table `tabla_excesos_anual`: samples with a
    concentration, taken in 2012..2024, grouped by (year, water-body type),
    with the group size and the number of samples over the NOM-127 limit. */
module Exceedance {

  import opened Wrappers
  import opened Sequences
  import opened Samples

  /** A group key: (year, water-body type). */
  type Key = (int, string)

  /** One record of the table: `total` samples, `exceden` of them flagged. */
  datatype Group = Group(total: nat, exceden: nat)

  /** The group a row falls into; a row without a type falls into none, as
      group-by drops missing keys. */
  function KeyOf(r: Row): Option<Key> {
    match r.waterType
    case None => None
    case Some(t) => Some((r.year, t))
  }

  /** A row's key is its year and its type. */
  lemma KeyOfIs(r: Row, y: int, t: string)
    ensures KeyOf(r) == Some((y, t)) <==> r.year == y && r.waterType == Some(t)
  {
  }

  /** The rows that survive the missing-concentration and year filters,
      in their original order. */
  function Survivors(rows: seq<Row>): (s: seq<Row>)
    ensures |s| <= |rows|
    ensures forall i :: 0 <= i < |s| ==> HasArsenic(s[i]) && InStudyPeriod(s[i])
  {
    var withArsenic := Filter(HasArsenic, rows);
    FilterMembers(HasArsenic, rows);
    FilterMembers(InStudyPeriod, withArsenic);
    Filter(InStudyPeriod, withArsenic)
  }

  /** A row survives exactly when it has a concentration and was sampled in
      2012..2024. */
  lemma SurvivorsMembers(rows: seq<Row>)
    ensures forall r :: r in Survivors(rows) <==> r in rows && HasArsenic(r) && InStudyPeriod(r)
  {
    FilterMembers(HasArsenic, rows);
    FilterMembers(InStudyPeriod, Filter(HasArsenic, rows));
  }

  /** The rows of group `k`, in order. */
  function Members(rows: seq<Row>, k: Key): seq<Row> {
    Filter((r: Row) => KeyOf(r) == Some(k), rows)
  }

  /** The keys of the non-empty groups. */
  function KeysOf(rows: seq<Row>): set<Key> {
    set r | r in rows && KeyOf(r).Some? :: KeyOf(r).value
  }

  /** The record of group `k`: its size, and how many of its rows are
      flagged 1. It is non-empty exactly when some row carries `k`. */
  function Record(rows: seq<Row>, k: Key): (g: Group)
    ensures g.exceden <= g.total
    ensures g.total >= 1 <==> k in KeysOf(rows)
  {
    MembersNonEmpty(rows, k);
    Group(|Members(rows, k)|, |Filter(Exceeds, Members(rows, k))|)
  }

  /** Every key that some row carries has at least one member. */
  lemma MembersOfPresentKey(rows: seq<Row>, k: Key)
    requires k in KeysOf(rows)
    ensures |Members(rows, k)| >= 1
  {
    var x :| x in rows && KeyOf(x) == Some(k);
    FilterMembers((r: Row) => KeyOf(r) == Some(k), rows);
    assert x in Members(rows, k);
  }

  /** A group has members exactly when some row carries its key. */
  lemma MembersNonEmpty(rows: seq<Row>, k: Key)
    ensures |Members(rows, k)| >= 1 <==> k in KeysOf(rows)
  {
    if k in KeysOf(rows) {
      MembersOfPresentKey(rows, k);
    } else {
      MembersOfAbsentKey(rows, k);
    }
  }

  /** Group-by and count: one record per key that some row carries. */
  function Tabulate(rows: seq<Row>): (m: map<Key, Group>)
    ensures forall k :: k in m ==> 1 <= m[k].total && m[k].exceden <= m[k].total
  {
    map k | k in KeysOf(rows) :: Record(rows, k)
  }

  /** A group exists exactly when some row carries its key. */
  lemma TabulateKeys(rows: seq<Row>)
    ensures forall k :: k in Tabulate(rows) <==> exists r :: r in rows && KeyOf(r) == Some(k)
  {
  }

  /** `tabla_excesos_anual`: every record belongs to a year of the study
      period and counts at least one sample. */
  function AnnualExceedance(rows: seq<Row>): (m: map<Key, Group>)
    ensures forall k :: k in m ==> FirstYear <= k.0 <= LastYear
    ensures forall k :: k in m ==> 1 <= m[k].total && m[k].exceden <= m[k].total
  {
    TabulateKeys(Survivors(rows));
    SurvivorsMembers(rows);
    Tabulate(Survivors(rows))
  }

  /** A (year, type) record exists exactly when some row with a
      concentration, sampled in 2012..2024, has that year and type. */
  lemma AnnualExceedanceKeys(rows: seq<Row>)
    ensures forall k :: k in AnnualExceedance(rows) <==>
      exists r :: r in rows && HasArsenic(r) && InStudyPeriod(r) && KeyOf(r) == Some(k)
  {
    TabulateKeys(Survivors(rows));
    SurvivorsMembers(rows);
  }

  /** `proporcion_exceso`: the share of a group's samples that exceed the
      limit; defined for any record of the table, since none is empty. */
  function ProportionExceso(g: Group): (p: real)
    requires 1 <= g.total && g.exceden <= g.total
    ensures 0.0 <= p <= 1.0
    ensures p * g.total as real == g.exceden as real
  {
    var p := g.exceden as real / g.total as real;
    assert p * g.total as real == g.exceden as real;
    assert p * g.total as real <= 1.0 * g.total as real;
    p
  }

  /** A record once row `r` joins its group. */
  function Bump(g: Group, r: Row): Group {
    Group(g.total + 1, g.exceden + if Exceeds(r) then 1 else 0)
  }

  /** The record of `k` in `m`, or an empty one. */
  function RecordIn(m: map<Key, Group>, k: Key): Group {
    if k in m then m[k] else Group(0, 0)
  }

  lemma KeysOfAppendRow(rows: seq<Row>, r: Row)
    ensures KeysOf(rows + [r]) ==
      match KeyOf(r)
      case None => KeysOf(rows)
      case Some(k) => KeysOf(rows) + {k}
  {
    var ks, ks' := KeysOf(rows), KeysOf(rows + [r]);
    forall k | k in ks ensures k in ks' {
      var x :| x in rows && KeyOf(x) == Some(k);
      assert x in rows + [r];
    }
  }

  /** A group with no member in `rows` has no record in its table. */
  lemma MembersOfAbsentKey(rows: seq<Row>, k: Key)
    requires k !in KeysOf(rows)
    ensures Members(rows, k) == []
  {
    forall x | x in rows ensures KeyOf(x) != Some(k) {
      if KeyOf(x).Some? {
        assert KeyOf(x).value in KeysOf(rows);
      }
    }
    FilterNone((r: Row) => KeyOf(r) == Some(k), rows);
  }

  /** Adding a row at the end grows the record of its own group and leaves
      every other record as it was. */
  lemma RecordAppendRow(rows: seq<Row>, r: Row, k: Key)
    ensures Record(rows + [r], k) ==
      if KeyOf(r) == Some(k) then Bump(Record(rows, k), r) else Record(rows, k)
  {
    FilterSnoc((x: Row) => KeyOf(x) == Some(k), rows, r);
    if KeyOf(r) == Some(k) {
      FilterSnoc(Exceeds, Members(rows, k), r);
    }
  }

  /** Adding one row at the end changes only the record of its own group:
      the total grows by one, and `exceden` grows by one exactly when the
      row's flag is 1. */
  lemma TabulateAppendRow(rows: seq<Row>, r: Row, k: Key)
    requires KeyOf(r) == Some(k)
    ensures Tabulate(rows + [r]) == Tabulate(rows)[k := Bump(RecordIn(Tabulate(rows), k), r)]
  {
    var m, m' := Tabulate(rows), Tabulate(rows + [r]);
    var e := m[k := Bump(RecordIn(m, k), r)];
    KeysOfAppendRow(rows, r);
    assert m'.Keys == e.Keys;
    forall k' | k' in m' ensures m'[k'] == e[k'] {
      RecordAppendRow(rows, r, k');
      if k' == k && k !in m {
        MembersOfAbsentKey(rows, k);
      }
    }
    assert m' == e;
  }

  /** A row without a water-body type changes nothing. */
  lemma TabulateAppendUntypedRow(rows: seq<Row>, r: Row)
    requires !HasType(r)
    ensures Tabulate(rows + [r]) == Tabulate(rows)
  {
    var m, m' := Tabulate(rows), Tabulate(rows + [r]);
    assert KeyOf(r) == None;
    KeysOfAppendRow(rows, r);
    assert KeysOf(rows + [r]) == KeysOf(rows);
    assert m'.Keys == m.Keys;
    forall k' | k' in m' ensures m'[k'] == m[k'] {
      RecordAppendRow(rows, r, k');
    }
    assert m' == m;
  }

  /** The surviving rows of a concatenation are the surviving rows of each
      part, in order. */
  lemma SurvivorsAppend(a: seq<Row>, b: seq<Row>)
    ensures Survivors(a + b) == Survivors(a) + Survivors(b)
  {
    FilterAppend(HasArsenic, a, b);
    FilterAppend(InStudyPeriod, Filter(HasArsenic, a), Filter(HasArsenic, b));
  }

  /** A row without a concentration, or sampled outside 2012..2024, adds
      nothing to any group's `total` or `exceden`, wherever it stands. */
  lemma ExcludedRowContributesNothing(a: seq<Row>, r: Row, b: seq<Row>)
    requires !HasArsenic(r) || !InStudyPeriod(r)
    ensures AnnualExceedance(a + [r] + b) == AnnualExceedance(a + b)
  {
    SurvivorsSkipExcluded(a, r, b);
  }

  lemma SurvivorsSkipExcluded(a: seq<Row>, r: Row, b: seq<Row>)
    requires !HasArsenic(r) || !InStudyPeriod(r)
    ensures Survivors(a + [r] + b) == Survivors(a + b)
  {
    calc {
      Survivors(a + [r] + b);
      { SurvivorsAppend(a + [r], b); }
      Survivors(a + [r]) + Survivors(b);
      { SurvivorsAppend(a, [r]); ExcludedRowSurvivesNot(r); assert Survivors(a) + [] == Survivors(a); }
      Survivors(a) + Survivors(b);
      { SurvivorsAppend(a, b); }
      Survivors(a + b);
    }
  }

  lemma ExcludedRowSurvivesNot(r: Row)
    requires !HasArsenic(r) || !InStudyPeriod(r)
    ensures Survivors([r]) == []
  {
    FilterNone(InStudyPeriod, Filter(HasArsenic, [r]));
  }

  function TotalOf(g: Group): nat {
    g.total
  }

  function ExcedenOf(g: Group): nat {
    g.exceden
  }

  /** Some key of a non-empty table. */
  ghost function AnyKey(m: map<Key, Group>): (k: Key)
    requires m != map[]
    ensures k in m
  {
    assert m.Keys != {};
    var k :| k in m;
    k
  }

  /** The sum of one measure over all records of a table. */
  ghost function SumBy(m: map<Key, Group>, f: Group -> nat): nat
    decreases |m|
  {
    if m == map[] then 0
    else
      var k := AnyKey(m);
      f(m[k]) + SumBy(m - {k}, f)
  }

  /** The sum does not depend on the order in which records are visited. */
  lemma {:induction false} SumByRemove(m: map<Key, Group>, f: Group -> nat, k: Key)
    requires k in m
    ensures SumBy(m, f) == f(m[k]) + SumBy(m - {k}, f)
    decreases |m|
  {
    var j := AnyKey(m);
    if j != k {
      SumByRemove(m - {j}, f, k);
      SumByRemove(m - {k}, f, j);
      assert m - {j} - {k} == m - {k} - {j};
    }
  }

  /** Replacing or adding one record changes the sum by the difference. */
  lemma SumByUpdate(m: map<Key, Group>, f: Group -> nat, k: Key, g: Group)
    ensures SumBy(m[k := g], f) + (if k in m then f(m[k]) else 0) == SumBy(m, f) + f(g)
  {
    SumByRemove(m[k := g], f, k);
    assert m[k := g] - {k} == m - {k};
    if k in m {
      SumByRemove(m, f, k);
    } else {
      assert m - {k} == m;
    }
  }

  /** Adding a typed row adds one to the sum of the totals, and one to the
      sum of `exceden` when the row is flagged 1. */
  lemma SumsAfterAppendTypedRow(rows: seq<Row>, r: Row, k: Key)
    requires KeyOf(r) == Some(k)
    ensures SumBy(Tabulate(rows + [r]), TotalOf) == SumBy(Tabulate(rows), TotalOf) + 1
    ensures SumBy(Tabulate(rows + [r]), ExcedenOf) ==
      SumBy(Tabulate(rows), ExcedenOf) + if Exceeds(r) then 1 else 0
  {
    var m := Tabulate(rows);
    var g := Bump(RecordIn(m, k), r);
    TabulateAppendRow(rows, r, k);
    SumByUpdate(m, TotalOf, k, g);
    SumByUpdate(m, ExcedenOf, k, g);
  }

  /** The records together count every typed row once: the totals add up
      to the number of rows that carry a type, and the `exceden` counts to
      the number of those whose flag is 1. */
  lemma {:induction false} TabulateSums(rows: seq<Row>)
    ensures SumBy(Tabulate(rows), TotalOf) == |Filter(HasType, rows)|
    ensures SumBy(Tabulate(rows), ExcedenOf) == |Filter(Exceeds, Filter(HasType, rows))|
  {
    if rows == [] {
      assert Tabulate(rows) == map[];
    } else {
      var init, r := rows[..|rows| - 1], rows[|rows| - 1];
      assert rows == init + [r];
      TabulateSums(init);
      FilterSnoc(HasType, init, r);
      if HasType(r) {
        SumsAfterAppendTypedRow(init, r, (r.year, r.waterType.value));
        FilterSnoc(Exceeds, Filter(HasType, init), r);
      } else {
        TabulateAppendUntypedRow(init, r);
      }
    }
  }

  /** Summed over the whole annual table, `total` is the number of rows that
      pass the concentration and year filters and have a type, and `exceden`
      the number of those flagged 1. */
  lemma AnnualExceedanceSums(rows: seq<Row>)
    ensures SumBy(AnnualExceedance(rows), TotalOf) == |Filter(HasType, Survivors(rows))|
    ensures SumBy(AnnualExceedance(rows), ExcedenOf) ==
      |Filter(Exceeds, Filter(HasType, Survivors(rows)))|
  {
    TabulateSums(Survivors(rows));
  }

  /** A single typed row makes a table with one record of size one. */
  lemma TabulateSingleRow(r: Row, k: Key)
    requires KeyOf(r) == Some(k)
    ensures Tabulate([r]) == map[k := Group(1, if Exceeds(r) then 1 else 0)]
  {
    assert KeysOf([]) == {};
    assert Tabulate([]) == map[];
    TabulateAppendRow([], r, k);
    assert [] + [r] == [r];
  }

  /** Two 2015 groundwater samples with a concentration, one flagged 1 and
      one flagged 0, make a single record with total 2, exceden 1 and
      proportion one half. */
  lemma TwoGroundwaterSamples2015()
    ensures var rows := [
      Row(Some(0.02), None, Some(Groundwater), 2015, Some(1.0)),
      Row(Some(0.005), None, Some(Groundwater), 2015, Some(0.0))];
      var table := AnnualExceedance(rows);
      && table == map[(2015, Groundwater) := Group(2, 1)]
      && ProportionExceso(table[(2015, Groundwater)]) == 0.5
  {
    var r1 := Row(Some(0.02), None, Some(Groundwater), 2015, Some(1.0));
    var r2 := Row(Some(0.005), None, Some(Groundwater), 2015, Some(0.0));
    var k := (2015, Groundwater);
    FilterAll(HasArsenic, [r1, r2]);
    FilterAll(InStudyPeriod, [r1, r2]);
    TabulateSingleRow(r1, k);
    TabulateAppendRow([r1], r2, k);
    assert [r1] + [r2] == [r1, r2];
    assert Tabulate([r1, r2]) == map[k := Group(2, 1)];
  }

}
