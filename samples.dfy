/** One row of the cleaned water-quality table (one water sample). */
module Samples {

  import opened Wrappers

  /** A sample row. Only the presence of the arsenic concentration
      (`as_tot_float`) and of the sampling date (`fecha_realizacion_dt`) is
      ever consulted, so their values are opaque: mg/L as a real, the date as
      a day number. `waterType` is `sub_o_sup`, `year` is `ano`, `nomFlag` is
      `supNOM127SSA12021_As`, the NOM-127-SSA1-2021 exceedance flag. */
  datatype Row = Row(
    arsenic: Option<real>,
    sampledOn: Option<int>,
    waterType: Option<string>,
    year: int,
    nomFlag: Option<real>
  )

  /** The inclusive range of years the bar chart covers. */
  const FirstYear: int := 2012
  const LastYear: int := 2024

  /** The two water-body types the bar chart has a panel for. */
  const Groundwater: string := "Subterránea"
  const Surface: string := "Superficial"

  predicate HasArsenic(r: Row) {
    r.arsenic.Some?
  }

  predicate InStudyPeriod(r: Row) {
    FirstYear <= r.year <= LastYear
  }

  predicate HasType(r: Row) {
    r.waterType.Some?
  }

  /** The flag equals exactly 1; a 0, any other value or a missing flag does
      not count as an exceedance. */
  predicate Exceeds(r: Row) {
    r.nomFlag == Some(1.0)
  }

}
