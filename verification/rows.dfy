/**
 * The CSV rows the charts read, with the columns they use. Every cell is the
 * string the CSV parser produced; missing cells are the empty string.
 */
module Rows {

  /** A row of `events.csv`. */
  datatype EventRow = EventRow(sport: string, event: string)

  /** A row of `results/Swimming.csv`. */
  datatype ResultRow = ResultRow(
    eventName: string,
    stage: string,
    participantType: string,
    participantName: string,
    participantCountry: string,
    rank: string)

  /** A row of `athletes.csv`. */
  datatype AthleteRow = AthleteRow(countryCode: string, disciplines: string)

  /** A row of `medallists.csv`. */
  datatype MedallistRow = MedallistRow(
    discipline: string,
    gender: string,
    country: string,
    medalType: string)
}
