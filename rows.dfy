/**
 * Raw case rows as the CSV loader hands them over, and the parsers the
 * normalisers call. Every column arrives as text; an empty cell is "".
 */
module Rows {
  import opened Wrappers

  /** One CSV row, one field per column the derivations read (named after the column). */
  datatype Row = Row(
    CASE_NUMBER: string,
    CONFIRMED_DATE: string,
    DISCHARGE_DATE: string,
    AGE: string,
    GENDER: string,
    NATIONALITY: string,
    PLACE_OF_STAY: string,
    POS_LOCATION_COORD: string,
    POS_LOCATION_LAT: string,
    POS_LOCATION_LONG: string,
    CLUSTER_LOCATION_ID: string,
    CLUSTER_LOCATION_NAME: string,
    CLUSTER_LOCATION_LAT: string,
    CLUSTER_LOCATION_LONG: string)

  /** A JavaScript number slot: `undefined`, `NaN`, or a number. */
  datatype JsNumber = Undefined | NaN | Finite(value: real)

  /**
   * The parsing the normalisers delegate to: `parseInt` (None for NaN),
   * `parseFloat`, and the date parser of the deployed date format, giving a
   * day ordinal (None for an invalid date).
   */
  datatype Parsers = Parsers(
    parseInt: string -> Option<int>,
    parseFloat: string -> JsNumber,
    parseDate: string -> Option<int>)
}
