/**
 * Reading a CSV file into a data frame (`pd.read_csv`). Only the number of
 * data rows of a frame matters to the cache; the parser itself is a
 * parameter of every operation that reads CSV bytes.
 */
module Csv {
  import opened Storage

  /** A parsed data frame, known by its number of data rows (header excluded). */
  datatype Table = Table(rows: nat)

  /** What reading a CSV gives: an error (no columns, bad quoting, ...) or a frame. */
  datatype CsvParse = Malformed | Rows(table: Table)

  type Parser = Blob -> CsvParse
}
