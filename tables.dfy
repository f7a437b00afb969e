/**
  A loaded tabular source: the header row and the data rows, each row a
  sequence of cells aligned with the header. An absent cell (pandas' NaN)
  is `None`.
 */
module Tables {
  import opened Wrappers
  import Dedup

  type Row = seq<Option<string>>

  datatype Table = Table(columns: seq<string>, rows: seq<Row>)

  /**
    The cell of `row` under the column called `name`: the first column of
    that name; a row shorter than the header reads `None` there, as pandas
    pads short rows with NaN.
   */
  function Cell(columns: seq<string>, row: Row, name: string): Option<string> {
    if name in columns then
      var k := Dedup.IndexOf(columns, name);
      if k < |row| then row[k] else None
    else None
  }
}
