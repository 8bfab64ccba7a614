/** The `TableView` component as an export holder: it keeps the rows the
    table last reported after filtering, the CSV header labels fixed at
    construction, and turns an export request into either a CSV export of
    those rows or an "empty dataset" notice. */
module TableView {
  import opened Values

  /** A column definition; `header` is its `Header` label. */
  datatype Column = Column(accessor: string, header: string)

  /** What an export request produces: the rows and labels handed to the
      CSV exporter, or the notice shown instead. */
  datatype ExportOutcome =
    | Exported(headers: seq<string>, rows: seq<Row>, showLabels: bool)
    | Notice(message: string)

  const EmptyExportMessage := "Unable to export empty datasets"

  /** `mapHeadersForDownloads(columns)`: each column's `Header`, in column order. */
  function HeadersForDownload(columns: seq<Column>): (headers: seq<string>)
    ensures |headers| == |columns|
    ensures forall i :: 0 <= i < |columns| ==> headers[i] == columns[i].header
  {
    if columns == [] then [] else [columns[0].header] + HeadersForDownload(columns[1..])
  }

  /** `prepareFilteredRowsFromReactTable(rows)`: each row's `values`, in row order. */
  function FilteredValues(rows: seq<TableRow>): (data: seq<Row>)
    ensures |data| == |rows|
    ensures forall i :: 0 <= i < |rows| ==> data[i] == rows[i].values
  {
    if rows == [] then [] else [rows[0].values] + FilteredValues(rows[1..])
  }

  class TableView {
    /** The rows an export would write: the initial data, then the rows of
        the latest filter report. */
    var data: seq<Row>
    /** The CSV header labels. */
    var headers: seq<string>
    /** The column definitions the component was created with. */
    ghost const columns: seq<Column>

    /** The headers always are the labels of the construction-time columns. */
    ghost predicate Valid()
      reads this
    {
      headers == HeadersForDownload(columns)
    }

    /** `constructor(props)`: `data` is the given data, or empty when none is
        given; `headers` come from the columns. */
    constructor (columns: seq<Column>, initialData: Option<seq<Row>>)
      ensures Valid()
      ensures this.columns == columns
      ensures data == (if initialData.Some? then initialData.value else [])
      ensures |headers| == |columns|
    {
      this.columns := columns;
      data := match initialData
        case Some(d) => d
        case None => [];
      headers := HeadersForDownload(columns);
    }

    /** `handleFilter(rows)`: the table reports the rows it currently shows;
        `data` becomes their `values`, in the same order, and the headers stay. */
    method HandleFilter(rows: seq<TableRow>)
      requires Valid()
      modifies this
      ensures Valid()
      ensures data == FilteredValues(rows)
      ensures |data| == |rows|
      ensures headers == old(headers)
    {
      data := FilteredValues(rows);
    }

    /** `getCurrentDataState()`: the current `data`, unchanged. */
    method GetCurrentDataState() returns (current: seq<Row>)
      ensures current == data
    {
      current := data;
    }

    /** `handleExport()`: with rows to export, hand the stored headers and the
        current data to the CSV exporter with labels shown; with none, export
        nothing and show the notice. */
    method HandleExport() returns (outcome: ExportOutcome)
      ensures outcome.Notice? <==> |data| == 0
      ensures outcome.Notice? ==> outcome.message == EmptyExportMessage
      ensures outcome.Exported? ==>
                outcome.rows == data && outcome.headers == headers && outcome.showLabels
    {
      if |data| != 0 {
        outcome := Exported(headers, data, true);
      } else {
        outcome := Notice(EmptyExportMessage);
      }
    }
  }

  /** A filter report followed by an export exports exactly the projected
      rows under the column labels, unless the report was empty. */
  method FilterThenExport(view: TableView, rows: seq<TableRow>) returns (outcome: ExportOutcome)
    requires view.Valid()
    modifies view
    ensures view.Valid()
    ensures view.data == FilteredValues(rows)
    ensures view.headers == old(view.headers)
    ensures |rows| == 0 ==> outcome == Notice(EmptyExportMessage)
    ensures |rows| > 0 ==>
              outcome == Exported(HeadersForDownload(view.columns), FilteredValues(rows), true)
  {
    view.HandleFilter(rows);
    outcome := view.HandleExport();
  }
}
