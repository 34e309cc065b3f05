/**
 * The per-file pipeline of one run of the page: route the upload by its
 * extension, read it, optionally remove duplicates and fill missing values,
 * keep the chosen columns, take the chart columns and name the download.
 * Every upload is handled on its own; a file that cannot be routed or read
 * is skipped without affecting the others.
 */
module Pipeline {
  import opened Results
  import opened Seqs
  import opened Tables
  import opened FileNames
  import opened Duplicates
  import opened MissingValues
  import opened Projection

  type Bytes = seq<bv8>

  /** An uploaded file: its name, extension included, and its contents. */
  datatype Upload = Upload(name: string, payload: Bytes)

  /** The state of the controls for one file in one run of the page. */
  datatype Controls = Controls(
    cleaning: bool,                  // the "enable cleaning" checkbox
    removeDuplicates: bool,          // the remove-duplicates button was pressed
    fillMissing: bool,               // the fill-missing-values button was pressed
    selection: Option<seq<string>>,  // the chosen columns; None keeps the default, all columns
    showChart: bool,                 // the "show visualization" checkbox
    target: Format,                  // the conversion radio button
    convert: bool)                   // the convert-and-download button was pressed

  /** Why a file was skipped. */
  datatype FileError =
    | UnsupportedType(ext: string)
    | ReadError(name: string, detail: string)
    | SelectionError(error: ProjectError)

  /** The file offered for download. */
  datatype Download = Download(fileName: string, mime: string, data: Bytes)

  datatype FileOutcome =
    | Skipped(error: FileError)
    | Processed(table: Table, chart: Option<Table>, download: Option<Download>)

  /** The readers for the two formats; a failure carries the reader's message. */
  type Reader = (Format, Bytes) -> Result<WfTable, string>

  /** The writers for the two formats. */
  type Writer = (Table, Format) -> Bytes

  /** The cleaning steps the controls ask for: duplicates first, then missing values. */
  function Clean(t: Table, c: Controls): (r: Table)
    requires WellFormed(t)
    ensures WellFormed(r) && SameSchema(t, r) && Names(r) == Names(t)
    ensures r.height <= t.height
    ensures !c.cleaning ==> r == t
    ensures c.cleaning && c.removeDuplicates && !c.fillMissing ==> r == RemoveDuplicates(t)
    ensures c.cleaning && !c.removeDuplicates && c.fillMissing ==> r == FillMissing(t)
    ensures c.cleaning && c.removeDuplicates && c.fillMissing ==> r == FillMissing(RemoveDuplicates(t))
    ensures c.cleaning && !c.removeDuplicates && !c.fillMissing ==> r == t
  {
    var deduped := if c.cleaning && c.removeDuplicates then RemoveDuplicates(t) else t;
    assert deduped.height <= t.height by {
      if c.cleaning && c.removeDuplicates && |t.columns| > 0 {
        assert |FirstOccurrences(Rows(t))| <= t.height by {
          IncreasingBelowBound(FirstOccurrences(Rows(t)), t.height);
        }
      }
    }
    if c.cleaning && c.fillMissing then FillMissing(deduped) else deduped
  }

  /** An increasing sequence of positions below n has at most n elements. */
  lemma {:induction false} IncreasingBelowBound(idx: seq<nat>, n: nat)
    requires Increasing(idx) && Below(idx, n)
    ensures |idx| <= n
  {
    if |idx| > 0 {
      var last := idx[|idx| - 1];
      assert Increasing(idx[..|idx| - 1]) && Below(idx[..|idx| - 1], last);
      IncreasingBelowBound(idx[..|idx| - 1], last);
    }
  }

  /** The file offered when the convert button is pressed. */
  function Artifact(name: string, t: Table, target: Format, write: Writer): (r: Download)
    ensures SplitExt(r.fileName) == (SplitExt(name).0 + "_cleaned", Suffix(target))
    ensures DetectFormat(r.fileName) == Ok(target)
    ensures r.mime == MimeType(target) && r.data == write(t, target)
  {
    DownloadNameRoundTrip(name, target);
    Download(DownloadName(name, target), MimeType(target), write(t, target))
  }

  /** One upload through one run of the page. */
  function ProcessFile(u: Upload, c: Controls, read: Reader, write: Writer): (r: FileOutcome)
    ensures DetectFormat(u.name).Err? ==> r == Skipped(UnsupportedType(DetectFormat(u.name).error.ext))
    ensures r.Processed? ==> DetectFormat(u.name).Ok? && read(DetectFormat(u.name).value, u.payload).Ok?
    ensures r.Processed? ==> (r.chart.Some? <==> c.showChart) && (r.download.Some? <==> c.convert)
    ensures r.Processed? ==>
              var cleaned := Clean(read(DetectFormat(u.name).value, u.payload).value, c);
              Project(cleaned, c.selection.ValueOr(Names(cleaned))) == Ok(r.table)
    ensures r.Processed? ==> r.chart == (if c.showChart then Some(NumericPreview(r.table)) else None)
    ensures r.Skipped? && r.error.ReadError? ==> r.error.name == u.name
  {
    match DetectFormat(u.name)
    case Err(UnsupportedFormat(ext)) => Skipped(UnsupportedType(ext))
    case Ok(format) =>
      match read(format, u.payload)
      case Err(detail) => Skipped(ReadError(u.name, detail))
      case Ok(decoded) =>
        var cleaned := Clean(decoded, c);
        match Project(cleaned, c.selection.ValueOr(Names(cleaned)))
        case Err(e) => Skipped(SelectionError(e))
        case Ok(kept) =>
          Processed(kept,
                    if c.showChart then Some(NumericPreview(kept)) else None,
                    if c.convert then Some(Artifact(u.name, kept, c.target, write)) else None)
  }

  /**
   * A routed and read file goes through cleaning and then the column
   * selection: it is skipped exactly when the selection fails, and otherwise
   * it holds the cleaned table narrowed to the selection, the chart of that
   * table when asked for, and the artifact when convert is pressed.
   */
  lemma ProcessFileStages(u: Upload, c: Controls, read: Reader, write: Writer)
    requires DetectFormat(u.name).Ok? && read(DetectFormat(u.name).value, u.payload).Ok?
    ensures var decoded := read(DetectFormat(u.name).value, u.payload).value;
            var cleaned := Clean(decoded, c);
            var kept := Project(cleaned, c.selection.ValueOr(Names(cleaned)));
            var out := ProcessFile(u, c, read, write);
            && (kept.Err? ==> out == Skipped(SelectionError(kept.error)))
            && (kept.Ok? ==> out.Processed? && out.table == kept.value)
            && (kept.Ok? ==> out.chart == (if c.showChart then Some(NumericPreview(out.table)) else None))
            && (kept.Ok? ==> out.download == (if c.convert then Some(Artifact(u.name, out.table, c.target, write)) else None))
  {
  }

  /** A routed and read file whose selection names only columns it has is processed. */
  lemma ValidSelectionIsProcessed(u: Upload, c: Controls, read: Reader, write: Writer)
    requires DetectFormat(u.name).Ok? && read(DetectFormat(u.name).value, u.payload).Ok?
    requires c.selection.Some? ==>
               forall k :: 0 <= k < |c.selection.value| ==>
                 c.selection.value[k] in Names(read(DetectFormat(u.name).value, u.payload).value)
    ensures ProcessFile(u, c, read, write).Processed?
  {
    var decoded := read(DetectFormat(u.name).value, u.payload).value;
    var cleaned := Clean(decoded, c);
    assert Names(cleaned) == Names(decoded);
    if c.selection.None? {
      ProjectAll(cleaned);
    }
  }

  /** A file whose extension is not supported is skipped before any reader runs. */
  lemma UnsupportedSkipsReading(u: Upload, c: Controls, read: Reader, read': Reader, write: Writer, write': Writer)
    requires DetectFormat(u.name).Err?
    ensures ProcessFile(u, c, read, write) == Skipped(UnsupportedType(Lower(Extension(u.name))))
    ensures ProcessFile(u, c, read, write) == ProcessFile(u, c, read', write')
  {
  }

  /** A file the reader rejects is skipped with the reader's message. */
  lemma ReadFailureSkips(u: Upload, c: Controls, read: Reader, write: Writer)
    requires DetectFormat(u.name).Ok? && read(DetectFormat(u.name).value, u.payload).Err?
    ensures ProcessFile(u, c, read, write) ==
            Skipped(ReadError(u.name, read(DetectFormat(u.name).value, u.payload).error))
  {
  }

  /**
   * With the default selection, a file that is routed and read is processed,
   * and the download, when asked for, is the artifact named after the upload.
   */
  lemma ReadableIsProcessed(u: Upload, c: Controls, read: Reader, write: Writer)
    requires c.selection.None?
    requires DetectFormat(u.name).Ok? && read(DetectFormat(u.name).value, u.payload).Ok?
    ensures var out := ProcessFile(u, c, read, write);
            && out.Processed?
            && (c.convert ==> out.download == Some(Artifact(u.name, out.table, c.target, write)))
  {
    ValidSelectionIsProcessed(u, c, read, write);
    ProcessFileStages(u, c, read, write);
  }

  /**
   * A processed table is rectangular, keeps no more rows than were read,
   * and its columns are drawn from the columns read; with the default
   * selection it keeps them all, in order, and with a selection that names
   * no column twice (as the column chooser guarantees) its names stay unique.
   */
  lemma ProcessedTableInvariant(u: Upload, c: Controls, read: Reader, write: Writer)
    requires ProcessFile(u, c, read, write).Processed?
    ensures DetectFormat(u.name).Ok? && read(DetectFormat(u.name).value, u.payload).Ok?
    ensures var decoded := read(DetectFormat(u.name).value, u.payload).value;
            var out := ProcessFile(u, c, read, write).table;
            && Rectangular(out)
            && (c.selection.None? || Distinct(c.selection.value) ==> WellFormed(out))
            && out.height <= decoded.height
            && (forall n :: n in Names(out) ==> n in Names(decoded))
            && (c.selection.None? ==> Names(out) == Names(decoded))
  {
    var decoded := read(DetectFormat(u.name).value, u.payload).value;
    var cleaned := Clean(decoded, c);
    var out := ProcessFile(u, c, read, write).table;
    if c.selection.None? {
      ProjectAll(cleaned);
    } else {
      var sel := c.selection.value;
      assert Names(out) == sel;
      assert forall n :: n in sel ==> n in Names(cleaned);
    }
  }

  /**
   * The download of a processed file is named after the upload's base and
   * the chosen target, carries the target's MIME type, and holds the
   * processed table written in the target format, whatever format was read.
   */
  lemma DownloadFollowsTarget(u: Upload, c: Controls, read: Reader, write: Writer)
    requires ProcessFile(u, c, read, write).Processed?
    ensures var out := ProcessFile(u, c, read, write);
            && (out.download.Some? <==> c.convert)
            && (c.convert ==>
                  out.download.value ==
                  Download(SplitExt(u.name).0 + "_cleaned" + Suffix(c.target), MimeType(c.target),
                           write(out.table, c.target)))
            && (c.convert ==> DetectFormat(out.download.value.fileName) == Ok(c.target))
  {
    DownloadNameRoundTrip(u.name, c.target);
  }

  /**
   * The chart is the first two numeric columns of the processed table (fewer
   * when it has fewer), in table order, with the table's height.
   */
  lemma ChartColumnsOfTable(u: Upload, c: Controls, read: Reader, write: Writer)
    requires ProcessFile(u, c, read, write).Processed?
    ensures var out := ProcessFile(u, c, read, write);
            && (out.chart.Some? <==> c.showChart)
            && (c.showChart ==>
                  var idx := NumericPositions(out.table);
                  && |out.chart.value.columns| == (if |idx| < ChartColumns then |idx| else ChartColumns)
                  && forall k :: 0 <= k < |out.chart.value.columns| ==>
                       out.chart.value.columns[k] == out.table.columns[idx[k]])
            && (c.showChart ==>
                  && |out.chart.value.columns| <= ChartColumns
                  && out.chart.value.height == out.table.height
                  && forall k :: 0 <= k < |out.chart.value.columns| ==>
                       out.chart.value.columns[k] in out.table.columns &&
                       out.chart.value.columns[k].kind == Numeric)
  {
    var out := ProcessFile(u, c, read, write);
    if c.showChart {
      var idx := NumericPositions(out.table);
      forall k | 0 <= k < |out.chart.value.columns|
        ensures out.chart.value.columns[k] in out.table.columns
        ensures out.chart.value.columns[k].kind == Numeric
      {
        assert idx[k] in idx;
      }
    }
  }

  /** Every upload of a batch through the same run of the page. */
  function ProcessBatch(files: seq<(Upload, Controls)>, read: Reader, write: Writer): (r: seq<FileOutcome>)
    ensures |r| == |files|
    ensures forall i :: 0 <= i < |files| ==> r[i] == ProcessFile(files[i].0, files[i].1, read, write)
  {
    seq(|files|, i requires 0 <= i < |files| => ProcessFile(files[i].0, files[i].1, read, write))
  }

  /**
   * The loop over the uploads. Each outcome is that of its own file alone:
   * a skipped file does not stop the loop or change any other outcome.
   */
  method RunBatch(files: seq<(Upload, Controls)>, read: Reader, write: Writer) returns (outcomes: seq<FileOutcome>)
    ensures |outcomes| == |files|
    ensures forall i :: 0 <= i < |files| ==> outcomes[i] == ProcessFile(files[i].0, files[i].1, read, write)
    ensures outcomes == ProcessBatch(files, read, write)
  {
    outcomes := MapInOrder(files, (file: (Upload, Controls)) => ProcessFile(file.0, file.1, read, write));
  }

  /** Replacing one upload of a batch, by a failing one or any other, leaves every other outcome unchanged. */
  lemma BatchIsolation(files: seq<(Upload, Controls)>, j: nat, other: (Upload, Controls), read: Reader, write: Writer)
    requires j < |files|
    ensures var before := ProcessBatch(files, read, write);
            var after := ProcessBatch(files[j := other], read, write);
            forall i :: 0 <= i < |files| && i != j ==> after[i] == before[i]
  {
  }

  /**
   * Worked case: in a batch of an unsupported "notes.txt" and a readable
   * "sales.csv", the first is skipped and the second is processed and offered
   * for download as "sales_cleaned.xlsx".
   */
  lemma BatchExample(read: Reader, write: Writer, c: Controls)
    requires c.selection.None? && c.convert && c.target == Excel
    requires read(Csv, [1]).Ok?
    ensures var out := ProcessBatch([(Upload("notes.txt", []), c), (Upload("sales.csv", [1]), c)], read, write);
            && out[0] == Skipped(UnsupportedType(".txt"))
            && out[1].Processed?
            && out[1].download.Some? && out[1].download.value.fileName == "sales_cleaned.xlsx"
  {
    ExampleUnsupported(read, write, c);
    ExampleSupported(read, write, c);
  }

  lemma ExampleUnsupported(read: Reader, write: Writer, c: Controls)
    ensures ProcessFile(Upload("notes.txt", []), c, read, write) == Skipped(UnsupportedType(".txt"))
  {
    SplitExtAppend("notes", ".txt");
    assert "notes" + ".txt" == "notes.txt";
    assert Lower(".txt") == ".txt";
  }

  lemma ExampleSupported(read: Reader, write: Writer, c: Controls)
    requires c.selection.None? && c.convert && c.target == Excel
    requires read(Csv, [1]).Ok?
    ensures var out := ProcessFile(Upload("sales.csv", [1]), c, read, write);
            out.Processed? && out.download.Some? && out.download.value.fileName == "sales_cleaned.xlsx"
  {
    SuffixShaped(Csv);
    SplitExtAppend("sales", ".csv");
    DetectFormatRecognises("sales", ".csv", Csv);
    assert "sales" + ".csv" == "sales.csv";
    assert DownloadName("sales.csv", Excel) == "sales_cleaned.xlsx" by {
      assert "sales" + "_cleaned" + ".xlsx" == "sales_cleaned.xlsx";
    }
    ReadableIsProcessed(Upload("sales.csv", [1]), c, read, write);
  }
}
