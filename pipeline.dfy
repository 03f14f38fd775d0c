/** The per-upload pipeline: for every uploaded file in turn, detect its format (skipping a
    file whose extension is not supported), preview its first rows, apply the cleaning the
    user asked for, keep the selected columns and, on request, offer the converted download. */
module Pipeline {
  import opened Results
  import opened PathNames
  import opened Tables
  import opened Formats
  import opened Duplicates
  import opened MeanFill
  import opened Projection
  import opened Cleaning
  import opened Frames

  /** An uploaded file: its name and the table the reader for its format decodes from its bytes. */
  datatype Upload = Upload(name: string, decoded: Table)

  /** What the user chose for one file in one pass over the page. */
  datatype Choices = Choices(
    cleanChecked: bool,              // the "Clean data" checkbox
    removeDuplicatesClicked: bool,   // the "Remove Duplicates" button
    fillMissingClicked: bool,        // the "Fill Missing Values" button
    selection: Option<seq<string>>,  // the column multiselect; None keeps its default, every column
    target: Format,                  // the conversion radio, "CSV" or "Excel"
    convertClicked: bool)            // the "Convert" button

  datatype Download = Download(fileName: string, mimeType: string, content: Table)

  datatype Report =
    | Rejected(name: string, message: string)
    | Shown(name: string, preview: Table, converted: Table, download: Option<Download>)
    | Crashed(name: string, error: ProjectionError)  // an uncaught KeyError ends the pass

  /** Cleaning as the page runs it: duplicates are removed first, then missing numeric cells
      are filled, each only when its button was pressed under the checked "Clean data" box. */
  function Cleaned(t: Table, c: Choices): (r: Table)
    requires WellFormed(t)
    ensures WellFormed(r) && r.columns == t.columns
    ensures !c.cleanChecked ==> r == t
  {
    var afterRemoval := if c.cleanChecked && c.removeDuplicatesClicked then DropDuplicates(t) else t;
    if c.cleanChecked && c.fillMissingClicked then FillMissingNumeric(afterRemoval) else afterRemoval
  }

  /** The columns kept: the user's selection, or every column in table order by default. */
  function SelectedColumns(t: Table, c: Choices): seq<string>
  {
    if c.selection.Some? then c.selection.value else Names(t)
  }

  /** The download offered for a converted table, named as the code names it: by replacing
      the lowered extension in the upload's name.  For a plain extension that name is the
      intended one, detected as the target; where the lowered extension occurs nowhere in the
      name (`DATA.CSV`), the name stays that of the upload. */
  function Convert(name: string, t: Table, f: Format): (d: Download)
    requires Detect(name).Ok?
    ensures d.fileName == OutputNameAsWritten(name, f)
    ensures PlainExtension(name) ==>
              && d.fileName == OutputName(name, f)
              && SplitExt(d.fileName).root == SplitExt(name).root
              && Detect(d.fileName) == Ok(f)
    ensures ExtensionAbsent(name) ==> d.fileName == name && Detect(d.fileName) == Detect(name)
    ensures d.mimeType == MimeType(f) && d.content == t
  {
    AsWrittenCases(name, f);
    Download(OutputNameAsWritten(name, f), MimeType(f), t)
  }

  /** The download as intended: the root of the name followed by the target's extension,
      always detected as the target format. */
  function ConvertIntended(name: string, t: Table, f: Format): (d: Download)
    requires Detect(name).Ok?
    ensures Detect(d.fileName) == Ok(f)
    ensures SplitExt(d.fileName).root == SplitExt(name).root
    ensures d.mimeType == MimeType(f) && d.content == t
  {
    OutputNameRoundTrip(name, f);
    Download(OutputName(name, f), MimeType(f), t)
  }

  /** What the page shows for one upload. */
  function Outcome(u: Upload, c: Choices): Report
    requires WellFormed(u.decoded)
  {
    var format := Detect(u.name);
    if format.Err? then Rejected(u.name, RejectionMessage(format.error))
    else
      var t := Cleaned(u.decoded, c);
      match Project(t, SelectedColumns(t, c))
      case Err(e) => Crashed(u.name, e)
      case Ok(p) =>
        Shown(u.name, Head(u.decoded, PreviewRows), p,
              if c.convertClicked then Some(Convert(u.name, p, c.target)) else None)
  }

  /** Every report names its upload; a file is rejected, with its extension in the message,
      exactly when its format is not detected; a shown file previews the first rows of what
      was read and offers a download exactly when "Convert" was pressed, carrying the
      converted table and the target's media type under the code's replaced name, which is
      detected as the target format when the extension is plain. */
  lemma OutcomeSpec(u: Upload, c: Choices)
    requires WellFormed(u.decoded)
    ensures var r := Outcome(u, c);
            && r.name == u.name
            && (r.Rejected? <==> Detect(u.name).Err?)
            && (r.Rejected? ==> r.message == "Unsupported file format: " + FileExt(u.name))
            && (r.Shown? ==> r.preview == Head(u.decoded, PreviewRows))
            && (r.Shown? ==> (r.download.Some? <==> c.convertClicked))
            && (r.Shown? && r.download.Some? ==>
                  r.download.value.content == r.converted
                  && r.download.value.mimeType == MimeType(c.target)
                  && r.download.value.fileName == OutputNameAsWritten(u.name, c.target)
                  && (PlainExtension(u.name) ==> Detect(r.download.value.fileName) == Ok(c.target))
                  && (ExtensionAbsent(u.name) ==> r.download.value.fileName == u.name))
  {
  }

  /** An accepted upload shows the selection of its cleaned table, or crashes exactly when
      the selection names an unknown column. */
  lemma OutcomeSelection(u: Upload, c: Choices)
    requires WellFormed(u.decoded) && Detect(u.name).Ok?
    ensures var t := Cleaned(u.decoded, c);
            var p := Project(t, SelectedColumns(t, c));
            && (Outcome(u, c).Shown? <==> p.Ok?)
            && (p.Ok? ==> Outcome(u, c).converted == p.value)
            && (p.Err? ==> Outcome(u, c) == Crashed(u.name, p.error))
  {
  }

  /** With the default selection an accepted upload never crashes, and what is converted is
      the cleaned table itself. */
  lemma DefaultSelectionKeepsTable(u: Upload, c: Choices)
    requires WellFormed(u.decoded) && DistinctNames(u.decoded) && Detect(u.name).Ok?
    requires c.selection.None?
    ensures Outcome(u, c).Shown? && Outcome(u, c).converted == Cleaned(u.decoded, c)
  {
    ProjectAllColumns(Cleaned(u.decoded, c));
  }

  /** Pressing only one of the two cleaning buttons a second time changes nothing. */
  lemma CleanedSingleIdempotent(t: Table, c: Choices)
    requires WellFormed(t)
    requires !(c.removeDuplicatesClicked && c.fillMissingClicked)
    ensures Cleaned(Cleaned(t, c), c) == Cleaned(t, c)
  {
    if c.cleanChecked && c.removeDuplicatesClicked {
      DropDuplicatesIdempotent(t);
    } else if c.cleanChecked && c.fillMissingClicked {
      FillIdempotent(t);
    }
  }

  const Both := Choices(true, true, true, None, Csv, false)

  /** With both buttons pressed, cleaning removes duplicates and then fills. */
  lemma CleanedBoth(t: Table)
    requires WellFormed(t)
    ensures Cleaned(t, Both) == FillMissingNumeric(DropDuplicates(t))
  {
  }

  /** The order of the two cleaning steps matters: removing duplicates first lets the mean
      be taken over distinct rows only.  On a column reading `a`, `a`, missing, `b` the order
      of the code fills the gap with the mean of `a` and `b` (25 for 10, 10, missing, 40);
      filling first would count `a` twice (20). */
  lemma RemovalBeforeFillMatters(a: real, b: real)
    requires a != b
    ensures var t := Scores([[Num(a)], [Num(a)], [Missing], [Num(b)]]);
            && Cleaned(t, Both).rows == [[Num(a)], [Num((a + b) / 2.0)], [Num(b)]]
            && DropDuplicates(FillMissingNumeric(t)).rows == [[Num(a)], [Num((a + a + b) / 3.0)], [Num(b)]]
            && Cleaned(t, Both) != DropDuplicates(FillMissingNumeric(t))
  {
    var t := Scores([[Num(a)], [Num(a)], [Missing], [Num(b)]]);
    CleanedBoth(t);
    RemovalFirst(a, b);
    FillFirst(a, b);
    assert (a + b) / 2.0 != (a + a + b) / 3.0;
    assert Cleaned(t, Both).rows[1] != DropDuplicates(FillMissingNumeric(t)).rows[1];
  }

  /** Pressing both buttons again can change the table: filling may make two rows equal
      (missing and `v` both become `v`), and the second removal then drops one of them. */
  lemma CleanedBothNotIdempotent(v: real)
    ensures var t := Scores([[Missing], [Num(v)]]);
            |Cleaned(t, Both).rows| == 2 && |Cleaned(Cleaned(t, Both), Both).rows| == 1
  {
    var t := Scores([[Missing], [Num(v)]]);
    BothStepsTwice(v);
    CleanedBoth(t);
    CleanedBoth(Cleaned(t, Both));
  }

  /** On the page, converting an upload named `DATA.CSV` to Excel offers a workbook that
      is still named `DATA.CSV`, a name detected as CSV. */
  lemma UpperCaseDownloadName(t: Table, c: Choices)
    requires WellFormed(t) && DistinctNames(t)
    requires c.selection.None? && c.convertClicked && c.target == Excel
    ensures var r := Outcome(Upload("DATA.CSV", t), c);
            && r.Shown? && r.download.Some?
            && r.download.value.fileName == "DATA.CSV"
            && r.download.value.mimeType == MimeType(Excel)
            && Detect(r.download.value.fileName) == Ok(Csv)
  {
    UpperCaseExtensionKept();
    DefaultSelectionKeepsTable(Upload("DATA.CSV", t), c);
  }

  /** A rejected upload is reported with its extension. */
  lemma RejectedOutcome(u: Upload, c: Choices)
    requires WellFormed(u.decoded) && Detect(u.name).Err?
    ensures Outcome(u, c) == Rejected(u.name, RejectionMessage(Detect(u.name).error))
  {
  }

  /** The body of the loop for an accepted upload: preview the frame, clean it in place,
      then replace it by its column selection and offer the download if asked. */
  method ProcessAccepted(file: Upload, choice: Choices) returns (report: Report)
    requires WellFormed(file.decoded) && Detect(file.name).Ok?
    ensures report == Outcome(file, choice)
  {
    var df := new DataFrame(file.decoded);
    var preview := Head(df.Value(), PreviewRows);
    if choice.cleanChecked {
      if choice.removeDuplicatesClicked {
        df.DropDuplicates();
      }
      if choice.fillMissingClicked {
        df.FillMissingNumeric();
      }
    }
    var cleaned := df.Value();
    assert cleaned == Cleaned(file.decoded, choice);
    var projected := Project(cleaned, SelectedColumns(cleaned, choice));
    if projected.Err? {
      report := Crashed(file.name, projected.error);
      return;
    }
    df := new DataFrame(projected.value);
    var download: Option<Download> := None;
    if choice.convertClicked {
      download := Some(Convert(file.name, df.Value(), choice.target));
    }
    report := Shown(file.name, preview, df.Value(), download);
  }

  /** One upload, as the body of the loop handles it: a rejected file gets its message
      (and the loop goes on with the next file), an accepted one is processed. */
  method ProcessOne(file: Upload, choice: Choices) returns (report: Report)
    requires WellFormed(file.decoded)
    ensures report == Outcome(file, choice)
  {
    var format := Detect(file.name);
    if format.Err? {
      RejectedOutcome(file, choice);
      return Rejected(file.name, RejectionMessage(format.error));
    }
    report := ProcessAccepted(file, choice);
  }
}
