/** Format detection from the upload's name, and the name and media type of a converted file. */
module Formats {
  import opened Results
  import opened PathNames

  /** The two container formats: the reader chosen for an upload and the conversion target. */
  datatype Format = Csv | Excel

  datatype Rejection = UnsupportedFormat(ext: string)

  /** The extension as the pipeline compares it: `os.path.splitext(name)[-1].lower()`. */
  function FileExt(name: string): string
  {
    Lower(SplitExt(name).ext)
  }

  /** The compared extension is empty, or a dot followed by no other dot. */
  lemma FileExtShape(name: string)
    ensures var e := FileExt(name); e == [] || (e[0] == '.' && '.' !in e[1..])
  {
    SplitExtShape(name);
    var raw := SplitExt(name).ext;
    assert forall i :: 1 <= i < |raw| ==> LowerChar(raw[i]) != '.';
  }

  /** `.csv` selects the CSV reader, `.xlsx` the Excel reader; every other extension,
      the empty one included, is rejected with the extension it had. */
  function Detect(name: string): (r: Result<Format, Rejection>)
    ensures r == Ok(Csv) <==> FileExt(name) == ".csv"
    ensures r == Ok(Excel) <==> FileExt(name) == ".xlsx"
    ensures r.Err? <==> FileExt(name) != ".csv" && FileExt(name) != ".xlsx"
    ensures r.Err? ==> r.error == UnsupportedFormat(FileExt(name))
  {
    var ext := FileExt(name);
    if ext == ".csv" then Ok(Csv)
    else if ext == ".xlsx" then Ok(Excel)
    else Err(UnsupportedFormat(ext))
  }

  /** A name without an extension (no dot at all, or only a leading dot in its last
      component) is rejected, and the message shows an empty extension. */
  lemma NoExtensionRejected(name: string)
    requires SplitExt(name).ext == []
    ensures Detect(name) == Err(UnsupportedFormat([]))
  {
    assert Lower([]) == [];
  }

  /** The text shown for a rejected upload. */
  function RejectionMessage(r: Rejection): string
  {
    "Unsupported file format: " + r.ext
  }

  /** The canonical extension of each format, the text the output name gets. */
  function CanonicalExt(f: Format): (e: string)
    ensures e == "." + ExtText(f)
  {
    match f
    case Csv => ".csv"
    case Excel => ".xlsx"
  }

  function ExtText(f: Format): string
  {
    match f
    case Csv => "csv"
    case Excel => "xlsx"
  }

  /** The media type of the download for each target format. */
  function MimeType(f: Format): (m: string)
  {
    match f
    case Csv => "text/csv"
    case Excel => "application/vnd.openxmlformats-officedocument.spreadsheetml.sheet"
  }

  /** The canonical extensions are already lower case, so detection sees them as written. */
  lemma LowerCanonical(f: Format)
    ensures Lower(CanonicalExt(f)) == CanonicalExt(f)
  {
  }

  /** The two media types differ, so the label tells the formats apart. */
  lemma MimeTypeDistinguishes(f: Format, g: Format)
    ensures MimeType(f) == MimeType(g) <==> f == g
  {
  }

  /** The output name as the code builds it: every occurrence of the LOWER-CASED extension
      in the ORIGINAL name is replaced, and the search is case-sensitive. */
  function OutputNameAsWritten(name: string, f: Format): string
  {
    Replace(name, FileExt(name), CanonicalExt(f))
  }

  /** The output name as intended: the root of the name followed by the target's extension. */
  function OutputName(name: string, f: Format): string
  {
    SplitExt(name).root + CanonicalExt(f)
  }

  /** An accepted name's root keeps a non-dot character in its last component. */
  lemma AcceptedRoot(name: string)
    requires Detect(name).Ok?
    ensures SplitExt(name).ext != []
    ensures BaseHasNonDot(SplitExt(name).root)
  {
    var sp := SplitExt(name);
    assert sp.ext != [];
    SplitExtShape(name);
    var sep := RFind(name, '/');
    var dot := RFind(name, '.');
    RFindSpec(name, '/');
    RFindSpec(name, '.');
    assert dot > sep && HasNonDot(name, sep + 1, dot);
    assert sp.root == name[..dot];
    RFindAppend(sp.root, sp.ext, '/');
    assert RFind(sp.root, '/') == sep;
    var k :| sep + 1 <= k < dot && name[k] != '.';
    assert sp.root[k] == name[k];
  }

  /** The intended output name keeps the root and is detected as the target format, so a
      converted file is read back with the reader for the format it was written in. */
  lemma OutputNameRoundTrip(name: string, f: Format)
    requires Detect(name).Ok?
    ensures SplitExt(OutputName(name, f)) == Split(SplitExt(name).root, CanonicalExt(f))
    ensures Detect(OutputName(name, f)) == Ok(f)
  {
    AcceptedRoot(name);
    SplitExtOf(SplitExt(name).root, ExtText(f));
    LowerCanonical(f);
  }

  /** The extension is already lower case, and the lowered extension does not begin
      anywhere in the root: the case in which the code's replacement is the intended one. */
  predicate PlainExtension(name: string)
  {
    && SplitExt(name).ext == FileExt(name)
    && forall i :: 0 <= i < |SplitExt(name).root| ==> !OccursAt(name, FileExt(name), i)
  }

  /** The lowered extension occurs nowhere in the name, as when the extension has an
      upper-case letter and the name no lower-case copy of it. */
  predicate ExtensionAbsent(name: string)
  {
    forall i :: 0 <= i <= |name| ==> !OccursAt(name, FileExt(name), i)
  }

  /** For a plain extension the code's replacement and the intended name agree. */
  lemma AsWrittenAgrees(name: string, f: Format)
    requires Detect(name).Ok? && PlainExtension(name)
    ensures OutputNameAsWritten(name, f) == OutputName(name, f)
  {
    var sp := SplitExt(name);
    var e := FileExt(name);
    ReplaceSkip(name, e, CanonicalExt(f), |sp.root|);
    assert name[..|sp.root|] == sp.root && name[|sp.root|..] == e;
    ReplaceWhole(e, CanonicalExt(f));
  }

  /** Where the lowered extension occurs nowhere in the name, the code returns the name
      unchanged. */
  lemma AsWrittenUnchanged(name: string, f: Format)
    requires Detect(name).Ok? && ExtensionAbsent(name)
    ensures OutputNameAsWritten(name, f) == name
  {
    ReplaceAbsent(name, FileExt(name), CanonicalExt(f));
  }

  /** What the code's output name is, by case: for a plain extension it is the intended
      name, which keeps the root and is detected as the target; where the lowered extension
      occurs nowhere it is the upload's own name, detected as the upload's format. */
  lemma AsWrittenCases(name: string, f: Format)
    requires Detect(name).Ok?
    ensures PlainExtension(name) ==>
              && OutputNameAsWritten(name, f) == OutputName(name, f)
              && SplitExt(OutputNameAsWritten(name, f)).root == SplitExt(name).root
              && Detect(OutputNameAsWritten(name, f)) == Ok(f)
    ensures ExtensionAbsent(name) ==>
              && OutputNameAsWritten(name, f) == name
              && Detect(OutputNameAsWritten(name, f)) == Detect(name)
  {
    if PlainExtension(name) {
      AsWrittenAgrees(name, f);
      OutputNameRoundTrip(name, f);
    }
    if ExtensionAbsent(name) {
      AsWrittenUnchanged(name, f);
    }
  }

  lemma LowerCsv()
    ensures Lower(".csv") == ".csv" && Lower(".CSV") == ".csv"
  {
    var l, u := Lower(".csv"), Lower(".CSV");
    assert l[0] == '.' && l[1] == 'c' && l[2] == 's' && l[3] == 'v';
    assert u[0] == '.' && u[1] == 'c' && u[2] == 's' && u[3] == 'v';
  }

  /** A name `stem.e` whose stem holds no slash and does not start with a dot splits into
      `stem` and `.e`. */
  lemma SplitPlainName(stem: string, e: string)
    requires |stem| > 0 && stem[0] != '.' && '/' !in stem
    requires '.' !in e && '/' !in e
    ensures SplitExt(stem + "." + e) == Split(stem, "." + e)
  {
    RFindSpec(stem, '/');
    assert HasNonDot(stem, 0, |stem|);
    SplitExtOf(stem, e);
  }

  lemma DataLiterals()
    ensures "DATA.CSV" == "DATA" + "." + "CSV"
    ensures "DATA" + ".xlsx" == "DATA.xlsx"
  {
  }

  lemma RepeatedLiterals()
    ensures "a.csv.csv" == "a.csv" + "." + "csv"
    ensures "a.csv" + ".xlsx" == "a.csv.xlsx"
    ensures "a" + (".xlsx" + ".xlsx") == "a.xlsx.xlsx"
  {
  }

  lemma UpperCaseName()
    ensures SplitExt("DATA.CSV") == Split("DATA", ".CSV")
    ensures FileExt("DATA.CSV") == ".csv"
  {
    DataLiterals();
    SplitPlainName("DATA", "CSV");
    LowerCsv();
  }

  lemma RepeatedName()
    ensures SplitExt("a.csv.csv") == Split("a.csv", ".csv")
    ensures FileExt("a.csv.csv") == ".csv"
  {
    RepeatedLiterals();
    SplitPlainName("a.csv", "csv");
    LowerCsv();
  }

  lemma UpperCaseUnchanged()
    ensures OutputNameAsWritten("DATA.CSV", Excel) == "DATA.CSV"
  {
    UpperCaseName();
    var name := "DATA.CSV";
    assert 'c' !in name;
    AbsentChar(name, ".csv", 1);
    AsWrittenUnchanged(name, Excel);
  }

  /** `DATA.CSV` is accepted as CSV, but converting it to Excel keeps the name `DATA.CSV`:
      the downloaded workbook would be taken for a CSV file on the next upload. */
  lemma UpperCaseExtensionKept()
    ensures Detect("DATA.CSV") == Ok(Csv)
    ensures OutputNameAsWritten("DATA.CSV", Excel) == "DATA.CSV"
    ensures Detect(OutputNameAsWritten("DATA.CSV", Excel)) != Ok(Excel)
    ensures OutputName("DATA.CSV", Excel) == "DATA.xlsx"
  {
    UpperCaseName();
    UpperCaseUnchanged();
    DataLiterals();
  }

  lemma RepeatedNameParts()
    ensures !OccursAt("a.csv.csv", ".csv", 0)
    ensures "a.csv.csv"[..1] == "a" && "a.csv.csv"[1..] == ".csv" + ".csv"
  {
    assert "a.csv.csv"[0..4][0] == 'a';
  }

  lemma RepeatedAsWritten()
    ensures OutputNameAsWritten("a.csv.csv", Excel) == "a.xlsx.xlsx"
  {
    RepeatedName();
    var name, e, x := "a.csv.csv", ".csv", ".xlsx";
    RepeatedNameParts();
    ReplaceSkip(name, e, x, 1);
    ReplaceLeading(e, e, x);
    ReplaceWhole(e, x);
    assert Replace(name, e, x) == "a" + (x + x);
    RepeatedLiterals();
  }

  /** `a.csv.csv` converted to Excel becomes `a.xlsx.xlsx`: the replacement also hits the
      inner `.csv` that is part of the root. */
  lemma RepeatedExtensionReplaced()
    ensures OutputNameAsWritten("a.csv.csv", Excel) == "a.xlsx.xlsx"
    ensures OutputName("a.csv.csv", Excel) == "a.csv.xlsx"
  {
    RepeatedAsWritten();
    RepeatedName();
    RepeatedLiterals();
  }
}
