/** The upload page's decision logic (`handleFileUpload`): the file-type
    gate, the choice between the BOM template and the tree template by the
    headers the parser found (BOM first), and what each outcome does to the
    shared data, the page's error message and the navigation. The CSV parser
    itself is outside the model: its result is an input. */
module Upload {

  import opened Wrappers
  import Seqs
  import opened Strings
  import opened Cells
  import opened TreeModel
  import opened TreeBuilder
  import opened DataStore
  import TableConstants

  const BomHeaders: seq<string> := [
    "Item Code", "Material", "Quantity", "Estimated Rate",
    "Supplier 1 (Rate)", "Supplier 2 (Rate)", "Supplier 3 (Rate)", "Supplier 4 (Rate)", "Supplier 5 (Rate)"
  ]

  const TreeHeaders: seq<string> := [
    "Category", "Sub Category 1", "Sub Category 2", "Item Code", "Description", "Quantity", "Rate"
  ]

  /** The three messages the page can show. */
  datatype UploadError = UnsupportedType | ParseError(message: string) | InvalidStructure

  function MessageOf(e: UploadError): string {
    match e
    case UnsupportedType => "Unsupported file type. Please upload a standard CSV file."
    case ParseError(m) => "Parse Error: " + m
    case InvalidStructure => "Invalid CSV structure. The uploaded file does not match the BOM or Tree Table templates."
  }

  /** The BOM template is the table's column layout, and the two templates
      share two headers. */
  lemma TemplateFacts()
    ensures BomHeaders == TableConstants.BomColumns
    ensures "Item Code" in BomHeaders && "Item Code" in TreeHeaders
    ensures "Quantity" in BomHeaders && "Quantity" in TreeHeaders
  {
    assert BomHeaders[0] == "Item Code" && TreeHeaders[3] == "Item Code";
    assert BomHeaders[2] == "Quantity" && TreeHeaders[5] == "Quantity";
  }

  // ----- file-type gate -----

  /** A file passes when its MIME type is `text/csv` or its name ends in
      `.csv` (case-sensitive). */
  predicate IsCsvFile(mime: string, name: string) {
    mime == "text/csv" || EndsWith(name, ".csv")
  }

  /** Either condition alone lets a file through; the name test is
      case-sensitive. */
  lemma CsvGateExamples()
    ensures IsCsvFile("", "bom.csv")
    ensures IsCsvFile("text/csv", "bom.txt")
    ensures !IsCsvFile("application/vnd.ms-excel", "bom.CSV")
  {
    assert "bom.csv"[3..] == ".csv";
    assert "bom.CSV"[3..] != ".csv" by {
      assert "bom.CSV"[3..][1] == 'C';
    }
  }

  // ----- template classification -----

  /** `required.every(h => headers.includes(h))`. */
  function HasAll(required: seq<string>, headers: seq<string>): (b: bool)
    ensures b <==> forall i :: 0 <= i < |required| ==> required[i] in headers
    decreases |required|
  {
    if required == [] then true
    else
      assert forall i :: 1 <= i < |required| ==> required[i] == required[1..][i - 1];
      required[0] in headers && HasAll(required[1..], headers)
  }

  datatype Template = BomTemplate | TreeTemplate | NoTemplate

  /** The template the headers satisfy; missing headers count as none, and
      BOM wins when both are satisfied. */
  function Classify(fields: Option<seq<string>>): (t: Template)
    ensures t == BomTemplate <==> forall h :: h in BomHeaders ==> h in fields.GetOr([])
    ensures t == TreeTemplate <==>
              && (forall h :: h in TreeHeaders ==> h in fields.GetOr([]))
              && !(forall h :: h in BomHeaders ==> h in fields.GetOr([]))
    ensures t == NoTemplate <==>
              && !(forall h :: h in BomHeaders ==> h in fields.GetOr([]))
              && !(forall h :: h in TreeHeaders ==> h in fields.GetOr([]))
  {
    var headers := fields.GetOr([]);
    if HasAll(BomHeaders, headers) then BomTemplate
    else if HasAll(TreeHeaders, headers) then TreeTemplate
    else NoTemplate
  }

  /** Only which headers occur matters, not their order, repetition or
      any extra headers. */
  lemma ClassifyBySet(a: seq<string>, b: seq<string>)
    requires forall h :: h in a <==> h in b
    ensures Classify(Some(a)) == Classify(Some(b))
  {
  }

  /** A file with both templates' headers is a BOM. */
  lemma BothTemplatesIsBom()
    ensures Classify(Some(BomHeaders + TreeHeaders)) == BomTemplate
  {
    var h := BomHeaders + TreeHeaders;
    assert forall x :: x in BomHeaders ==> x in h;
  }

  /** The tree headers alone select the tree template: "Material" is
      missing for a BOM. */
  lemma TreeHeadersIsTree()
    ensures Classify(Some(TreeHeaders)) == TreeTemplate
  {
    assert BomHeaders[1] == "Material";
    assert "Material" !in TreeHeaders by {
      forall k | 0 <= k < |TreeHeaders|
        ensures TreeHeaders[k] != "Material"
      {
        assert TreeHeaders[k][0] != 'M';
      }
    }
  }

  /** A file without a header row matches neither template. */
  lemma NoHeadersIsNeither()
    ensures Classify(None) == NoTemplate
  {
    assert BomHeaders[0] == "Item Code";
  }

  // ----- parsed rows as tree rows -----

  /** A number cell's value; anything else is absent (then counted as 0). */
  function NumOf(v: Option<Value>): Option<real> {
    if IsNumber(v) then Some(v.value.n) else None
  }

  /** The raw Description cell as the leaf stores it: an empty cell
      (`null`) or a missing one leaves the item without a description (the
      tree page then shows "-"); any other value is kept as its text. */
  function DescriptionOf(v: Option<Value>): (d: Option<string>)
    ensures d.None? <==> v.None? || v == Some(Null)
    ensures v.Some? && v.value.Str? ==> d == Some(v.value.s)
  {
    if v.None? || v == Some(Null) then None else Some(Text(v))
  }

  /** A parsed row read with the tree template's headers; names are taken as
      their `String` text. */
  function TreeRowOf(row: Row): RawTreeRow {
    RawTreeRow(
      Text(Get(row, "Category")),
      Text(Get(row, "Sub Category 1")),
      Text(Get(row, "Sub Category 2")),
      Text(Get(row, "Item Code")),
      DescriptionOf(Get(row, "Description")),
      NumOf(Get(row, "Quantity")),
      NumOf(Get(row, "Rate")))
  }

  function TreeRows(rows: seq<Row>): (r: seq<RawTreeRow>)
    ensures |r| == |rows|
  {
    seq(|rows|, i requires 0 <= i < |rows| => TreeRowOf(rows[i]))
  }

  // ----- the upload handler -----

  datatype FileInfo = FileInfo(name: string, mime: string)

  /** What the parser reported: the header fields (possibly missing) and the
      rows, or a parse error with its message. */
  datatype ParseResult = Parsed(fields: Option<seq<string>>, rows: seq<Row>) | ParseFailed(message: string)

  datatype PageState = PageState(session: Session, error: Option<UploadError>, uploading: bool)

  datatype Outcome = Outcome(page: PageState, navigate: Option<string>)

  /** `handleFileUpload`: no file does nothing; a file that fails the gate
      only sets the type error; otherwise the upload starts (error cleared)
      and the parse result decides: a BOM is added to the history and shown,
      a tree is built and shown, anything else (or a parse error) sets an
      error and ends the upload. */
  function HandleFileUpload(p: PageState, file: Option<FileInfo>, parse: ParseResult): (o: Outcome)
    ensures file.None? ==> o == Outcome(p, None)
    ensures file.Some? && !IsCsvFile(file.value.mime, file.value.name)
            ==> o == Outcome(p.(error := Some(UnsupportedType)), None)
    ensures file.Some? && IsCsvFile(file.value.mime, file.value.name) ==> o.page.error != Some(UnsupportedType)
    ensures file.Some? && IsCsvFile(file.value.mime, file.value.name) && parse.ParseFailed?
            ==> o == Outcome(p.(error := Some(ParseError(parse.message)), uploading := false), None)
    ensures o.page.session != p.session || o.navigate.Some? ==>
              && file.Some? && IsCsvFile(file.value.mime, file.value.name)
              && parse.Parsed? && Classify(parse.fields) != NoTemplate
    ensures o.navigate == Some("/table") <==>
              file.Some? && IsCsvFile(file.value.mime, file.value.name)
              && parse.Parsed? && Classify(parse.fields) == BomTemplate
    ensures o.navigate == Some("/tree") <==>
              file.Some? && IsCsvFile(file.value.mime, file.value.name)
              && parse.Parsed? && Classify(parse.fields) == TreeTemplate
  {
    if file.None? then Outcome(p, None)
    else if !IsCsvFile(file.value.mime, file.value.name) then Outcome(p.(error := Some(UnsupportedType)), None)
    else
      var started := p.(uploading := true, error := None);
      match parse
      case ParseFailed(m) =>
        Outcome(started.(error := Some(ParseError(m)), uploading := false), None)
      case Parsed(fields, rows) =>
        match Classify(fields)
        case BomTemplate =>
          Outcome(started.(session := AddBomUpload(p.session, file.value.name, rows)), Some("/table"))
        case TreeTemplate =>
          Outcome(started.(session := SetTree(p.session, Build(TreeRows(rows)))), Some("/tree"))
        case NoTemplate =>
          Outcome(started.(error := Some(InvalidStructure), uploading := false), None)
  }

  /** A BOM upload puts the file in front of the history and shows its rows;
      a tree upload shows the forest built from its rows, one item per row,
      and keeps the BOM data. A successful upload leaves the page marked as
      uploading, as it is left on navigation. */
  lemma UploadEffects(p: PageState, file: FileInfo, fields: seq<string>, rows: seq<Row>)
    requires IsCsvFile(file.mime, file.name)
    ensures var o := HandleFileUpload(p, Some(file), Parsed(Some(fields), rows));
            Classify(Some(fields)) == BomTemplate ==>
              && o.page.session.uploads == [BomUpload(file.name, rows)] + p.session.uploads
              && o.page.session.current == rows
              && o.page.session.tree == p.session.tree
              && o.page.error.None? && o.page.uploading
    ensures var o := HandleFileUpload(p, Some(file), Parsed(Some(fields), rows));
            Classify(Some(fields)) == TreeTemplate ==>
              && WellFormedForest(o.page.session.tree, 0)
              && |ItemsOf(o.page.session.tree)| == |rows|
              && o.page.session.uploads == p.session.uploads
              && o.page.session.current == p.session.current
              && o.page.error.None? && o.page.uploading
              && multiset(ItemsOf(o.page.session.tree)) == multiset(LeavesOf(TreeRows(rows)))
              && Names(o.page.session.tree) == Seqs.Dedup(Categories(TreeRows(rows)))
              && o.page.session.tree == Build(TreeRows(rows))
    ensures var o := HandleFileUpload(p, Some(file), Parsed(Some(fields), rows));
            Classify(Some(fields)) == NoTemplate ==>
              o == Outcome(p.(error := Some(InvalidStructure), uploading := false), None)
  {
    var tr := TreeRows(rows);
    BuildWellFormed(tr);
    BuildItems(tr);
    BuildRoots(tr);
  }
}
