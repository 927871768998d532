/**
 * The small batch helpers of the combined app (combo_app/app.py): the sheet
 * name rule of the in-memory workbook writer, the simple XML pipeline (one
 * row per file), the placeholder PDF summary, the member names a zip is
 * extracted to, and the split of a batch into XML and PDF files by suffix.
 *
 * File contents, XML parsing and spreadsheet writing are not modelled: a file
 * is its path, and what parsing a path yields is a parameter.
 */
module ComboApp {
  import opened Wrappers
  import opened Seqs
  import opened Text
  import opened Paths
  import opened PdfTables
  import opened XmlInvoice

  // ---------------------------------------------------------------------------
  // Sheet names

  /** Excel's limit on the length of a sheet name. */
  const MaxSheetName := 31

  /** The name used when a sheet is given none. */
  const DefaultSheetName := "Planilha"

  /** `(name or "Planilha")[:31]`, the sheet name `df_to_excel_bytes` writes under. */
  function SheetName(name: Option<string>): (r: string)
    ensures 0 < |r| <= MaxSheetName
    ensures name.None? || name.value == "" ==> r == DefaultSheetName
    ensures name.Some? && name.value != "" ==>
      |r| == Min(MaxSheetName, |name.value|) && r == name.value[..|r|]
  {
    var chosen := if name.Some? && name.value != "" then name.value else DefaultSheetName;
    chosen[..Min(MaxSheetName, |chosen|)]
  }

  /** A name that fits is used as it is. */
  lemma SheetNameKeepsShortNames(name: string)
    requires 0 < |name| <= MaxSheetName
    ensures SheetName(Some(name)) == name
  {
    assert name[..|name|] == name;
  }

  /** Two names that agree on their first 31 characters give the same sheet. */
  lemma SheetNameTruncates(a: string, b: string)
    requires |a| >= MaxSheetName && |b| >= MaxSheetName && a[..MaxSheetName] == b[..MaxSheetName]
    ensures SheetName(Some(a)) == SheetName(Some(b))
  {
  }

  // ---------------------------------------------------------------------------
  // The simple XML pipeline

  /** What parsing a file and looking up its key, issuer name and total yields. */
  datatype XmlParse = Parsed(ch: Element, emit: Element, vnf: Element) | ParseError(msg: string)

  /**
   * A row of the XML table; a field holding None is a `text` that was None,
   * and `erro` is None on rows that were parsed (the missing column).
   */
  datatype XmlRow = XmlRow(
    arquivo: string,
    chave: Option<string>,
    emitente: Option<string>,
    valorNota: Option<string>,
    erro: Option<string>)

  /** `e.text if e is not None else ""`. */
  function FieldOf(e: Element): (r: Option<string>)
    ensures e.Absent? ==> r == Some("")
    ensures e.Present? ==> r == e.text
  {
    match e
    case Absent => Some("")
    case Present(t) => t
  }

  /** The row `processar_xmls` appends for the file at `p`. */
  function XmlRowOf(p: string, parsed: XmlParse): (r: XmlRow)
    ensures r.arquivo == PathName(p)
    ensures r.erro.Some? <==> parsed.ParseError?
    ensures parsed.ParseError? ==>
      r.chave == r.emitente == r.valorNota == Some("") && r.erro == Some(parsed.msg)
    ensures parsed.Parsed? ==>
      r.chave == FieldOf(parsed.ch) && r.emitente == FieldOf(parsed.emit) && r.valorNota == FieldOf(parsed.vnf)
  {
    match parsed
    case Parsed(ch, emit, vnf) => XmlRow(PathName(p), FieldOf(ch), FieldOf(emit), FieldOf(vnf), None)
    case ParseError(msg) => XmlRow(PathName(p), Some(""), Some(""), Some(""), Some(msg))
  }

  /** The rows `processar_xmls` builds: one per path, in the order given. */
  function XmlRows(paths: seq<string>, parse: string -> XmlParse): (r: seq<XmlRow>)
    ensures |r| == |paths|
    ensures forall i :: 0 <= i < |paths| ==> r[i] == XmlRowOf(paths[i], parse(paths[i]))
  {
    if paths == [] then []
    else
      var init, p := paths[..|paths| - 1], paths[|paths| - 1];
      XmlRows(init, parse) + [XmlRowOf(p, parse(p))]
  }

  /**
   * `processar_xmls`: a row per path; a file that fails to parse gives an
   * error row and the loop goes on.
   */
  method ProcessXmls(paths: seq<string>, parse: string -> XmlParse) returns (linhas: seq<XmlRow>)
    ensures linhas == XmlRows(paths, parse)
  {
    linhas := [];
    for i := 0 to |paths|
      invariant linhas == XmlRows(paths[..i], parse)
    {
      var p := paths[i];
      assert paths[..i + 1][..i] == paths[..i];
      var row := XmlRowOf(p, parse(p));
      linhas := linhas + [row];
    }
    assert paths[..|paths|] == paths;
  }

  // ---------------------------------------------------------------------------
  // The placeholder PDF summary

  /** A row of the placeholder summary. */
  datatype StatusRow = StatusRow(arquivo: string, status: string)

  /** The status every received PDF gets. */
  const Received := "Recebido"

  /** `processar_pdfs_basico`: a "Recebido" row per path, in order, and no keys. */
  function ProcessPdfsBasic(paths: seq<string>): (r: (seq<StatusRow>, seq<KeyRow>))
    ensures |r.0| == |paths|
    ensures forall i :: 0 <= i < |paths| ==> r.0[i].arquivo == PathName(paths[i]) && r.0[i].status == Received
    ensures r.1 == []
  {
    (seq(|paths|, i requires 0 <= i < |paths| => StatusRow(PathName(paths[i]), Received)), [])
  }

  // ---------------------------------------------------------------------------
  // Zip extraction

  /** A member of the archive, as listed by `infolist()`. */
  datatype ZipMember = ZipMember(filename: string)

  /** `ZipInfo.is_dir()`: the member name ends with '/'. */
  predicate IsDirMember(m: ZipMember) {
    EndsWith(m.filename, "/")
  }

  predicate IsFileMember(m: ZipMember) {
    !IsDirMember(m)
  }

  /** `dest_dir / Path(member.filename).name`. */
  function TargetOf(dest: string, m: ZipMember): (r: string)
    ensures PathName(m.filename) != "" ==> PathName(r) == PathName(m.filename)
  {
    var name := PathName(m.filename);
    if name != "" then
      PathNameOfChild(dest, name);
      Child(dest, name)
    else Child(dest, name)
  }

  /** The paths `extract_zip_to` returns, member by member. */
  function ZipTargets(dest: string, members: seq<ZipMember>): (r: seq<string>)
    ensures |r| <= |members|
    ensures forall t :: t in r ==> exists m :: m in members && IsFileMember(m) && t == TargetOf(dest, m)
  {
    if members == [] then []
    else
      var m := members[|members| - 1];
      ZipTargets(dest, members[..|members| - 1]) + (if IsDirMember(m) then [] else [TargetOf(dest, m)])
  }

  /**
   * `extract_zip_to`: skips directory members and records, in archive order,
   * where each file member is written.
   */
  method ExtractZipTo(dest: string, members: seq<ZipMember>) returns (saved: seq<string>)
    ensures saved == ZipTargets(dest, members)
  {
    saved := [];
    for i := 0 to |members|
      invariant saved == ZipTargets(dest, members[..i])
    {
      var member := members[i];
      assert members[..i + 1][..i] == members[..i];
      if IsDirMember(member) {
        continue;
      }
      var target := TargetOf(dest, member);
      saved := saved + [target];
    }
    assert members[..|members|] == members;
  }

  /**
   * One path per file member, in archive order: the i-th path is the folder
   * joined with the final component of the i-th file member's name.
   */
  lemma {:induction false} ZipTargetsFollowFiles(dest: string, members: seq<ZipMember>)
    ensures var files := Filter(IsFileMember, members);
      var saved := ZipTargets(dest, members);
      |saved| == |files| && forall i :: 0 <= i < |files| ==> saved[i] == TargetOf(dest, files[i])
  {
    if members != [] {
      var init, m := members[..|members| - 1], members[|members| - 1];
      assert members == init + [m];
      ZipTargetsFollowFiles(dest, init);
      FilterAppend(IsFileMember, init, [m]);
      assert Filter(IsFileMember, [m]) == if IsFileMember(m) then [m] else [];
    }
  }

  /** A saved file is named by the last component of its member's name, under the folder. */
  lemma TargetNamed(dest: string, m: ZipMember)
    requires PathName(m.filename) != ""
    ensures TargetOf(dest, m) == dest + "/" + PathName(m.filename)
    ensures PathName(TargetOf(dest, m)) == PathName(m.filename)
  {
    PathNameOfChild(dest, PathName(m.filename));
  }

  // ---------------------------------------------------------------------------
  // The batch split

  /** `p.suffix.lower() == ext`. */
  predicate HasSuffix(p: string, ext: string) {
    Lower(Suffix(PathName(p))) == ext
  }

  predicate IsXmlPath(p: string) { HasSuffix(p, ".xml") }

  predicate IsPdfPath(p: string) { HasSuffix(p, ".pdf") }

  /** The XML files of a batch, in batch order. */
  function XmlPaths(paths: seq<string>): seq<string> {
    Filter(IsXmlPath, paths)
  }

  /** The PDF files of a batch, in batch order. */
  function PdfPaths(paths: seq<string>): seq<string> {
    Filter(IsPdfPath, paths)
  }

  /**
   * The split keeps the files of each kind, no file lands in both lists, and
   * together they are no more than the batch.
   */
  lemma {:induction false} BatchSplit(paths: seq<string>)
    ensures forall p :: p in XmlPaths(paths) <==> p in paths && IsXmlPath(p)
    ensures forall p :: p in PdfPaths(paths) <==> p in paths && IsPdfPath(p)
    ensures Elems(XmlPaths(paths)) !! Elems(PdfPaths(paths))
    ensures |XmlPaths(paths)| + |PdfPaths(paths)| <= |paths|
  {
    if paths != [] {
      BatchSplit(paths[1..]);
    }
  }

  /**
   * A file whose name has an interior last dot lands in the XML list exactly
   * when that tail, lower-cased, is ".xml".
   */
  lemma SuffixDecidesXml(dir: string, name: string, i: nat)
    requires '/' !in name && IsPathPart(name)
    requires 0 < i < |name| - 1 && name[i] == '.' && '.' !in name[i + 1..]
    ensures IsXmlPath(Child(dir, name)) <==> Lower(name[i..]) == ".xml"
  {
    PathNameOfChild(dir, name);
    SuffixPresent(name, i);
  }

  /** An upper-case ".XML" file is taken as XML. */
  lemma UpperCaseXmlIsXml(dir: string)
    ensures IsXmlPath(Child(dir, "nota.XML"))
  {
    SuffixDecidesXml(dir, "nota.XML", 4);
    assert Lower(".XML") == ".xml";
  }

  /**
   * The filter's rule, read off the XML table's rows: each names a file whose
   * suffix is ".xml" in any case. Which files pass is `SuffixDecidesXml`.
   */
  lemma BatchXmlRowsAreXml(paths: seq<string>, parse: string -> XmlParse)
    ensures forall p :: p in XmlPaths(paths) ==> Lower(Suffix(XmlRowOf(p, parse(p)).arquivo)) == ".xml"
  {
  }
}
