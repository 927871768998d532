/**
 * The folder extractor of the PDF app (pdf_app/extractor.py). Each decoded
 * barcode payload is stripped; it is a key when it is already 44 digits
 * (separators are not removed), otherwise a non-empty payload is an "other
 * reading". Both are collected in sets and returned sorted. The folder pass
 * builds the detail and summary tables, turning a failing file into an error row.
 *
 * Rasterisation and barcode decoding are not modelled: a rendered PDF is given
 * as its pages of decoded payload texts.
 */
module PdfExtractor {
  import opened Seqs
  import opened Text
  import opened StringOrder
  import opened Paths
  import opened PdfTables

  /** `PDFExtractionResult`. */
  datatype PdfExtractionResult = PdfExtractionResult(
    arquivo: string,
    chaves44: seq<string>,
    outrasLeituras: seq<string>)

  /** Where one payload goes. */
  datatype Reading = Key(text: string) | Other(text: string) | Blank

  /** The classification of one decoded payload. */
  function Classify(raw: string): (r: Reading)
    ensures r.Key? ==> IsAccessKey(r.text)
    ensures r.Blank? <==> Strip(raw) == ""
    ensures !r.Blank? ==> r.text == Strip(raw)
  {
    var texto := Strip(raw);
    if IsDecimal(texto) && |texto| == AccessKeyLength then Key(texto)
    else if texto != "" then Other(texto)
    else Blank
  }

  /**
   * The classification rule spelled out case by case: a stripped payload is a
   * key exactly when it is 44 digits, otherwise another reading unless it is
   * empty. What the sets then hold is `KeySetMembership` and `OtherSetMembership`.
   */
  lemma ClassifyMeaning(raw: string)
    ensures Classify(raw).Key? <==> IsAccessKey(Strip(raw))
    ensures Classify(raw).Other? <==> Strip(raw) != "" && !IsAccessKey(Strip(raw))
    ensures Classify(raw).Blank? <==> Strip(raw) == ""
    ensures !Classify(raw).Blank? ==> Classify(raw).text == Strip(raw)
  {
  }

  /** The set the keys are added to. */
  ghost function KeySet(payloads: seq<string>): set<string> {
    if payloads == [] then {}
    else
      var r := Classify(payloads[|payloads| - 1]);
      KeySet(payloads[..|payloads| - 1]) + (if r.Key? then {r.text} else {})
  }

  /** The set the other readings are added to. */
  ghost function OtherSet(payloads: seq<string>): set<string> {
    if payloads == [] then {}
    else
      var r := Classify(payloads[|payloads| - 1]);
      OtherSet(payloads[..|payloads| - 1]) + (if r.Other? then {r.text} else {})
  }

  /** What one more payload adds to the two sets. */
  lemma SetsStep(before: seq<string>, raw: string)
    ensures KeySet(before + [raw]) ==
      KeySet(before) + (if Classify(raw).Key? then {Classify(raw).text} else {})
    ensures OtherSet(before + [raw]) ==
      OtherSet(before) + (if Classify(raw).Other? then {Classify(raw).text} else {})
  {
    assert (before + [raw])[..|before|] == before;
  }

  /** What the payload at `j` of a page adds to the sets. */
  lemma ScanStep(done: seq<string>, decoded: seq<string>, j: nat)
    requires j < |decoded|
    ensures KeySet(done + decoded[..j + 1]) == KeySet(done + decoded[..j]) +
      (if Classify(decoded[j]).Key? then {Classify(decoded[j]).text} else {})
    ensures OtherSet(done + decoded[..j + 1]) == OtherSet(done + decoded[..j]) +
      (if Classify(decoded[j]).Other? then {Classify(decoded[j]).text} else {})
  {
    assert decoded[..j + 1] == decoded[..j] + [decoded[j]];
    assert done + (decoded[..j] + [decoded[j]]) == (done + decoded[..j]) + [decoded[j]];
    SetsStep(done + decoded[..j], decoded[j]);
  }

  /** The key set holds exactly the keys of the payloads read. */
  lemma {:induction false} KeySetMembership(payloads: seq<string>, t: string)
    ensures t in KeySet(payloads) <==> exists p :: p in payloads && Classify(p) == Key(t)
  {
    if payloads != [] {
      var init, last := payloads[..|payloads| - 1], payloads[|payloads| - 1];
      assert payloads == init + [last];
      KeySetMembership(init, t);
      if p :| p in payloads && Classify(p) == Key(t) {
        if p != last { assert p in init; }
      }
    }
  }

  /** The other set holds exactly the other readings of the payloads read. */
  lemma {:induction false} OtherSetMembership(payloads: seq<string>, t: string)
    ensures t in OtherSet(payloads) <==> exists p :: p in payloads && Classify(p) == Other(t)
  {
    if payloads != [] {
      var init, last := payloads[..|payloads| - 1], payloads[|payloads| - 1];
      assert payloads == init + [last];
      OtherSetMembership(init, t);
      if p :| p in payloads && Classify(p) == Other(t) {
        if p != last { assert p in init; }
      }
    }
  }

  /** No payload text is both a key and another reading. */
  lemma KeysAndOthersDisjoint(payloads: seq<string>)
    ensures KeySet(payloads) !! OtherSet(payloads)
    ensures forall k :: k in KeySet(payloads) ==> IsAccessKey(k)
    ensures forall o :: o in OtherSet(payloads) ==> o != "" && !IsAccessKey(o)
  {
    forall t ensures t in KeySet(payloads) ==> IsAccessKey(t)
      ensures t in OtherSet(payloads) ==> t != "" && !IsAccessKey(t)
    {
      KeySetMembership(payloads, t);
      OtherSetMembership(payloads, t);
      if t in KeySet(payloads) {
        var p :| p in payloads && Classify(p) == Key(t);
        ClassifyMeaning(p);
      }
      if t in OtherSet(payloads) {
        var p :| p in payloads && Classify(p) == Other(t);
        ClassifyMeaning(p);
      }
    }
  }

  /**
   * The outcome depends only on which payloads were read, not on the order of
   * pages or payloads, nor on repeats.
   */
  lemma PageOrderIrrelevant(pages1: seq<seq<string>>, pages2: seq<seq<string>>)
    requires Elems(pages1) == Elems(pages2)
    ensures KeySet(Flatten(pages1)) == KeySet(Flatten(pages2))
    ensures OtherSet(Flatten(pages1)) == OtherSet(Flatten(pages2))
  {
    forall p ensures p in Flatten(pages1) <==> p in Flatten(pages2) {
      FlattenMember(pages1, p);
      FlattenMember(pages2, p);
      if pg :| pg in pages1 && p in pg { assert pg in Elems(pages2); }
      if pg :| pg in pages2 && p in pg { assert pg in Elems(pages1); }
    }
    forall t ensures t in KeySet(Flatten(pages1)) <==> t in KeySet(Flatten(pages2))
      ensures t in OtherSet(Flatten(pages1)) <==> t in OtherSet(Flatten(pages2))
    {
      KeySetMembership(Flatten(pages1), t);
      KeySetMembership(Flatten(pages2), t);
      OtherSetMembership(Flatten(pages1), t);
      OtherSetMembership(Flatten(pages2), t);
    }
  }

  /** A payload with a separator inside is never promoted to a key. */
  lemma SeparatorsNotTolerated(raw: string, i: nat)
    requires i < |Strip(raw)| && !IsDigit(Strip(raw)[i])
    ensures !Classify(raw).Key?
  {
    ClassifyMeaning(raw);
  }

  /** The result `extrair_chaves_de_pdf` returns for a file read as `pages`. */
  ghost function ExtractionOf(caminho: string, pages: seq<seq<string>>): PdfExtractionResult {
    PdfExtractionResult(
      BaseName(caminho),
      SortedSeq(KeySet(Flatten(pages))),
      SortedSeq(OtherSet(Flatten(pages))))
  }

  /** `extrair_chaves_de_pdf`: set-collecting loops over pages and payloads, then `sorted`. */
  method ExtractKeys(caminho: string, pages: seq<seq<string>>) returns (res: PdfExtractionResult)
    ensures res == ExtractionOf(caminho, pages)
    ensures StrictlySorted(res.chaves44) && Elems(res.chaves44) == KeySet(Flatten(pages))
    ensures StrictlySorted(res.outrasLeituras) && Elems(res.outrasLeituras) == OtherSet(Flatten(pages))
  {
    var chaves: set<string> := {};
    var outras: set<string> := {};
    for i := 0 to |pages|
      invariant chaves == KeySet(Flatten(pages[..i]))
      invariant outras == OtherSet(Flatten(pages[..i]))
    {
      chaves, outras := ScanPage(Flatten(pages[..i]), pages[i], chaves, outras);
      assert pages[..i + 1] == pages[..i] + [pages[i]];
      FlattenSnoc(pages[..i], pages[i]);
    }
    assert pages[..|pages|] == pages;
    var sortedKeys := SortSet(chaves);
    var sortedOthers := SortSet(outras);
    res := PdfExtractionResult(BaseName(caminho), sortedKeys, sortedOthers);
  }

  /** The inner loop over the codes decoded from one page image. */
  method ScanPage(ghost done: seq<string>, decoded: seq<string>, chaves0: set<string>, outras0: set<string>)
    returns (chaves: set<string>, outras: set<string>)
    requires chaves0 == KeySet(done) && outras0 == OtherSet(done)
    ensures chaves == KeySet(done + decoded) && outras == OtherSet(done + decoded)
  {
    chaves, outras := chaves0, outras0;
    assert done + decoded[..0] == done;
    for j := 0 to |decoded|
      invariant chaves == KeySet(done + decoded[..j])
      invariant outras == OtherSet(done + decoded[..j])
    {
      ScanStep(done, decoded, j);
      match Classify(decoded[j])
      case Key(texto) => chaves := chaves + {texto};
      case Other(texto) => outras := outras + {texto};
      case Blank =>
    }
    assert decoded[..|decoded|] == decoded;
  }

  /** A file of the folder as the extractor finds it. */
  datatype PdfFile = Rendered(pages: seq<seq<string>>) | Unreadable(error: string)

  /** The detail rows one folder entry contributes. */
  ghost function EntryKeyRows(pasta: string, nome: string, files: string -> PdfFile): seq<KeyRow> {
    if !IsPdfName(nome) then []
    else match files(nome)
      case Rendered(pages) =>
        var res := ExtractionOf(JoinPath(pasta, nome), pages);
        KeyRows(res.arquivo, res.chaves44)
      case Unreadable(_) => []
  }

  /** The summary row of a PDF entry: its extraction's success row, or the error row. */
  ghost function PdfSummaryRow(pasta: string, nome: string, files: string -> PdfFile): SummaryRow {
    match files(nome)
    case Rendered(pages) =>
      var res := ExtractionOf(JoinPath(pasta, nome), pages);
      SuccessRow(res.arquivo, res.chaves44, res.outrasLeituras)
    case Unreadable(e) => ErrorRow(nome, e)
  }

  /** The summary rows one folder entry contributes: one for a PDF, none otherwise. */
  ghost function EntrySummary(pasta: string, nome: string, files: string -> PdfFile): seq<SummaryRow> {
    if !IsPdfName(nome) then [] else [PdfSummaryRow(pasta, nome, files)]
  }

  /** The detail rows the folder pass appends, before deduplication. */
  ghost function FolderKeyRows(pasta: string, nomes: seq<string>, files: string -> PdfFile): seq<KeyRow>
  {
    if nomes == [] then []
    else FolderKeyRows(pasta, nomes[..|nomes| - 1], files) + EntryKeyRows(pasta, nomes[|nomes| - 1], files)
  }

  /** The summary rows the folder pass appends, before sorting. */
  ghost function FolderSummary(pasta: string, nomes: seq<string>, files: string -> PdfFile): seq<SummaryRow>
  {
    if nomes == [] then []
    else FolderSummary(pasta, nomes[..|nomes| - 1], files) + EntrySummary(pasta, nomes[|nomes| - 1], files)
  }

  /**
   * `processar_pasta_pdfs`: every entry of the folder listing `nomes` whose
   * name ends in ".pdf" is extracted; a failure becomes an error row and the
   * loop goes on. `files` gives what reading each entry yields.
   */
  method ProcessFolder(pasta: string, nomes: seq<string>, files: string -> PdfFile)
    returns (out: BatchResult)
    ensures out == FinishTables(FolderKeyRows(pasta, nomes, files), FolderSummary(pasta, nomes, files))
  {
    var linhasChaves: seq<KeyRow> := [];
    var linhasResumo: seq<SummaryRow> := [];
    for i := 0 to |nomes|
      invariant linhasChaves == FolderKeyRows(pasta, nomes[..i], files)
      invariant linhasResumo == FolderSummary(pasta, nomes[..i], files)
    {
      var nome := nomes[i];
      assert nomes[..i + 1][..i] == nomes[..i];
      assert FolderKeyRows(pasta, nomes[..i + 1], files) == linhasChaves + EntryKeyRows(pasta, nome, files);
      assert FolderSummary(pasta, nomes[..i + 1], files) == linhasResumo + EntrySummary(pasta, nome, files);
      if !IsPdfName(nome) {
        continue;
      }
      var caminhoPdf := JoinPath(pasta, nome);
      match files(nome)
      case Rendered(pages) =>
        var result := ExtractKeys(caminhoPdf, pages);
        linhasChaves := linhasChaves + KeyRows(result.arquivo, result.chaves44);
        linhasResumo := linhasResumo + [SuccessRow(result.arquivo, result.chaves44, result.outrasLeituras)];
      case Unreadable(e) =>
        linhasResumo := linhasResumo + [ErrorRow(nome, e)];
    }
    assert nomes[..|nomes|] == nomes;
    out := FinishTables(linhasChaves, linhasResumo);
  }

  /** Exactly one summary row per PDF entry, success or failure. */
  lemma {:induction false} OneSummaryRowPerPdf(pasta: string, nomes: seq<string>, files: string -> PdfFile)
    ensures |FolderSummary(pasta, nomes, files)| == |Filter(IsPdfName, nomes)|
  {
    if nomes != [] {
      var init, nome := nomes[..|nomes| - 1], nomes[|nomes| - 1];
      assert nomes == init + [nome];
      OneSummaryRowPerPdf(pasta, init, files);
      FilterAppend(IsPdfName, init, [nome]);
    }
  }

  /** The summary rows are the rows of the PDF entries, in listing order. */
  lemma {:induction false} SummaryRowsInListingOrder(pasta: string, nomes: seq<string>, files: string -> PdfFile)
    ensures var pdfs := Filter(IsPdfName, nomes);
      var rows := FolderSummary(pasta, nomes, files);
      |rows| == |pdfs| && forall i :: 0 <= i < |rows| ==> rows[i] == PdfSummaryRow(pasta, pdfs[i], files)
  {
    if nomes != [] {
      var init, nome := nomes[..|nomes| - 1], nomes[|nomes| - 1];
      assert nomes == init + [nome];
      SummaryRowsInListingOrder(pasta, init, files);
      FilterAppend(IsPdfName, init, [nome]);
      var rows0 := FolderSummary(pasta, init, files);
      if IsPdfName(nome) {
        assert Filter(IsPdfName, [nome]) == [nome];
        assert FolderSummary(pasta, nomes, files) == rows0 + [PdfSummaryRow(pasta, nome, files)];
      } else {
        assert Filter(IsPdfName, [nome]) == [];
        assert FolderSummary(pasta, nomes, files) == rows0;
      }
    }
  }

  /**
   * The summary row of a PDF entry is named after the entry and reports the
   * keys its extraction found (count and joined cell) and its other readings
   * (joined cell), or the error with no keys.
   */
  lemma PdfSummaryRowShape(pasta: string, nome: string, files: string -> PdfFile)
    requires '/' !in nome
    ensures var row := PdfSummaryRow(pasta, nome, files);
      row.arquivo == nome &&
      match files(nome)
      case Rendered(pages) =>
        row.qtdChaves44 == |KeySet(Flatten(pages))| &&
        row.chaves44 == JoinedCell(SortedSeq(KeySet(Flatten(pages)))) &&
        row.outrasLeituras == JoinedCell(SortedSeq(OtherSet(Flatten(pages))))
      case Unreadable(e) => row == ErrorRow(nome, e)
  {
    BaseNameOfJoin(pasta, nome);
    if files(nome).Rendered? {
      SortedSetLength(KeySet(Flatten(files(nome).pages)));
    }
  }

  /**
   * A summary row per PDF entry, in listing order, named after its entry and
   * reporting the keys and other readings the extraction found, or the error
   * with no keys.
   */
  lemma SummaryRowsFollowEntries(pasta: string, nomes: seq<string>, files: string -> PdfFile)
    requires forall i :: 0 <= i < |nomes| ==> '/' !in nomes[i]
    ensures var pdfs := Filter(IsPdfName, nomes);
      var rows := FolderSummary(pasta, nomes, files);
      |rows| == |pdfs| &&
      forall i :: 0 <= i < |rows| ==>
        rows[i].arquivo == pdfs[i] &&
        match files(pdfs[i])
        case Rendered(pages) =>
          rows[i].qtdChaves44 == |KeySet(Flatten(pages))| &&
          rows[i].chaves44 == JoinedCell(SortedSeq(KeySet(Flatten(pages)))) &&
          rows[i].outrasLeituras == JoinedCell(SortedSeq(OtherSet(Flatten(pages))))
        case Unreadable(e) => rows[i] == ErrorRow(pdfs[i], e)
  {
    var pdfs := Filter(IsPdfName, nomes);
    SummaryRowsInListingOrder(pasta, nomes, files);
    forall i | 0 <= i < |pdfs| ensures '/' !in pdfs[i] {
      assert pdfs[i] in nomes;
    }
    forall i | 0 <= i < |pdfs| {
      PdfSummaryRowShape(pasta, pdfs[i], files);
    }
  }

  lemma SortedSetLength(s: set<string>)
    ensures |SortedSeq(s)| == |s|
  {
    var r := SortedSeq(s);
    assert NoDup(r) by {
      forall i, j | 0 <= i < j < |r| ensures r[i] != r[j] { LtIrreflexive(r[i]); }
    }
    NoDupCardinality(r);
  }

  lemma EntryKeyRowsMember(pasta: string, nome: string, files: string -> PdfFile, row: KeyRow)
    requires '/' !in nome
    ensures row in EntryKeyRows(pasta, nome, files) <==>
      row.arquivo == nome && IsPdfName(nome) && files(nome).Rendered? &&
      row.chave44 in KeySet(Flatten(files(nome).pages))
  {
    if IsPdfName(nome) && files(nome).Rendered? {
      BaseNameOfJoin(pasta, nome);
      var keys := SortedSeq(KeySet(Flatten(files(nome).pages)));
      KeyRowsMember(nome, keys, row);
      assert row.chave44 in keys <==> row.chave44 in Elems(keys);
    }
  }

  /** A (file, key) detail row exists exactly for a PDF entry that was read and one of its keys. */
  lemma {:induction false} KeyRowsComeFromExtraction(pasta: string, nomes: seq<string>, files: string -> PdfFile, row: KeyRow)
    requires forall i :: 0 <= i < |nomes| ==> '/' !in nomes[i]
    ensures row in FolderKeyRows(pasta, nomes, files) <==>
      row.arquivo in nomes && IsPdfName(row.arquivo) && files(row.arquivo).Rendered? &&
      row.chave44 in KeySet(Flatten(files(row.arquivo).pages))
  {
    if nomes != [] {
      var init, nome := nomes[..|nomes| - 1], nomes[|nomes| - 1];
      assert nomes == init + [nome];
      KeyRowsComeFromExtraction(pasta, init, files, row);
      EntryKeyRowsMember(pasta, nome, files, row);
    }
  }
}
