/**
 * The batch loop of the PDF upload app (pdf_app/app.py): the names found in
 * the unpacked zip are visited in ascending order, every ".pdf" one is handed
 * to the key extractor, and the outcome becomes one summary row and, on
 * success, one detail row per key.
 *
 * The extractor is a parameter: for each path and DPI it either returns the
 * keys and other readings or raises with a message.
 */
module PdfApp {
  import opened Seqs
  import opened Text
  import opened StringOrder
  import opened Paths
  import opened PdfTables
  import opened PdfExtractor

  /** The DPI input accepts 100 to 600. */
  const MinDpi := 100
  const MaxDpi := 600

  /** A rendering resolution the settings panel can hand to the extractor. */
  type Dpi = d: int | MinDpi <= d <= MaxDpi witness 300

  const DefaultDpi: Dpi := 300

  /** What calling the extractor on one file gives. */
  datatype FileOutcome = Ok(chaves: seq<string>, outras: seq<string>) | Err(msg: string)

  /** The summary row of a file, from its outcome. */
  function SummaryOf(nome: string, outcome: FileOutcome): (r: SummaryRow)
    ensures r.arquivo == nome
  {
    match outcome
    case Ok(chaves, outras) => SuccessRow(nome, chaves, outras)
    case Err(msg) => ErrorRow(nome, msg)
  }

  /** The detail rows of a file, from its outcome: none when it failed. */
  function DetailOf(nome: string, outcome: FileOutcome): (r: seq<KeyRow>)
    ensures outcome.Err? ==> r == []
  {
    match outcome
    case Ok(chaves, _) => KeyRows(nome, chaves)
    case Err(_) => []
  }

  /** The outcome of the file `nome` of the unpacked folder `td`. */
  function OutcomeOf(td: string, nome: string, dpi: Dpi, extract: (string, Dpi) -> FileOutcome): FileOutcome {
    extract(JoinPath(td, nome), dpi)
  }

  /** The detail rows the loop appends for `nomes`, before deduplication. */
  function BatchKeyRows(td: string, nomes: seq<string>, dpi: Dpi, extract: (string, Dpi) -> FileOutcome): seq<KeyRow>
  {
    if nomes == [] then []
    else
      var nome := nomes[|nomes| - 1];
      BatchKeyRows(td, nomes[..|nomes| - 1], dpi, extract) +
        (if IsPdfName(nome) then DetailOf(nome, OutcomeOf(td, nome, dpi, extract)) else [])
  }

  /** The summary rows the loop appends for `nomes`, before sorting. */
  function BatchSummary(td: string, nomes: seq<string>, dpi: Dpi, extract: (string, Dpi) -> FileOutcome): seq<SummaryRow>
  {
    if nomes == [] then []
    else
      var nome := nomes[|nomes| - 1];
      BatchSummary(td, nomes[..|nomes| - 1], dpi, extract) +
        (if IsPdfName(nome) then [SummaryOf(nome, OutcomeOf(td, nome, dpi, extract))] else [])
  }

  /** What the name at `i` adds to both tables. */
  lemma BatchStep(td: string, nomes: seq<string>, i: nat, dpi: Dpi, extract: (string, Dpi) -> FileOutcome)
    requires i < |nomes|
    ensures var nome := nomes[i];
      && BatchKeyRows(td, nomes[..i + 1], dpi, extract) == BatchKeyRows(td, nomes[..i], dpi, extract) +
           (if IsPdfName(nome) then DetailOf(nome, OutcomeOf(td, nome, dpi, extract)) else [])
      && BatchSummary(td, nomes[..i + 1], dpi, extract) == BatchSummary(td, nomes[..i], dpi, extract) +
           (if IsPdfName(nome) then [SummaryOf(nome, OutcomeOf(td, nome, dpi, extract))] else [])
  {
    assert nomes[..i + 1][..i] == nomes[..i];
  }

  /**
   * The loop over `sorted(os.listdir(td))`: skips names not ending in ".pdf",
   * appends the rows of each outcome, goes on after a failure; then drops
   * repeated detail rows and sorts the summary by "arquivo".
   */
  method ProcessZip(td: string, listing: seq<string>, dpi: Dpi, extract: (string, Dpi) -> FileOutcome)
    returns (out: BatchResult)
    ensures var nomes := SortBy(listing, Id);
      out == FinishTables(BatchKeyRows(td, nomes, dpi, extract), BatchSummary(td, nomes, dpi, extract))
  {
    var nomes := SortBy(listing, Id);
    var linhas: seq<KeyRow> := [];
    var resumo: seq<SummaryRow> := [];
    for i := 0 to |nomes|
      invariant linhas == BatchKeyRows(td, nomes[..i], dpi, extract)
      invariant resumo == BatchSummary(td, nomes[..i], dpi, extract)
    {
      var nome := nomes[i];
      BatchStep(td, nomes, i, dpi, extract);
      if !IsPdfName(nome) {
        continue;
      }
      var caminhoPdf := JoinPath(td, nome);
      match extract(caminhoPdf, dpi)
      case Ok(chaves, outras) =>
        linhas := linhas + KeyRows(nome, chaves);
        resumo := resumo + [SuccessRow(nome, chaves, outras)];
      case Err(e) =>
        resumo := resumo + [ErrorRow(nome, e)];
    }
    assert nomes[..|nomes|] == nomes;
    out := FinishTables(linhas, resumo);
  }

  /**
   * Exactly one summary row per ".pdf" name, in the order of the names, and
   * each row is the success or error row of that file's outcome.
   */
  lemma {:induction false} SummaryFollowsNames(td: string, nomes: seq<string>, dpi: Dpi, extract: (string, Dpi) -> FileOutcome)
    ensures var pdfs := Filter(IsPdfName, nomes);
      var rows := BatchSummary(td, nomes, dpi, extract);
      |rows| == |pdfs| &&
      forall i :: 0 <= i < |rows| ==> rows[i] == SummaryOf(pdfs[i], OutcomeOf(td, pdfs[i], dpi, extract))
  {
    if nomes != [] {
      var init, nome := nomes[..|nomes| - 1], nomes[|nomes| - 1];
      assert nomes == init + [nome];
      SummaryFollowsNames(td, init, dpi, extract);
      FilterAppend(IsPdfName, init, [nome]);
      var rows0 := BatchSummary(td, init, dpi, extract);
      if IsPdfName(nome) {
        assert Filter(IsPdfName, [nome]) == [nome];
        assert BatchSummary(td, nomes, dpi, extract) == rows0 + [SummaryOf(nome, OutcomeOf(td, nome, dpi, extract))];
      } else {
        assert Filter(IsPdfName, [nome]) == [];
        assert BatchSummary(td, nomes, dpi, extract) == rows0;
      }
    }
  }

  /**
   * The row rule spelled out per outcome: a success row counts the keys and
   * joins keys and readings with ", " ("" when there are none); an error row
   * has no keys and "ERRO: " before the message. That the keys cell gives the
   * keys back is `SuccessRowKeys`.
   */
  lemma SummaryRowShape(nome: string, outcome: FileOutcome)
    ensures var row := SummaryOf(nome, outcome);
      match outcome
      case Ok(chaves, outras) =>
        row.qtdChaves44 == |chaves| &&
        (chaves == [] ==> row.chaves44 == "") && (chaves != [] ==> row.chaves44 == Join(", ", chaves)) &&
        (outras == [] ==> row.outrasLeituras == "") && (outras != [] ==> row.outrasLeituras == Join(", ", outras))
      case Err(msg) =>
        row.qtdChaves44 == 0 && row.chaves44 == "" && row.outrasLeituras == "ERRO: " + msg
  {
  }

  /**
   * The summary comes out in ascending name order: the names were visited
   * sorted, so `sort_values("arquivo")` leaves the rows where they are.
   */
  lemma SummaryInNameOrder(td: string, listing: seq<string>, dpi: Dpi, extract: (string, Dpi) -> FileOutcome)
    ensures var nomes := SortBy(listing, Id);
      var out := FinishTables(BatchKeyRows(td, nomes, dpi, extract), BatchSummary(td, nomes, dpi, extract));
      out.Done? ==> out.tables.resumo == BatchSummary(td, nomes, dpi, extract)
  {
    var nomes := SortBy(listing, Id);
    var rows := BatchSummary(td, nomes, dpi, extract);
    var pdfs := Filter(IsPdfName, nomes);
    FilterSorted(IsPdfName, nomes);
    SummaryFollowsNames(td, nomes, dpi, extract);
    assert SortedBy(rows, FileOf) by {
      forall i, j | 0 <= i < j < |rows| ensures Le(FileOf(rows[i]), FileOf(rows[j])) {
        assert FileOf(rows[i]) == pdfs[i] && FileOf(rows[j]) == pdfs[j];
      }
    }
    if rows != [] {
      SortBySortedIsIdentity(rows, FileOf);
    }
  }

  lemma DetailOfMember(nome: string, outcome: FileOutcome, row: KeyRow)
    ensures row in DetailOf(nome, outcome) <==>
      row.arquivo == nome && outcome.Ok? && row.chave44 in outcome.chaves
  {
    if outcome.Ok? {
      var rows := KeyRows(nome, outcome.chaves);
      if row in rows {
        var k :| 0 <= k < |rows| && rows[k] == row;
      }
      if row.arquivo == nome && row.chave44 in outcome.chaves {
        var k :| 0 <= k < |outcome.chaves| && outcome.chaves[k] == row.chave44;
        assert rows[k] == row;
      }
    }
  }

  /**
   * A (file, key) detail row is appended exactly when the file is a listed
   * ".pdf" name whose extraction succeeded and returned that key.
   */
  lemma {:induction false} DetailRowsComeFromOutcomes(td: string, nomes: seq<string>, dpi: Dpi,
                                                      extract: (string, Dpi) -> FileOutcome, row: KeyRow)
    ensures row in BatchKeyRows(td, nomes, dpi, extract) <==>
      row.arquivo in nomes && IsPdfName(row.arquivo) &&
      OutcomeOf(td, row.arquivo, dpi, extract).Ok? &&
      row.chave44 in OutcomeOf(td, row.arquivo, dpi, extract).chaves
  {
    if nomes != [] {
      var init, nome := nomes[..|nomes| - 1], nomes[|nomes| - 1];
      assert nomes == init + [nome];
      DetailRowsComeFromOutcomes(td, init, dpi, extract, row);
      DetailOfMember(nome, OutcomeOf(td, nome, dpi, extract), row);
    }
  }

  // ---------------------------------------------------------------------------
  // How the batch loop calls the folder extractor

  /** The message of the TypeError a two-name unpacking of the result object raises. */
  const UnpackError := "cannot unpack non-iterable PDFExtractionResult object"

  /**
   * The call as written: `chaves, outras = extrair_chaves_de_pdf(...)`. The
   * extractor returns a `PDFExtractionResult`, which cannot be unpacked, so a
   * readable file raises just as an unreadable one does. `files` gives what
   * each path holds.
   */
  function AsWrittenExtract(files: string -> PdfFile): (string, Dpi) -> FileOutcome {
    (caminho: string, dpi: Dpi) =>
      match files(caminho)
      case Rendered(_) => Err(UnpackError)
      case Unreadable(e) => Err(e)
  }

  /** The call as intended: the keys and readings are taken from the result's fields. */
  ghost function CorrectedExtract(files: string -> PdfFile): (string, Dpi) -> FileOutcome {
    (caminho: string, dpi: Dpi) =>
      match files(caminho)
      case Rendered(pages) =>
        var res := ExtractionOf(caminho, pages);
        Ok(res.chaves44, res.outrasLeituras)
      case Unreadable(e) => Err(e)
  }

  /**
   * As written, no file ever yields a detail row and every summary row is an
   * error row with no keys, even for a readable PDF full of keys.
   */
  lemma {:induction false} AsWrittenEveryFileFails(td: string, nomes: seq<string>, dpi: Dpi, files: string -> PdfFile)
    ensures BatchKeyRows(td, nomes, dpi, AsWrittenExtract(files)) == []
    ensures forall row :: row in BatchSummary(td, nomes, dpi, AsWrittenExtract(files)) ==>
      row.qtdChaves44 == 0 && row.chaves44 == ""
  {
    if nomes != [] {
      AsWrittenEveryFileFails(td, nomes[..|nomes| - 1], dpi, files);
    }
  }

  /** A readable PDF whose pages hold a key: the as-written loop reports it as an error. */
  lemma AsWrittenLosesKeys(td: string, nome: string, dpi: Dpi, files: string -> PdfFile)
    requires IsPdfName(nome) && files(JoinPath(td, nome)).Rendered?
    requires KeySet(Flatten(files(JoinPath(td, nome)).pages)) != {}
    ensures BatchSummary(td, [nome], dpi, AsWrittenExtract(files)) == [ErrorRow(nome, UnpackError)]
    ensures |BatchKeyRows(td, [nome], dpi, CorrectedExtract(files))| > 0
  {
    var pages := files(JoinPath(td, nome)).pages;
    var k :| k in KeySet(Flatten(pages));
    assert [nome][..0] == [];
    DetailRowsComeFromOutcomes(td, [nome], dpi, CorrectedExtract(files), KeyRow(nome, k));
  }

  /**
   * With the intended call, a detail row (file, key) is produced exactly when
   * the file is a listed ".pdf" name that could be read and one of its
   * payloads, stripped, is a 44-digit key.
   */
  lemma CorrectedDetailRows(td: string, nomes: seq<string>, dpi: Dpi, files: string -> PdfFile, row: KeyRow)
    ensures var f := files(JoinPath(td, row.arquivo));
      row in BatchKeyRows(td, nomes, dpi, CorrectedExtract(files)) <==>
        row.arquivo in nomes && IsPdfName(row.arquivo) && f.Rendered? &&
        row.chave44 in KeySet(Flatten(f.pages))
  {
    DetailRowsComeFromOutcomes(td, nomes, dpi, CorrectedExtract(files), row);
    var f := files(JoinPath(td, row.arquivo));
    if f.Rendered? {
      assert Elems(ExtractionOf(JoinPath(td, row.arquivo), f.pages).chaves44) == KeySet(Flatten(f.pages));
    }
  }

  /**
   * With the intended call, the summary row of a readable file counts its
   * distinct keys.
   */
  lemma CorrectedSummaryCounts(td: string, nome: string, dpi: Dpi, files: string -> PdfFile)
    requires files(JoinPath(td, nome)).Rendered?
    ensures SummaryOf(nome, CorrectedExtract(files)(JoinPath(td, nome), dpi)).qtdChaves44 ==
      |KeySet(Flatten(files(JoinPath(td, nome)).pages))|
  {
    SortedSetLength(KeySet(Flatten(files(JoinPath(td, nome)).pages)));
  }
}
