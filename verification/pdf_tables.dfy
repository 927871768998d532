/**
 * The two result tables of a PDF batch, shared by the folder aggregator
 * (pdf_app/extractor.py) and the upload app (pdf_app/app.py): one detail row
 * per (file, key) and one summary row per file, success or failure.
 */
module PdfTables {
  import opened Seqs
  import opened Text
  import opened StringOrder

  /** Only names ending in ".pdf", in any letter case, are processed. */
  predicate IsPdfName(nome: string)
    ensures IsPdfName(nome) <==> |nome| >= 4 && Lower(nome[|nome| - 4..]) == ".pdf"
  {
    assert |nome| >= 4 ==> Lower(nome)[|nome| - 4..] == Lower(nome[|nome| - 4..]);
    EndsWith(Lower(nome), ".pdf")
  }

  /** A row of the detail table: `{"arquivo": ..., "chave_44": ...}`. */
  datatype KeyRow = KeyRow(arquivo: string, chave44: string)

  /** A row of the summary table. */
  datatype SummaryRow = SummaryRow(
    arquivo: string,
    qtdChaves44: nat,
    chaves44: string,
    outrasLeituras: string)

  /** The separator of the joined cells. */
  const CellSeparator := ", "

  /** `", ".join(xs) if xs else ""`. */
  function JoinedCell(xs: seq<string>): (r: string)
    ensures xs == [] ==> r == ""
    ensures |xs| == 1 ==> r == xs[0]
  {
    if xs != [] then Join(CellSeparator, xs) else ""
  }

  /** The summary row of a file whose extraction succeeded. */
  function SuccessRow(arquivo: string, chaves: seq<string>, outras: seq<string>): (r: SummaryRow)
    ensures r.arquivo == arquivo && r.qtdChaves44 == |chaves|
    ensures r.chaves44 == JoinedCell(chaves) && r.outrasLeituras == JoinedCell(outras)
  {
    SummaryRow(arquivo, |chaves|, JoinedCell(chaves), JoinedCell(outras))
  }

  /**
   * The summary row of a file whose extraction raised `msg`: no keys, and the
   * message after "ERRO: ", so it is told apart from a success row whose
   * readings do not start that way.
   */
  function ErrorRow(arquivo: string, msg: string): (r: SummaryRow)
    ensures r.arquivo == arquivo && r.qtdChaves44 == 0 && r.chaves44 == ""
    ensures |r.outrasLeituras| >= 6 && r.outrasLeituras[..6] == "ERRO: " && r.outrasLeituras[6..] == msg
  {
    SummaryRow(arquivo, 0, "", "ERRO: " + msg)
  }

  /** One detail row per key of a file, in the order of the keys. */
  function KeyRows(arquivo: string, chaves: seq<string>): (r: seq<KeyRow>)
    ensures |r| == |chaves|
    ensures forall i :: 0 <= i < |r| ==> r[i] == KeyRow(arquivo, chaves[i])
  {
    if chaves == [] then [] else [KeyRow(arquivo, chaves[0])] + KeyRows(arquivo, chaves[1..])
  }

  /** The detail rows of a file are exactly (file, k) for its keys k. */
  lemma KeyRowsMember(arquivo: string, chaves: seq<string>, row: KeyRow)
    ensures row in KeyRows(arquivo, chaves) <==> row.arquivo == arquivo && row.chave44 in chaves
  {
    var rows := KeyRows(arquivo, chaves);
    if row in rows {
      var k :| 0 <= k < |rows| && rows[k] == row;
    }
    if row.arquivo == arquivo && row.chave44 in chaves {
      var k :| 0 <= k < |chaves| && chaves[k] == row.chave44;
      assert rows[k] == row;
    }
  }

  /**
   * A success row counts its keys, and its keys cell splits back into exactly
   * those keys: access keys hold no ',' so the join is reversible.
   */
  lemma SuccessRowKeys(arquivo: string, chaves: seq<string>, outras: seq<string>)
    requires forall i :: 0 <= i < |chaves| ==> IsAccessKey(chaves[i])
    ensures SuccessRow(arquivo, chaves, outras).qtdChaves44 == |chaves|
    ensures chaves == [] <==> SuccessRow(arquivo, chaves, outras).chaves44 == ""
    ensures chaves != [] ==> Split(SuccessRow(arquivo, chaves, outras).chaves44, CellSeparator) == chaves
  {
    if chaves != [] {
      assert forall i :: 0 <= i < |chaves| ==> CellSeparator[0] !in chaves[i];
      SplitJoin(chaves, CellSeparator);
      assert |chaves[0]| == AccessKeyLength;
      JoinNonEmpty(chaves);
    }
  }

  lemma JoinNonEmpty(xs: seq<string>)
    requires xs != [] && xs[0] != ""
    ensures Join(CellSeparator, xs) != ""
  {
  }

  function FileOf(row: SummaryRow): string { row.arquivo }

  /** Both tables of a batch. */
  datatype Tables = Tables(chaves: seq<KeyRow>, resumo: seq<SummaryRow>)

  /**
   * The end of a batch: `drop_duplicates()` on the detail rows and
   * `sort_values("arquivo")` on the summary. pandas builds a frame without
   * columns from an empty list of rows, and sorting it by "arquivo" raises
   * `KeyError`: that is the `MissingColumn` outcome.
   */
  datatype BatchResult = Done(tables: Tables) | MissingColumn(column: string)

  function FinishTables(linhas: seq<KeyRow>, resumo: seq<SummaryRow>): (r: BatchResult)
    ensures r.MissingColumn? <==> resumo == []
    ensures r.MissingColumn? ==> r.column == "arquivo"
    ensures r.Done? ==>
      && NoDup(r.tables.chaves)
      && Elems(r.tables.chaves) == Elems(linhas)
      && InFirstOccurrenceOrder(r.tables.chaves, linhas)
      && SortedBy(r.tables.resumo, FileOf)
      && multiset(r.tables.resumo) == multiset(resumo)
  {
    if resumo == [] then MissingColumn("arquivo")
    else
      DedupElems(linhas);
      DedupFirstOccurrenceOrder(linhas);
      Done(Tables(Dedup(linhas), SortBy(resumo, FileOf)))
  }
}
