/**
 * The XML invoice app (xml_app/app.py): every `det` item of a parsed NF-e
 * becomes one 25-field text row, and the spreadsheet written from those rows
 * is then normalised column by column (values cleaned and converted, number
 * formats set, the issuer's CNPJ masked).
 *
 * XML parsing is not modelled: an invoice arrives as the elements the XPath
 * lookups find (or not). Float conversion is a parameter `parses`.
 */
module XmlInvoice {
  import opened Wrappers
  import opened Seqs
  import opened Text

  // ---------------------------------------------------------------------------
  // Parsed invoice

  /** What `root.find(...)` gives: no element, or an element whose text may be None. */
  datatype Element = Absent | Present(text: Option<string>)

  /** The element exists and its text is a non-empty string (Python truthiness). */
  predicate HasText(e: Element) {
    e.Present? && e.text.Some? && e.text.value != ""
  }

  /** `str(elem.text)` of an element that exists: a missing text prints as "None". */
  function Str(e: Element): string
    requires e.Present?
  {
    if e.text.Some? then e.text.value else "None"
  }

  /** The invoice-level elements the row builder looks up. */
  datatype Header = Header(
    nNF: Element, serie: Element, natOp: Element, dhEmi: Element, dhSaiEnt: Element,
    vFrete: Element, vDesc: Element, vOutro: Element, vNF: Element, vProd: Element,
    chNFe: Element, cnpj: Element, xNome: Element)

  /** The elements of one `det` item. */
  datatype Item = Item(
    cProd: Element, xProd: Element, uCom: Element, qCom: Element, vUnCom: Element,
    vDesc: Element, vProd: Element, pICMS: Element, vICMS: Element, pIPI: Element, vIPI: Element)

  datatype Invoice = Invoice(header: Header, items: seq<Item>)

  // ---------------------------------------------------------------------------
  // Field rules

  /** `get_text_or_zero`: the element's text when it has one, else "0". */
  function GetTextOrZero(e: Element): (r: string)
    ensures r != ""
    ensures HasText(e) ==> r == e.text.value
    ensures r != "0" ==> e == Present(Some(r))
  {
    if HasText(e) then e.text.value else "0"
  }

  /** The item discount rule: the element's text when it has one, else "". */
  function TextOrEmpty(e: Element): (r: string)
    ensures r == "" <==> !HasText(e)
    ensures r != "" ==> e == Present(Some(r))
  {
    if HasText(e) then e.text.value else ""
  }

  /**
   * The date rule: `t[8:10] + "/" + t[5:7] + "/" + t[0:4]` on the element's
   * text (clamped slices), "" when the element is missing or its text empty.
   */
  function FormatDate(e: Element): (r: string)
    ensures !HasText(e) <==> r == ""
    ensures |r| <= 10
  {
    if HasText(e) then
      var t := e.text.value;
      Slice(t, 8, 10) + "/" + Slice(t, 5, 7) + "/" + Slice(t, 0, 4)
    else ""
  }

  /** An ISO date "YYYY-MM-DD", with or without a time part, becomes "DD/MM/YYYY". */
  lemma DateRoundTrip(yyyy: string, mm: string, dd: string, rest: string)
    requires |yyyy| == 4 && |mm| == 2 && |dd| == 2
    ensures FormatDate(Present(Some(yyyy + "-" + mm + "-" + dd + rest))) == dd + "/" + mm + "/" + yyyy
  {
    var t := yyyy + "-" + mm + "-" + dd + rest;
    assert t[8..10] == dd && t[5..7] == mm && t[0..4] == yyyy;
  }

  /** A text too short to hold a month keeps its first (up to) four characters after two slashes. */
  lemma ShortDateText(t: string)
    requires 0 < |t| <= 5
    ensures FormatDate(Present(Some(t))) == "//" + t[..Min(4, |t|)]
  {
  }

  /** Every invoice-level element whose `.text` the row reads directly exists. */
  predicate HeaderPresent(h: Header) {
    && h.nNF.Present? && h.serie.Present? && h.natOp.Present? && h.vFrete.Present?
    && h.chNFe.Present? && h.cnpj.Present? && h.xNome.Present? && h.vNF.Present?
    && h.vProd.Present? && h.vDesc.Present? && h.vOutro.Present?
  }

  /** Every item element whose `.text` the row reads directly exists. */
  predicate ItemPresent(it: Item) {
    && it.cProd.Present? && it.xProd.Present? && it.uCom.Present?
    && it.qCom.Present? && it.vUnCom.Present? && it.vProd.Present?
  }

  /** The 13 invoice-level fields of a row. */
  function HeaderFields(h: Header): seq<string>
    requires HeaderPresent(h)
  {
    [Str(h.nNF), Str(h.serie), Str(h.natOp), FormatDate(h.dhEmi), FormatDate(h.dhSaiEnt),
     Str(h.vFrete), Str(h.chNFe), Str(h.cnpj), Str(h.xNome),
     Str(h.vNF), Str(h.vProd), Str(h.vDesc), Str(h.vOutro)]
  }

  /** The 11 item fields of a row. */
  function ItemFields(it: Item): seq<string>
    requires ItemPresent(it)
  {
    [Str(it.cProd), Str(it.xProd), Str(it.uCom), Str(it.qCom), Str(it.vUnCom),
     TextOrEmpty(it.vDesc), Str(it.vProd),
     GetTextOrZero(it.pICMS), GetTextOrZero(it.vICMS), GetTextOrZero(it.pIPI), GetTextOrZero(it.vIPI)]
  }

  /** The spreadsheet's column headers, in row order. */
  const Columns: seq<string> := [
    "NFe", "Série", "Natureza da Operação", "Data de emissão", "Data de Saída/Entrada",
    "Valor do Frete", "Chave", "CNPJ do Emitente", "Nome do Emitente",
    "Valor Total da Nota", "Valor Total dos Produtos", "Descontos Aplicados",
    "Outras Despesas Acessórias", "Nº Item na Nota", "Cód. Produto", "Descrição",
    "Unidade de Medida", "Quantidade", "Valor Unitário", "Desconto", "Valor Total do Item",
    "ICMS(%)", "ICMS (valor)", "IPI(%)", "IPI (valor)"]

  /** Where the item number sits in a row. */
  const ItemNumberColumn := 13

  /**
   * The row of item number `num`: invoice fields, the number as text, item
   * fields. None when `.text` is read from a missing element (the
   * AttributeError).
   */
  function ItemRow(h: Header, it: Item, num: nat): (r: Option<seq<string>>)
    ensures r.Some? <==> HeaderPresent(h) && ItemPresent(it)
  {
    if HeaderPresent(h) && ItemPresent(it) then
      Some(HeaderFields(h) + [NatToString(num)] + ItemFields(it))
    else None
  }

  /**
   * A row has one field per column: the reformatted dates, the item number,
   * the discount ("" when missing) and the four tax fields ("0" when missing)
   * sit under their headers, and every other field is the text of its element.
   */
  lemma ItemRowFields(h: Header, it: Item, num: nat)
    requires HeaderPresent(h) && ItemPresent(it)
    ensures var row := ItemRow(h, it, num).value;
      && |row| == |Columns|
      && row[3] == FormatDate(h.dhEmi) && row[4] == FormatDate(h.dhSaiEnt)
      && row[ItemNumberColumn] == NatToString(num)
      && row[19] == TextOrEmpty(it.vDesc)
      && row[21..] == [GetTextOrZero(it.pICMS), GetTextOrZero(it.vICMS), GetTextOrZero(it.pIPI), GetTextOrZero(it.vIPI)]
      && row[0] == Str(h.nNF) && row[1] == Str(h.serie) && row[2] == Str(h.natOp)
      && row[5] == Str(h.vFrete) && row[6] == Str(h.chNFe) && row[7] == Str(h.cnpj) && row[8] == Str(h.xNome)
      && row[9] == Str(h.vNF) && row[10] == Str(h.vProd) && row[11] == Str(h.vDesc) && row[12] == Str(h.vOutro)
      && row[14] == Str(it.cProd) && row[15] == Str(it.xProd) && row[16] == Str(it.uCom)
      && row[17] == Str(it.qCom) && row[18] == Str(it.vUnCom) && row[20] == Str(it.vProd)
  {
    var hf, itf := HeaderFields(h), ItemFields(it);
    assert ItemRow(h, it, num).value == hf + [NatToString(num)] + itf;
  }

  /** The positions the row rules write are the columns of those names. */
  lemma ColumnsAlign()
    ensures |Columns| == 25
    ensures Columns[3] == "Data de emissão" && Columns[4] == "Data de Saída/Entrada"
    ensures Columns[ItemNumberColumn] == "Nº Item na Nota" && Columns[19] == "Desconto"
    ensures Columns[21..] == ["ICMS(%)", "ICMS (valor)", "IPI(%)", "IPI (valor)"]
    ensures Columns[..3] == ["NFe", "Série", "Natureza da Operação"]
    ensures Columns[5] == "Valor do Frete" && Columns[6] == "Chave"
    ensures Columns[7] == "CNPJ do Emitente" && Columns[8] == "Nome do Emitente"
    ensures Columns[9] == "Valor Total da Nota" && Columns[10] == "Valor Total dos Produtos"
    ensures Columns[11] == "Descontos Aplicados" && Columns[12] == "Outras Despesas Acessórias"
    ensures Columns[14..19] == ["Cód. Produto", "Descrição", "Unidade de Medida", "Quantidade", "Valor Unitário"]
    ensures Columns[20] == "Valor Total do Item"
  {
  }

  /**
   * The rows `extract_info_from_xml` appends: items are numbered from 1, and
   * the first item whose row cannot be built stops the loop.
   */
  function ItemRows(h: Header, items: seq<Item>): (r: seq<seq<string>>)
    ensures |r| <= |items|
    ensures forall i :: 0 <= i < |r| ==> ItemRow(h, items[i], i + 1) == Some(r[i])
    ensures |r| < |items| ==> ItemRow(h, items[|r|], |r| + 1).None?
  {
    if items == [] then []
    else
      var init := items[..|items| - 1];
      var prev := ItemRows(h, init);
      if |prev| < |init| then
        assert items[|prev|] == init[|prev|];
        prev
      else
        match ItemRow(h, items[|items| - 1], |items|)
        case Some(row) => prev + [row]
        case None => prev
  }

  /** Every row has one field per column and carries its item number, 1, 2, ... */
  lemma RowsNumbered(h: Header, items: seq<Item>)
    ensures var rows := ItemRows(h, items);
      forall i :: 0 <= i < |rows| ==>
        |rows[i]| == |Columns| && DigitsValue(rows[i][ItemNumberColumn]) == i + 1
  {
    var rows := ItemRows(h, items);
    forall i | 0 <= i < |rows|
      ensures |rows[i]| == |Columns| && DigitsValue(rows[i][ItemNumberColumn]) == i + 1
    {
      ItemRowFields(h, items[i], i + 1);
      NatToStringValue(i + 1);
    }
  }

  /**
   * All items become rows exactly when there are no items, or every required
   * element of the invoice and of each item is present.
   */
  lemma {:induction false} RowsComplete(h: Header, items: seq<Item>)
    ensures |ItemRows(h, items)| == |items| <==>
      items == [] || (HeaderPresent(h) && forall i :: 0 <= i < |items| ==> ItemPresent(items[i]))
  {
    var rows := ItemRows(h, items);
    if |rows| == |items| && items != [] {
      assert ItemRow(h, items[0], 1).Some?;
      forall i | 0 <= i < |items| ensures ItemPresent(items[i]) {
        assert ItemRow(h, items[i], i + 1).Some?;
      }
    }
  }

  /** The `result_list` the caller passes in, which the row builder appends to. */
  class ResultList {
    var linhas: seq<seq<string>>

    constructor()
      ensures linhas == []
    {
      linhas := [];
    }

    /**
     * `extract_info_from_xml`: appends one row per item, numbering them from
     * 1; raises at the first row that reads `.text` of a missing element,
     * keeping the rows appended before it.
     */
    method ExtractInfoFromXml(inv: Invoice) returns (raised: bool)
      modifies this
      ensures linhas == old(linhas) + ItemRows(inv.header, inv.items)
      ensures raised <==> |ItemRows(inv.header, inv.items)| < |inv.items|
    {
      var h := inv.header;
      var items := inv.items;
      var itemNum := 1;
      for k := 0 to |items|
        invariant itemNum == k + 1
        invariant |ItemRows(h, items[..k])| == k
        invariant linhas == old(linhas) + ItemRows(h, items[..k])
      {
        var item := items[k];
        var linha := ItemRow(h, item, itemNum);
        if linha.None? {
          RowsEndAt(h, items, k);
          return true;
        }
        RowAppended(h, items, k);
        linhas := linhas + [linha.value];
        itemNum := itemNum + 1;
      }
      assert items[..|items|] == items;
      raised := false;
    }
  }

  /** While all earlier items succeeded, item k's row is appended after theirs. */
  lemma RowAppended(h: Header, items: seq<Item>, k: nat)
    requires k < |items| && |ItemRows(h, items[..k])| == k
    requires ItemRow(h, items[k], k + 1).Some?
    ensures ItemRows(h, items[..k + 1]) == ItemRows(h, items[..k]) + [ItemRow(h, items[k], k + 1).value]
  {
    assert items[..k + 1][..k] == items[..k];
  }

  /** When item k's row cannot be built, the rows before it are all the rows. */
  lemma RowsEndAt(h: Header, items: seq<Item>, k: nat)
    requires k < |items| && |ItemRows(h, items[..k])| == k
    requires ItemRow(h, items[k], k + 1).None?
    ensures ItemRows(h, items) == ItemRows(h, items[..k]) && |ItemRows(h, items)| < |items|
  {
    assert items[..k + 1][..k] == items[..k];
    assert items == items[..k + 1] + items[k + 1..];
    RowsStop(h, items[..k + 1], items[k + 1..]);
  }

  /** After a failure, one more item adds nothing. */
  lemma RowsStayStopped(h: Header, done: seq<Item>, it: Item)
    requires |ItemRows(h, done)| < |done|
    ensures ItemRows(h, done + [it]) == ItemRows(h, done)
  {
    assert (done + [it])[..|done|] == done;
  }

  /** Once a row fails, later items add nothing. */
  lemma {:induction false} RowsStop(h: Header, before: seq<Item>, after: seq<Item>)
    requires |ItemRows(h, before)| < |before|
    ensures ItemRows(h, before + after) == ItemRows(h, before)
  {
    if after != [] {
      var init, last := after[..|after| - 1], after[|after| - 1];
      assert before + after == (before + init) + [last];
      RowsStop(h, before, init);
      RowsStayStopped(h, before + init, last);
    } else {
      assert before + after == before;
    }
  }

  // ---------------------------------------------------------------------------
  // Cell normalisation

  /** A cell's value as openpyxl holds it. */
  datatype CellValue = Blank | Text(s: string) | Number(literal: string, kind: NumberKind)

  /** `int(float(v))`, `float(v) / 100` or `float(v)` of the cleaned text `literal`. */
  datatype NumberKind = Integer | Percent | Decimal

  datatype Cell = Cell(value: CellValue, numberFormat: string)

  /** `str(cell.value or "")`. */
  function CellText(v: CellValue): string {
    match v
    case Blank => ""
    case Text(s) => s
    case Number(literal, _) => literal
  }

  /** Removes "R$" and "%", turns "," into ".", strips whitespace. */
  function CleanValue(s: string): (r: string)
    ensures '%' !in r && ',' !in r
  {
    var noCurrency := ReplaceAll(s, "R$", "");
    var noPercent := ReplaceAll(noCurrency, "%", "");
    var dotted := ReplaceAll(noPercent, ",", ".");
    ReplaceAllRemovesChar(noCurrency, '%', "");
    ReplaceAllKeepsAbsent(noPercent, ",", ".", '%');
    ReplaceAllRemovesChar(noPercent, ',', ".");
    StripKeepsAbsent(dotted, '%');
    StripKeepsAbsent(dotted, ',');
    Strip(ReplaceAll(ReplaceAll(ReplaceAll(s, "R$", ""), "%", ""), ",", "."))
  }

  /** A cleaned value holds no '%' and no ',' and has no surrounding whitespace. */
  lemma CleanValueShape(s: string)
    ensures var r := CleanValue(s);
      '%' !in r && ',' !in r && (r == [] || (!IsSpace(r[0]) && !IsSpace(r[|r| - 1])))
  {
    var dotted := ReplaceAll(ReplaceAll(ReplaceAll(s, "R$", ""), "%", ""), ",", ".");
    StripEnds(dotted);
  }

  /** A pattern holding a character the text lacks matches nowhere. */
  lemma {:induction false} ReplaceAllNoMatch(s: string, pat: string, rep: string, c: char)
    requires pat != [] && c in pat && c !in s
    ensures ReplaceAll(s, pat, rep) == s
    decreases |s|
  {
    if |s| >= |pat| && s[..|pat|] == pat {
      assert false;
    } else if s != [] {
      ReplaceAllNoMatch(s[1..], pat, rep, c);
      assert s == [s[0]] + s[1..];
    }
  }

  /**
   * On a text without '$' and '%' (so with no currency sign and no percent
   * sign to remove), cleaning turns every ',' into '.', keeps every other
   * character, and strips the ends.
   */
  lemma CleanValueDecimalSeparator(s: string)
    requires '$' !in s && '%' !in s
    ensures var dotted := ReplaceAll(s, ",", ".");
      && CleanValue(s) == Strip(dotted)
      && |dotted| == |s|
      && forall i :: 0 <= i < |s| ==> dotted[i] == (if s[i] == ',' then '.' else s[i])
  {
    ReplaceAllNoMatch(s, "R$", "", '$');
    ReplaceAllAbsent(s, '%', "");
    ReplaceCharPointwise(s, ',', '.');
  }

  /** A Brazilian decimal "a,b" is cleaned to the float text "a.b". */
  lemma CleanValueDecimalComma(a: string, b: string)
    requires AllDigits(a) && AllDigits(b)
    ensures CleanValue(a + "," + b) == a + "." + b
  {
    var s := a + "," + b;
    DottedDecimal(a, b);
    CleanValueDecimalSeparator(s);
    var t := a + "." + b;
    if a != [] { DigitNotSpace(a[0]); }
    if b != [] { DigitNotSpace(b[|b| - 1]); }
    assert t[0] == (if a == [] then '.' else a[0]);
    assert t[|t| - 1] == (if b == [] then '.' else b[|b| - 1]);
    StripUnchanged(t);
  }

  /**
   * On a text without '$' (so with no currency sign to remove), cleaning
   * keeps every character but '%' in order, turns ',' into '.' and strips.
   */
  lemma CleanValueWithoutCurrency(s: string)
    requires '$' !in s
    ensures CleanValue(s) == Strip(ReplaceAll(Filter(NotChar('%'), s), ",", "."))
  {
    ReplaceAllNoMatch(s, "R$", "", '$');
    RemoveCharIsFilter(s, '%');
  }

  /** A leading currency sign "R$" is removed and nothing else changes. */
  lemma CleanValueCurrencyPrefix(s: string)
    ensures CleanValue("R$" + s) == CleanValue(s)
  {
    var t := "R$" + s;
    assert t[..2] == "R$" && t[2..] == s;
    assert ReplaceAll(t, "R$", "") == ReplaceAll(s, "R$", "");
  }

  /** A trailing percent sign is removed and nothing else changes. */
  lemma CleanValuePercentSuffix(s: string)
    ensures CleanValue(s + "%") == CleanValue(s)
  {
    var a := ReplaceAll(s, "R$", "");
    ReplaceAllAppendChar(s, "R$", "", '%');
    assert ReplaceAll(s + "%", "R$", "") == a + "%";
    RemoveCharIsFilter(a + "%", '%');
    RemoveCharIsFilter(a, '%');
    FilterAppend(NotChar('%'), a, "%");
    assert Filter(NotChar('%'), "%") == [] by { assert "%"[1..] == []; }
    assert ReplaceAll(a + "%", "%", "") == ReplaceAll(a, "%", "");
  }

  /** A money value "R$a,b" of digit runs is cleaned to "a.b". */
  lemma CleanValueMoney(a: string, b: string)
    requires AllDigits(a) && AllDigits(b)
    ensures CleanValue("R$" + a + "," + b) == a + "." + b
  {
    assert "R$" + a + "," + b == "R$" + (a + "," + b);
    CleanValueCurrencyPrefix(a + "," + b);
    CleanValueDecimalComma(a, b);
  }

  /** A percentage "a,b%" of digit runs, such as "18,00%", is cleaned to "a.b". */
  lemma CleanValuePercentage(a: string, b: string)
    requires AllDigits(a) && AllDigits(b)
    ensures CleanValue(a + "," + b + "%") == a + "." + b
  {
    CleanValuePercentSuffix(a + "," + b);
    CleanValueDecimalComma(a, b);
  }

  /** "a,b" of digit runs holds no '$' and no '%', and its ',' becomes '.'. */
  lemma DottedDecimal(a: string, b: string)
    requires AllDigits(a) && AllDigits(b)
    ensures var s := a + "," + b;
      '$' !in s && '%' !in s && ReplaceAll(s, ",", ".") == a + "." + b
  {
    var s := a + "," + b;
    var t := a + "." + b;
    ReplaceCharPointwise(s, ',', '.');
    var r := ReplaceAll(s, ",", ".");
    forall i | 0 <= i < |s| ensures s[i] != '$' && s[i] != '%' && r[i] == t[i] {
      if i < |a| {
        assert s[i] == a[i] && t[i] == a[i];
      } else if i > |a| {
        assert s[i] == b[i - |a| - 1] && t[i] == b[i - |a| - 1];
      }
    }
  }

  /** Cleaning a cleaned value changes nothing, provided it holds no '$'. */
  lemma CleanValueIdempotent(s: string)
    requires '$' !in CleanValue(s)
    ensures CleanValue(CleanValue(s)) == CleanValue(s)
  {
    var r := CleanValue(s);
    CleanValueShape(s);
    ReplaceAllNoMatch(r, "R$", "", '$');
    ReplaceAllNoMatch(r, "%", "", '%');
    ReplaceAllNoMatch(r, ",", ".", ',');
    assert StripLeft(r) == r;
    assert StripRight(r) == r;
  }

  /** Removing "R$" can bring a new "R$" together, so cleaning is not idempotent in general. */
  lemma CleanValueNotIdempotent()
    ensures CleanValue("R%$") == "R$" && CleanValue("R$") == ""
  {
    CleanR();
    CleanRPercent();
  }

  lemma CleanR()
    ensures CleanValue("R$") == ""
  {
    assert ReplaceAll("R$", "R$", "") == "";
  }

  lemma CleanRPercent()
    ensures CleanValue("R%$") == "R$"
  {
    RemoveCurrencyPercent();
    assert ReplaceAll("$", "%", "") == "$";
    assert ReplaceAll("%$", "%", "") == "$";
    assert ReplaceAll("R%$", "%", "") == "R$";
    assert ReplaceAll("$", ",", ".") == "$";
    assert ReplaceAll("R$", ",", ".") == "R$";
    CurrencyNotSpace();
    StripUnchanged("R$");
  }

  lemma CurrencyNotSpace()
    ensures !IsSpace('R') && !IsSpace('$')
  {
    assert 'R' as int == 0x52 && '$' as int == 0x24;
  }

  lemma RemoveCurrencyPercent()
    ensures ReplaceAll("R%$", "R$", "") == "R%$"
  {
    assert "$"[1..] == "";
    assert ReplaceAll("", "R$", "") == "";
    assert ReplaceAll("$", "R$", "") == "$";
    assert "%$"[..2] != "R$" by { assert "%$"[..2][0] == '%'; }
    assert "%$"[1..] == "$";
    assert ReplaceAll("%$", "R$", "") == "%$";
    assert "R%$"[..2] != "R$" by { assert "R%$"[..2][1] == '%'; }
    assert "R%$"[1..] == "%$";
  }

  /** The issuer CNPJ column, whose values are masked. */
  const CnpjColumn := "CNPJ do Emitente"

  /** `XX.XXX.XXX/XXXX-XX` from 14 digits. */
  function MaskCnpj(d: string): (r: string)
    requires |d| == 14
    ensures |r| == 18
    ensures r[2] == '.' && r[6] == '.' && r[10] == '/' && r[15] == '-'
  {
    d[..2] + "." + d[2..5] + "." + d[5..8] + "/" + d[8..12] + "-" + d[12..]
  }

  /** The mask keeps the digits, in order, and adds only separators. */
  lemma MaskKeepsDigits(d: string)
    requires |d| == 14 && AllDigits(d)
    ensures OnlyDigits(MaskCnpj(d)) == d
  {
    var a, b, c, e, f := d[..2], d[2..5], d[5..8], d[8..12], d[12..];
    assert d == a + b + c + e + f;
    OnlyDigitsFixpoint(a); OnlyDigitsFixpoint(b); OnlyDigitsFixpoint(c);
    OnlyDigitsFixpoint(e); OnlyDigitsFixpoint(f);
    var x1 := a + ['.'] + b;
    var x2 := x1 + ['.'] + c;
    var x3 := x2 + ['/'] + e;
    assert MaskCnpj(d) == x3 + ['-'] + f;
    SkipSeparator(a, '.', b);
    SkipSeparator(x1, '.', c);
    SkipSeparator(x2, '/', e);
    SkipSeparator(x3, '-', f);
  }

  lemma SkipSeparator(x: string, c: char, y: string)
    requires !IsDigit(c)
    ensures OnlyDigits(x + [c] + y) == OnlyDigits(x) + OnlyDigits(y)
  {
    OnlyDigitsIgnoresSeparator(x, c, y);
    OnlyDigitsAppend(x, y);
  }

  /** The CNPJ rule: mask when the text's digits are exactly 14, else leave it. */
  function CnpjCell(s: string): (r: string)
    ensures |OnlyDigits(s)| == 14 ==> |r| == 18 && OnlyDigits(r) == OnlyDigits(s)
    ensures |OnlyDigits(s)| != 14 ==> r == s
  {
    var cnpj := OnlyDigits(s);
    if |cnpj| == 14 then
      MaskKeepsDigits(cnpj);
      MaskCnpj(cnpj)
    else s
  }

  /** Masking a masked CNPJ gives it back. */
  lemma CnpjCellIdempotent(s: string)
    ensures CnpjCell(CnpjCell(s)) == CnpjCell(s)
  {
  }

  /**
   * One cell of a formatted column: the cleaned text decides; an empty one
   * leaves the cell as it is; a failed conversion (the swallowed exception)
   * too; otherwise the converted value and the column's number format are
   * stored, and CNPJ text is masked.
   */
  function FormatCell(c: Cell, nomeColuna: string, formato: string, parses: string -> bool): (r: Cell)
    ensures r == c || r.numberFormat == formato
  {
    var valor := CleanValue(CellText(c.value));
    if valor == "" then c
    else if formato != "@" && !parses(valor) then c
    else
      var v :=
        if formato == "0" then Number(valor, Integer)
        else if EndsWith(formato, "%") then Number(valor, Percent)
        else if formato == "@" then Text(Strip(CellText(c.value)))
        else Number(valor, Decimal);
      var masked := if nomeColuna == CnpjColumn && v.Text? then Text(CnpjCell(v.s)) else v;
      Cell(masked, formato)
  }

  /**
   * The cell rule spelled out case by case: a cell whose cleaned text is
   * empty, or whose conversion fails, is left as it was; any change stores the
   * column's format; a text column keeps the stripped text; a percent column
   * holds the cleaned number over 100, "0" the integer, any other format the
   * decimal; the CNPJ column's text is masked. What cleaning and masking do is
   * `CleanValueDecimalSeparator` and `CnpjCell` with `MaskKeepsDigits`.
   */
  lemma FormatCellMeaning(c: Cell, nomeColuna: string, formato: string, parses: string -> bool)
    ensures var r := FormatCell(c, nomeColuna, formato, parses);
      var valor := CleanValue(CellText(c.value));
      && (valor == "" ==> r == c)
      && (formato != "@" && !parses(valor) ==> r == c)
      && (r != c ==> r.numberFormat == formato)
      && (valor != "" && formato == "@" && nomeColuna != CnpjColumn ==> r == Cell(Text(Strip(CellText(c.value))), formato))
      && (valor != "" && formato == "@" && nomeColuna == CnpjColumn ==> r == Cell(Text(CnpjCell(Strip(CellText(c.value)))), formato))
      && (valor != "" && formato != "0" && EndsWith(formato, "%") && parses(valor) ==> r == Cell(Number(valor, Percent), formato))
      && (valor != "" && formato == "0" && parses(valor) ==> r == Cell(Number(valor, Integer), formato))
      && (valor != "" && formato != "@" && formato != "0" && !EndsWith(formato, "%") && parses(valor) ==>
            r == Cell(Number(valor, Decimal), formato))
  {
  }

  /** The column formats, in the order the formatting loop visits them. */
  const Formats: seq<(string, string)> := [
    ("Valor do Frete", "R$ #,##0.00"),
    ("Valor Total da Nota", "R$ #,##0.00"),
    ("Valor Total dos Produtos", "R$ #,##0.00"),
    ("Descontos Aplicados", "R$ #,##0.00"),
    ("Outras Despesas Acessórias", "R$ #,##0.00"),
    ("Valor Unitário", "R$ #,##0.00"),
    ("Desconto", "R$ #,##0.00"),
    ("Valor Total do Item", "R$ #,##0.00"),
    ("ICMS (valor)", "R$ #,##0.00"),
    ("IPI (valor)", "R$ #,##0.00"),
    ("Data de emissão", "DD/MM/YYYY"),
    ("Data de Saída/Entrada", "DD/MM/YYYY"),
    ("ICMS(%)", "0.00%"),
    ("IPI(%)", "0.00%"),
    ("Quantidade", "0.00"),
    ("NFe", "@"),
    ("Série", "@"),
    ("Chave", "@"),
    (CnpjColumn, "@"),
    ("Cód. Produto", "@")]

  /** A header cell counts when its value is truthy. */
  predicate IsHeaderCell(v: Option<string>) {
    v.Some? && v.value != ""
  }

  /** The name a header cell contributes: its stripped text, when the cell is truthy. */
  function HeaderKey(v: Option<string>): (r: Option<string>)
    ensures r.Some? <==> IsHeaderCell(v)
  {
    if IsHeaderCell(v) then Some(Strip(v.value)) else None
  }

  /** The names of a header row, cell by cell. */
  function HeaderKeys(hs: seq<Option<string>>): (keys: seq<Option<string>>)
    ensures |keys| == |hs| && forall i :: 0 <= i < |hs| ==> keys[i] == HeaderKey(hs[i])
  {
    if hs == [] then [] else [HeaderKey(hs[0])] + HeaderKeys(hs[1..])
  }

  /**
   * `{cell.value.strip(): idx + 1 ...}` over the names of the header row:
   * each name to the 1-based position of its last occurrence.
   */
  function HeaderMap(keys: seq<Option<string>>): (r: map<string, nat>)
    ensures forall k :: k in r ==> 1 <= r[k] <= |keys| && keys[r[k] - 1] == Some(k)
    ensures forall i :: 0 <= i < |keys| && keys[i].Some? ==> keys[i].value in r
  {
    if keys == [] then map[]
    else
      var m := HeaderMap(keys[..|keys| - 1]);
      match keys[|keys| - 1]
      case Some(k) => m[k := |keys|]
      case None => m
  }

  /**
   * Each name maps to a position holding that name, and to the last one:
   * every named position is at or before its name's entry.
   */
  lemma HeaderMapMeaning(keys: seq<Option<string>>)
    ensures forall k :: k in HeaderMap(keys) ==>
      1 <= HeaderMap(keys)[k] <= |keys| && keys[HeaderMap(keys)[k] - 1] == Some(k)
    ensures forall i :: 0 <= i < |keys| && keys[i].Some? ==>
      keys[i].value in HeaderMap(keys) && i + 1 <= HeaderMap(keys)[keys[i].value]
  {
    HeaderMapIsLast(keys);
  }

  /** The names mapped are exactly the names in the header row. */
  lemma HeaderMapNames(keys: seq<Option<string>>, k: string)
    ensures k in HeaderMap(keys) <==> Some(k) in keys
  {
    if Some(k) in keys {
      var i :| 0 <= i < |keys| && keys[i] == Some(k);
    }
  }

  /** No position after a name's entry holds that name. */
  lemma {:induction false} HeaderMapIsLast(keys: seq<Option<string>>)
    ensures forall i :: 0 <= i < |keys| && keys[i].Some? ==>
      keys[i].value in HeaderMap(keys) && i + 1 <= HeaderMap(keys)[keys[i].value]
  {
    if keys != [] {
      var init := keys[..|keys| - 1];
      HeaderMapIsLast(init);
      var m := HeaderMap(keys);
      forall i | 0 <= i < |keys| && keys[i].Some?
        ensures keys[i].value in m && i + 1 <= m[keys[i].value]
      {
        if i < |keys| - 1 {
          assert keys[i] == init[i];
        }
      }
    }
  }

  /** Two names never share a column. */
  lemma HeaderMapInjective(keys: seq<Option<string>>, a: string, b: string)
    requires a in HeaderMap(keys) && b in HeaderMap(keys) && HeaderMap(keys)[a] == HeaderMap(keys)[b]
    ensures a == b
  {
    HeaderMapMeaning(keys);
  }

  /** The per-cell rule of the formatting loop, for a given float parser. */
  function CellRule(parses: string -> bool): (Cell, string, string) -> Cell {
    (c: Cell, nomeColuna: string, formato: string) => FormatCell(c, nomeColuna, formato, parses)
  }

  /**
   * What the formatting loop leaves in a cell of 1-based column `idx`, after
   * applying `rule` for each format in `fmts` that names that column.
   */
  function CellAfter(c: Cell, idx: nat, cabecalho: map<string, nat>, fmts: seq<(string, string)>,
                     rule: (Cell, string, string) -> Cell): Cell
  {
    if fmts == [] then c
    else
      var prev := CellAfter(c, idx, cabecalho, fmts[..|fmts| - 1], rule);
      var (nome, formato) := fmts[|fmts| - 1];
      if nome in cabecalho && cabecalho[nome] == idx then rule(prev, nome, formato) else prev
  }

  /** A column no format names keeps its cells. */
  lemma {:induction false} UnformattedColumn(c: Cell, idx: nat, cabecalho: map<string, nat>,
                                             fmts: seq<(string, string)>, rule: (Cell, string, string) -> Cell)
    requires forall k :: 0 <= k < |fmts| && fmts[k].0 in cabecalho ==> cabecalho[fmts[k].0] != idx
    ensures CellAfter(c, idx, cabecalho, fmts, rule) == c
  {
    if fmts != [] {
      UnformattedColumn(c, idx, cabecalho, fmts[..|fmts| - 1], rule);
    }
  }

  /**
   * With distinct format names and a header map that sends distinct names to
   * distinct columns, a column is formatted at most once: by the one format
   * whose name heads it.
   */
  lemma {:induction false} FormattedOnce(c: Cell, idx: nat, cabecalho: map<string, nat>,
                                         fmts: seq<(string, string)>, rule: (Cell, string, string) -> Cell, k: nat)
    requires forall a, b :: a in cabecalho && b in cabecalho && cabecalho[a] == cabecalho[b] ==> a == b
    requires forall i, j :: 0 <= i < j < |fmts| ==> fmts[i].0 != fmts[j].0
    requires k < |fmts| && fmts[k].0 in cabecalho && cabecalho[fmts[k].0] == idx
    ensures CellAfter(c, idx, cabecalho, fmts, rule) == rule(c, fmts[k].0, fmts[k].1)
  {
    var init := fmts[..|fmts| - 1];
    if k == |fmts| - 1 {
      UnformattedColumn(c, idx, cabecalho, init, rule);
    } else {
      FormattedOnce(c, idx, cabecalho, init, rule, k);
      var last := fmts[|fmts| - 1];
      assert last.0 != fmts[k].0;
    }
  }

  /** The format names are distinct. */
  lemma FormatNamesDistinct()
    ensures forall i, j :: 0 <= i < j < |Formats| ==> Formats[i].0 != Formats[j].0
  {
  }

  /**
   * In the sheet, a column headed by a name of the format table ends up
   * formatted once, with that name's format, whatever the other formats do.
   */
  lemma FormatTableColumn(header: seq<Option<string>>, c: Cell, k: nat, parses: string -> bool)
    requires k < |Formats| && Formats[k].0 in HeaderMap(HeaderKeys(header))
    ensures var cabecalho := HeaderMap(HeaderKeys(header));
      CellAfter(c, cabecalho[Formats[k].0], cabecalho, Formats, CellRule(parses)) ==
        FormatCell(c, Formats[k].0, Formats[k].1, parses)
  {
    var cabecalho := HeaderMap(HeaderKeys(header));
    FormatNamesDistinct();
    forall a, b | a in cabecalho && b in cabecalho && cabecalho[a] == cabecalho[b] ensures a == b {
      HeaderMapInjective(HeaderKeys(header), a, b);
    }
    FormattedOnce(c, cabecalho[Formats[k].0], cabecalho, Formats, CellRule(parses), k);
  }

  /** The worksheet openpyxl loads back: a header row and the data rows below it. */
  class Worksheet {
    const header: seq<Option<string>>
    const body: array2<Cell>

    constructor(header: seq<Option<string>>, body: array2<Cell>)
      ensures this.header == header && this.body == body
    {
      this.header := header;
      this.body := body;
    }

    /** The cells of one column, rows 2 to the last, each formatted on its own. */
    method FormatColumn(col: nat, nomeColuna: string, formato: string, rule: (Cell, string, string) -> Cell)
      requires col < body.Length1
      modifies body
      ensures forall r :: 0 <= r < body.Length0 ==> body[r, col] == rule(old(body[r, col]), nomeColuna, formato)
      ensures forall r, c :: 0 <= r < body.Length0 && 0 <= c < body.Length1 && c != col ==> body[r, c] == old(body[r, c])
    {
      for r := 0 to body.Length0
        invariant forall i :: 0 <= i < r ==> body[i, col] == rule(old(body[i, col]), nomeColuna, formato)
        invariant forall i :: r <= i < body.Length0 ==> body[i, col] == old(body[i, col])
        invariant forall i, c :: 0 <= i < body.Length0 && 0 <= c < body.Length1 && c != col ==> body[i, c] == old(body[i, c])
      {
        body[r, col] := rule(body[r, col], nomeColuna, formato);
      }
    }

    /**
     * The loop over the column formats: each format whose name has a column
     * formats that column's cells.
     */
    method FormatColumns(cabecalho: map<string, nat>, fmts: seq<(string, string)>, rule: (Cell, string, string) -> Cell)
      requires forall nome :: nome in cabecalho ==> 1 <= cabecalho[nome] <= body.Length1
      modifies body
      ensures forall r, c :: 0 <= r < body.Length0 && 0 <= c < body.Length1 ==>
        body[r, c] == CellAfter(old(body[r, c]), c + 1, cabecalho, fmts, rule)
    {
      for k := 0 to |fmts|
        invariant forall r, c :: 0 <= r < body.Length0 && 0 <= c < body.Length1 ==>
          body[r, c] == CellAfter(old(body[r, c]), c + 1, cabecalho, fmts[..k], rule)
      {
        var (nomeColuna, formato) := fmts[k];
        assert fmts[..k + 1][..k] == fmts[..k];
        if nomeColuna in cabecalho {
          var colIdx := cabecalho[nomeColuna];
          FormatColumn(colIdx - 1, nomeColuna, formato, rule);
        }
      }
      assert fmts[..|fmts|] == fmts;
    }

    /**
     * `format_excel` after loading the sheet: maps header names to columns,
     * then formats the columns the format table names.
     */
    method FormatExcel(parses: string -> bool)
      requires body.Length1 == |header|
      modifies body
      ensures forall r, c :: 0 <= r < body.Length0 && 0 <= c < body.Length1 ==>
        body[r, c] == CellAfter(old(body[r, c]), c + 1, HeaderMap(HeaderKeys(header)), Formats, CellRule(parses))
    {
      var cabecalho := HeaderMap(HeaderKeys(header));
      HeaderMapMeaning(HeaderKeys(header));
      FormatColumns(cabecalho, Formats, CellRule(parses));
    }
  }
}
