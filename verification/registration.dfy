/**
 * The registration page, page/CADASTRAR.py. It loads the ALTA tab: empty
 * rows are dropped, the first row is the header, the column names are
 * normalised, VALOR must be present, and the numeric VALOR_NUM column is
 * added. It then registers one order from the form:
 *   - refused when a required field is empty;
 *   - refused when the order number is already in the PEDIDO column;
 *   - otherwise appended as one new row, after all the existing ones.
 *
 * The worksheet is the state the page changes. Reading it and writing it
 * back over the network are not part of this model.
 */
module Registration {
  import opened Wrappers
  import opened Text
  import Calendar
  import Buscar
  import Money

  const COL_DATA := "DATA"
  const COL_UNIDADE := "UNIDADE"
  const COL_CARRO := "CARRO | UTILIZAÇÃO"
  const COL_PEDIDO := "PEDIDO"
  const COL_VALOR := "VALOR"
  const COL_FORNECEDOR := "FORNECEDOR"
  const COL_STATUS := "STATUS"
  const COL_AVALIACAO := "AVALIAÇÃO"
  const COL_OBSERVACOES := "OBSERVAÇÕES"
  const COL_VALOR_NUM := "VALOR_NUM"

  /** The keys of a new record, in the order the page writes them. */
  const RECORD_COLUMNS := [COL_DATA, COL_UNIDADE, COL_CARRO, COL_PEDIDO, COL_VALOR,
                           COL_FORNECEDOR, COL_STATUS, COL_AVALIACAO, COL_OBSERVACOES]

  const EMPTY_SHEET := "A planilha está vazia ou não pôde ser carregada."
  const NO_VALOR := "A coluna 'VALOR' não existe no cabeçalho da planilha."
  const MISSING_FIELDS := "Preencha os campos obrigatórios!"
  const REGISTERED := "Pedido cadastrado com sucesso!"

  function DuplicateMessage(pedido: string): string {
    "O pedido '" + pedido + "' já foi cadastrado!"
  }

  /**
   * A cell of the worksheet. Cells read from the sheet are text or blank.
   * A registration writes the amount typed in the form as a number.
   */
  datatype Cell = Blank | Str(text: string) | Number(value: real)

  function Lift(c: Buscar.SheetCell): Cell {
    match c
    case Blank => Blank
    case Str(t) => Str(t)
  }

  function Get(row: map<string, Cell>, col: string): Cell {
    if col in row then row[col] else Blank
  }

  // ---------------------------------------------------------------------
  // Loading the tab
  // ---------------------------------------------------------------------

  predicate EmptyRow(r: seq<Buscar.SheetCell>) {
    forall i :: 0 <= i < |r| ==> r[i].Blank?
  }

  /** `dropna(how="all")`: the rows with at least one filled cell, in order. */
  function DropEmptyRows(raw: seq<seq<Buscar.SheetCell>>): (kept: seq<seq<Buscar.SheetCell>>)
    ensures |kept| <= |raw|
    ensures forall r :: multiset(kept)[r] == if EmptyRow(r) then 0 else multiset(raw)[r]
    ensures forall r :: r in kept <==> r in raw && !EmptyRow(r)
    ensures kept != [] ==> FirstFilled(raw, kept[0])
    ensures |raw| == 1 ==> kept == if EmptyRow(raw[0]) then [] else raw
  {
    if raw == [] then []
    else
      var tail := raw[1..];
      assert raw == [raw[0]] + tail;
      var rest := DropEmptyRows(tail);
      if !EmptyRow(raw[0]) then
        assert FirstFilled(raw, raw[0]) by {
          assert raw[0] == raw[0];
        }
        [raw[0]] + rest
      else
        assert rest != [] ==> FirstFilled(raw, rest[0]) by {
          if rest != [] {
            FirstFilledBehindEmpty(raw, rest[0]);
          }
        }
        rest
  }

  /**
   * Dropping empty rows from two blocks of rows one after the other keeps the
   * rows of the first block ahead of those of the second: with the singleton
   * case of `DropEmptyRows`, the kept rows are the filled rows in their order.
   */
  lemma {:induction false} DropEmptyRowsAppend(a: seq<seq<Buscar.SheetCell>>, b: seq<seq<Buscar.SheetCell>>)
    ensures DropEmptyRows(a + b) == DropEmptyRows(a) + DropEmptyRows(b)
  {
    if a == [] {
      assert a + b == b;
    } else {
      assert (a + b)[0] == a[0];
      assert (a + b)[1..] == a[1..] + b;
      DropEmptyRowsAppend(a[1..], b);
    }
  }

  /** `x` is the first row of `raw` with a filled cell. */
  ghost predicate FirstFilled(raw: seq<seq<Buscar.SheetCell>>, x: seq<Buscar.SheetCell>) {
    exists i :: 0 <= i < |raw| && raw[i] == x && !EmptyRow(x) &&
      forall k :: 0 <= k < i ==> EmptyRow(raw[k])
  }

  /** An empty row in front does not change which row is the first filled one. */
  lemma FirstFilledBehindEmpty(raw: seq<seq<Buscar.SheetCell>>, x: seq<Buscar.SheetCell>)
    requires raw != [] && EmptyRow(raw[0]) && FirstFilled(raw[1..], x)
    ensures FirstFilled(raw, x)
  {
    var tail := raw[1..];
    var i :| 0 <= i < |tail| && tail[i] == x && !EmptyRow(x) &&
      forall k :: 0 <= k < i ==> EmptyRow(tail[k]);
    assert raw[i + 1] == x;
    assert forall k :: 1 <= k < i + 1 ==> raw[k] == tail[k - 1];
  }

  /**
   * The column names: the header row as text (`nan` for a blank cell),
   * stripped, then stripped and upper-cased again.
   */
  function Header(first: seq<Buscar.SheetCell>): (hs: seq<string>)
    ensures |hs| == |first|
    ensures forall i :: 0 <= i < |first| ==> hs[i] == Normalize(Money.CellText(first[i]))
  {
    var hs := seq(|first|, i requires 0 <= i < |first| => Normalize(Strip(Money.CellText(first[i]))));
    assert forall i :: 0 <= i < |first| ==> hs[i] == Normalize(Money.CellText(first[i])) by {
      forall i | 0 <= i < |first| ensures hs[i] == Normalize(Money.CellText(first[i])) {
        StripIdempotent(Money.CellText(first[i]));
      }
    }
    hs
  }

  /** Every column name is already normalised. */
  lemma HeaderNormalized(first: seq<Buscar.SheetCell>, i: int)
    requires 0 <= i < |first|
    ensures Normalize(Header(first)[i]) == Header(first)[i]
  {
    NormalizeIdempotent(Money.CellText(first[i]));
  }

  /** The cell a row has in column `j`; a short row reads as blank there. */
  function CellAt(cells: seq<Buscar.SheetCell>, j: int): Buscar.SheetCell {
    if 0 <= j < |cells| then cells[j] else Buscar.Blank
  }

  /**
   * One data row under the header, as a record from column name to cell.
   * When two columns have the same name the later one is kept.
   */
  function RawRecord(header: seq<string>, cells: seq<Buscar.SheetCell>): (r: map<string, Buscar.SheetCell>)
    ensures r.Keys == set h | h in header
    decreases |header|
  {
    if header == [] then map[]
    else
      var n := |header| - 1;
      assert forall h :: h in header <==> h in header[..n] || h == header[n] by {
        assert header == header[..n] + [header[n]];
      }
      RawRecord(header[..n], cells)[header[n] := CellAt(cells, n)]
  }

  /** A column whose name is not repeated later holds the row's cell at its position. */
  lemma {:induction false} RawRecordCell(header: seq<string>, cells: seq<Buscar.SheetCell>, j: int)
    requires 0 <= j < |header| && forall k :: j < k < |header| ==> header[k] != header[j]
    ensures RawRecord(header, cells)[header[j]] == CellAt(cells, j)
    decreases |header|
  {
    var n := |header| - 1;
    if j < n {
      assert header[..n][j] == header[j];
      assert forall k :: j < k < n ==> header[..n][k] != header[j];
      RawRecordCell(header[..n], cells, j);
    }
  }

  /** A loaded row: its cells, with VALOR cleaned into the extra VALOR_NUM column. */
  function Prepared(header: seq<string>, cells: seq<Buscar.SheetCell>): (p: map<string, Cell>)
    requires COL_VALOR in header
    ensures p.Keys == (set h | h in header) + {COL_VALOR_NUM}
    ensures COL_VALOR_NUM in p
  {
    var raw := RawRecord(header, cells);
    (map h | h in raw :: Lift(raw[h]))[COL_VALOR_NUM := Number(Money.CadastrarValor(raw[COL_VALOR]))]
  }

  /** The loaded tab: its column names and its data rows. */
  datatype Sheet = Sheet(columns: seq<string>, rows: seq<map<string, Cell>>)

  /**
   * The outcome of loading: the prepared sheet, a stop with a message, or an
   * exception raised by pandas before the page gets to the form.
   */
  datatype Loaded = Loaded(sheet: Sheet) | Stopped(message: string) | Raised

  /** VALOR_NUM is added after the last column unless the sheet already has it. */
  function WithValorNum(header: seq<string>): seq<string> {
    if COL_VALOR_NUM in header then header else header + [COL_VALOR_NUM]
  }

  /**
   * The page's loading steps: drop the empty rows and stop when none is left,
   * take the first row as the header and stop when it has no VALOR column,
   * then add VALOR_NUM to every other row. Two VALOR columns make
   * `dados_existentes["VALOR"]` a frame, which has no `.str`, so the page raises.
   */
  function Load(raw: seq<seq<Buscar.SheetCell>>): (r: Loaded)
    ensures r.Stopped? <==> DropEmptyRows(raw) == [] || COL_VALOR !in Header(DropEmptyRows(raw)[0])
    ensures r.Raised? <==> DropEmptyRows(raw) != [] && Repeated(Header(DropEmptyRows(raw)[0]), COL_VALOR)
    ensures r.Stopped? && DropEmptyRows(raw) == [] ==> r.message == EMPTY_SHEET
    ensures r.Stopped? && DropEmptyRows(raw) != [] ==> r.message == NO_VALOR
    ensures r.Loaded? ==>
      DropEmptyRows(raw) != [] && r.sheet.columns == WithValorNum(Header(DropEmptyRows(raw)[0]))
    ensures r.Loaded? ==> |r.sheet.rows| == |DropEmptyRows(raw)| - 1
    ensures r.Loaded? ==> COL_VALOR in r.sheet.columns && COL_VALOR_NUM in r.sheet.columns
    ensures r.Loaded? ==> forall i :: 0 <= i < |r.sheet.rows| ==> COL_VALOR_NUM in r.sheet.rows[i]
  {
    LoadKept(DropEmptyRows(raw))
  }

  /** The loading steps after the empty rows are dropped. */
  function LoadKept(kept: seq<seq<Buscar.SheetCell>>): (r: Loaded)
    ensures r.Stopped? <==> kept == [] || COL_VALOR !in Header(kept[0])
    ensures r.Stopped? ==> r.message == if kept == [] then EMPTY_SHEET else NO_VALOR
    ensures r.Raised? <==> kept != [] && Repeated(Header(kept[0]), COL_VALOR)
    ensures r.Loaded? ==> kept != [] && r.sheet.columns == WithValorNum(Header(kept[0]))
    ensures r.Loaded? ==> |r.sheet.rows| == |kept| - 1
    ensures r.Loaded? ==> COL_VALOR in r.sheet.columns && COL_VALOR_NUM in r.sheet.columns
    ensures r.Loaded? ==> forall i :: 0 <= i < |r.sheet.rows| ==> COL_VALOR_NUM in r.sheet.rows[i]
  {
    if kept == [] then Stopped(EMPTY_SHEET) else LoadBelow(Header(kept[0]), kept[1..])
  }

  /**
   * The steps once the header is read: stop without VALOR, raise with two
   * VALOR columns, otherwise prepare every data row.
   */
  function LoadBelow(header: seq<string>, data: seq<seq<Buscar.SheetCell>>): (r: Loaded)
    ensures r.Stopped? <==> COL_VALOR !in header
    ensures r.Stopped? ==> r.message == NO_VALOR
    ensures r.Raised? <==> Repeated(header, COL_VALOR)
    ensures r.Loaded? ==> r.sheet.columns == WithValorNum(header) && |r.sheet.rows| == |data|
    ensures r.Loaded? ==> COL_VALOR in r.sheet.columns && COL_VALOR_NUM in r.sheet.columns
    ensures r.Loaded? ==> forall i :: 0 <= i < |r.sheet.rows| ==> COL_VALOR_NUM in r.sheet.rows[i]
  {
    if COL_VALOR !in header then Stopped(NO_VALOR)
    else if Repeated(header, COL_VALOR) then Loaded.Raised
    else Loaded(Sheet(WithValorNum(header), PreparedRows(header, data)))
  }

  function PreparedRows(header: seq<string>, data: seq<seq<Buscar.SheetCell>>): (rows: seq<map<string, Cell>>)
    requires COL_VALOR in header
    ensures |rows| == |data| && forall i :: 0 <= i < |data| ==> rows[i] == Prepared(header, data[i])
    ensures forall i :: 0 <= i < |rows| ==> COL_VALOR_NUM in rows[i]
  {
    seq(|data|, i requires 0 <= i < |data| => Prepared(header, data[i]))
  }

  /** Each loaded row carries, in VALOR_NUM, the amount its VALOR cell cleans to. */
  lemma LoadedValorNum(raw: seq<seq<Buscar.SheetCell>>, i: int, j: int)
    requires Load(raw).Loaded?
    requires var header := Header(DropEmptyRows(raw)[0]);
      0 <= i < |Load(raw).sheet.rows| && 0 <= j < |header| && header[j] == COL_VALOR &&
      forall k :: j < k < |header| ==> header[k] != COL_VALOR
    ensures Load(raw).sheet.rows[i][COL_VALOR_NUM] ==
      Number(Money.CadastrarValor(CellAt(DropEmptyRows(raw)[i + 1], j)))
  {
    var kept := DropEmptyRows(raw);
    var header := Header(kept[0]);
    assert Load(raw).sheet.rows == PreparedRows(header, kept[1..]);
    assert kept[1..][i] == kept[i + 1];
    PreparedValorNum(header, kept[i + 1], j);
  }

  /**
   * Each other cell of a loaded row is the cell at the column's position in
   * the data row (the last of a repeated name wins).
   */
  lemma LoadedCell(raw: seq<seq<Buscar.SheetCell>>, i: int, j: int)
    requires Load(raw).Loaded?
    requires var header := Header(DropEmptyRows(raw)[0]);
      0 <= i < |Load(raw).sheet.rows| && 0 <= j < |header| && header[j] != COL_VALOR_NUM &&
      forall k :: j < k < |header| ==> header[k] != header[j]
    ensures Load(raw).sheet.rows[i][Header(DropEmptyRows(raw)[0])[j]] ==
      Lift(CellAt(DropEmptyRows(raw)[i + 1], j))
  {
    var kept := DropEmptyRows(raw);
    var header := Header(kept[0]);
    assert Load(raw).sheet.rows == PreparedRows(header, kept[1..]);
    assert kept[1..][i] == kept[i + 1];
    PreparedCell(header, kept[i + 1], j);
  }

  lemma PreparedCell(header: seq<string>, cells: seq<Buscar.SheetCell>, j: int)
    requires COL_VALOR in header
    requires 0 <= j < |header| && header[j] != COL_VALOR_NUM
    requires forall k :: j < k < |header| ==> header[k] != header[j]
    ensures Prepared(header, cells)[header[j]] == Lift(CellAt(cells, j))
  {
    RawRecordCell(header, cells, j);
  }

  lemma PreparedValorNum(header: seq<string>, cells: seq<Buscar.SheetCell>, j: int)
    requires 0 <= j < |header| && header[j] == COL_VALOR
    requires forall k :: j < k < |header| ==> header[k] != COL_VALOR
    ensures Prepared(header, cells)[COL_VALOR_NUM] == Number(Money.CadastrarValor(CellAt(cells, j)))
  {
    RawRecordCell(header, cells, j);
  }

  // ---------------------------------------------------------------------
  // The form and its checks
  // ---------------------------------------------------------------------

  /**
   * What the form holds when CADASTRAR is pressed. The date is a day number
   * (day 0 = 1970-01-01). A select box left untouched is `None`.
   */
  datatype Form = Form(pedido: string, data: int, unidade: Option<string>, valor: real,
                       carro: string, fornecedor: string, status: Option<string>,
                       avaliacao: Option<string>, observacao: string)

  /** The years a Python `date` can hold. */
  predicate InDateRange(day: int) {
    1 <= Calendar.DateOf(day).year <= 9999
  }

  /** Python's truthiness of an optional text: neither `None` nor empty. */
  predicate Filled(o: Option<string>) {
    o.Some? && o.value != ""
  }

  /** `not pedido or not data or not unidade or not carro or not status` (a date is always truthy). */
  predicate MissingRequired(f: Form) {
    f.pedido == "" || !Filled(f.unidade) || f.carro == "" || !Filled(f.status)
  }

  /**
   * One existing PEDIDO cell against the normalised input: the cell is
   * compared as text, so a blank cell reads as `nan`. Numbers are written
   * only to VALOR and VALOR_NUM, so a number never matches.
   */
  predicate PedidoMatches(row: map<string, Cell>, key: string) {
    match Get(row, COL_PEDIDO)
    case Blank => Normalize("nan") == key
    case Str(t) => Normalize(t) == key
    case Number(_) => false
  }

  /** The duplicate check: only when the sheet has a PEDIDO column. */
  predicate IsDuplicate(columns: seq<string>, rows: seq<map<string, Cell>>, pedido: string) {
    COL_PEDIDO in columns && exists i :: 0 <= i < |rows| && PedidoMatches(rows[i], Normalize(pedido))
  }

  function OptionalCell(o: Option<string>): Cell {
    match o
    case None => Blank
    case Some(s) => Str(s)
  }

  /** `data.strftime("%d/%m/%Y")` */
  function DateText(day: int): (s: string)
    requires InDateRange(day)
    ensures |s| >= 7 && s[2] == '/' && s[5] == '/'
    ensures AllDigits(s[..2]) && DigitsValue(s[..2]) == Calendar.DateOf(day).day
    ensures AllDigits(s[3..5]) && DigitsValue(s[3..5]) == Calendar.DateOf(day).month
    ensures AllDigits(s[6..]) && DigitsValue(s[6..]) == Calendar.DateOf(day).year
  {
    var dm := Calendar.DayMonth(day, '/');
    var y := NatToString(Calendar.DateOf(day).year);
    var s := dm + "/" + y;
    assert s[..2] == dm[..2] && s[3..5] == dm[3..] && s[6..] == y;
    s
  }

  /** The new record: one cell per key of `RECORD_COLUMNS`. */
  function Record(f: Form): (r: map<string, Cell>)
    requires InDateRange(f.data)
    ensures r.Keys == set c | c in RECORD_COLUMNS
  {
    map c | c in RECORD_COLUMNS :: RecordCell(f, c)
  }

  /** What the record holds under one of its keys. */
  function RecordCell(f: Form, c: string): Cell
    requires InDateRange(f.data)
  {
    if c == COL_PEDIDO then Str(f.pedido)
    else if c == COL_VALOR then Number(f.valor)
    else if c == COL_DATA then Str(DateText(f.data))
    else if c == COL_UNIDADE then OptionalCell(f.unidade)
    else if c == COL_CARRO then Str(f.carro)
    else if c == COL_FORNECEDOR then Str(f.fornecedor)
    else if c == COL_STATUS then OptionalCell(f.status)
    else if c == COL_AVALIACAO then OptionalCell(f.avaliacao)
    else Str(f.observacao)
  }

  /** The record holds the order number as typed and the amount as a number, and no VALOR_NUM. */
  lemma RecordCells(f: Form)
    requires InDateRange(f.data)
    ensures Get(Record(f), COL_PEDIDO) == Str(f.pedido) && Get(Record(f), COL_VALOR) == Number(f.valor)
    ensures Get(Record(f), COL_VALOR_NUM) == Blank
  {
    assert COL_PEDIDO in RECORD_COLUMNS && COL_VALOR in RECORD_COLUMNS;
  }

  /**
   * The columns after `pd.concat([dados_existentes, dado])`: the existing
   * ones, then each key of the record the sheet did not have, in order.
   */
  function Merged(columns: seq<string>, keys: seq<string>): (r: seq<string>)
    decreases |keys|
  {
    if keys == [] then columns
    else Merged(if keys[0] in columns then columns else columns + [keys[0]], keys[1..])
  }

  predicate Distinct(xs: seq<string>) {
    forall i, j :: 0 <= i < j < |xs| ==> xs[i] != xs[j]
  }

  /** `x` names two columns, so selecting it gives a frame, not a column. */
  predicate Repeated(xs: seq<string>, x: string) {
    exists i, j :: 0 <= i < j < |xs| && xs[i] == x && xs[j] == x
  }

  /** The merged columns keep the existing ones in front. */
  lemma {:induction false} MergedPrefix(columns: seq<string>, keys: seq<string>)
    ensures |columns| <= |Merged(columns, keys)| && Merged(columns, keys)[..|columns|] == columns
    decreases |keys|
  {
    if keys != [] {
      var next := if keys[0] in columns then columns else columns + [keys[0]];
      MergedPrefix(next, keys[1..]);
      var r := Merged(next, keys[1..]);
      assert r[..|columns|] == r[..|next|][..|columns|];
      assert next[..|columns|] == columns;
    }
  }

  /** Every key is among the merged columns. */
  lemma {:induction false} MergedHasKeys(columns: seq<string>, keys: seq<string>)
    ensures forall k :: k in keys ==> k in Merged(columns, keys)
    ensures forall c :: c in columns ==> c in Merged(columns, keys)
    decreases |keys|
  {
    if keys != [] {
      var next := if keys[0] in columns then columns else columns + [keys[0]];
      MergedHasKeys(next, keys[1..]);
      assert forall k :: k in keys ==> k == keys[0] || k in keys[1..] by {
        assert keys == [keys[0]] + keys[1..];
      }
      assert keys[0] in next && forall c :: c in columns ==> c in next;
    }
  }

  /** The merged columns are existing columns or keys. */
  lemma {:induction false} MergedOnly(columns: seq<string>, keys: seq<string>)
    ensures forall c :: c in Merged(columns, keys) ==> c in columns || c in keys
    decreases |keys|
  {
    if keys != [] {
      var next := if keys[0] in columns then columns else columns + [keys[0]];
      MergedOnly(next, keys[1..]);
      assert forall c :: c in next ==> c in columns || c == keys[0];
      assert keys[0] in keys && forall k :: k in keys[1..] ==> k in keys;
    }
  }

  /** Merging brings in no repeated name. */
  lemma {:induction false} MergedDistinct(columns: seq<string>, keys: seq<string>)
    requires Distinct(columns)
    ensures Distinct(Merged(columns, keys))
    decreases |keys|
  {
    if keys != [] {
      var next := if keys[0] in columns then columns else columns + [keys[0]];
      assert Distinct(next) by {
        if keys[0] !in columns {
          forall i, j | 0 <= i < j < |next| ensures next[i] != next[j] {
            if j == |columns| {
              assert next[i] == columns[i];
            }
          }
        }
      }
      MergedDistinct(next, keys[1..]);
    }
  }

  /**
   * What pressing CADASTRAR leads to: a refusal with a message, the record
   * written, or an exception raised by pandas.
   */
  datatype Decision = Refused(message: string) | Accepted | Raised

  /**
   * What pressing CADASTRAR decides, in the page's order of checks. Two
   * PEDIDO columns make `dados_existentes["PEDIDO"]` a frame, which has no
   * `.str`; any repeated column name makes `pd.concat` fail to reindex.
   */
  function Decide(columns: seq<string>, rows: seq<map<string, Cell>>, f: Form): (d: Decision)
    ensures MissingRequired(f) ==> d == Refused(MISSING_FIELDS)
    ensures !MissingRequired(f) && Repeated(columns, COL_PEDIDO) ==> d.Raised?
    ensures !MissingRequired(f) && !Repeated(columns, COL_PEDIDO) ==>
      (d.Refused? <==>
        COL_PEDIDO in columns && exists i :: 0 <= i < |rows| && PedidoMatches(rows[i], Normalize(f.pedido)))
    ensures d.Accepted? <==>
      !MissingRequired(f) && Distinct(columns) &&
      (COL_PEDIDO !in columns || forall i :: 0 <= i < |rows| ==> !PedidoMatches(rows[i], Normalize(f.pedido)))
    ensures !MissingRequired(f) && d.Refused? ==> d.message == DuplicateMessage(f.pedido)
  {
    if MissingRequired(f) then Refused(MISSING_FIELDS)
    else if Repeated(columns, COL_PEDIDO) then Decision.Raised
    else if IsDuplicate(columns, rows, f.pedido) then Refused(DuplicateMessage(f.pedido))
    else if !Distinct(columns) then Decision.Raised
    else Accepted
  }

  // ---------------------------------------------------------------------
  // The worksheet
  // ---------------------------------------------------------------------

  /** The ALTA tab as the page sees it, updated by each registration. */
  class Worksheet {
    var columns: seq<string>
    var rows: seq<map<string, Cell>>

    constructor(sheet: Sheet)
      ensures columns == sheet.columns && rows == sheet.rows
    {
      columns := sheet.columns;
      rows := sheet.rows;
    }

    /**
     * The submit branch of the form: refuse, leaving the sheet as it was, or
     * write the sheet back with the new record after all the existing rows.
     * No message (`None`) stands for the exception the page raises on a
     * repeated column name; the sheet is then left as it was.
     */
    method Register(f: Form) returns (message: Option<string>)
      requires InDateRange(f.data)
      modifies this
      ensures Decide(old(columns), old(rows), f).Refused? ==>
        message == Some(Decide(old(columns), old(rows), f).message) &&
        columns == old(columns) && rows == old(rows)
      ensures Decide(old(columns), old(rows), f).Raised? ==>
        message == None && columns == old(columns) && rows == old(rows)
      ensures Decide(old(columns), old(rows), f).Accepted? ==>
        message == Some(REGISTERED) &&
        columns == Merged(old(columns), RECORD_COLUMNS) && rows == old(rows) + [Record(f)]
      ensures Decide(old(columns), old(rows), f).Accepted? ==> Distinct(columns)
    {
      var decision := Decide(columns, rows, f);
      if decision.Refused? {
        return Some(decision.message);
      }
      if decision.Raised? {
        return None;
      }
      MergedDistinct(columns, RECORD_COLUMNS);
      columns := Merged(columns, RECORD_COLUMNS);
      rows := rows + [Record(f)];
      message := Some(REGISTERED);
    }
  }

  /**
   * Once an order is registered, registering a complete form with the same
   * number (up to spaces at the ends and case) is refused as a duplicate.
   */
  lemma {:induction false} RegisteredIsDuplicate(columns: seq<string>, rows: seq<map<string, Cell>>, f: Form, g: Form)
    requires InDateRange(f.data) && Decide(columns, rows, f).Accepted?
    requires !MissingRequired(g) && Normalize(g.pedido) == Normalize(f.pedido)
    ensures Decide(Merged(columns, RECORD_COLUMNS), rows + [Record(f)], g) == Refused(DuplicateMessage(g.pedido))
  {
    MergedHasKeys(columns, RECORD_COLUMNS);
    MergedDistinct(columns, RECORD_COLUMNS);
    assert COL_PEDIDO in RECORD_COLUMNS;
    var rows' := rows + [Record(f)];
    RecordCells(f);
    assert PedidoMatches(rows'[|rows|], Normalize(g.pedido));
  }

  /**
   * A blank PEDIDO cell reads as `nan`, so it makes any order number that
   * normalises as `nan` does (` NaN `, say) a duplicate.
   */
  lemma BlankBlocksNan(columns: seq<string>, rows: seq<map<string, Cell>>, f: Form, i: int)
    requires COL_PEDIDO in columns && 0 <= i < |rows| && Get(rows[i], COL_PEDIDO) == Blank
    requires !MissingRequired(f) && Normalize(f.pedido) == Normalize("nan")
    ensures Decide(columns, rows, f) ==
      if Repeated(columns, COL_PEDIDO) then Decision.Raised else Refused(DuplicateMessage(f.pedido))
  {
    assert PedidoMatches(rows[i], Normalize(f.pedido));
  }
}
