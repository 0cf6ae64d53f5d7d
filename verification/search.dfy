/**
 * Looking order numbers up in the loaded sheets.
 *
 * The two BACKLOG pages (pages/3_BACKLOG.py and pages/BACKLOG.py) take the
 * first sheet, in load order, that has a row for the number, and answer a
 * "Pedido Não Encontrado" record when none has. Sheets are given as values:
 * loading them from Google Sheets is not part of this model.
 */
module Search {
  import opened Wrappers
  import opened Text

  const NOT_FOUND := "Pedido Não Encontrado"
  const COL_PEDIDO := "PEDIDO"
  const COL_DATA := "DATA"
  const COL_CARRO := "CARRO | UTILIZAÇÃO"
  const COL_STATUS := "STATUS"

  /** The two BACKLOG pages, whose lookups differ in how the PEDIDO column is compared. */
  datatype Page = Backlog3 | Backlog

  /** A sheet row of the BACKLOG pages: column name to cell text. */
  type Row = map<string, string>

  /** A loaded tab, with its name (`ALTA`, `EMERGENCIAL` or the backup label). */
  datatype Source = Source(name: string, rows: seq<Row>)

  /** One line of a search result table. */
  datatype ResultRow = ResultRow(
    pedido: string, origem: string, data: string, carro: string, status: string, carroFoco: string)

  /** `row.get(col, '')` */
  function Cell(row: Row, col: string): string {
    if col in row then row[col] else ""
  }

  /**
   * The PEDIDO cell as a page compares it: pages/3_BACKLOG.py takes it as it
   * is; pages/BACKLOG.py strips it (it strips the column when loading).
   */
  function PedidoKey(page: Page, row: Row): (k: string)
    ensures |k| <= |Cell(row, COL_PEDIDO)|
    ensures page == Backlog ==> k == [] || (!IsSpace(k[0]) && !IsSpace(k[|k| - 1]))
  {
    match page
    case Backlog3 => Cell(row, COL_PEDIDO)
    case Backlog => Strip(Cell(row, COL_PEDIDO))
  }

  /** Whether a row is a hit for `pedido`. */
  predicate Matches(page: Page, row: Row, pedido: string) {
    PedidoKey(page, row) == pedido
  }

  /** The record answered when no sheet has the number. */
  function NotFoundRow(pedido: string, carro: string): ResultRow {
    ResultRow(pedido, "", "", "", NOT_FOUND, carro)
  }

  /** The record answered for the row `row` of sheet `sheet`. */
  function FoundRow(pedido: string, sheet: string, row: Row, carro: string): ResultRow {
    ResultRow(pedido, sheet, Cell(row, COL_DATA), Cell(row, COL_CARRO), Cell(row, COL_STATUS), carro)
  }

  /** The index of the first occurrence of `x` in `xs`. */
  function IndexOf(xs: seq<string>, x: string): (r: Option<nat>)
    ensures r.Some? ==> r.value < |xs| && xs[r.value] == x
    ensures r.Some? ==> forall j :: 0 <= j < r.value ==> xs[j] != x
    ensures r.None? ==> x !in xs
  {
    if xs == [] then None
    else if xs[0] == x then Some(0)
    else match IndexOf(xs[1..], x)
      case None => None
      case Some(j) =>
        assert forall j' :: 1 <= j' <= j ==> xs[j'] == xs[1..][j' - 1];
        Some(j + 1)
  }

  /** The PEDIDO column of a sheet as the page compares it. */
  function PedidoKeys(page: Page, rows: seq<Row>): (ks: seq<string>)
    ensures |ks| == |rows| && forall j :: 0 <= j < |rows| ==> ks[j] == PedidoKey(page, rows[j])
  {
    seq(|rows|, j requires 0 <= j < |rows| => PedidoKey(page, rows[j]))
  }

  /** `df[df['PEDIDO'] == pedido].iloc[0]`: the index of the first hit in a sheet. */
  function FirstHit(page: Page, rows: seq<Row>, pedido: string): (r: Option<nat>)
    ensures r.Some? ==> r.value < |rows| && Matches(page, rows[r.value], pedido)
    ensures r.Some? ==> forall j :: 0 <= j < r.value ==> !Matches(page, rows[j], pedido)
    ensures r.None? ==> forall j :: 0 <= j < |rows| ==> !Matches(page, rows[j], pedido)
  {
    var ks := PedidoKeys(page, rows);
    var r := IndexOf(ks, pedido);
    assert r.None? ==> forall j :: 0 <= j < |rows| ==> ks[j] != pedido;
    r
  }

  /** What `search_pedido` answers: the first sheet with a hit wins. */
  function Lookup(page: Page, pedido: string, sources: seq<Source>, carro: string): (r: ResultRow)
    ensures r.pedido == pedido && r.carroFoco == carro
  {
    if sources == [] then NotFoundRow(pedido, carro)
    else match FirstHit(page, sources[0].rows, pedido)
      case Some(j) => FoundRow(pedido, sources[0].name, sources[0].rows[j], carro)
      case None => Lookup(page, pedido, sources[1..], carro)
  }

  /** Row `j` of sheet `i` is the first hit: no earlier sheet and no earlier row of sheet `i` has one. */
  ghost predicate IsFirstHit(page: Page, sources: seq<Source>, pedido: string, i: int, j: int) {
    0 <= i < |sources| && 0 <= j < |sources[i].rows| && Matches(page, sources[i].rows[j], pedido) &&
    (forall i', j' :: 0 <= i' < i && 0 <= j' < |sources[i'].rows| ==> !Matches(page, sources[i'].rows[j'], pedido)) &&
    (forall j' :: 0 <= j' < j ==> !Matches(page, sources[i].rows[j'], pedido))
  }

  /** No sheet has the number. */
  ghost predicate NoHit(page: Page, sources: seq<Source>, pedido: string) {
    forall i, j :: 0 <= i < |sources| && 0 <= j < |sources[i].rows| ==> !Matches(page, sources[i].rows[j], pedido)
  }

  /** A search list has no hit exactly when its first sheet has none and the rest has none. */
  lemma NoHitCons(page: Page, sources: seq<Source>, pedido: string)
    requires sources != []
    ensures NoHit(page, sources, pedido) <==>
      FirstHit(page, sources[0].rows, pedido).None? && NoHit(page, sources[1..], pedido)
  {
    var tail := sources[1..];
    if FirstHit(page, sources[0].rows, pedido).None? && NoHit(page, tail, pedido) {
      forall i, j | 0 <= i < |sources| && 0 <= j < |sources[i].rows|
        ensures !Matches(page, sources[i].rows[j], pedido)
      {
        if i > 0 { assert sources[i] == tail[i - 1]; }
      }
    }
    if NoHit(page, sources, pedido) {
      forall i, j | 0 <= i < |tail| && 0 <= j < |tail[i].rows|
        ensures !Matches(page, tail[i].rows[j], pedido)
      {
        assert tail[i] == sources[i + 1];
      }
    }
  }

  /** Past a first sheet with no hit, the first hit is the first hit of the rest. */
  lemma IsFirstHitCons(page: Page, sources: seq<Source>, pedido: string, i: int, j: int)
    requires sources != [] && FirstHit(page, sources[0].rows, pedido).None?
    ensures IsFirstHit(page, sources, pedido, i, j) <==> i > 0 && IsFirstHit(page, sources[1..], pedido, i - 1, j)
  {
    var tail := sources[1..];
    if i > 0 && i - 1 < |tail| {
      assert sources[i] == tail[i - 1];
      assert forall i' :: 0 < i' < i ==> sources[i'] == tail[i' - 1];
    }
  }

  /** With no hit anywhere, `search_pedido` answers the not-found record. */
  lemma {:induction false} LookupNotFound(page: Page, pedido: string, sources: seq<Source>, carro: string)
    requires NoHit(page, sources, pedido)
    ensures Lookup(page, pedido, sources, carro) == NotFoundRow(pedido, carro)
    decreases |sources|
  {
    if sources != [] {
      NoHitCons(page, sources, pedido);
      LookupNotFound(page, pedido, sources[1..], carro);
    }
  }

  /** `search_pedido` answers the record of the first hit in sheet order. */
  lemma {:induction false} LookupFound(page: Page, pedido: string, sources: seq<Source>, carro: string, i: int, j: int)
    requires IsFirstHit(page, sources, pedido, i, j)
    ensures Lookup(page, pedido, sources, carro) == FoundRow(pedido, sources[i].name, sources[i].rows[j], carro)
    decreases |sources|
  {
    match FirstHit(page, sources[0].rows, pedido)
    case Some(k) =>
      assert i == 0;
      assert k == j;
    case None =>
      IsFirstHitCons(page, sources, pedido, i, j);
      LookupFound(page, pedido, sources[1..], carro, i - 1, j);
      assert sources[1..][i - 1] == sources[i];
  }

  /** Either no sheet has the number or some row is the first hit. */
  lemma {:induction false} HitOrNone(page: Page, pedido: string, sources: seq<Source>)
    ensures NoHit(page, sources, pedido) || exists i, j :: IsFirstHit(page, sources, pedido, i, j)
    decreases |sources|
  {
    if sources != [] {
      match FirstHit(page, sources[0].rows, pedido)
      case Some(k) =>
        assert IsFirstHit(page, sources, pedido, 0, k);
      case None =>
        HitOrNone(page, pedido, sources[1..]);
        NoHitCons(page, sources, pedido);
        if !NoHit(page, sources[1..], pedido) {
          var i, j :| IsFirstHit(page, sources[1..], pedido, i, j);
          IsFirstHitCons(page, sources, pedido, i + 1, j);
        }
    }
  }

  /** `search_pedido(pedido, data, carro_selecionado)`, looping over the sheets with an early return. */
  method SearchPedido(page: Page, pedido: string, sources: seq<Source>, carro: string) returns (r: ResultRow)
    ensures r == Lookup(page, pedido, sources, carro)
  {
    var k := 0;
    while k < |sources|
      invariant 0 <= k <= |sources|
      invariant Lookup(page, pedido, sources, carro) == Lookup(page, pedido, sources[k..], carro)
    {
      assert sources[k..][1..] == sources[k + 1..];
      var hit := FirstHit(page, sources[k].rows, pedido);
      if hit.Some? {
        r := FoundRow(pedido, sources[k].name, sources[k].rows[hit.value], carro);
        return;
      }
      k := k + 1;
    }
    r := NotFoundRow(pedido, carro);
  }

  /**
   * `perform_search`: nothing for no numbers or no data, otherwise one record
   * per number, in the order given.
   */
  method PerformSearch(page: Page, pedidos: seq<string>, data: Option<seq<Source>>, carro: string)
    returns (results: seq<ResultRow>)
    ensures pedidos == [] || data.None? ==> results == []
    ensures pedidos != [] && data.Some? ==>
      |results| == |pedidos| &&
      forall i :: 0 <= i < |pedidos| ==> results[i] == Lookup(page, pedidos[i], data.value, carro)
  {
    if pedidos == [] || data.None? {
      return [];
    }
    results := [];
    for k := 0 to |pedidos|
      invariant |results| == k
      invariant forall i :: 0 <= i < k ==> results[i] == Lookup(page, pedidos[i], data.value, carro)
    {
      var result := SearchPedido(page, pedidos[k], data.value, carro);
      assert forall i :: 0 <= i < k ==> (results + [result])[i] == results[i];
      results := results + [result];
    }
  }

  // ---------------------------------------------------------------------
  // display_search_history and apply_text_color_by_status
  // ---------------------------------------------------------------------

  /** `Sort_Key`: 1 for a not-found record, 0 otherwise. */
  function SortKey(r: ResultRow): int {
    if r.status == NOT_FOUND then 1 else 0
  }

  function RowsWithKey(t: seq<ResultRow>, key: int): (r: seq<ResultRow>)
    ensures forall x :: x in r ==> SortKey(x) == key
    ensures forall x :: multiset(r)[x] == if SortKey(x) == key then multiset(t)[x] else 0
  {
    if t == [] then []
    else
      assert t == [t[0]] + t[1..];
      (if SortKey(t[0]) == key then [t[0]] else []) + RowsWithKey(t[1..], key)
  }

  /** The rows of a table as displayed: found rows first, then the not-found ones. */
  function DisplayOrder(t: seq<ResultRow>): (d: seq<ResultRow>)
    ensures multiset(d) == multiset(t)
    ensures forall i, j :: 0 <= i < j < |d| ==> SortKey(d[i]) <= SortKey(d[j])
  {
    var found := RowsWithKey(t, 0);
    var missing := RowsWithKey(t, 1);
    KeysAscend(found, missing);
    SplitByKey(t, found, missing);
    found + missing
  }

  /** Rows of key 0 followed by rows of key 1 are in key order. */
  lemma KeysAscend(found: seq<ResultRow>, missing: seq<ResultRow>)
    requires forall x :: x in found ==> SortKey(x) == 0
    requires forall x :: x in missing ==> SortKey(x) == 1
    ensures forall i :: 0 <= i < |found + missing| ==> SortKey((found + missing)[i]) == if i < |found| then 0 else 1
  {
    forall i | 0 <= i < |found + missing|
      ensures SortKey((found + missing)[i]) == if i < |found| then 0 else 1
    {
      if i < |found| {
        assert (found + missing)[i] == found[i] && found[i] in found;
      } else {
        assert (found + missing)[i] == missing[i - |found|] && missing[i - |found|] in missing;
      }
    }
  }

  /** The rows of key 0 and those of key 1 are together all the rows. */
  lemma SplitByKey(t: seq<ResultRow>, found: seq<ResultRow>, missing: seq<ResultRow>)
    requires forall x :: multiset(found)[x] == if SortKey(x) == 0 then multiset(t)[x] else 0
    requires forall x :: multiset(missing)[x] == if SortKey(x) == 1 then multiset(t)[x] else 0
    ensures multiset(found + missing) == multiset(t)
  {
    forall x ensures multiset(found + missing)[x] == multiset(t)[x] {
      assert SortKey(x) == 0 || SortKey(x) == 1;
    }
  }

  const EMPHASIS_ERROR := "color: red; font-weight: bold;"
  const MUTED := "color: grey;"
  const EMPHASIS_OK := "color: green; font-weight: bold;"

  /** `apply_text_color_by_status(row)`: one style per displayed column (None for no style). */
  function RowStyles(r: ResultRow, columns: seq<string>): (styles: seq<Option<string>>)
    ensures |styles| == |columns|
  {
    seq(|columns|, i requires 0 <= i < |columns| =>
      var key := columns[i] == "Pedido" || columns[i] == "Status";
      if r.status == NOT_FOUND then Some(if key then EMPHASIS_ERROR else MUTED)
      else if key then Some(EMPHASIS_OK) else None)
  }

  /**
   * Only the Pedido and Status cells are emphasised, red for a not-found
   * record and green otherwise; the other cells of a not-found record are
   * grey and those of a found record unstyled.
   */
  lemma RowStylesMeaning(r: ResultRow, columns: seq<string>, i: int)
    requires 0 <= i < |columns|
    ensures var s := RowStyles(r, columns)[i];
      (s == Some(EMPHASIS_ERROR) || s == Some(EMPHASIS_OK) <==> columns[i] in ["Pedido", "Status"]) &&
      (s == Some(EMPHASIS_ERROR) || s == Some(MUTED) <==> r.status == NOT_FOUND) &&
      (s == None <==> r.status != NOT_FOUND && columns[i] !in ["Pedido", "Status"])
  {
  }
}
