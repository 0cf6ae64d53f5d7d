/**
 * The search history of the two BACKLOG pages: a list of result tables, each
 * tagged by the criterion ("Carro Foco") it was searched for. A search for a
 * criterion already in the history replaces that table where it stands;
 * otherwise the new table goes at the end. The last table can be removed and
 * the whole history cleared.
 *
 * pages/3_BACKLOG.py and pages/BACKLOG.py share these transitions and differ
 * only in their feedback messages (pages/BACKLOG.py sets none on removal and
 * clearing).
 */
module History {
  import opened Wrappers
  import opened Text
  import opened Pedidos
  import opened Search

  /** `LISTA_CARROS_CADASTRO[0]`, the entry that means "no criterion chosen". */
  const PLACEHOLDER := "- SELECIONE UM CRITÉRIO -"

  /** One result table: the records of one search, in the order searched. */
  type Table = seq<ResultRow>

  /** `existing_df['Carro Foco'].iloc[0]` */
  function Criterion(t: Table): string
    requires t != []
  {
    t[0].carroFoco
  }

  /** A table as the pages build it: non-empty, every record tagged with one criterion. */
  predicate WellTagged(t: Table) {
    t != [] && forall k :: 0 <= k < |t| ==> t[k].carroFoco == t[0].carroFoco
  }

  predicate AllWellTagged(h: seq<Table>) {
    forall i :: 0 <= i < |h| ==> WellTagged(h[i])
  }

  /** Some table of the history has criterion `carro`. */
  predicate HasCriterion(h: seq<Table>, carro: string)
    requires AllWellTagged(h)
  {
    exists i :: 0 <= i < |h| && Criterion(h[i]) == carro
  }

  /** No two tables of the history share a criterion. */
  predicate DistinctCriteria(h: seq<Table>)
    requires AllWellTagged(h)
  {
    forall i, j :: 0 <= i < j < |h| ==> Criterion(h[i]) != Criterion(h[j])
  }

  /** Every table with criterion `carro` replaced by `t`, the others kept in place. */
  function Replaced(h: seq<Table>, t: Table, carro: string): (r: seq<Table>)
    requires AllWellTagged(h)
    ensures |r| == |h|
  {
    seq(|h|, i requires 0 <= i < |h| => if Criterion(h[i]) == carro then t else h[i])
  }

  /** The history after a successful search for `carro` that produced `t`. */
  function Stored(h: seq<Table>, t: Table, carro: string): (r: seq<Table>)
    requires AllWellTagged(h)
    ensures |r| == if HasCriterion(h, carro) then |h| else |h| + 1
    ensures forall i :: 0 <= i < |h| && Criterion(h[i]) == carro ==> r[i] == t
    ensures forall i :: 0 <= i < |h| && Criterion(h[i]) != carro ==> r[i] == h[i]
    ensures !HasCriterion(h, carro) ==> r[|h|] == t
  {
    if HasCriterion(h, carro) then Replaced(h, t, carro) else h + [t]
  }

  /** Storing a well-tagged table keeps every table well-tagged, and the new table is in the history. */
  lemma StoredWellTagged(h: seq<Table>, t: Table, carro: string)
    requires AllWellTagged(h) && WellTagged(t)
    ensures AllWellTagged(Stored(h, t, carro))
    ensures t in Stored(h, t, carro)
  {
    var r := Stored(h, t, carro);
    if HasCriterion(h, carro) {
      var i :| 0 <= i < |h| && Criterion(h[i]) == carro;
      assert r[i] == t;
    } else {
      assert r[|h|] == t;
    }
  }

  /**
   * When the new table's own criterion is `carro`, a history whose criteria
   * were distinct keeps them distinct, and its criteria gain exactly `carro`.
   */
  lemma StoredDistinct(h: seq<Table>, t: Table, carro: string)
    requires AllWellTagged(h) && WellTagged(t) && Criterion(t) == carro
    requires DistinctCriteria(h)
    ensures AllWellTagged(Stored(h, t, carro))
    ensures DistinctCriteria(Stored(h, t, carro))
    ensures forall c :: HasCriterion(Stored(h, t, carro), c) <==> c == carro || HasCriterion(h, c)
  {
    var r := Stored(h, t, carro);
    StoredWellTagged(h, t, carro);
    forall i | 0 <= i < |r| ensures Criterion(r[i]) == (if i < |h| then Criterion(h[i]) else carro) {
    }
    forall c ensures HasCriterion(r, c) <==> c == carro || HasCriterion(h, c) {
      if c == carro {
        if HasCriterion(h, carro) {
          var i :| 0 <= i < |h| && Criterion(h[i]) == carro;
          assert Criterion(r[i]) == carro;
        } else {
          assert Criterion(r[|h|]) == carro;
        }
      } else if HasCriterion(h, c) {
        var i :| 0 <= i < |h| && Criterion(h[i]) == c;
        assert Criterion(r[i]) == c;
      }
    }
  }

  /** The table of records a search produces. */
  function Results(page: Page, pedidos: seq<string>, sources: seq<Source>, carro: string): (t: Table)
    ensures |t| == |pedidos|
    ensures forall k :: 0 <= k < |t| ==> t[k].pedido == pedidos[k] && t[k].carroFoco == carro
  {
    seq(|pedidos|, k requires 0 <= k < |pedidos| => Lookup(page, pedidos[k], sources, carro))
  }

  /** A search for at least one number produces a table tagged with its criterion. */
  lemma ResultsWellTagged(page: Page, pedidos: seq<string>, sources: seq<Source>, carro: string)
    requires pedidos != []
    ensures WellTagged(Results(page, pedidos, sources, carro))
    ensures Criterion(Results(page, pedidos, sources, carro)) == carro
  {
  }

  // ---------------------------------------------------------------------
  // Feedback messages
  // ---------------------------------------------------------------------

  function NoCriterionError(page: Page): string {
    match page
    case Backlog3 => "ERRO: Por favor, selecione um critério (Carro Foco) antes de buscar."
    case Backlog => "ERRO: Selecione um critério."
  }

  function NoPedidosError(page: Page): string {
    match page
    case Backlog3 => "ERRO: Nenhum pedido válido encontrado para buscar."
    case Backlog => "ERRO: Nenhum pedido válido."
  }

  function StoredMessage(page: Page, carro: string, substituted: bool, count: nat): string {
    match page
    case Backlog3 =>
      "✅ Tabela para '" + carro + "' " + (if substituted then "substituída" else "adicionada") +
      ". " + NatToString(count) + " pedidos processados."
    case Backlog => "✅ Tabela '" + carro + "' processada."
  }

  const NOTHING_TO_REMOVE := "AVISO: Não há pesquisas no histórico para remover."
  const CLEARED := "✅ Histórico de buscas limpo com sucesso."

  function RemovedMessage(carro: string): string {
    "✅ Última pesquisa (Tabela: " + carro + ") removida com sucesso."
  }

  /** The session state of one BACKLOG page. */
  class SearchHistory {
    const page: Page
    var tables: seq<Table>
    var feedback: Option<string>
    var inputText: string

    /**
     * Every stored table is non-empty and tagged with a single criterion,
     * and no two tables share a criterion.
     */
    ghost predicate Valid()
      reads this
    {
      AllWellTagged(tables) && DistinctCriteria(tables)
    }

    /** `initialize_state`, with an empty text box. */
    constructor(page: Page)
      ensures Valid()
      ensures this.page == page && tables == [] && feedback == None && inputText == ""
    {
      this.page := page;
      tables := [];
      feedback := None;
      inputText := "";
    }

    /** What the user typed in the order box. */
    method SetInput(text: string)
      modifies this
      ensures inputText == text && tables == old(tables) && feedback == old(feedback)
    {
      inputText := text;
    }

    /**
     * `handle_search`: refuse the placeholder criterion and a text without
     * order numbers, leaving the history and the text box alone; otherwise
     * search, store the table (when the search produced one) and empty the
     * text box.
     */
    method HandleSearch(carro: string, data: Option<seq<Source>>)
      requires Valid()
      modifies this
      ensures Valid()
      ensures var pedidos := ParsePedidos(old(inputText));
        if carro == PLACEHOLDER then
          tables == old(tables) && inputText == old(inputText) && feedback == Some(NoCriterionError(page))
        else if pedidos == [] then
          tables == old(tables) && inputText == old(inputText) && feedback == Some(NoPedidosError(page))
        else if data.None? then
          tables == old(tables) && inputText == "" && feedback == old(feedback)
        else
          tables == Stored(old(tables), Results(page, pedidos, data.value, carro), carro) &&
          inputText == "" &&
          feedback == Some(StoredMessage(page, carro, HasCriterion(old(tables), carro), |pedidos|))
    {
      var pedidos := ParsePedidos(inputText);
      if carro == PLACEHOLDER {
        feedback := Some(NoCriterionError(page));
        return;
      }
      if pedidos == [] {
        feedback := Some(NoPedidosError(page));
        return;
      }
      var results := PerformSearch(page, pedidos, data, carro);
      if results != [] {
        assert results == Results(page, pedidos, data.value, carro);
        ResultsWellTagged(page, pedidos, data.value, carro);
        var newHistory, substituted := ReplaceOrAppend(tables, results, carro);
        StoredDistinct(tables, results, carro);
        tables := newHistory;
        feedback := Some(StoredMessage(page, carro, substituted, |pedidos|));
      }
      inputText := "";
    }

    /**
     * The loop of `handle_search` that rebuilds the history: each table with
     * the criterion is replaced by the new one, and the new one is appended
     * when none was.
     */
    static method ReplaceOrAppend(history: seq<Table>, newTable: Table, carro: string)
      returns (newHistory: seq<Table>, substituted: bool)
      requires AllWellTagged(history)
      ensures substituted == HasCriterion(history, carro)
      ensures newHistory == Stored(history, newTable, carro)
    {
      newHistory := [];
      substituted := false;
      for k := 0 to |history|
        invariant |newHistory| == k
        invariant forall i :: 0 <= i < k ==>
          newHistory[i] == if Criterion(history[i]) == carro then newTable else history[i]
        invariant substituted <==> exists i :: 0 <= i < k && Criterion(history[i]) == carro
      {
        if Criterion(history[k]) == carro {
          newHistory := newHistory + [newTable];
          substituted := true;
        } else {
          newHistory := newHistory + [history[k]];
        }
      }
      if !substituted {
        newHistory := newHistory + [newTable];
      }
    }

    /**
     * `remove_last_search`: drop the last table. pages/3_BACKLOG.py names it
     * in its message, or warns when there is nothing to remove;
     * pages/BACKLOG.py says nothing.
     */
    method RemoveLast()
      requires Valid()
      modifies this
      ensures Valid()
      ensures old(tables) == [] ==> tables == []
      ensures old(tables) != [] ==> tables == old(tables)[..|old(tables)| - 1]
      ensures inputText == old(inputText)
      ensures page == Backlog ==> feedback == old(feedback)
      ensures page == Backlog3 && old(tables) == [] ==> feedback == Some(NOTHING_TO_REMOVE)
      ensures page == Backlog3 && old(tables) != [] ==>
        feedback == Some(RemovedMessage(Criterion(old(tables)[|old(tables)| - 1])))
    {
      if tables != [] {
        var removed := tables[|tables| - 1];
        tables := tables[..|tables| - 1];
        assert forall i :: 0 <= i < |tables| ==> tables[i] == old(tables)[i];
        if page == Backlog3 {
          feedback := Some(RemovedMessage(Criterion(removed)));
        }
      } else if page == Backlog3 {
        feedback := Some(NOTHING_TO_REMOVE);
      }
    }

    /** `clear_search_history` */
    method Clear()
      modifies this
      ensures Valid()
      ensures tables == [] && inputText == old(inputText)
      ensures feedback == if page == Backlog3 then Some(CLEARED) else old(feedback)
    {
      tables := [];
      if page == Backlog3 {
        feedback := Some(CLEARED);
      }
    }
  }

  /** Removing the last table after appending a new one restores the history. */
  lemma RemoveUndoesAppend(h: seq<Table>, t: Table, carro: string)
    requires AllWellTagged(h) && !HasCriterion(h, carro)
    ensures var r := Stored(h, t, carro); r[..|r| - 1] == h
  {
  }

  /**
   * Repeating a search with the same criterion and the same result changes
   * nothing the second time.
   */
  lemma StoredIdempotent(h: seq<Table>, t: Table, carro: string)
    requires AllWellTagged(h) && WellTagged(t) && Criterion(t) == carro
    ensures var r := Stored(h, t, carro);
      AllWellTagged(r) && Stored(r, t, carro) == r
  {
    var r := Stored(h, t, carro);
    StoredWellTagged(h, t, carro);
    var i :| 0 <= i < |r| && r[i] == t;
    assert Criterion(r[i]) == carro;
    assert HasCriterion(r, carro);
    forall k | 0 <= k < |r| ensures Replaced(r, t, carro)[k] == r[k] {
      if Criterion(r[k]) == carro {
        assert r[k] == t by {
          if HasCriterion(h, carro) && k < |h| { assert Criterion(h[k]) == carro; }
        }
      }
    }
  }
}
