/**
 * The search of BUSCAR.py: unlike the BACKLOG pages it reports every tab
 * (ALTA, EMERGENCIAL and the backup tab) that has the number, with the tab's
 * first matching row; `safe_load` keeps the rows whose DATA parses. Frames
 * are given as values: reading the workbook is not part of this model.
 */
module Buscar {
  import opened Wrappers
  import opened Text

  /** The column BUSCAR.py matches the query against. */
  const COL_PEDIDO := "PEDIDO"
  const COL_DATA := "DATA"

  /** A cell of BUSCAR's frames: empty cells are replaced by `pd.NA`. */
  datatype SheetCell = Blank | Str(text: string)

  /** `str(cell)` */
  function CellString(c: SheetCell): string {
    match c
    case Blank => "<NA>"
    case Str(s) => s
  }

  /** A loaded frame: its columns and its rows (column to cell). */
  datatype Frame = Frame(columns: seq<string>, rows: seq<map<string, SheetCell>>)

  /** A tab's name with its frame. */
  datatype NamedFrame = NamedFrame(name: string, frame: Frame)

  function Get(row: map<string, SheetCell>, col: string): SheetCell {
    if col in row then row[col] else Blank
  }

  /** The PEDIDO cell as BUSCAR compares it: `str(...).strip().upper()`. */
  function RowId(row: map<string, SheetCell>): string {
    Normalize(CellString(Get(row, COL_PEDIDO)))
  }

  predicate IdMatches(row: map<string, SheetCell>, pid: string) {
    RowId(row) == pid
  }

  /** The PEDIDO column as compared, row by row. */
  function RowIds(rows: seq<map<string, SheetCell>>): (ids: seq<string>)
    ensures |ids| == |rows| && forall i :: 0 <= i < |rows| ==> ids[i] == RowId(rows[i])
  {
    seq(|rows|, i requires 0 <= i < |rows| => RowId(rows[i]))
  }

  /** `search_df(df, pid)`: the matching rows, or none when there is no PEDIDO column or no row. */
  function SearchDf(f: Frame, pid: string): (r: seq<map<string, SheetCell>>)
    ensures forall x :: x in r <==> COL_PEDIDO in f.columns && x in f.rows && IdMatches(x, pid)
  {
    if COL_PEDIDO in f.columns && f.rows != [] then
      var r := MatchingRows(f.rows, pid);
      assert forall x :: x in r <==> x in f.rows && IdMatches(x, pid) by {
        forall x ensures x in r <==> x in f.rows && IdMatches(x, pid) {
          MatchingRowsMembers(f.rows, pid, x);
        }
      }
      r
    else []
  }

  /** `df[mask]`: the rows whose PEDIDO cell matches, in sheet order. */
  function MatchingRows(rows: seq<map<string, SheetCell>>, pid: string): seq<map<string, SheetCell>> {
    Select(rows, RowIds(rows), pid)
  }

  /** The rows whose compared PEDIDO equals `pid`, in order. */
  function Select(rows: seq<map<string, SheetCell>>, ids: seq<string>, pid: string): seq<map<string, SheetCell>>
    requires |ids| == |rows|
  {
    if rows == [] then []
    else (if ids[0] == pid then [rows[0]] else []) + Select(rows[1..], ids[1..], pid)
  }

  /**
   * The mask keeps the sheet's order: filtering two blocks of rows one after
   * the other gives the first block's matches ahead of the second's.
   */
  lemma MatchingRowsAppend(a: seq<map<string, SheetCell>>, b: seq<map<string, SheetCell>>, pid: string)
    ensures MatchingRows(a + b, pid) == MatchingRows(a, pid) + MatchingRows(b, pid)
  {
    assert RowIds(a + b) == RowIds(a) + RowIds(b);
    SelectAppend(a, RowIds(a), b, RowIds(b), pid);
  }

  /** A single row is kept if and only if it matches. */
  lemma MatchingRowsOne(x: map<string, SheetCell>, pid: string)
    ensures MatchingRows([x], pid) == if IdMatches(x, pid) then [x] else []
  {
    var ids := RowIds([x]);
    assert ids[0] == RowId(x) && ids[1..] == [] && [x][1..] == [];
    assert Select([x], ids, pid) == (if ids[0] == pid then [x] else []) + Select([], [], pid);
  }

  lemma {:induction false} SelectAppend(a: seq<map<string, SheetCell>>, ia: seq<string>,
                                        b: seq<map<string, SheetCell>>, ib: seq<string>, pid: string)
    requires |ia| == |a| && |ib| == |b|
    ensures Select(a + b, ia + ib, pid) == Select(a, ia, pid) + Select(b, ib, pid)
    decreases |a|
  {
    if a == [] {
      assert a + b == b && ia + ib == ib;
    } else {
      var head := if ia[0] == pid then [a[0]] else [];
      assert Select(a + b, ia + ib, pid) == head + Select(a[1..] + b, ia[1..] + ib, pid) by {
        assert (a + b)[0] == a[0] && (ia + ib)[0] == ia[0];
        assert (a + b)[1..] == a[1..] + b && (ia + ib)[1..] == ia[1..] + ib;
      }
      SelectAppend(a[1..], ia[1..], b, ib, pid);
    }
  }

  lemma MatchingRowsMembers(rows: seq<map<string, SheetCell>>, pid: string, x: map<string, SheetCell>)
    ensures x in MatchingRows(rows, pid) <==> x in rows && IdMatches(x, pid)
  {
    var ids := RowIds(rows);
    SelectMembers(rows, ids, pid, x);
    if x in rows && IdMatches(x, pid) {
      var i :| 0 <= i < |rows| && rows[i] == x;
      assert ids[i] == pid;
    }
  }

  lemma {:induction false} SelectMembers(rows: seq<map<string, SheetCell>>, ids: seq<string>, pid: string, x: map<string, SheetCell>)
    requires |ids| == |rows|
    ensures x in Select(rows, ids, pid) <==> exists i :: 0 <= i < |rows| && rows[i] == x && ids[i] == pid
    decreases |rows|
  {
    if rows != [] {
      var rt, it := rows[1..], ids[1..];
      SelectMembers(rt, it, pid, x);
      if exists i :: 0 <= i < |rows| && rows[i] == x && ids[i] == pid {
        var i :| 0 <= i < |rows| && rows[i] == x && ids[i] == pid;
        if i > 0 {
          assert rt[i - 1] == x && it[i - 1] == pid;
        }
      }
      if exists i :: 0 <= i < |rt| && rt[i] == x && it[i] == pid {
        var i :| 0 <= i < |rt| && rt[i] == x && it[i] == pid;
        assert rows[i + 1] == x && ids[i + 1] == pid;
      }
    }
  }

  /** The first row reported for a tab is its first matching row. */
  lemma MatchingRowsFirst(rows: seq<map<string, SheetCell>>, pid: string, j: int)
    requires 0 <= j < |rows| && IdMatches(rows[j], pid)
    requires forall j' :: 0 <= j' < j ==> !IdMatches(rows[j'], pid)
    ensures MatchingRows(rows, pid) != [] && MatchingRows(rows, pid)[0] == rows[j]
  {
    SelectFirst(rows, RowIds(rows), pid, j);
  }

  lemma {:induction false} SelectFirst(rows: seq<map<string, SheetCell>>, ids: seq<string>, pid: string, j: int)
    requires |ids| == |rows| && 0 <= j < |rows| && ids[j] == pid
    requires forall j' :: 0 <= j' < j ==> ids[j'] != pid
    ensures Select(rows, ids, pid) != [] && Select(rows, ids, pid)[0] == rows[j]
    decreases |rows|
  {
    if j > 0 {
      var rt, it := rows[1..], ids[1..];
      assert Select(rows, ids, pid) == [] + Select(rt, it, pid);
      assert it[j - 1] == pid && rt[j - 1] == rows[j];
      SelectFirst(rt, it, pid, j - 1);
    }
  }

  /** `search_df` returns the tab's first matching row first. */
  lemma SearchDfFirst(f: Frame, pid: string, j: int)
    requires COL_PEDIDO in f.columns && 0 <= j < |f.rows| && IdMatches(f.rows[j], pid)
    requires forall j' :: 0 <= j' < j ==> !IdMatches(f.rows[j'], pid)
    ensures SearchDf(f, pid) != [] && SearchDf(f, pid)[0] == f.rows[j]
  {
    MatchingRowsFirst(f.rows, pid, j);
  }

  /** One reported hit: the tab's name and the first matching row of that tab. */
  datatype Hit = Hit(sheet: string, row: map<string, SheetCell>)

  /** What the BUSCAR page shows for a query. */
  datatype Report = NoQuery | NotFound | Found(hits: seq<Hit>)

  /** The hit a tab contributes: its name with its first matching row, if any. */
  function TabHit(t: NamedFrame, pid: string): (h: Option<Hit>)
    ensures h.None? <==> SearchDf(t.frame, pid) == []
    ensures h.Some? ==> h.value.sheet == t.name && h.value.row == SearchDf(t.frame, pid)[0]
  {
    var r := SearchDf(t.frame, pid);
    if r != [] then Some(Hit(t.name, r[0])) else None
  }

  /** Each tab's hit, in tab order. */
  function TabHits(frames: seq<NamedFrame>, pid: string): (os: seq<Option<Hit>>)
    ensures |os| == |frames| && forall i :: 0 <= i < |frames| ==> os[i] == TabHit(frames[i], pid)
  {
    seq(|frames|, i requires 0 <= i < |frames| => TabHit(frames[i], pid))
  }

  /** The hits that are there, in order. */
  function Present(os: seq<Option<Hit>>): seq<Hit> {
    if os == [] then [] else Listed(os[0]) + Present(os[1..])
  }

  /** The hit of one tab as a list: empty when the tab does not have the number. */
  function Listed(o: Option<Hit>): seq<Hit> {
    if o.Some? then [o.value] else []
  }

  /** The hits of every tab that has the number, in tab order. */
  function Hits(frames: seq<NamedFrame>, pid: string): (hs: seq<Hit>)
    ensures forall h :: h in hs <==> exists i :: 0 <= i < |frames| && TabHit(frames[i], pid) == Some(h)
    ensures hs == [] <==> forall i :: 0 <= i < |frames| ==> TabHit(frames[i], pid).None?
  {
    var os := TabHits(frames, pid);
    assert forall h :: h in Present(os) <==> exists i :: 0 <= i < |os| && os[i] == Some(h) by {
      forall h ensures h in Present(os) <==> exists i :: 0 <= i < |os| && os[i] == Some(h) {
        PresentMembers(os, h);
      }
    }
    PresentEmpty(os);
    Present(os)
  }

  /** The search section of BUSCAR.py, for the tabs ALTA, EMERGENCIAL and the backup tab. */
  function ReportAll(input: string, frames: seq<NamedFrame>): (rep: Report)
    ensures input == "" <==> rep == NoQuery
    ensures rep.Found? ==> rep.hits != []
  {
    if input == "" then NoQuery
    else
      var hs := Hits(frames, Normalize(input));
      if hs == [] then NotFound else Found(hs)
  }

  /** The tabs of BUSCAR.py in the order the page searches them. */
  function BuscarTabs(alta: Frame, emergencial: Frame, backupName: string, backup: Frame): seq<NamedFrame> {
    [NamedFrame("ALTA", alta), NamedFrame("EMERGENCIAL", emergencial), NamedFrame(backupName, backup)]
  }

  /**
   * The hits keep the tabs' order and each tab gives at most one: a single
   * tab gives its own hit, and two blocks of tabs give the first block's
   * hits ahead of the second's.
   */
  lemma HitsAppend(a: seq<NamedFrame>, b: seq<NamedFrame>, pid: string)
    ensures Hits(a + b, pid) == Hits(a, pid) + Hits(b, pid)
    ensures |a| == 1 ==> Hits(a, pid) == Listed(TabHit(a[0], pid))
  {
    assert TabHits(a + b, pid) == TabHits(a, pid) + TabHits(b, pid);
    PresentAppend(TabHits(a, pid), TabHits(b, pid));
    if |a| == 1 {
      assert TabHits(a, pid)[1..] == [];
    }
  }

  lemma {:induction false} PresentAppend(a: seq<Option<Hit>>, b: seq<Option<Hit>>)
    ensures Present(a + b) == Present(a) + Present(b)
    decreases |a|
  {
    if a == [] {
      assert a + b == b;
    } else {
      assert (a + b)[0] == a[0] && (a + b)[1..] == a[1..] + b;
      PresentAppend(a[1..], b);
    }
  }

  /**
   * BUSCAR.py reports, for a non-empty query, the hit of ALTA, then that of
   * EMERGENCIAL, then that of the backup tab, each only when the tab has the
   * number, and "not found" when none has.
   */
  lemma ReportAllHits(input: string, alta: Frame, emergencial: Frame, backupName: string, backup: Frame)
    ensures var pid := Normalize(input);
      var hs := Listed(TabHit(NamedFrame("ALTA", alta), pid)) +
                Listed(TabHit(NamedFrame("EMERGENCIAL", emergencial), pid)) +
                Listed(TabHit(NamedFrame(backupName, backup), pid));
      ReportAll(input, BuscarTabs(alta, emergencial, backupName, backup)) ==
        if input == "" then NoQuery else if hs == [] then NotFound else Found(hs)
  {
    var pid := Normalize(input);
    HitsOfThree(NamedFrame("ALTA", alta), NamedFrame("EMERGENCIAL", emergencial), NamedFrame(backupName, backup), pid);
  }

  /** Three tabs give their hits in their order. */
  lemma HitsOfThree(t0: NamedFrame, t1: NamedFrame, t2: NamedFrame, pid: string)
    ensures Hits([t0, t1, t2], pid) == Listed(TabHit(t0, pid)) + Listed(TabHit(t1, pid)) + Listed(TabHit(t2, pid))
  {
    var os := TabHits([t0, t1, t2], pid);
    assert os == [TabHit(t0, pid), TabHit(t1, pid), TabHit(t2, pid)];
    PresentOfThree(TabHit(t0, pid), TabHit(t1, pid), TabHit(t2, pid));
    assert Hits([t0, t1, t2], pid) == Present(os);
  }

  lemma PresentOfThree(a: Option<Hit>, b: Option<Hit>, c: Option<Hit>)
    ensures Present([a, b, c]) == Listed(a) + Listed(b) + Listed(c)
  {
    assert Present([c]) == Listed(c) by {
      assert [c][1..] == [];
    }
    assert Present([b, c]) == Listed(b) + Present([c]) by {
      assert [b, c][1..] == [c];
    }
    assert Present([a, b, c]) == Listed(a) + Present([b, c]) by {
      assert [a, b, c][1..] == [b, c];
    }
  }

  lemma {:induction false} PresentMembers(os: seq<Option<Hit>>, h: Hit)
    ensures h in Present(os) <==> exists i :: 0 <= i < |os| && os[i] == Some(h)
    decreases |os|
  {
    if os != [] {
      var tail := os[1..];
      PresentMembers(tail, h);
      if exists i :: 0 <= i < |os| && os[i] == Some(h) {
        var i :| 0 <= i < |os| && os[i] == Some(h);
        if i > 0 {
          assert tail[i - 1] == Some(h);
        }
      }
      if exists i :: 0 <= i < |tail| && tail[i] == Some(h) {
        var i :| 0 <= i < |tail| && tail[i] == Some(h);
        assert os[i + 1] == Some(h);
      }
    }
  }

  lemma {:induction false} PresentEmpty(os: seq<Option<Hit>>)
    ensures Present(os) == [] <==> forall i :: 0 <= i < |os| ==> os[i].None?
    decreases |os|
  {
    if os != [] {
      var tail := os[1..];
      PresentEmpty(tail);
      if forall i :: 0 <= i < |os| ==> os[i].None? {
        assert forall i :: 0 <= i < |tail| ==> tail[i].None? by {
          forall i | 0 <= i < |tail| ensures tail[i].None? {
            assert tail[i] == os[i + 1];
          }
        }
      }
      if forall i :: 0 <= i < |tail| ==> tail[i].None? {
        if os[0].None? {
          forall i | 0 < i < |os| ensures os[i].None? {
            assert os[i] == tail[i - 1];
          }
        }
      }
    }
  }

  /**
   * BUSCAR.py reports "not found" exactly when the query is non-empty and
   * none of the three tabs has the number.
   */
  lemma ReportAllNotFound(input: string, alta: Frame, emergencial: Frame, backupName: string, backup: Frame)
    ensures var tabs := BuscarTabs(alta, emergencial, backupName, backup);
      var pid := Normalize(input);
      ReportAll(input, tabs) == NotFound <==>
        input != "" && SearchDf(alta, pid) == [] && SearchDf(emergencial, pid) == [] && SearchDf(backup, pid) == []
  {
    var tabs := BuscarTabs(alta, emergencial, backupName, backup);
    var pid := Normalize(input);
    var os := TabHits(tabs, pid);
    PresentEmpty(os);
    assert os[0] == TabHit(tabs[0], pid) && os[1] == TabHit(tabs[1], pid) && os[2] == TabHit(tabs[2], pid);
    assert tabs[0].frame == alta && tabs[1].frame == emergencial && tabs[2].frame == backup;
  }

  /** Upper-casing and stripping the query first changes nothing. */
  lemma ReportAllNormalized(input: string, frames: seq<NamedFrame>)
    requires Normalize(input) != ""
    ensures ReportAll(Normalize(input), frames) == ReportAll(input, frames)
  {
    NormalizeIdempotent(input);
  }

  // ---------------------------------------------------------------------
  // safe_load
  // ---------------------------------------------------------------------

  /** A row of a loaded frame with its DATA cell as parsed (day first, coercing errors to None). */
  datatype DatedRow = DatedRow(cells: map<string, SheetCell>, date: Option<int>)

  /** `df[pd.notna(df[COL_DATA])]` when the frame has a DATA column. */
  function SafeLoad(columns: seq<string>, rows: seq<DatedRow>): (r: seq<DatedRow>)
    ensures COL_DATA !in columns ==> r == rows
    ensures COL_DATA in columns ==>
      forall x :: multiset(r)[x] == if x.date.Some? then multiset(rows)[x] else 0
    ensures COL_DATA in columns ==> forall x :: x in r <==> x in rows && x.date.Some?
    ensures COL_DATA in columns && r != [] ==> FirstDated(rows, r[0])
    ensures |r| <= |rows|
  {
    if COL_DATA in columns then WithDate(rows) else rows
  }

  /** `x` is the first row of `rows` that has a date. */
  ghost predicate FirstDated(rows: seq<DatedRow>, x: DatedRow) {
    exists i :: 0 <= i < |rows| && rows[i] == x && x.date.Some? &&
      forall k :: 0 <= k < i ==> rows[k].date.None?
  }

  /**
   * The dated rows, each as often as in `rows`, none of the others, and the
   * first dated row first: a filter that keeps the frame's order.
   */
  function WithDate(rows: seq<DatedRow>): (r: seq<DatedRow>)
    ensures forall x :: multiset(r)[x] == if x.date.Some? then multiset(rows)[x] else 0
    ensures forall x :: x in r <==> x in rows && x.date.Some?
    ensures r != [] ==> FirstDated(rows, r[0])
    ensures r == [] <==> forall i :: 0 <= i < |rows| ==> rows[i].date.None?
    ensures |r| <= |rows|
    ensures |rows| == 1 ==> r == if rows[0].date.Some? then rows else []
  {
    if rows == [] then []
    else
      var tail := rows[1..];
      assert rows == [rows[0]] + tail;
      assert forall i :: 1 <= i < |rows| ==> rows[i] == tail[i - 1];
      var rest := WithDate(tail);
      if rows[0].date.Some? then
        assert FirstDated(rows, rows[0]) by {
          assert rows[0] == rows[0];
        }
        [rows[0]] + rest
      else
        assert rest != [] ==> FirstDated(rows, rest[0]) by {
          if rest != [] {
            FirstDatedBehindUndated(rows, rest[0]);
          }
        }
        rest
  }

  /**
   * Filtering two blocks of rows one after the other keeps the first block's
   * dated rows ahead of the second's: with the single-row case of `WithDate`,
   * the kept rows are the dated rows in the frame's order.
   */
  lemma {:induction false} WithDateAppend(a: seq<DatedRow>, b: seq<DatedRow>)
    ensures WithDate(a + b) == WithDate(a) + WithDate(b)
    decreases |a|
  {
    if a == [] {
      assert a + b == b;
    } else {
      assert (a + b)[0] == a[0] && (a + b)[1..] == a[1..] + b;
      WithDateAppend(a[1..], b);
    }
  }

  /** An undated row in front does not change which row is the first dated one. */
  lemma FirstDatedBehindUndated(rows: seq<DatedRow>, x: DatedRow)
    requires rows != [] && rows[0].date.None? && FirstDated(rows[1..], x)
    ensures FirstDated(rows, x)
  {
    var tail := rows[1..];
    var i :| 0 <= i < |tail| && tail[i] == x && x.date.Some? &&
      forall k :: 0 <= k < i ==> tail[k].date.None?;
    assert rows[i + 1] == x;
    assert forall k :: 1 <= k < i + 1 ==> rows[k] == tail[k - 1];
  }
}
