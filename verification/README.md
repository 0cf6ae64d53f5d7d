# Order tracking pages, modelled in Dafny

A small Streamlit application tracks purchase orders ("pedidos") in a Google
Sheets workbook. This project models the logic of its pages and proves
properties of that model.

* **2_FORMATAR_PEDIDO.py.** Order numbers are pulled out of free text. They are
  filed into buckets keyed by an action and a date ("PAGO 10/05"). A number
  lives in at most one bucket: filing it under a new key removes it from
  every other bucket. The buckets render as one line of text.
* **pages/3_BACKLOG.py and pages/BACKLOG.py.** Each number is looked up in the
  loaded tabs, and the first tab with a matching row wins. The results form
  one table per criterion ("Carro Foco"). Searching again for a criterion
  replaces its table where it stands; otherwise the table is appended. The
  last table can be removed and the history cleared. The tab of last week's
  backup has a `dd.mm a dd.mm` name that depends on today's weekday, and the
  pages compute it by two different rules.
* **BUSCAR.py.** The header row is upper-cased and repeated names are
  suffixed. One order number, stripped and upper-cased, is searched in the
  ALTA, EMERGENCIAL and backup tabs, and every tab that has it is reported.
  Brazilian currency text ("R$ 1.234,50") is parsed into a number, and a
  number is rendered back in that form.
* **pages/4_DASHBOARD.py.** The same currency helpers, and the default week
  (Monday to Sunday) of the report.
* **page/CADASTRAR.py.** The ALTA tab is loaded: empty rows are dropped, the
  first row becomes the header, and a numeric VALOR_NUM column is derived.
  A form registers a new order unless a required field is empty or the order
  number is already there.

Dates are day numbers counted from 1970-01-01, with Python's weekday
numbering (Monday is 0). Amounts are exact `real`s. Sheets, forms and the
current date are parameters. The Streamlit session state becomes a class
per page (`Buckets.Formatter`, `History.SearchHistory`,
`Registration.Worksheet`), and its callbacks become methods of that class.

The buckets render in ascending key order, not in filing order: filing
orders 1 and 2 under PAGO 10/05, then order 2 under ENTREGUE 10/05, renders
as `2 - ENTREGUE 10/05 | 1 - PAGO 10/05` (`Buckets.RenderScenario`).

Several behaviours of the code are proved as they are:

* The renaming of repeated headers does not always give unique names: the
  headers `X`, `X`, `X_1` become `X`, `X_1`, `X_1` (`Headers.RenamingCollides`).
* BUSCAR.py and CADASTRAR.py clean currency text differently. They agree on
  every amount that `br_money` renders (`Money.CleaningsAgreeOnBrMoney`).
  They disagree on `R$ 1 234,50`: BUSCAR.py reads 1234.5 and CADASTRAR.py
  reads 0.0 (`Money.CleaningsDrift`).
* On a Saturday, a comment in `calculate_backup_sheet_name` says that the
  days since the last Friday are 0; the code computes 1
  (`Calendar.SaturdaySinceFriday`).
* In the backup rule of BUSCAR.py and pages/3_BACKLOG.py, the week named on
  Tuesday to Thursday lies three calendar weeks back. On Friday it lies two
  weeks back, and on Saturday to Monday it is the previous week
  (`Calendar.BackupWindowAWeeks`). The rule of pages/BACKLOG.py always names
  the previous calendar week. The two rules agree exactly on Monday, Saturday
  and Sunday (`Calendar.BackupVariantsAgree`).

## Model

| member | source | states |
|---|---|---|
| Text.StripIsSlice | BUSCAR.py:245 | `strip()` removes exactly the leading and trailing whitespace: the result is the slice between them |
| Text.Upper | BUSCAR.py:245 | the model's `upper()` keeps the length and maps each character by `UpperChar` (ASCII and Latin-1 letters; see Left out) |
| Text.NormalizeIdempotent | BUSCAR.py:251-253 | stripping and upper-casing a second time changes nothing |
| Text.LessIrreflexive | 2_FORMATAR_PEDIDO.py:22 | no string sorts before itself |
| Text.LessAsymmetric | 2_FORMATAR_PEDIDO.py:22 | two strings never sort before each other |
| Text.LessTransitive | 2_FORMATAR_PEDIDO.py:22 | string order is transitive |
| Text.LessTotal | 2_FORMATAR_PEDIDO.py:22 | any two different strings are ordered one way or the other |
| Text.StrictlySortedUnique | 2_FORMATAR_PEDIDO.py:20-22 | two ascending lists without repeats that have the same elements are equal |
| Text.Sort | 2_FORMATAR_PEDIDO.py:48 | `sorted(v)` is ascending and a permutation of `v` |
| Text.SortUnique | 2_FORMATAR_PEDIDO.py:20-22 | `sorted(list(set))` is strictly ascending and has exactly the elements of the input |
| Text.SortedElements | 2_FORMATAR_PEDIDO.py:61 | the keys of a dictionary in sorted order: strictly ascending, exactly the keys |
| Text.NatToString | BUSCAR.py:166 | the decimal text of a count is non-empty, all digits, and reads back as the count |
| Pedidos.ParsePedidos | 2_FORMATAR_PEDIDO.py:13-22 | empty text gives no numbers; the result is strictly ascending in string order, so it has no repeats |
| Pedidos.RunsSound | 2_FORMATAR_PEDIDO.py:18-19 | every piece left by replacing non-digits with spaces and splitting is a maximal run of digits of the text |
| Pedidos.RunsComplete | 2_FORMATAR_PEDIDO.py:18-19 | every maximal run of digits of the text is one of the pieces |
| Pedidos.ParsePedidosExact | 2_FORMATAR_PEDIDO.py:13-22 | a string is returned if and only if it is a maximal digit run of the text |
| Pedidos.ParsePedidosDigits | 2_FORMATAR_PEDIDO.py:20 | every returned number is non-empty and all digits |
| Pedidos.ParsePedidosStringOrder | 2_FORMATAR_PEDIDO.py:22 | numbers sort as strings, not by value: `9 10` gives `10`, `9` |
| Pedidos.ParsePedidosExample | pages/3_BACKLOG.py:38-48 | `Pedido 123, 045 e 123-A` gives `045`, `123`: leading zeros kept, repeats dropped |
| Pedidos.RunsOfJoin | 2_FORMATAR_PEDIDO.py:65 | splitting a comma-joined list of numbers gives the list back |
| Pedidos.ParsePedidosIdempotent | pages/BACKLOG.py:39-49 | parsing the comma-joined result again gives the same numbers |
| Calendar.Weekday | pages/BACKLOG.py:59 | `weekday()` lies in 0..6 |
| Calendar.DateOfValid | BUSCAR.py:110-111 | every day number is a valid calendar date |
| Calendar.DateOfSuccessor | BUSCAR.py:111 | adding or subtracting one day moves to the next or previous calendar date |
| Calendar.DayMonth | BUSCAR.py:113 | `strftime('%d.%m')`: five characters, the separator in the middle, the digits reading back as the day and the month |
| Calendar.WindowLabel | BUSCAR.py:113 | the tab name has 13 characters, with ` a ` between the two dates |
| Calendar.WindowLabelDecodes | BUSCAR.py:113 | the tab name `dd.mm a dd.mm` reads back as the day and month of the first and last day of the week |
| Calendar.BackupWindowA | BUSCAR.py:88-111 | the backup week runs from a Monday to the Friday four days later, and ends before today |
| Calendar.DaysSinceLastFriday | BUSCAR.py:100 | the count is below 7, and going back that many days lands on a Friday |
| Calendar.BackupEndA | BUSCAR.py:89-107 | the backup week ends on a Friday before today |
| Calendar.BackupSheetNameA | BUSCAR.py:81-113 | the tab name is the label of a Monday and the Friday four days later, a week that ended before today |
| Calendar.BackupEndAOffsets | pages/3_BACKLOG.py:61-89 | the days from today back to the backup Friday, for each weekday: 3, 18, 19, 20, 14, 8, 9 |
| Calendar.BackupWindowAWeeks | pages/3_BACKLOG.py:61-96 | the same rule in calendar weeks: one week back on Saturday to Monday, two on Friday, three on Tuesday to Thursday |
| Calendar.SaturdaySinceFriday | pages/3_BACKLOG.py:78-80 | on a Saturday, the days since the last Friday are 1, not 0 as the comment says |
| Calendar.MondayOf | pages/BACKLOG.py:59 | the Monday of the week that contains the day |
| Calendar.BackupWindowB | pages/BACKLOG.py:52-63 | the backup week is Monday to Friday of the previous calendar week |
| Calendar.BackupSheetNameB | pages/BACKLOG.py:52-63 | the tab name is the label of the Monday and the Friday of the previous calendar week |
| Calendar.BackupSheetNameBWeekly | pages/BACKLOG.py:52-63 | every day of a calendar week names the same backup tab |
| Calendar.BackupWindowBEndsLastWeek | pages/BACKLOG.py:59-61 | the backup Friday is three days before this week's Monday, and before today |
| Calendar.BackupVariantsAgree | pages/BACKLOG.py:52-63 | the two backup rules name the same week if and only if today is a Monday, Saturday or Sunday |
| Calendar.DefaultWeek | pages/4_DASHBOARD.py:38-39 | the default report week runs from the Monday to the Sunday of the week that contains today |
| Buckets.BucketKey | 2_FORMATAR_PEDIDO.py:30 | the key is the action, one space and the date, and both parts can be read back |
| Buckets.Without | 2_FORMATAR_PEDIDO.py:35 | keeps exactly the numbers not in the other list, each as often as before |
| Buckets.Merged | 2_FORMATAR_PEDIDO.py:33-38 | the target bucket then holds its old numbers and the new ones, and no others |
| Buckets.Evicted | 2_FORMATAR_PEDIDO.py:40-45 | the merged target, and every other bucket without the target's numbers |
| Buckets.Cleaned | 2_FORMATAR_PEDIDO.py:48 | empty buckets are dropped; every other bucket is sorted with the same numbers |
| Buckets.Upserted | 2_FORMATAR_PEDIDO.py:25-50 | after an update every bucket is non-empty and sorted |
| Buckets.UpsertOthers | 2_FORMATAR_PEDIDO.py:40-48 | another bucket survives if and only if it keeps a number the target lacks, and then holds exactly those numbers, sorted |
| Buckets.UpsertEvicts | 2_FORMATAR_PEDIDO.py:40-45 | no number of the updated bucket remains in any other bucket |
| Buckets.UpsertKeepsExclusive | 2_FORMATAR_PEDIDO.py:26-28 | if no number is in two buckets before an update, none is after it |
| Buckets.UpsertNothingAbsent | 2_FORMATAR_PEDIDO.py:37-48 | filing no numbers under a new key creates no bucket |
| Buckets.Render | 2_FORMATAR_PEDIDO.py:55-56 | no buckets render as the empty string |
| Buckets.FilledKeys | 2_FORMATAR_PEDIDO.py:61-63 | the rendered keys are exactly the keys with a non-empty bucket |
| Buckets.FilledKeysSorted | 2_FORMATAR_PEDIDO.py:61-63 | skipping empty buckets keeps the keys in ascending order |
| Buckets.PartsInKeyOrder | 2_FORMATAR_PEDIDO.py:61-67 | `Parts` and `Segment`: part `i` of the output is the numbers of the `i`-th non-empty key joined by `, `, then ` - ` and the key |
| Buckets.RenderOrder | 2_FORMATAR_PEDIDO.py:53-69 | the output is the parts of the non-empty buckets in ascending key order, joined by a vertical bar |
| Buckets.UpsertScenario | 2_FORMATAR_PEDIDO.py:25-50 | filing 1 and 2 under PAGO 10/05, then 2 under ENTREGUE 10/05, leaves 1 under PAGO and 2 under ENTREGUE |
| Buckets.TwoUpserts | 2_FORMATAR_PEDIDO.py:25-50 | the same two updates under any two different keys: the second key takes 2 from the first, which keeps 1 |
| Buckets.RenderScenario | 2_FORMATAR_PEDIDO.py:53-69 | the buckets of that scenario render as `2 - ` and the ENTREGUE 10/05 key, ` | `, then `1 - ` and the PAGO 10/05 key |
| Buckets.RenderOfTwo | 2_FORMATAR_PEDIDO.py:53-69 | two one-number buckets render with the lesser key's part first |
| Buckets.RenderTwoKeys | 2_FORMATAR_PEDIDO.py:53-69 | two non-empty buckets render as the lesser key's part, ` | `, then the greater key's part |
| Buckets.Formatter.constructor | 2_FORMATAR_PEDIDO.py:76-91 | a fresh session has no buckets and no message, and is valid: every bucket non-empty and sorted, no number in two buckets |
| Buckets.Formatter.UpdateFormattedList | 2_FORMATAR_PEDIDO.py:25-50 | merge, evict and clean, in place: the new buckets are the update of the old ones, and the state stays valid |
| Buckets.Formatter.EvictFromOthers | 2_FORMATAR_PEDIDO.py:40-45 | the loop leaves the target and takes the target's numbers out of every other bucket |
| Buckets.Formatter.HandleUpdate | 2_FORMATAR_PEDIDO.py:102-134 | text without numbers sets the error and changes no bucket; otherwise files the numbers under the action and the `dd/mm` date, and confirms; the state stays valid |
| Buckets.Formatter.ClearAllData | 2_FORMATAR_PEDIDO.py:94-99 | no buckets, the confirmation message, and a valid state |
| Search.PedidoKey | pages/BACKLOG.py:109 | on pages/BACKLOG.py the compared PEDIDO has no whitespace at either end; the key is never longer than the cell |
| Search.IndexOf | pages/3_BACKLOG.py:210-212 | the position of the first occurrence, with none before it; none only when the value is absent |
| Search.FirstHit | pages/3_BACKLOG.py:210-212 | the index of the first row whose PEDIDO matches, or none when no row matches |
| Search.Lookup | pages/3_BACKLOG.py:201-218 | the record carries the searched number and the criterion |
| Search.LookupNotFound | pages/3_BACKLOG.py:201-218 | when no tab has the number, the record says `Pedido Não Encontrado` with empty fields |
| Search.LookupFound | pages/3_BACKLOG.py:209-217 | at the first hit (earliest tab, then earliest row) the record takes that tab's name and the row's DATA, CARRO and STATUS |
| Search.HitOrNone | pages/3_BACKLOG.py:209-218 | either no tab has the number, or there is a first hit |
| Search.SearchPedido | pages/BACKLOG.py:140-155 | the loop with its early return answers the lookup |
| Search.PerformSearch | pages/BACKLOG.py:158-167 | nothing for no numbers or no data; otherwise one lookup per number, in order |
| Search.DisplayOrder | pages/3_BACKLOG.py:344-346 | the displayed rows are a permutation of the table, found rows before not-found ones |
| Search.RowStyles | pages/3_BACKLOG.py:302-323 | one style per displayed column |
| Search.RowStylesMeaning | pages/BACKLOG.py:224-232 | only Pedido and Status are emphasised, red when not found and green otherwise; the other cells are grey when not found and unstyled otherwise |
| History.Replaced | pages/3_BACKLOG.py:259-266 | replacing the tables of a criterion keeps the length of the history |
| History.Stored | pages/3_BACKLOG.py:256-269 | the history grows by one table if and only if the criterion is new; tables of the criterion become the new table in place, the others stay where they were, and a new criterion's table goes last |
| History.StoredWellTagged | pages/3_BACKLOG.py:253-271 | every table stays tagged with one criterion, and the new table is in the history |
| History.StoredDistinct | pages/BACKLOG.py:187-202 | if no two tables share a criterion before a search, none do after it |
| History.Results | pages/3_BACKLOG.py:251-254 | one record per parsed number, in order, each tagged with the criterion |
| History.ResultsWellTagged | pages/3_BACKLOG.py:221-231 | a search for at least one number gives a non-empty table tagged with its criterion |
| History.SearchHistory.constructor | pages/3_BACKLOG.py:194-198 | an empty history and no message; the history is valid: every table tagged with one criterion, no two tables with the same criterion |
| History.SearchHistory.SetInput | pages/3_BACKLOG.py:237 | typing changes only the text box |
| History.SearchHistory.HandleSearch | pages/3_BACKLOG.py:234-277 | placeholder criterion or no numbers: an error and no change; no data: only the text box is emptied; otherwise the table is stored, the box emptied and the substitution reported; no two tables ever share a criterion |
| History.SearchHistory.ReplaceOrAppend | pages/BACKLOG.py:189-200 | the loop replaces every table of the criterion and appends when there was none, reporting whether it substituted |
| History.SearchHistory.RemoveLast | pages/3_BACKLOG.py:280-288 | drops the last table if any; the message names its criterion or warns that there is none; the history stays valid |
| History.SearchHistory.Clear | pages/3_BACKLOG.py:291-295 | an empty history, and the confirmation message; the history stays valid |
| History.RemoveUndoesAppend | pages/BACKLOG.py:199-212 | removing the last table after a search with a new criterion restores the history |
| History.StoredIdempotent | pages/BACKLOG.py:187-202 | repeating a search with the same criterion and result changes nothing |
| Headers.NormalizeAll | BUSCAR.py:158 | each header is stripped and upper-cased |
| Headers.Deduplicated | BUSCAR.py:159-169 | header `i` keeps its name at its first occurrence, and otherwise gets `_k` with `k` the number of earlier occurrences |
| Headers.RenameRepeats | BUSCAR.py:159-169 | the loop with its `seen_headers` counts produces the renamed headers |
| Headers.UniqueHeaders | BUSCAR.py:158-169 | the headers of a tab: normalised, then renamed |
| Headers.RenamedPrefix | BUSCAR.py:166 | a renamed header starts with its original name |
| Headers.DistinctUnchanged | BUSCAR.py:167-169 | headers that are all different come out unchanged |
| Headers.SameNameRenamedApart | BUSCAR.py:164-166 | two occurrences of one name never get the same header |
| Headers.RenamingCollides | BUSCAR.py:157-169 | `X`, `X`, `X_1` become `X`, `X_1`, `X_1`: the headers need not be unique |
| Buscar.SearchDf | BUSCAR.py:251-254 | a row is returned if and only if the tab has a PEDIDO column and the row's PEDIDO, as text stripped and upper-cased, equals the query |
| Buscar.MatchingRowsMembers | BUSCAR.py:253 | the mask keeps exactly the matching rows |
| Buscar.MatchingRowsFirst | BUSCAR.py:253 | the first kept row is the first matching row of the tab |
| Buscar.MatchingRowsAppend | BUSCAR.py:253 | the mask keeps the sheet's order: two blocks of rows give the first block's matches ahead of the second's |
| Buscar.MatchingRowsOne | BUSCAR.py:253 | a single row is kept if and only if it matches |
| Buscar.SearchDfFirst | BUSCAR.py:251-266 | `iloc[0]` of the result is the tab's first matching row |
| Buscar.TabHit | BUSCAR.py:264-276 | a tab reports a hit if and only if its search is non-empty, and the hit is its name and first matching row |
| Buscar.TabHits | BUSCAR.py:256-258 | one search per tab, in tab order |
| Buscar.ReportAll | BUSCAR.py:244-277 | no query if and only if the input is empty; a found report lists at least one hit |
| Buscar.Hits | BUSCAR.py:260-277 | the reported hits are exactly the tabs' hits, and there are none if and only if no tab has one |
| Buscar.HitsAppend | BUSCAR.py:260-277 | hits keep the tabs' order, one per tab at most: a single tab gives its own hit, two blocks of tabs give the first block's hits first |
| Buscar.ReportAllHits | BUSCAR.py:244-277 | for a non-empty query the report holds ALTA's hit, then EMERGENCIAL's, then the backup tab's, each only when that tab has the number; not found when none has |
| Buscar.ReportAllNotFound | BUSCAR.py:256-261 | `não encontrado` is shown if and only if the input is non-empty and none of ALTA, EMERGENCIAL and backup has the number |
| Buscar.ReportAllNormalized | BUSCAR.py:245 | stripping and upper-casing the input first changes nothing |
| Buscar.SafeLoad | BUSCAR.py:63-73 | with a DATA column, exactly the rows whose date parsed, each as often as before, the first of them first; without one, all rows |
| Buscar.WithDate | BUSCAR.py:72-73 | exactly the dated rows, each as often as before, the first dated row first; none if and only if no row has a date; a single row is kept if and only if it has a date |
| Buscar.WithDateAppend | BUSCAR.py:72-73 | the filter keeps the frame's order: two blocks of rows give the first block's dated rows ahead of the second's |
| Money.ParseUnsigned | BUSCAR.py:49-50 | an unsigned number that parses is not negative |
| Money.ParseUnsignedChars | BUSCAR.py:49-52 | only digits and dots parse as an unsigned number |
| Money.ParseDecimal | BUSCAR.py:49-50 | empty text does not parse; a parsed value is not positive after `-` and not negative otherwise |
| Money.ParseDecimalChars | BUSCAR.py:49-52 | a parsed text has only digits, dots and a leading sign |
| Money.ParseTwoDecimals | BUSCAR.py:50 | `d.ff` parses to `d + ff/100` |
| Money.ParseNegativeTwoDecimals | BUSCAR.py:50 | `-d.ff` parses to `-(d + ff/100)` |
| Money.ParseSignedTwoDecimals | BUSCAR.py:50 | `[-]d.ff` parses to the signed value |
| Money.CleanBr | BUSCAR.py:45-47 | the cleaning never makes the text longer |
| Money.CleanBrLeaves | BUSCAR.py:46-47 | what remains has no `R`, no `$`, no comma and no whitespace |
| Money.CleanBrAppend | BUSCAR.py:46-47 | the cleaning works character by character, so it distributes over concatenation |
| Money.CleanBrDigits | BUSCAR.py:46-47 | digits are kept as they are |
| Money.ValorBrasileiro | BUSCAR.py:41-52 | a missing cell and a text that does not parse are worth 0.0 |
| Money.ValorBrasileiroFailSoft | pages/4_DASHBOARD.py:13-22 | any character other than a digit, dot or sign after cleaning makes the value 0.0 |
| Money.CleanGrouped | BUSCAR.py:57 | thousands grouped with dots clean back to the digits of the same number |
| Money.BrMoney | BUSCAR.py:54-57 | a missing value renders `R$ 0,00`; any value renders `R$ ` ... `,dd` |
| Money.BrMoneyCleaned | pages/4_DASHBOARD.py:24-27 | the cleaning of a rendered amount is the sign, the digits of the units and `.dd` |
| Money.BrMoneyRoundTrip | BUSCAR.py:41-57 | `valor_brasileiro` reads every amount `br_money` renders back exactly |
| Money.DropDots | page/CADASTRAR.py:113 | no dot remains |
| Money.CommaToDot | page/CADASTRAR.py:114 | every comma becomes a dot and nothing else changes |
| Money.CleanCadastrar | page/CADASTRAR.py:109-116 | no comma remains, and the text never grows |
| Money.CadastrarValor | page/CADASTRAR.py:109-118 | a cleaned text that does not parse counts as 0.0 |
| Money.CadastrarCleansBrMoney | page/CADASTRAR.py:109-116 | on a rendered amount, the CADASTRAR cleaning gives the same text as the BUSCAR one |
| Money.CleaningsAgreeOnBrMoney | page/CADASTRAR.py:109-118 | both pages read every rendered amount back exactly |
| Money.CleaningsDrift | page/CADASTRAR.py:109-118 | on `R$ 1 234,50` BUSCAR reads 1234.5 and CADASTRAR reads 0.0 |
| Money.InnerSpaceRejected | page/CADASTRAR.py:118 | a number with a space after its first digit does not parse |
| Registration.DropEmptyRows | page/CADASTRAR.py:74-75 | keeps exactly the rows with a filled cell, each as often as before, and the first of them first; a single row is kept if and only if it has a filled cell |
| Registration.DropEmptyRowsAppend | page/CADASTRAR.py:74-75 | dropping distributes over concatenation, so the kept rows keep their order |
| Registration.Header | page/CADASTRAR.py:84-97 | each column name is the first row's cell as text, stripped and upper-cased |
| Registration.HeaderNormalized | page/CADASTRAR.py:92-97 | column names are already normalised |
| Registration.RawRecord | page/CADASTRAR.py:85-89 | a data row has exactly the header's names as keys |
| Registration.RawRecordCell | page/CADASTRAR.py:85-89 | a name that is not repeated later holds the cell at its position |
| Registration.Prepared | page/CADASTRAR.py:109-118 | a loaded row has the header's names and VALOR_NUM |
| Registration.PreparedRows | page/CADASTRAR.py:109-118 | every data row is prepared, in order |
| Registration.PreparedValorNum | page/CADASTRAR.py:109-118 | VALOR_NUM is the number that the CADASTRAR cleaning reads from VALOR |
| Registration.Load | page/CADASTRAR.py:74-118 | stops if and only if no row is left (with the empty-sheet message) or the header lacks VALOR (with the missing-VALOR message); raises if and only if the header names VALOR twice; otherwise the columns are the header plus VALOR_NUM, one row per data row, and VALOR_NUM in every row |
| Registration.LoadedCell | page/CADASTRAR.py:84-89 | in a loaded sheet, a column whose name is not repeated later holds the data row's cell at its position |
| Registration.PreparedCell | page/CADASTRAR.py:85-89 | in a prepared row, a column other than VALOR_NUM whose name is not repeated later holds the cell at its position |
| Registration.LoadedValorNum | page/CADASTRAR.py:104-118 | in a loaded sheet, VALOR_NUM of each row is the number read from its VALOR cell |
| Registration.DateText | page/CADASTRAR.py:188 | `dd/mm/yyyy` whose digits read back as the day, month and year |
| Registration.Record | page/CADASTRAR.py:210-220 | the new record has exactly the nine form columns |
| Registration.RecordCells | page/CADASTRAR.py:210-220 | it holds the order number as typed, the amount as a number, and no VALOR_NUM |
| Registration.MergedPrefix | page/CADASTRAR.py:222 | the concatenation keeps the existing columns in front |
| Registration.MergedHasKeys | page/CADASTRAR.py:222 | every existing column and every record key is a column after it |
| Registration.MergedOnly | page/CADASTRAR.py:222 | there are no other columns |
| Registration.MergedDistinct | page/CADASTRAR.py:222 | columns without repeats stay without repeats |
| Registration.Worksheet.constructor | page/CADASTRAR.py:85-89 | the sheet as loaded |
| Registration.Worksheet.Register | page/CADASTRAR.py:187-227 | refused: the message, sheet unchanged; raised: no message, sheet unchanged; accepted: the success message, the merged columns, which are all different, and the record after all existing rows |
| Registration.Decide | page/CADASTRAR.py:190-222 | a form with an empty required field (`MissingRequired`) is refused whatever the sheet holds; with two PEDIDO columns the page raises; otherwise a complete form is refused as a duplicate (`IsDuplicate`) if and only if the sheet has a PEDIDO column and a row matching the order number; it is accepted if and only if it is complete, not a duplicate and the column names are all different |
| Registration.RegisteredIsDuplicate | page/CADASTRAR.py:197-222 | in the frame written back by a registration, the same order number, in any case and spacing, is refused as a duplicate |
| Registration.BlankBlocksNan | page/CADASTRAR.py:202-207 | a blank PEDIDO cell reads as `nan`, so the order number `nan` is refused as a duplicate, unless two PEDIDO columns make the page raise |

## Left out

- Reading and writing Google Sheets, credentials, `st.cache_data`, reruns, widgets, layout, charts, the clipboard and e-mail are not modelled. Tabs, forms, the typed text and today's date are parameters.
- The uuid widget keys and the `needs_rerun` flag of 2_FORMATAR_PEDIDO.py are left out. Only the order buckets and the feedback message are state.
- Floating point is not modelled: amounts are exact reals. `Money.BrMoney` takes an amount in whole cents, so rounding to two places is not modelled.
- Money.ParseDecimal accepts a plain decimal (optional sign, digits, optional dot and digits). Python's `float()` also accepts exponents, `inf`, `nan`, underscores and surrounding whitespace, and pandas' `to_numeric` accepts similar forms; these are left out.
- Text.UpperChar upper-cases ASCII and Latin-1 letters only, and maps ß (U+00DF), ÿ (U+00FF) and µ (U+00B5) to themselves. Python upper-cases them to `SS`, U+0178 and U+039C; these and the other Unicode case mappings, and digits other than 0-9, are left out.
- Search.DisplayOrder uses a stable partition. pandas' default sort does not promise stability, so the order within the found rows and within the not-found rows may differ.
- Search.Lookup compares the PEDIDO cell of pages/3_BACKLOG.py as given. The loader's `astype(str)` and its required-column check are not part of this model, so a row without a column reads as empty instead of raising.
- Buscar.SafeLoad takes the parsed date of each row as input. Day-first date parsing by pandas is not part of this model.
- Buscar.SafeLoad does not convert the VALOR column with `valor_brasileiro` (BUSCAR.py:69-70): its cells stay as text. The conversion of one cell is `Money.ValorBrasileiro`.
- The insertion of the backup tab name into `LISTA_CARROS_CADASTRO` is left out; the placeholder criterion is its first entry.
- Dates near `date.min` and `date.max`, where `timedelta` arithmetic raises `OverflowError`, are not modelled: days are unbounded integers.
- The daily totals, limits and top-10 charts of BUSCAR.py, `sum_between`, and the total card of page/CADASTRAR.py are display arithmetic over floats and are left out.
- Registration.RawRecord keeps the last of two columns with the same name. pandas keeps both, and a lookup then returns both. Where the page then raises (a repeated VALOR or PEDIDO, or `pd.concat` on repeated names), `Registration.Load` and `Registration.Decide` give that outcome.
- Registration.MissingRequired does not test `not data`: a date is always true in Python.
- Registration.DateText writes the year without zero padding. Python's `%Y` pads years below 1000 on some platforms.
- Registration.Load takes cells as text or blank. Numbers read back from the sheet and the `usecols` limit of 16 columns are left out.
- Registration.Worksheet: successive registrations act on the frame in memory. The page re-reads the tab through a cache with a 5-second lifetime, and on that read it again takes the first data row as the header while the written tab holds the column names in its header row; neither is modelled.
- Registration.Worksheet.Register keeps VALOR as a number and the new record's PEDIDO as typed. The sheet's later reading of these cells is not modelled.
