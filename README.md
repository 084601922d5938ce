# Wine menu: header stripping, filtering, ordering and section rendering

This project models the core of `scripts/winemenu.py`, a one-shot script. It
downloads a wine inventory sheet as CSV and drops the metadata rows above the
real header row, which is the row holding the `Bought Quantity` column. It then
checks that the required columns are present, keeps the wines in stock and sorts
them by style, country and region. Styles follow a fixed priority list, and
unlisted styles come last, alphabetically. Finally it draws a PDF menu, with a
style title and a "country - region" sub-header whenever those change.

Modules, one per part of the script:

- `HeaderLocator` (`header_locator.dfy`): `remove_lines_until_header` on rows
  that are already split into cells. It has a pure specification `StripHeader`
  and a method with the script's `header_found` loop that is proved equal to it.
- `Schema` (`schema.dfy`): `COLUMNS` and the `missing_cols` check.
- `Wines` (`wines.dfy`): the record, `PRIORITY_STYLES`, `style_sort_key`, the
  composite key `(rank, style, country, region)` with Python's tuple and string
  ordering, and the `Stock > 0` filter.
- `MenuOrder` (`menu_order.dfy`): the `sort_values` call. It has a stable
  insertion sort as the reference (`StableSort`) and a method with loops that is
  proved equal to it. The sort takes a parameter mapping a record to its key,
  which stands for the three `by=` columns (Style, Country, Region) with the
  Style column passed through `style_sort_key`; the other two go unchanged.
- `PyStr` (`pystr.dfy`): Python's string comparison and `str(int)`, which the
  driving loop uses for the stock column.
- `Renderer` (`renderer.dfy`): the `PDF` class as a Dafny class with the three
  cursor fields. The drawing calls append to an event log: `StyleTitle`,
  `ChapterTitle`, `Body`. `Step` and `Render` are the pure view of one
  `add_wine` call and of the driving loop.
- `WineMenu` (`wine_menu.dfy`): the script from raw rows to events (`Prepare`,
  `Menu`, the method `Run`) and the driving loop `DrawMenu`.
- `Wrappers`, `Seqs`: `Option`/`Result` and an order-preserving subsequence
  predicate.

Three behaviours of the script that the model keeps as they are:

- On a style change `add_wine` resets only `_current_country` to None, and
  leaves `_current_region` as it was (line 135). Because every argument of
  `add_wine` is a string, the sub-header still always follows a style title.
  `Renderer.Step` keeps the region slot, and `Renderer.StepEvents` proves the
  consequence.
- A missing anchor row and missing columns each print a message and exit with
  status 1 (lines 66, 76-77, 82-84). Both are modelled as `WineMenu.LoadError`
  values.
- Only records with `stock > 0` are kept (line 86); a stock of 0 is dropped.

## Model

| member | source | states |
|---|---|---|
| HeaderLocator.FirstHeaderRow | scripts/winemenu.py:58-60 | None exactly when no row has the header as one of its cells; otherwise the index of the first row that has it |
| HeaderLocator.StripHeader | scripts/winemenu.py:52-67 | None exactly when no row holds the header; otherwise a non-empty result whose first row holds the header |
| HeaderLocator.RemoveLinesUntilHeader | scripts/winemenu.py:52-67 | the `header_found` loop returns exactly `StripHeader`: None when the header is absent, else the rows from the first header row on |
| HeaderLocator.StripHeaderSpec | scripts/winemenu.py:55-67 | what is kept is a suffix of the input, and every row dropped before it lacks the header, so the kept rows start at the first header row |
| HeaderLocator.KeepsEveryLaterRow | scripts/winemenu.py:58-63 | once the header is found every later row is kept at its shifted place, including later rows holding the header again |
| HeaderLocator.StripHeaderIdempotent | scripts/winemenu.py:58-67 | the first kept row is the header row, so stripping the stripped rows changes nothing |
| Schema.HeaderNames | scripts/winemenu.py:9-19 | `COLUMNS.values()`: the headers in declaration order |
| Schema.Missing | scripts/winemenu.py:81 | a name is in the result iff it is required and absent from the header; the result keeps the required names' order |
| Schema.CheckColumns | scripts/winemenu.py:81-84 | the load goes on iff every required column is present; otherwise it fails with all missing names, in `COLUMNS` order, not just the first |
| Schema.CheckColumnsAcceptsFullHeader | scripts/winemenu.py:9-19 | a header row holding the anchor and every required column passes |
| PyStr.StrLeRefl | scripts/winemenu.py:93-96 | Python's string order is reflexive |
| PyStr.StrLeAntisym | scripts/winemenu.py:93-96 | Python's string order is antisymmetric |
| PyStr.StrLeTrans | scripts/winemenu.py:93-96 | Python's string order is transitive |
| PyStr.StrLtTrans | scripts/winemenu.py:93-96 | the strict string order is transitive, also across an equal step |
| PyStr.StrLeTotal | scripts/winemenu.py:93-96 | any two strings are comparable |
| PyStr.NatToString | scripts/winemenu.py:156 | `str(n)` is a non-empty string of digits with no leading zero |
| PyStr.IntToString | scripts/winemenu.py:156 | `str(n)` starts with a minus sign exactly for a negative `n`, followed by a non-empty run of digits |
| PyStr.ParseDigits | scripts/winemenu.py:156 | a string of digits reads back as the number it denotes |
| PyStr.IntToStringRoundTrip | scripts/winemenu.py:156 | parsing `str(n)` gives back `n`, so distinct stocks print differently |
| Wines.IndexOf | scripts/winemenu.py:90 | `list.index`: the position of the first occurrence |
| Wines.StyleSortKey | scripts/winemenu.py:88-91 | the rank is below `len(PRIORITY_STYLES)` exactly for listed styles, and then it is the style's position; the tie-break is the style itself |
| Wines.KeyOf | scripts/winemenu.py:93-96 | a record's key carries its style, country and region, and a rank that is a priority position exactly for listed styles |
| Wines.KeyLe | scripts/winemenu.py:93-96 | Python's tuple `<=`: the first component that differs decides, by number for the rank and by string order for the rest |
| Wines.PriorityStylesDistinct | scripts/winemenu.py:21 | no style is listed twice |
| Wines.ListedByPriority | scripts/winemenu.py:88-96 | listed styles sort strictly in priority-list order |
| Wines.ListedBeforeUnlisted | scripts/winemenu.py:88-96 | every listed style sorts strictly before every unlisted one |
| Wines.UnlistedByName | scripts/winemenu.py:88-96 | unlisted styles sort by their names |
| Wines.KeyLeAntisym | scripts/winemenu.py:93-96 | records equal under the key order have the same (rank, style, country, region) |
| Wines.KeyLeTrans | scripts/winemenu.py:93-96 | the key order is transitive |
| Wines.KeyLeTotal | scripts/winemenu.py:93-96 | the key order is total |
| Wines.InStock | scripts/winemenu.py:86 | every kept record has stock > 0, and the kept records keep their input order |
| Wines.InStockCount | scripts/winemenu.py:86 | each record with stock > 0 is kept as often as the input holds it, and no other record is kept |
| Wines.InStockDropsMiddle | scripts/winemenu.py:86 | a record out of stock between two in stock is dropped and the others keep their order |
| MenuOrder.InsertPerm | scripts/winemenu.py:93-96 | insertion adds exactly the one record |
| MenuOrder.StableSort | scripts/winemenu.py:93-96 | the reference ordering is a permutation of its input |
| MenuOrder.InsertSorted | scripts/winemenu.py:93-96 | inserting into a sorted sequence keeps it sorted |
| MenuOrder.InsertGroup | scripts/winemenu.py:93-96 | an inserted record goes after the records that share its key |
| MenuOrder.StableSortCorrect | scripts/winemenu.py:93-96 | the ordering is non-decreasing in the key, and for every key the records with that key keep their input order |
| MenuOrder.SortOutOfOrderPair | scripts/winemenu.py:93-96 | two records in the wrong order come out swapped |
| MenuOrder.SortKeepsTiedPair | scripts/winemenu.py:93-96 | two records with the same key keep their order |
| MenuOrder.InsertInto | scripts/winemenu.py:93-96 | scanning back from the end finds the place that keeps the sequence sorted and stable |
| MenuOrder.SortWines | scripts/winemenu.py:93-96 | the sort returns a sorted permutation of its input that keeps equal keys in input order |
| Renderer.Step | scripts/winemenu.py:131-142 | after any call the cursor is (style, country, region) of that call, and the last event is the call's body |
| Renderer.StepEvents | scripts/winemenu.py:132-142 | a style title is drawn iff the style differs from the cursor's, the unset cursor included; a sub-header iff the style changed or (country, region) differs; exactly one body |
| Renderer.StepTitleThenChapter | scripts/winemenu.py:132-140 | within one call a style title is followed at once by a sub-header |
| Renderer.Render | scripts/winemenu.py:147-158 | after the loop the cursor is unset for no rows, else that of the last row |
| Renderer.RenderBodies | scripts/winemenu.py:142-158 | the loop draws one body per row, in row order, with text "producer - name vintage" |
| Renderer.RenderTitles | scripts/winemenu.py:132-135 | the style titles drawn are exactly the styles that start a run of equal styles |
| Renderer.RenderChapters | scripts/winemenu.py:132-140 | a sub-header is drawn exactly for the first row and for every row whose style, country or region differs from the previous row's |
| Renderer.RenderTitleThenChapter | scripts/winemenu.py:132-140 | over the whole menu, a style title is always followed at once by a sub-header |
| Renderer.StyleChangeRedrawsChapter | scripts/winemenu.py:132-140 | two rows of different styles each get a title and a sub-header, even with the same country and region |
| Renderer.Pdf.constructor | scripts/winemenu.py:99-103 | all three cursor fields start as None, and nothing has been drawn |
| Renderer.Pdf.DrawStyleTitle | scripts/winemenu.py:114-117 | `style_title` draws one style title and leaves the cursor alone |
| Renderer.Pdf.DrawChapterTitle | scripts/winemenu.py:119-122 | `chapter_title` draws one "country - region" sub-header |
| Renderer.Pdf.DrawBody | scripts/winemenu.py:124-129 | `chapter_body` draws one body entry |
| Renderer.Pdf.AddWine | scripts/winemenu.py:131-142 | `add_wine` moves the cursor to the call's (style, country, region) and appends exactly what `Step` draws |
| WineMenu.EntryOfReadsBack | scripts/winemenu.py:148-158 | the arguments of `add_wine` carry each text column unchanged, and the stock as a `str` that parses back to the stock |
| WineMenu.EntryOfInjective | scripts/winemenu.py:148-158 | two records giving the same `add_wine` arguments are the same record |
| WineMenu.Prepare | scripts/winemenu.py:75-96 | the load stops with the missing-anchor error, naming the anchor, exactly when no row holds the anchor, and succeeds only once the anchor was found |
| WineMenu.SortInStock | scripts/winemenu.py:86-96 | sorting the in-stock records gives all of them, each stock > 0, sorted by the key, with equal keys in sheet order |
| WineMenu.PrepareSpec | scripts/winemenu.py:75-96 | the load succeeds iff the anchor is found and the header row holds every required column; when the anchor is found and a column is missing it fails with `MissingColumns`, naming all the missing columns and only those, never none; a success is the in-stock wines sorted stably by the key |
| WineMenu.Menu | scripts/winemenu.py:75-158 | the script stops exactly when the load stops, with the same error |
| WineMenu.DrawnMenu | scripts/winemenu.py:147-158 | drawing any records gives one body per record, in order, and a sub-header right after every style title |
| WineMenu.MenuSpec | scripts/winemenu.py:86-158 | after a successful load the menu has one body per wine in stock, in menu order, and every style title is followed by a sub-header |
| WineMenu.DrawMenu | scripts/winemenu.py:144-158 | the driving loop of `add_wine` calls on a fresh PDF draws exactly `Render` of the entries |
| WineMenu.Run | scripts/winemenu.py:75-158 | the script, step by step, ends with exactly the value of `Menu` |
| WineMenu.EmptyMenu | scripts/winemenu.py:86-158 | with no wine in stock the script still succeeds, with nothing drawn |
| WineMenu.RedWhiteOrder | scripts/winemenu.py:86-96 | a red, a sold-out wine and a white come out as white then red |
| WineMenu.RedWhiteMenu | scripts/winemenu.py:131-158 | drawing white then red gives title, sub-header and body for each, in that order |

## Left out

- Fetching the sheet (`download_google_sheet_as_csv`, lines 29-44) is network I/O. The model starts from rows.
- Reading `sys.argv`, printing messages and `sys.exit` (lines 23-27, 47-48, 66, 76-77, 82-84) are process plumbing. The two exits after the fetch become `LoadError` values.
- CSV tokenising with `csv.reader`, and writing back with `csv.writer` for `pd.read_csv` (lines 53-54, 69-73), are library code. Rows arrive already split, and the write-back is taken to keep them as they are.
- `pd.read_csv` (line 79) is library code. It is a parameter `readTable` of `Prepare`, `Menu` and `Run`. The header row it names columns from is the first stripped row. Its renaming of duplicate or empty headers, its skipping of blank lines, NaN values and dtype coercion are not modelled.
- The stock column is an integer in the model. A non-numeric stock, which makes the `> 0` comparison raise, is not modelled. Price and vintage are strings, so pandas printing a number such as "2015.0" is not modelled.
- FPDF drawing is left out: fonts, `cell`, `ln`, `set_y`, the page header "Wine Menu", the "Page n" footer, `add_page`, automatic page breaks and `output` (lines 105-129, 144-145, 162). Each drawing helper becomes one event in the log.
- The timestamped file name and the success message (lines 160-164) depend on the clock.
- MenuOrder.SortWines: the model sorts by insertion, while pandas uses its own stable multi-column sort. The model proves that its result is sorted, a permutation and stable for every key. It does not prove that these three properties determine the output uniquely, which is what makes the two sorts agree.
