# pro-q-smart procurement dashboard: a Dafny model of its core

The dashboard takes a CSV upload. It decides whether the file is a bill of
materials (BOM) with supplier rates or a hierarchical item list. A BOM goes
to an interactive table and an item list to a collapsible tree.

This project models the logic behind those screens as pure Dafny functions
and proves what they guarantee:

- **Upload** (`upload.dfy`): the file-type gate and the header-based choice
  between the BOM and tree templates, where BOM wins when both match. It
  also models what each outcome does to the shared data, the error message
  and the navigation. The CSV parser's result is an input.
- **Shared data** (`data_store.dfy`): the BOM upload history (newest first),
  the rows currently shown, and the tree currently shown.
- **Tree builder** (`tree_builder.dfy`, over `tree_model.dfy`): the
  conversion of flat rows into a category / subcategory / subcategory / item
  forest. Nodes are found by exact name, first match. New group nodes get
  ids of the form `cat-<name>-<row index>`. Items are never merged. The
  model is a left fold, `Build`. A loop method, `TransformRawToTree`, is
  proved equal to it.
- **Tree aggregates** (`tree_utils.dfy`): the total quantity of a node, and
  its average rate as a mean of the children's means.
- **Table engine** (`table_engine.dfy`):
  - the case-insensitive search filter;
  - the column comparator, numeric when both cells are numbers and
    otherwise a lower-cased string comparison;
  - the sort-direction toggle, column hiding, the visible-column list and
    the column freeze toggle.
- **Table page** (`table_page.dfy`):
  - the sticky left offset of a frozen column;
  - the frozen test;
  - the CSV export text;
  - each row's supplier-rate range;
  - the heatmap cell colour and the percentage difference against the
    estimated rate.
- **Colours** (`colors.dfy`): the green, yellow and red heatmap
  interpolation with `Math.round`, and the percentage label colour.
- **Constants** (`table_constants.dfy`) and the **sample tree** shown
  before any upload (`sample_tree.dfy`).

Support modules:

- `wrappers.dfy`: `Option`.
- `seqs.dfy`: subsequences, `filter`, `indexOf` and de-duplication.
- `strings.dfy`: lower-casing, `includes`, `endsWith`, string `<`, `join`
  and `split`, and the decimal text of a natural number.
- `cells.dfy`: the parsed cell values and JavaScript's `String(v)` and
  `Number(v)` on them.

Numbers are Dafny reals, and NaN is `None`. A parsed cell is
`Num(value, text)`, `Bool`, `Str` or `Null`, where `text` is the number's
`String` form. A missing key stands for `undefined`.

The two header sets share "Item Code" and "Quantity"
(`Upload.TemplateFacts`); BOM-first precedence decides a file that has
every header of both templates (`Upload.BothTemplatesIsBom`).

## Model

| member | source | states |
|---|---|---|
| TableConstants.LayoutFacts | src/constants/tableConstants.ts:1-24 | The layout has nine pairwise different columns: the four fixed ones, then the five supplier columns. Every width is positive. |
| TableConstants.BomIndexOf | src/constants/tableConstants.ts:18-24 | Each column's `indexOf` in the layout is its position, because the columns are distinct. |
| Cells.NumberOf | src/pages/TablePage.tsx:187-188 | `Number(v)` of a number cell is its value and a missing cell is NaN; an empty cell (`null`) and `false` give 0, `true` gives 1, a blank string gives 0 and any other string NaN. |
| TreeUtils.TotalIsSumOfItems | src/utils/treeUtils.ts:6-9 | A node's total quantity equals the sum of the quantities of all items below it, counting an absent quantity as 0. |
| TreeUtils.SumTotalsIsSumOfItems | src/utils/treeUtils.ts:8 | Summing the children's totals gives the sum over all items of the forest. |
| TreeUtils.SumTotalsAppend | src/utils/treeUtils.ts:8 | The reduce over children is additive over concatenation. |
| TreeUtils.LeafAndEmptyValues | src/utils/treeUtils.ts:6-17 | An item's total is its quantity or 0, and its average is its rate or 0. A group without children has total 0 and average 0. |
| TreeUtils.QuantityNonNegative | src/utils/treeUtils.ts:6-9 | With non-negative item quantities, every total is non-negative. |
| TreeUtils.AverageOfChildrenBounds | src/utils/treeUtils.ts:16-21 | A group's average lies between the bounds of its children's averages. |
| TreeUtils.AverageWithinItemRates | src/utils/treeUtils.ts:14-22 | In a tree with no empty group, every average lies between the smallest and largest item rate below it. |
| TreeUtils.ItemsOfContains | src/utils/treeUtils.ts:8 | The items under one child are among the items of the whole forest, with multiplicity. |
| TreeUtils.MeanOfMeansIsNotLeafMean | src/utils/treeUtils.ts:19-21 | The average is a mean of means and not the mean over items. In the example, one item at 10 and three at 40 average 25, while the item mean is 32.5. |
| TreeModel.ItemsOfAppend | src/context/DataContext.tsx:17-25 | The items of a concatenated forest are the items of each part, in order. |
| TreeModel.ItemsOfUpdate | src/context/DataContext.tsx:17-25 | Replacing one node swaps its items for the new node's items in the forest's multiset of items. |
| TreeBuilder.FindByName | src/context/DataContext.tsx:90 | Returns the first sibling with that name, or -1 exactly when no sibling has it. |
| TreeBuilder.Resolve | src/context/DataContext.tsx:83-100 | An existing node of that name is reused unchanged. Otherwise a new group with id `<tag><name>-<index>` is appended and used. |
| TreeBuilder.InsertPathKeepsSiblings | src/context/DataContext.tsx:83-109 | Inserting a row keeps every existing sibling's own fields. It adds a top-level name only when it is new, and it appends the leaf at the end of its path. |
| TreeBuilder.InsertPathWellFormed | src/context/DataContext.tsx:78-110 | Inserting a row into a well-formed forest keeps it well formed. |
| TreeBuilder.InsertPathItems | src/context/DataContext.tsx:102-109 | Inserting a row adds exactly its leaf to the forest's items. |
| TreeBuilder.ChildrenAtInsert | src/context/DataContext.tsx:90-109 | After inserting a row, its leaf follows the earlier children of its own path. Every other path's children are unchanged. |
| TreeBuilder.HeaderAtInsert | src/context/DataContext.tsx:83-100 | Inserting a row leaves existing group nodes unchanged. The only nodes it creates are the missing ones on its own path, each with that row's index in its id. |
| TreeBuilder.BuildWellFormed | src/context/DataContext.tsx:73-113 | The result is a forest of depth category / subcategory / subcategory / item. No group is empty. Sibling groups have distinct names. |
| TreeBuilder.BuildItems | src/context/DataContext.tsx:102-109 | The items of the result are exactly one leaf per row, as a multiset. |
| TreeBuilder.BuildRoots | src/context/DataContext.tsx:83-88 | The top-level names are the rows' categories in order of first appearance. |
| TreeBuilder.BuildLeavesUnder | src/context/DataContext.tsx:96-109 | Under each category / sub 1 / sub 2 path hang the leaves of exactly the rows with that path, in row order. |
| TreeBuilder.BuildHeaders | src/context/DataContext.tsx:83-99 | The group node for a path prefix exists iff some row has that prefix. Its id carries the index of the first such row. |
| TreeBuilder.NodeIdInjective | src/context/DataContext.tsx:85-98 | Two group ids at the same level are equal only for the same name and the same row index. |
| TreeBuilder.TransformRawToTree | src/context/DataContext.tsx:73-113 | The loop builds the fold `Build`. The result is well formed and has the categories in first-seen order. Its items are the rows' leaves by `BuildItems`. |
| DataStore.AddBomUpload | src/context/DataContext.tsx:62-71 | The new upload goes in front of the history, with the earlier uploads behind it in order. Its rows become the rows shown. The tree is untouched. |
| DataStore.SetTree | src/context/DataContext.tsx:60 | Setting the tree changes only the tree. |
| DataStore.AddAllHistory | src/context/DataContext.tsx:62-71 | After a run of uploads, the history lists them newest first, followed by the earlier history. The last upload's rows are shown. |
| Upload.TemplateFacts | src/pages/UploadPage.tsx:36-44 | The BOM template is exactly the table layout. Both templates contain "Item Code" and "Quantity". |
| Upload.CsvGateExamples | src/pages/UploadPage.tsx:20 | Either the MIME type or a `.csv` name lets a file through. The name test is case-sensitive. |
| Upload.HasAll | src/pages/UploadPage.tsx:46-47 | `every(h => headers.includes(h))`, both directions. |
| Upload.Classify | src/pages/UploadPage.tsx:33-62 | The result is BOM iff every BOM header is present. It is tree iff every tree header is present and the file is not a BOM. It is neither otherwise. Missing fields count as no headers. |
| Upload.ClassifyBySet | src/pages/UploadPage.tsx:46-47 | Only the set of headers matters, not order, repetition or extra headers. |
| Upload.BothTemplatesIsBom | src/pages/UploadPage.tsx:49-53 | A file with both templates' headers is a BOM. |
| Upload.TreeHeadersIsTree | src/pages/UploadPage.tsx:53-58 | The tree headers alone select the tree template. |
| Upload.NoHeadersIsNeither | src/pages/UploadPage.tsx:33 | A parse without header fields matches neither template. |
| Upload.DescriptionOf | src/context/DataContext.tsx:106 | The leaf keeps the raw Description cell: an empty (`null`) or missing cell gives no description (shown as "-" by the tree page), a text cell keeps its text. |
| Upload.TreeRows | src/pages/UploadPage.tsx:55-56 | One raw tree row per parsed row. |
| Upload.HandleFileUpload | src/pages/UploadPage.tsx:15-68 | No file does nothing. A non-CSV file only sets the unsupported-type error. A parse error sets its message and ends the upload. The data changes or the page navigates only on a template match. It goes to `/table` iff the file is a BOM and to `/tree` iff it is a tree. |
| Upload.UploadEffects | src/pages/UploadPage.tsx:49-62 | A BOM is added in front of the history and shown. A tree upload shows the forest `transformRawToTree` builds from its rows: well formed, its items the rows' leaves one per row, its categories in first-seen order; the BOM data is kept. No match sets the invalid-structure error and ends the upload. |
| Strings.LowerIdempotent | src/hooks/useTable.ts:23-26 | Lower-casing twice is lower-casing once. |
| Strings.ContainsIff | src/hooks/useTable.ts:26 | `includes` holds iff the needle occurs at some position. |
| Strings.LessTransitive | src/hooks/useTable.ts:44-45 | String `<` is transitive. |
| Strings.LessTotal | src/hooks/useTable.ts:44-46 | Of two different strings, one is below the other. |
| Strings.SplitJoin | src/pages/TablePage.tsx:52-55 | Splitting a join at a separator that occurs in no part gives the parts back. |
| TableEngine.Search | src/hooks/useTable.ts:18-29 | An empty term keeps all rows. Otherwise the result keeps, in order, exactly the rows where some field's lower-cased text contains the lower-cased term. |
| TableEngine.SearchCount | src/hooks/useTable.ts:24-28 | A matching row keeps its multiplicity, and a non-matching row disappears. |
| TableEngine.EmptyRowNeedsGuard | src/hooks/useTable.ts:22 | The empty-term guard matters: a row without fields matches nothing, yet an empty term keeps it. |
| TableEngine.SearchIgnoresCase | src/hooks/useTable.ts:23-26 | Terms that lower-case alike give the same result. |
| TableEngine.DescReverses | src/hooks/useTable.ts:38-45 | Descending compares every pair the opposite way to ascending. |
| TableEngine.CompareTotal | src/hooks/useTable.ts:33-47 | Of any two rows, one is not above the other. |
| TableEngine.CompareTransitive | src/hooks/useTable.ts:33-47 | On a column that is all numbers or all non-numbers, the comparator is transitive. |
| TableEngine.MixedColumnCycle | src/hooks/useTable.ts:37-46 | On a column that mixes numbers and text, the comparator can cycle: 9 < 10, 10 < "5" and "5" < 9. |
| TableEngine.Insert | src/hooks/useTable.ts:33 | Inserting adds exactly the one row. |
| TableEngine.SortRows | src/hooks/useTable.ts:32-48 | Sorting is a permutation. |
| TableEngine.SortRowsSorted | src/hooks/useTable.ts:32-48 | On a homogeneous column the result is ordered by the comparator. |
| TableEngine.View | src/hooks/useTable.ts:18-51 | The shown rows are a permutation of the search result, and are that result itself when there is no sort. |
| TableEngine.ViewContents | src/hooks/useTable.ts:18-51 | A row is shown iff it is in the data and matches the search. With a sort on a homogeneous column, the rows are ordered. |
| TableEngine.RequestSort | src/hooks/useTable.ts:53-59 | Sorts by the clicked key, descending iff it was already ascending on that key. |
| TableEngine.RequestSortCycle | src/hooks/useTable.ts:53-59 | Clicking again flips the direction. Two more clicks return to the same state. A new key starts ascending. |
| TableEngine.ToggleColumn | src/hooks/useTable.ts:61-65 | The column becomes hidden iff it was shown. No other column changes. The list stays duplicate-free. |
| TableEngine.ToggleTwice | src/hooks/useTable.ts:61-65 | Toggling twice restores the hidden set. From a shown column it restores the exact list. |
| TableEngine.VisibleColumns | src/hooks/useTable.ts:14-16 | The layout's columns, in order, minus the hidden ones. |
| TableEngine.ToggleFlipsVisibility | src/hooks/useTable.ts:14-16 | Toggling a column flips its visibility and leaves every other column's visibility unchanged. |
| TableEngine.HandleFreeze | src/hooks/useTable.ts:67-70 | Clicking a column freezes up to its index, or unfreezes (-1) exactly when the click is on the current freeze point or on an unknown column. |
| TableEngine.FreezeTwice | src/hooks/useTable.ts:67-70 | A second click on the same column undoes a freeze. If the first click unfroze, the second freezes again. |
| TablePage.WidthOf | src/pages/TablePage.tsx:41-46 | Every column has a positive width. |
| TablePage.LeftOffset | src/pages/TablePage.tsx:35-49 | The offset is the sum of the widths of the visible columns before this one, and 0 for a column that is not visible. |
| TablePage.OffsetIn | src/pages/TablePage.tsx:37-47 | The loop computes the width sum of the columns before the first occurrence. |
| TablePage.OffsetsIncrease | src/pages/TablePage.tsx:39-47 | A later column sits strictly further right. |
| TablePage.FrozenIsPrefix | src/pages/TablePage.tsx:153 | The frozen columns are a prefix of the layout. -1 freezes none. |
| TablePage.UnknownColumnFrozen | src/pages/TablePage.tsx:199 | A column outside the layout (`indexOf` -1) counts as frozen whenever the freeze point is at least -1. |
| TablePage.FreezeFreezesPrefix | src/pages/TablePage.tsx:153 | After a freezing click, exactly the columns up to the clicked one are frozen. |
| TablePage.CellTexts | src/pages/TablePage.tsx:54 | One text per visible column. |
| TablePage.ExportLines | src/pages/TablePage.tsx:53-55 | One line per shown row. |
| TablePage.ExportRoundTrip | src/pages/TablePage.tsx:51-56 | Assume no name or cell contains a comma or newline. Splitting the export at newlines gives the header and one line per row. The header splits back into the columns, and each line into that row's cells. |
| TablePage.SplitLines | src/pages/TablePage.tsx:56 | The header-newline-rows text splits back into the header and the lines. With no rows it ends in one empty line. |
| TablePage.LinesRoundTrip | src/pages/TablePage.tsx:53-55 | Each exported line splits back into its row's cells. |
| TablePage.CommaBreaksRoundTrip | src/pages/TablePage.tsx:54 | Cells are not quoted, so a comma inside a cell splits it. |
| TablePage.RatesOf | src/pages/TablePage.tsx:185-188 | The rates are exactly the numeric values of the given columns, with NaN dropped. |
| TablePage.Min | src/pages/TablePage.tsx:190 | `Math.min` of a non-empty list is a member at or below all others. |
| TablePage.Max | src/pages/TablePage.tsx:191 | `Math.max` of a non-empty list is a member at or above all others. |
| TablePage.RateRange | src/pages/TablePage.tsx:185-191 | The range exists iff some rate is numeric, and its ends are rates that bound all of them. |
| TablePage.CellHeatOfNumber | src/pages/TablePage.tsx:206-208 | A shown supplier cell with a number is neutral when the row's rates are all equal. Otherwise it gets the heatmap colour of its place in the range. |
| TablePage.CheapestGreenDearestRed | src/pages/TablePage.tsx:190-208 | Against rates that are not all equal, the cheapest rate is coloured green and the dearest red. |
| TablePage.ShownRateCounts | src/pages/TablePage.tsx:185-188 | A shown numeric supplier cell is among the rates its row's range is taken over. |
| TablePage.EmptyQuoteIsZeroRate | src/pages/TablePage.tsx:185-190 | An empty supplier quote counts as rate 0 in its row: with non-negative quotes it is the minimum, and it is coloured green when the quotes are not all equal. |
| TablePage.PercentDiff | src/pages/TablePage.tsx:192-213 | A difference is shown iff the estimate is a non-zero number. It is NaN iff the cell is not a number. Otherwise it is the percentage p with value = est + est·p/100. |
| TablePage.DiffColorMeaning | src/pages/TablePage.tsx:210-233 | Against a positive estimate, a dearer supplier is red and a cheaper one green. A negative estimate swaps the two. An equal rate is muted. |
| Colors.Round | src/utils/tableUtils.ts:20-28 | `Math.round` gives the integer within one half, with halves rounded up. |
| Colors.LerpBetween | src/utils/tableUtils.ts:17-28 | An interpolated channel stays between its two anchors. |
| Colors.HeatmapColor | src/utils/tableUtils.ts:5-32 | The colour is neutral for a one-point range. Any other colour has alpha 0.15. |
| Colors.HeatmapAnchors | src/utils/tableUtils.ts:8-29 | The minimum is green, the midpoint yellow and the maximum red. |
| Colors.HeatmapChannels | src/utils/tableUtils.ts:15-31 | A value in the range gets channels between the anchors of its half. |
| Colors.PercentageColor | src/utils/tableUtils.ts:34-38 | Red iff the value is positive, green iff it is negative, muted iff it is zero. |
| SampleTree.AerospaceAggregates | src/data/treeData.ts:12-78 | Aerospace Parts totals 100 with average rate 35, the mean of its subcategories' 30 and 40. |
| SampleTree.PrecisionAggregates | src/data/treeData.ts:79-115 | Precision Components totals 70 with average rate 35.5. |
| SampleTree.SampleWellFormed | src/data/treeData.ts:11-116 | The fixture has the shape the builder produces. |
| SampleTree.SampleItems | src/data/treeData.ts:11-116 | The fixture holds six items, each with a quantity and a rate. |
| SampleTree.SampleIdsDistinct | src/data/treeData.ts:11-116 | Its fourteen ids are pairwise different. |

## Left out

- CSV parsing (Papa Parse with header row, dynamic typing and empty lines skipped) is not modelled. The parser's fields, rows or error message are an input of `Upload.HandleFileUpload`.
- The React machinery (state hooks, memoisation, rendering, the file input) is not modelled, and neither is the 500 ms delay before navigating. The model returns the target route, and the page state after a successful upload is the state left on navigation.
- The random upload id and the timestamp in `addBomUpload` come from `Math.random` and the clock. They are left out of `DataStore.BomUpload`.
- Export: the `data:text/csv` prefix, `encodeURI` and the download link are DOM effects. `TablePage.ExportText` is the text before those steps.
- TablePage.LeftOffset: returns the number of pixels without the `px` suffix.
- Cells.NumberOf: cells are modelled as numbers, booleans, strings and `null`; other values a CSV parser may produce (dates, arrays of extra fields) are not modelled. A string cell that is not blank is taken as NaN. JavaScript's `Number` would parse numeric text, but with dynamic typing such cells already arrive as numbers. Parsing decimal text is not modelled.
- Strings.Lower: lower-cases ASCII letters only. `toLowerCase` on the rest of Unicode is not modelled.
- Strings.Less: compares code points, where JavaScript compares UTF-16 code units. The two agree on characters of the Basic Multilingual Plane.
- TableEngine.SortRows: `Array.prototype.sort` is modelled as an insertion sort. The model states that the result is a permutation of the input, ordered on a homogeneous column; the relative order of rows that compare equal is not stated. On a mixed column the comparator is inconsistent (`TableEngine.MixedColumnCycle`), the engine's order is implementation-defined, and no order is claimed.
- TableEngine.Compare: uses exact real subtraction, so floating-point rounding and NaN-valued numbers are not modelled.
- TablePage.CellHeat: the source renders `rgba(NaN, …)` in two cases: when a row has no numeric shown supplier rate (`Math.min` of nothing is Infinity), and when a non-numeric cell sits in a row with a non-trivial range. The browser ignores that colour. The model gives no colour (`None`) instead.
- TablePage.PercentDiff: the text of the label (`toFixed(1)`, the `+` sign) is not modelled, only the value and its colour. `toLocaleString` display of supplier cells is not modelled either.
- Upload.TreeRowOf: names are taken as their `String` text (a description cell keeps its raw value, and an empty or missing one gives no description), and a quantity or rate that is not a number is absent (counted as 0). In the source, a text quantity would flow into the sum as string concatenation. That case is not modelled.
- The upload history dropdown on the table page (`setCurrentBomData` of an earlier upload, the five most recent shown) is not modelled. Neither is the tree page's expand/collapse state, nor App routing. These are display concerns outside the logic above.
- `COLUMN_WIDTHS.DEFAULT` is declared (`TableConstants.DefaultWidth`) but no code path uses it. Columns outside the first four get the supplier width, as in the source.
- Absent `children` is modelled as an empty list. The builder always creates groups with a list, and both aggregators treat a missing list as empty.
