# DataTables table engine, modelled in Dafny

This project models the in-memory table engine of DataTables, the jQuery
table plug-in, and proves properties of the model. It covers five groups of
code:

- **Sort engine** (`Sort`, `SortAlgo`, `Sorting`, `TypeRegistry`):
  - `_fnSortFlatten` and `_fnSortResolve` turn `aaSorting` and the fixed
    orderings into flat sort instructions;
  - `_fnSortData` fills the per-row sort-key caches;
  - `_fnSort` is the multi-key comparator with its tie-break on original
    positions;
  - `_fnSortDisplay` re-orders the display list to follow the master list;
  - `_fnSortAdd` is the header-click state machine;
  - the type registry `_dt_type` supplies the `-pre`/`-asc`/`-desc`
    functions and the detectors.
- **Row store** (`Table`, `Data`, `TableApi`): the settings object is the
  class `Table.Settings`. Rows live in the arena `aoData`, a sequence of
  optional rows in which a removed row leaves an empty slot, so row indexes
  are never reused. `aiDisplayMaster` and `aiDisplay` are index lists over
  the arena. Each row has three lazily filled caches (sort keys, filter data,
  display data). `_fnAddData`, `_fnClearTable`, `_fnInvalidate`,
  `_fnGetRowDisplay`, `_fnGetCellData`, `_fnSetCellData`, `rows().remove()`,
  `order()` and `page.info()` are modelled.
- **Column metadata** (`Columns`, `ColumnTypes`, `MaxLen`): appending
  columns, visible/data index conversion, `columnDefs` targets, the
  type-detection loop, width summation and the memoised widest string.
- **Selectors** (`Selector`): `_selector_run`, `_selector_opts`,
  `_selector_first`, `_selector_row_indexes`, and the row, column and cell
  selectors with the `cells()` cross product.
- **Helpers** (`Internal`, `Text`, `Version`, `Paging`, `Jq`, `LibRegistry`,
  `FeatureRegistry`, `JsValue`): the array utilities of `core.internal.js`,
  string filtering and escaping, version comparison, the paging-button
  rules, `_extend`/`_map`/`_each`, and the two small registries.

JavaScript values are the datatype `JsValue.Value`. Functions the engine
calls but does not define are passed in as parameters. These include column
accessors, renderers, type formatters and sorters, detectors, predicates,
`rowId`, the HTML-tag regular expression, Unicode normalisation,
`_fnLengthOverflow` and jQuery DOM queries. Operations that change state
are methods on classes (`Table.Settings`, `TypeRegistry.TypeRegistryState`,
`LibRegistry.Libraries`, `FeatureRegistry.Registry`). Each method ensures
that its new state is a specification function of the old state, and the
lemmas are stated about those functions.

Where the library's documentation and its code differ, the model follows
the code:

- The `html` type is chosen when some non-empty cell is a string containing
  `<`; cells of plain text may be mixed in, because the scan does not stop
  at them (src/core/core.columns.js:343-352).
- `_fnInvalidate` on the data path re-renders the display data straight
  away through `_fnGetRowDisplay`, so the display cache does not stay empty
  (src/core/core.data.js:279-281).
- `rows().remove()` removes the row from `aiDisplayMaster` only. Until the
  next draw, `aiDisplay` can still list the removed row.
- `page.info()` computes the page with `floor`, while the paging buttons use
  `ceil` (src/api/api.all.js:842, src/features/features.page.js:82-87). Both
  are modelled as written.

## Model

| member | source | states |
|---|---|---|
| JsValue.EmptyExactly | src/core/core.internal.js:57-59 | `_empty` holds exactly for undefined, null, false, true, 0, the empty string and "-" |
| Version.Split | src/api/api.version.js:29-30 | `split(".")` yields at least one piece and no piece holds the separator |
| Version.SplitJoin | src/api/api.version.js:29-30 | joining the split pieces with the separator gives the version string back |
| Version.DigitPrefix | src/api/api.version.js:34-35 | the digits `parseInt` reads are the longest all-digit prefix |
| Version.ParseIntOrZero | src/api/api.version.js:34-35 | `parseInt(x, 10) \|\| 0` of an all-digit string is the number it denotes |
| Version.VersionCheck | src/api/api.version.js:28-47 | the loop answers "at least" exactly as the component-wise comparison of the two split versions does |
| Version.CompareParts | src/api/api.version.js:33-46 | the first differing component decides; all equal answers true |
| Version.AtLeastReflexive | src/api/api.version.js:33-46 | every version is at least itself |
| Version.AtLeastTotal | src/api/api.version.js:33-46 | of any two versions, one is at least the other |
| Version.AtLeastIgnoresExtra | src/api/api.version.js:33 | components beyond the required version's length are never compared |
| Version.TrailingZeroIrrelevant | src/api/api.version.js:34-35 | a missing component reads as 0, so adding a trailing ".0" to the required version changes no answer |
| Version.NumericNotLexical | src/api/api.version.js:34-43 | components compare as numbers: 1.10 is at least 1.9 and 1.9 is not at least 1.10 |
| Version.VersionCheckReflexive | src/api/api.version.js:28-47 | `versionCheck(v, v)` is true for every non-empty version string |
| LibRegistry.Read | src/api/api.lib.js:7-20 | the four known names read their slot, every other name reads null |
| LibRegistry.ReadAfterWrite | src/api/api.lib.js:7-39 | a library that was set reads back as set, and the other names read as before |
| LibRegistry.WriteUnknown | src/api/api.lib.js:22-39 | setting an unknown name changes no slot |
| LibRegistry.Libraries.GetLib | src/api/api.lib.js:7-20 | the returned library is the one the slots hold for that name, and nothing changes |
| LibRegistry.Libraries.SetLib | src/api/api.lib.js:22-39 | the slots become the written slots |
| FeatureRegistry.Registered | src/features/features.api.js:11-20 | the constructor is stored under its name; a legacy letter adds one entry at the end of the legacy list |
| FeatureRegistry.RegisteredKeepsOthers | src/features/features.api.js:11-20 | registering one name leaves every other name's constructor as it was |
| FeatureRegistry.ReRegisterKeepsBothLegacy | src/features/features.api.js:11-20 | registering a name twice keeps the later constructor and both legacy entries |
| FeatureRegistry.Registry.Register | src/features/features.api.js:11-20 | the registry becomes the registered state |
| FeatureRegistry.Registry.RegisterBuiltIns | src/features/features.api.js:22-28 | the built-ins are div, info, search, paging and pageLength, with legacy letters i, f, p, l in that order |
| Internal.IndexOf | src/api/api.all.js:1412 | `indexOf` gives the first position holding the element, and -1 exactly when it is absent |
| Internal.Distinct | src/core/core.internal.js:80-114 | the distinct list holds exactly the input's elements, each once |
| Internal.DistinctOfUnique | src/core/core.internal.js:85-87 | a list without repeats is its own distinct list, which is why the copy shortcut agrees |
| Internal.DistinctAppendSeen | src/core/core.internal.js:100-111 | appending elements already seen leaves the distinct list unchanged |
| Internal.DistinctTwice | src/core/core.internal.js:80-114 | a list repeated twice has the same distinct list as the list once |
| Internal.NoDuplicatesPermutation | src/core/core.internal.js:130 | sorting a copy neither adds nor removes repeats |
| Internal.SortedAdjacentUnique | src/core/core.internal.js:130-141 | a sorted list whose neighbours differ has no repeats at all |
| Internal.AreAllUnique | src/core/core.internal.js:125-142 | the answer is true exactly when no element repeats (including fewer than two elements) |
| Internal.Unique | src/core/core.internal.js:80-114 | the Set path, the copy shortcut and the first-occurrence scan all return the distinct list in first-occurrence order |
| Internal.Interval | src/core/core.internal.js:249-266 | `[lo, hi)`: its length, its members, strictly ascending and without repeats |
| Internal.IntervalAt | src/core/core.internal.js:261-263 | element k of `[lo, hi)` is `lo + k` |
| Internal.Range | src/core/core.internal.js:249-266 | `_range(n)` is `[0, n)` and `_range(a, b)` is `[a, b)` |
| Internal.Truthies | src/core/core.internal.js:268-279 | the kept elements are exactly the truthy elements of the input |
| Internal.TruthiesOfTruthy | src/core/core.internal.js:268-279 | a list of truthy values is kept whole |
| Internal.TruthiesIdempotent | src/core/core.internal.js:268-279 | removing empties twice is removing them once |
| Internal.RemoveEmpty | src/core/core.internal.js:268-279 | the loop returns exactly the truthy elements, in order |
| Internal.PluckSpec | src/core/core.internal.js:199-221 | at most one value per element |
| Internal.PluckCountsTruthy | src/core/core.internal.js:213-217 | without a second key one value is taken per truthy element, so null entries are skipped |
| Internal.PluckObjects | src/core/core.internal.js:213-217 | over objects, element i of the result is property `prop` of element i |
| Internal.Pluck | src/core/core.internal.js:199-221 | the loop returns the element-by-element plucked list |
| Internal.Pick | src/core/core.internal.js:234-240 | element i is `a[order[i]]`, undefined when the index is out of range |
| Internal.PluckOrderIsPluckOfPick | src/core/core.internal.js:225-247 | plucking through an index list is plucking the picked elements, in index-list order |
| Internal.PluckOrder | src/core/core.internal.js:225-247 | the loop returns the plucked values in `order`'s order |
| Internal.LeavesFlat | src/core/core.internal.js:283-293 | no leaf of a value is an array |
| Internal.LeavesOfFlatArray | src/core/core.internal.js:283-293 | an array with no nested arrays flattens to its own elements |
| Internal.Flatten | src/core/core.internal.js:283-293 | the result is `out` followed by every nested leaf of `val`, left to right |
| Internal.IntVal | src/core/core.internal.js:144-147 | a number reads as itself and a non-number, non-string value as null |
| Internal.IntValOfPrinted | src/core/core.internal.js:144-147 | a printed index reads back as the same index |
| Internal.StringToCss | src/core/core.internal.js:330-341 | null and negative numbers give `"0px"`, other numbers their decimal digits with `px`, a string ending in a digit gets `px` appended and any other string passes through; the result never ends in a digit, and any other value throws |
| Internal.StringToCssIdempotent | src/core/core.internal.js:330-341 | a CSS length made by `_stringToCss` is left alone by a second pass |
| Internal.SplitObjNotation | src/core/core.internal.js:316-322 | the result is never empty |
| Internal.TokensJoin | src/core/core.internal.js:317 | the match regex splits a dot-joined list of plain segments back into those segments |
| Internal.SplitJoinRoundTrip | src/core/core.internal.js:316-322 | dotted paths without escapes split back into their segments |
| Internal.SplitEscapedDot | src/core/core.internal.js:316-322 | an escaped dot stays inside its segment and is unescaped: `a\.b.c` gives `["a.b", "c"]` |
| Internal.SplitEmpty | src/core/core.internal.js:317 | an empty string, and a string of dots only, give `[""]` |
| Text.ReplaceCharAppend | src/api/api.util.replaceable.js:54-57 | a global one-character replacement works piece by piece over a concatenation |
| Text.EscapeChainIsPerCharacter | src/api/api.util.replaceable.js:53-57 | because `&` is replaced first, the four chained replacements escape each character exactly once |
| Text.EscapeEachSafe | src/api/api.util.replaceable.js:53-57 | escaped text holds no raw `<`, `>` or `"` |
| Text.EscapeRoundTrip | src/api/api.util.replaceable.js:53-57 | decoding the four entities gives the original text back, so escaping loses nothing |
| Text.EscapeHtml | src/api/api.util.replaceable.js:47-59 | arrays are joined with commas and then escaped, strings are escaped (no raw `<`, `>`, `"`, and they decode back), any other value is returned unchanged |
| Text.FindScript | src/api/api.util.replaceable.js:41 | finds the first position at or after `from` where `<script` starts in any letter case |
| Text.RemoveFirstScript | src/api/api.util.replaceable.js:41 | one replace pass changes the string exactly when it holds `<script`, and then removes seven characters |
| Text.RemoveScripts | src/api/api.util.replaceable.js:39-42 | after the repeated passes no `<script` in any case is left |
| Text.RemoveScriptsIdempotent | src/api/api.util.replaceable.js:39-42 | stripping scripts from an already stripped string changes nothing |
| Text.StripHtml | src/api/api.util.replaceable.js:23-45 | falsy and non-string input is returned unchanged, input longer than 2^28 throws, otherwise the do/while loop ends with no `<script` left in the result |
| Text.RemoveMarks | src/api/api.util.replaceable.js:19 | the result holds no combining mark (U+0300 to U+036F) and only characters of the input |
| Text.Normalize | src/api/api.util.replaceable.js:7-21 | non-strings pass through; an NFD form of the same length is returned as it is; when NFD changes the length the result is the NFD form without combining marks, prefixed by the input and a space when `both` is true, and with `both` off it holds no combining mark |
| Text.NormalizeKeepsDecomposedMarks | src/api/api.util.replaceable.js:18-20 | text already in decomposed form has the same length after NFD, so its combining marks are kept |
| Text.NormalizeMarks | src/api/api.util.replaceable.js:7-21 | a reference that always drops the marks agrees with `normalize` whenever NFD changes the length |
| Text.NormalizeMarksFixesDecomposed | src/api/api.util.replaceable.js:18-20 | the reference turns decomposed "e" plus acute accent into "e", which `normalize` does not |
| Text.NewlinesToSpaces | src/ext/ext.filter.js:11 | every `\r`, `\n` and U+2028 becomes a space and every other character stays |
| Text.FilterString | src/ext/ext.filter.js:5-23 | empty and non-string values pass through; without options the string keeps its length and loses its line breaks; with `stripHtml`, an overlong string throws |
| Text.FilterStringPlainIdempotent | src/ext/ext.filter.js:5-23 | filtering an already filtered string again, without options, changes nothing |
| Jq.CloneFor | src/core/core.jq.js:131-140 | the clone has the copied value's kind and is the target's own value when that already has the kind |
| Jq.Merge | src/core/core.jq.js:126-144 | deep-merging a container into one of the same kind gives a container of that kind |
| Jq.MergeEntry | src/core/core.jq.js:126-149 | a property is left alone exactly when its value is undefined |
| Jq.SetIndex | src/core/core.jq.js:148 | writing index i of an array sets that slot, keeps the others, and fills any gap with undefined |
| Jq.MergeInto | src/core/core.jq.js:112-150 | the recursive loop body merges one container source as the merge function says |
| Jq.MergeFieldsInto | src/core/core.jq.js:116-150 | the `for (name in options)` loop gives the property-by-property merge |
| Jq.EntryInto | src/core/core.jq.js:126-149 | the step for one property gives what the merge says for it |
| Jq.ExtendAll | src/core/core.jq.js:80-156 | the outer loop merges the sources in argument order into `arguments[0] \|\| {}` |
| Jq.Extend | src/core/core.jq.js:112-152 | `null` and `undefined` sources are skipped: when every source is one, the target comes back unchanged |
| Jq.ShallowLookup | src/core/core.jq.js:116-149 | after a shallow merge a key holds the source's value when the source defines it and the key is not `__proto__`, else the target's |
| Jq.LaterSourceWins | src/core/core.jq.js:112-149 | of two sources the later one wins key by key, and undefined values are never copied |
| Jq.ProtoUntouched | src/core/core.jq.js:121-123 | `__proto__` is never written, in either mode |
| Jq.DeepCloneExact | src/core/core.jq.js:126-145 | deep-extending an empty container with a clean value gives that value back: a full copy |
| Jq.DeepCloneFields | src/core/core.jq.js:116-150 | deep-merging fresh properties appends exactly those properties |
| Jq.DeepCloneItems | src/core/core.jq.js:116-150 | deep-merging array elements past the end appends exactly those elements |
| Jq.Flat | src/core/core.jq.js:159-166 | a list without arrays flattens to itself |
| Jq.KeptNoNullish | src/core/core.jq.js:57-73 | no kept callback result is null or undefined |
| Jq.Map | src/core/core.jq.js:48-78 | the result is the non-null callback results in entry order, flattened one level |
| Jq.KeepResults | src/core/core.jq.js:57-73 | the loop keeps exactly the non-null callback results, in order |
| Jq.MapPlain | src/core/core.jq.js:48-78 | a callback that never returns null, undefined or an array makes `_map` an element-wise map |
| Jq.MapAllNull | src/core/core.jq.js:60-72 | a callback returning null or undefined everywhere gives an empty list |
| Jq.Each | src/core/core.jq.js:26-46 | entries are visited in order; it stops right after the first callback returning `false`, and no earlier callback returned `false` |
| Paging.PageOptions | src/features/features.page.js:11-27 | no paging control is built exactly when pagination is off |
| Paging.FlagDefaults | src/features/features.page.js:17-27 | each layout flag is true by default, and a defined option value replaces the default |
| Paging.PagingDynamic | src/features/features.page.js:55-73 | the push/unshift sequence yields first, previous, numbers, next, last, minus the groups switched off |
| Paging.LayoutSymmetric | src/features/features.page.js:55-73 | first/last and previous/next sit at mirrored positions around the numbers |
| Paging.LayoutMembers | src/features/features.page.js:55-73 | a control is in the layout exactly when its option is on, and none appears twice |
| Paging.CeilDiv | src/features/features.page.js:86-87 | `Math.ceil(a / b)`: the least multiple of b not below a |
| Paging.DrawPages | src/features/features.page.js:82-87 | length -1 gives page 0 of 1 |
| Paging.InfoPages | src/api/api.all.js:836-843 | length -1 gives page 0 of 1 |
| Paging.DrawInfoAgree | src/features/features.page.js:86 | the `ceil` page of the buttons and the `floor` page of `page.info()` agree exactly when the start is on a page boundary |
| Paging.DrawFirstPage | src/features/features.page.js:86 | with `ceil`, the current page is 0 exactly when the display starts at the first record |
| Paging.AlignedLastPage | src/features/features.page.js:86-87 | on a page boundary the current page is one of the pages, and it is the last exactly when no record follows it |
| Paging.PagingButtonInfo | src/features/features.page.js:183-240 | a button is active iff it is the current page's number; first/previous are disabled iff page is 0; next/last are disabled iff pages is 0 or page is the last; a number shows itself plus one |
| Paging.MiddlePageAllEnabled | src/features/features.page.js:196-226 | on a page strictly between the first and the last, no navigation button is disabled |
| Paging.SinglePageAllDisabled | src/features/features.page.js:196-226 | with a single page, all four navigation buttons are disabled |
| Paging.ExactlyOneActive | src/features/features.page.js:191-235 | among the number buttons exactly the current page is active, and the ellipsis is never active or disabled |
| TypeRegistry.Names | src/ext/ext.types.js:263-267 | the listed names are the detectors' names, in detection order |
| TypeRegistry.IndexOfName | src/ext/ext.types.js:207-209 | the first detector with that name, or -1 exactly when no detector has it |
| TypeRegistry.SetDetectList | src/ext/ext.types.js:202-216 | a new name is put first, a known name is replaced where it stands |
| TypeRegistry.SetDetectUnique | src/ext/ext.types.js:202-216 | setting a detector keeps the type names unique, lists the name, and the name then finds the new detector |
| TypeRegistry.SetDetectOthers | src/ext/ext.types.js:202-216 | setting one type's detector leaves every other type's detector as it was |
| TypeRegistry.SuffixKeysDistinct | src/ext/ext.types.js:218-220 | the `-pre`, `-asc` and `-desc` keys of two types never collide, and equal keys mean the same type |
| TypeRegistry.SetOrderEffect | src/ext/ext.types.js:217-221 | setting order writes all three functions of that type, undefined ones included, and no other type's |
| TypeRegistry.Describe | src/ext/ext.types.js:182-197 | a name with no detector, class name, renderer or search formatter registered reads `undefined` for that entry |
| TypeRegistry.ApplyObjectPlain | src/ext/ext.types.js:239-258 | the object form sets the class name when truthy and the renderer and search formatter when defined, and otherwise keeps them |
| TypeRegistry.ApplyObjectDetect | src/ext/ext.types.js:244-246 | the object form sets the detector exactly when one is given |
| TypeRegistry.ApplyObjectOrder | src/ext/ext.types.js:248-250 | the object form sets all three order functions exactly when `order` is truthy |
| TypeRegistry.FindAfterSet | src/ext/ext.types.js:186-188 | after setting a detector, looking its name up finds it |
| TypeRegistry.HtmlThirdFromEnd | src/core/core.columns.js:343 | the built-in detection order has nine distinct names with `html` third from the end, as the detection loop assumes |
| TypeRegistry.BuiltInDetect | src/ext/ext.types.js:281-479 | every built-in descriptor carries a detector |
| TypeRegistry.RegisterNew | src/ext/ext.types.js:211-212 | registering a detector under a new name puts that name first |
| TypeRegistry.RevNames | src/ext/ext.types.js:211-212 | the names of a registration list, last registered first |
| TypeRegistry.ApplyAllNames | src/ext/ext.types.js:211-212 | registering distinct new names one by one lists them in reverse order, ahead of the old ones |
| TypeRegistry.BuiltInNames | src/ext/ext.types.js:269-279 | the built-ins are registered in the source's order, and its reverse is num, num-fmt, html-num, html-num-fmt, date, html-utf8, html, string-utf8, string |
| TypeRegistry.BuiltInsOrder | src/ext/ext.types.js:269-279 | from an empty registry, the built-ins are detected in reverse registration order |
| TypeRegistry.TypeRegistryState.ListTypes | src/ext/ext.types.js:263-267 | the result lists the detectors' names in order, and nothing changes |
| TypeRegistry.TypeRegistryState.Type | src/ext/ext.types.js:182-260 | a falsy `prop` returns every registry's entry for the name and changes nothing; otherwise the registry becomes the one the setter forms give |
| TypeRegistry.TypeRegistryState.RegisterBuiltIns | src/ext/ext.types.js:269-279 | the registry becomes the nine built-in registrations applied in order |
| TypeRegistry.LowerString | src/ext/ext.types.js:292 | the result has the input's length and no upper-case ASCII letter |
| TypeRegistry.StringPre | src/ext/ext.types.js:286-296 | empty non-booleans become `""`, non-empty strings are lower-cased, and the result is always a string |
| TypeRegistry.StringPreIdempotentOnStrings | src/ext/ext.types.js:286-296 | pre-formatting a string twice is the same as once |
| TypeRegistry.HtmlPre | src/ext/ext.types.js:340-346 | empty values give `""`; a string result of a non-empty string has no upper-case ASCII letter |
| TypeRegistry.HtmlOneOfIsNonEmptyAllOf | src/ext/ext.types.js:330-337 | the `oneOf` test holds exactly for non-empty values passing `allOf`; empty values pass `allOf` but never `oneOf` |
| Data.CanonicalKind | src/core/core.data.js:37-41 | `search` and `order` become `filter` and `sort`, and every other kind is kept |
| Data.CellDataCases | src/core/core.data.js:36-116 | an empty or missing slot gives undefined; an undefined cell gives the column default; null display data with no default gives `''`; a null cell with a default gives the default for every requested kind except filter data |
| Data.CellData | src/core/core.data.js:36-116 | a row index with no live slot gives `undefined` (the other cases are `Data.CellDataCases`) |
| Data.CellDataAliases | src/core/core.data.js:37-41 | `search` and `order` ask for exactly what `filter` and `sort` do |
| Data.FilterDataFormatted | src/core/core.data.js:107-113 | filter data of a plain value is the column type's search formatter applied to it, when one is registered |
| Data.WithCell | src/core/core.data.js:210-219 | writing a cell keeps the arena's length and which slots are live, and keeps the arena invariant |
| Data.WithCellDisplayInMaster | src/core/core.data.js:210-219 | writing a cell keeps every row of `aiDisplay` in `aiDisplayMaster` |
| Data.SetCellData | src/core/core.data.js:210-219 | the table becomes the state where the column's setter has rewritten that row's data |
| Data.Added | src/core/core.data.js:144-176 | the new index is the old arena length; the slot is appended and holds the data; the index is appended to the master list but not to `aiDisplay`; every column's type is reset; the id, when defined, maps to the new index and no other id changes |
| Data.AddedDisplayInMaster | src/core/core.data.js:144-176 | adding a row only appends to the master, so every row of `aiDisplay` stays in `aiDisplayMaster` |
| Data.Untyped | src/core/core.data.js:157-160 | every column with only its detected type forgotten |
| Data.AddedWf | src/core/core.data.js:144-176 | adding a row keeps the arena invariant: the new index is fresh, so the master list stays free of repeats |
| Data.AddData | src/core/core.data.js:144-176 | the table and the returned index are those of the added state |
| Data.AddKeepsSlots | src/core/core.data.js:146-153 | adding a row leaves every existing slot, live or removed, as it was |
| Data.Cleared | src/core/core.data.js:236-241 | no rows, empty master and display lists, no ids; columns and ordering kept, and the arena invariant holds |
| Data.ClearedDisplayInMaster | src/core/core.data.js:236-241 | after clearing, `aiDisplay` is empty and so lies in the master |
| Data.ClearTable | src/core/core.data.js:236-241 | the table becomes the cleared state |
| Data.RenderCells | src/core/core.data.js:564-580 | one display value per column, each the cell's display data |
| Data.WithRowDisplay | src/core/core.data.js:564-580 | afterwards the row's display cache holds what was returned, its data is untouched, and which slots are live is unchanged |
| Data.WithRowDisplayWf | src/core/core.data.js:564-580 | filling a row's display cache keeps the arena invariant |
| Data.GetRowDisplay | src/core/core.data.js:564-580 | returns the cached display data when present, else a fresh rendering, and stores it |
| Data.RowDisplayCached | src/core/core.data.js:564-580 | a second call returns the same array and changes nothing |
| Data.ResetColumns | src/core/core.data.js:303-306 | every column's type and widest-string memo are forgotten |
| Data.Invalidated | src/core/core.data.js:259-311 | only the invalidated slot changes; its sort and filter caches are dropped; its display cache is empty exactly when the row is re-read from the DOM; one column's memos are reset, or all columns' when no column is given; master, display and ids are kept |
| Data.InvalidatedDisplayInMaster | src/core/core.data.js:259-311 | invalidating a row keeps every row of `aiDisplay` in `aiDisplayMaster` |
| Data.Invalidate | src/core/core.data.js:259-311 | the table becomes the invalidated state |
| Data.RefreshRow | src/core/core.data.js:263-291 | the row part of the invalidation: caches dropped, then re-read or re-rendered |
| Data.ForgetTypes | src/core/core.data.js:293-306 | the column part of the invalidation: one column's memos or every column's |
| Data.InvalidatedWf | src/core/core.data.js:259-311 | invalidating a live row keeps the arena invariant |
| Columns.AddColumn | src/core/core.columns.js:26-44 | exactly one column is appended, built from the defaults and the previous column count, and nothing else changes |
| Columns.AddColumnWf | src/core/core.columns.js:28-37 | the new column's index is the old count; without user defaults it reads its own data index and sorts by itself; the column invariant is kept |
| Columns.Matching | src/core/core.columns.js:246-256 | the result holds exactly the indices of the columns passing the test, strictly ascending |
| Columns.GetColumns | src/core/core.columns.js:246-256 | the loop returns the indices of the columns whose property is truthy, in order |
| Columns.VisibleToColumnIndex | src/core/core.columns.js:192-196 | a result is a visible column, and there is one exactly when the position is below the number of visible columns |
| Columns.ColumnIndexToVisible | src/core/core.columns.js:206-211 | there is a position exactly when the column exists and is visible |
| Columns.VisibleRoundTrip | src/core/core.columns.js:192-211 | a visible position survives the trip to a data index and back |
| Columns.ColumnRoundTrip | src/core/core.columns.js:192-211 | a visible column's data index survives the trip to a visible position and back |
| Columns.Find | src/core/core.columns.js:491 | `indexOf` on strings: -1, or a position where the substring occurs |
| Columns.DefTargets | src/core/core.columns.js:461-470 | one target list per definition, from `target`, `targets` or `aTargets` |
| Columns.Grow | src/core/core.columns.js:477-479 | columns are added until the target index exists; the existing ones keep their place and each new one is a fresh column for its index |
| Columns.StringCallsOwn | src/core/core.columns.js:487-515 | a string target only calls back with its own definition and with existing columns |
| Columns.AllTargetsEvery | src/core/core.columns.js:488-490 | `_all` calls back once for every column, left to right |
| Columns.NameTargetsMatch | src/core/core.columns.js:491-495 | an `x:name` target calls back exactly for the columns whose `sName` is `x` |
| Columns.TargetStepEffect | src/core/core.columns.js:473-516 | a non-negative index adds missing columns and calls back once with it; a negative index counts from the right and adds nothing; strings add nothing; other targets do nothing |
| Columns.TargetsFromGrows | src/core/core.columns.js:472-517 | a definition's targets only append columns and only call back with that definition |
| Columns.Named | src/core/core.columns.js:446-452 | the column count is kept while `name` options are copied into `sName` |
| Columns.StaticCalls | src/core/core.columns.js:522-526 | the static columns array calls back once per entry, in order |
| Columns.DefsFromDefs | src/core/core.columns.js:457-518 | the walk over definitions calls back only with those definitions |
| Columns.DefsFromOrder | src/core/core.columns.js:457-518 | the walk calls back for later definitions before earlier ones |
| Columns.FirstDefinitionWins | src/core/core.columns.js:436-527 | every call for a definition comes after the calls for later definitions, and the static columns come last, so the first definition and then `aoColumns` win |
| Columns.DefsOnlyAppend | src/core/core.columns.js:475-479 | column definitions only ever append columns; existing ones keep their place |
| Columns.NameColumns | src/core/core.columns.js:446-452 | the table becomes the state with the names copied and nothing else changed |
| Columns.ApplyTarget | src/core/core.columns.js:473-516 | the columns and the calls made are those of one target step, and only the columns change |
| Columns.ApplyTargets | src/core/core.columns.js:472-517 | the loop over one definition's targets does what the target steps do in order |
| Columns.ApplyDef | src/core/core.columns.js:457-518 | one definition is applied, then the remaining walk |
| Columns.ApplyDefs | src/core/core.columns.js:455-519 | the reverse loop over the definitions does the walk, last to first |
| Columns.ApplyColumnDefs | src/core/core.columns.js:436-527 | the final columns and the calls, in the order made, are the ones the specification gives |
| Columns.MatchWidthShape | src/core/core.columns.js:561 | there is no match exactly when the string holds no digit and no `.`; otherwise the number is a non-empty run of digits and dots and the unit holds no digit |
| Columns.LeadingDigits | src/core/core.columns.js:564 | the leading digit run of a string, the whole string when it is all digits |
| Columns.SumStep | src/core/core.columns.js:548-567 | a hidden column is skipped unless included; a counted column without width ends the call with null; a numeric width adds itself in px |
| Columns.ColumnsSumWidth | src/core/core.columns.js:538-571 | the loop returns `sum + unit` as written: the step-by-step outcome of the targets, evaluated as `null`, `NaN` or a CSS string |
| Columns.WidthText | src/core/core.columns.js:570 | `sum + unit` is `null` exactly for the early `null` return, `NaN` exactly while the unit is still `undefined`, and otherwise the decimal sum followed by the unit |
| Columns.NothingCountedIsNaN | src/core/core.columns.js:544-570 | when no target counts (no targets, or all hidden and hidden ones not included) the call returns `NaN`, since `0 + undefined` is not a number |
| Columns.ReadWidth | src/core/core.columns.js:548-567 | one iteration reads a target as the step function says |
| Columns.HundredMatches | src/core/core.columns.js:561-564 | `"100"` matches as the number `"100"` with an empty unit |
| Columns.UnitlessWidthAsWritten | src/core/core.columns.js:561-570 | as written, a width string `"100"` sums to `"100"` with no unit, while the corrected sum gives `"100px"` |
| Columns.CorrectedSumHasUnit | src/core/core.columns.js:538-571 | with the correction the unit is either still undefined or a non-empty string, so the value is never a bare number |
| Columns.MissingWidthIsNull | src/core/core.columns.js:555-556 | a counted column without a declared width makes the whole sum null, whatever follows |
| Columns.NumericWidthsAdd | src/core/core.columns.js:547-570 | numeric widths of the counted columns add up in px; hidden columns are skipped unless included |
| ColumnTypes.TypeResult | src/core/core.columns.js:268-270 | `true` becomes the detector's own name and every other answer is kept |
| ColumnTypes.ColumnType | src/core/core.columns.js:298-366 | the type detected for a column is always truthy, with `"string"` as the fall-back |
| ColumnTypes.ColumnTypeLocal | src/core/core.columns.js:298-366 | a column's detected type depends only on the data, the column itself and the registry, so earlier columns' new types do not change it |
| ColumnTypes.TypesFromShape | src/core/core.columns.js:285-387 | only `sType` changes, only on columns that had none, and every other part of the settings is untouched |
| ColumnTypes.TypesAssigned | src/core/core.columns.js:285-367 | with detection on, every column ends up typed: a typed column keeps its type, an untyped one takes its manual type if it has one and the detected type otherwise |
| ColumnTypes.DetectionOffStops | src/core/core.columns.js:289-296 | with detection off, the function returns at the first column with neither type nor manual type; it and all later columns stay as they were, and all earlier columns are typed |
| ColumnTypes.FetchOk | src/core/core.columns.js:326-328 | a fetch through a sound cache gives the row's type data and keeps the cache sound |
| ColumnTypes.ScanOk | src/core/core.columns.js:319-353 | the scan over rows keeps the cache sound |
| ColumnTypes.DetectOk | src/core/core.columns.js:298-361 | the loop over detectors keeps the cache sound |
| ColumnTypes.FetchedOnce | src/core/core.columns.js:287-328 | (the fetch at line 319-328 under the null-slot skip of line 287) over all detectors tried for a column, null slots are never fetched and each cell with defined type data is fetched exactly once |
| ColumnTypes.HtmlScan | src/core/core.columns.js:319-353 | in the `html` slot the scan finds a match exactly when some remaining live cell is a non-empty string containing `<` |
| ColumnTypes.HtmlAccepted | src/core/core.columns.js:343-357 | in the `html` slot the detector accepts iff some live cell is a non-empty string containing `<`; plain strings mixed in do not stop it |
| ColumnTypes.PlainScan | src/core/core.columns.js:319-353 | outside the `html` slot the scan's answer is truthy iff every remaining live cell passes `allOf`, and, when they all do, `oneOf` is recorded iff some live cell passes it |
| ColumnTypes.PlainAccepted | src/core/core.columns.js:319-360 | outside the `html` slot a detector without `init` accepts iff the column has a row, every live cell passes `allOf`, and some live cell passes `oneOf` when the detector has one |
| ColumnTypes.ScanRows | src/core/core.columns.js:319-353 | the row loop computes the scan result |
| ColumnTypes.DetectType | src/core/core.columns.js:298-366 | the detector loop with its fall-back returns the column's detected type |
| ColumnTypes.ColumnTypes | src/core/core.columns.js:277-388 | the columns become those the per-column rule gives, from the first column on |
| MaxLen.ReplaceNbsp | src/core/core.columns.js:873 | replacing `&nbsp;` by a space never makes a string longer |
| MaxLen.MeasuresAt | src/core/core.columns.js:858-873 | one measurement per master row, in master order |
| MaxLen.Filled | src/core/core.columns.js:860 | fetching display data for rows only fills caches: the arena keeps its length and which slots are live |
| MaxLen.DisplayStable | src/core/core.columns.js:860 | filling one row's display cache changes no row's display data |
| MaxLen.FilledDisplay | src/core/core.columns.js:858-860 | after the loop has filled earlier rows' caches, every row's display data is what it was before |
| MaxLen.WidestFromWinner | src/core/core.columns.js:858-881 | the loop returns the first measurement with the strictly greatest length beyond the current maximum, or keeps the maximum; it throws exactly when some measurement throws |
| MaxLen.FirstLongestWins | src/core/core.columns.js:850-887 | without a memo the result is the text of the first cell with the strictly greatest stripped length, `""` for no rows, and the call throws exactly when stripping some cell throws |
| MaxLen.MemoStable | src/core/core.columns.js:853-886 | (the memo test at line 853 and the store at lines 883-886) a non-empty result is memoised: asking again returns it and changes nothing |
| MaxLen.GetMaxLenString | src/core/core.columns.js:850-887 | the result is the specified one; on success the display caches are filled and the memo set; on a throw the filled caches stay and nothing else changes |
| MaxLen.MeasureRow | src/core/core.columns.js:859-873 | one pass renders master row i, fills its cache, and measures the column's cell |
| Sorting.Insert | src/core/core.sort.js:89-128 | one insertion step keeps every element and adds exactly the new one |
| Sorting.InsertionSort | src/core/core.sort.js:89-128 | the stable sort used for `Array.prototype.sort` is a permutation of its input |
| Sorting.AppendSorted | src/core/core.sort.js:89-128 | appending an element no earlier element compares above keeps a list sorted |
| Sorting.InsertSorted | src/core/core.sort.js:89-128 | inserting into a sorted list under a consistent comparator keeps it sorted |
| Sorting.InsertionSortSortedOn | src/core/core.sort.js:89-128 | the sort's output is ordered when the comparator is consistent on the elements sorted |
| Sorting.InsertionSortSorted | src/core/core.sort.js:89-128 | under a consistent comparator the sort's output is ordered |
| Sorting.HeadsEqual | src/core/core.sort.js:89-128 | two sorted permutations under a strict antisymmetric comparator start with the same element |
| Sorting.TailsSameMultiset | src/core/core.sort.js:89-128 | removing equal heads from two permutations leaves permutations |
| Sorting.SortedUniqueOn | src/core/core.sort.js:89-128 | a comparator that separates distinct rows fixes the sorted order: any two sorted permutations coincide |
| Sorting.SortedUnique | src/core/core.sort.js:89-128 | with a total tie-break, the sorted order does not depend on the sort algorithm |
| Sorting.InsertionSortAgrees | src/core/core.sort.js:89-128 | the sort only consults the comparator on the elements it sorts |
| Sorting.InsertAgrees | src/core/core.sort.js:89-128 | one insertion step only consults the comparator on the elements involved |
| Sorting.Reverse | src/core/core.sort.js:69 | reversing maps position i to position n-1-i |
| Sorting.ReverseMultiset | src/core/core.sort.js:69 | reversing keeps every element |
| Sorting.NegatedSortReverses | src/core/core.sort.js:66-119 | (the `asc`/`desc` formatters at lines 66-70 and their use at lines 116-119) sorting under the negated strict comparator gives the reverse of the ascending sort |
| SortAlgo.Names | src/core/core.sortAlgo.js:82 | one `sName` per column, in column order |
| SortAlgo.ResolveSorting | src/core/core.sortAlgo.js:101-105 | resolving `aaSorting` pushes its entries one for one, by reference |
| SortAlgo.SortResolve | src/core/core.sortAlgo.js:74-107 | resolution only appends to the nested list it is given |
| SortAlgo.ResolveIdxObject | src/core/core.sortAlgo.js:76-79 | an object with an `idx` resolves to that index and its `dir`, whatever its `name` |
| SortAlgo.ResolveByName | src/core/core.sortAlgo.js:80-88 | an object with only a `name` resolves to the column with that `sName`, or to nothing when no column has it |
| SortAlgo.ResolveTwoD | src/core/core.sortAlgo.js:101-106 | a 2-D list resolves element by element; an empty list adds nothing |
| SortAlgo.ResolveOneD | src/core/core.sortAlgo.js:98-100 | a 1-D `[column, direction]` list is one entry |
| SortAlgo.ColumnAt | src/core/core.sortAlgo.js:43 | a column is found exactly when the number is an index in range |
| SortAlgo.KeyColumn | src/core/core.sortAlgo.js:43 | a property key names a column only when it prints an index in range |
| SortAlgo.DirIndex | src/core/core.sortAlgo.js:51-53 | the direction's position in `asSorting`, non-negative exactly when the direction is listed |
| SortAlgo.EntryIdx | src/core/core.sortAlgo.js:46-54 | an existing `_idx` is kept; otherwise one is set whenever the column's first sort column exists |
| SortAlgo.SortType | src/core/core.sortAlgo.js:48 | the type is always set, `'string'` for a column without one |
| SortAlgo.Expand | src/core/core.sortAlgo.js:46-67 | an entry without a direction adds nothing; otherwise one instruction per `aDataSort` column |
| SortAlgo.SortFlattenSpec | src/core/core.sortAlgo.js:5-72 | with ordering disabled the result is empty and `aaSorting` is unchanged; a `null` fixed entry or an `aDataSort` column that does not exist throws |
| SortAlgo.ExpandEntry | src/core/core.sortAlgo.js:46-67 | the inner loop yields the stamped `_idx` and the specified expansion |
| SortAlgo.SortFlatten | src/core/core.sortAlgo.js:5-72 | the method returns the specified instructions and changes only `aaSorting`, as specified |
| SortAlgo.BuildNested | src/core/core.sortAlgo.js:26-38 | the nested list is the fixed array, `fixed.pre`, `aaSorting` and `fixed.post`, resolved in that order |
| SortAlgo.FlattenEntry | src/core/core.sortAlgo.js:41-68 | one turn of the outer loop matches its specification and touches only `aaSorting` |
| SortAlgo.FlatFromSpecs | src/core/core.sortAlgo.js:40-69 | the loop's instructions are the entries' own instructions, concatenated in nested order |
| SortAlgo.SpecsAllAppend | src/core/core.sortAlgo.js:40-69 | the instructions of two lists joined are the instructions of each, joined |
| SortAlgo.FlattenOrder | src/core/core.sortAlgo.js:5-72 | unless a fixed list throws, instructions come from the fixed array, `fixed.pre`, `aaSorting`, `fixed.post`, in that order |
| SortAlgo.SkippedEntries | src/core/core.sortAlgo.js:43-56 | an entry naming no column contributes nothing, and so does one with an empty direction whose key columns all exist |
| SortAlgo.SpecsAllNone | src/core/core.sortAlgo.js:40-69 | one entry that throws makes the whole loop throw |
| SortAlgo.MissingKeyThrows | src/core/core.sortAlgo.js:43-48 | an `aaSorting` entry on a column whose `aDataSort` names a column that does not exist makes the flattening throw, whatever its direction |
| SortAlgo.ExpandShape | src/core/core.sortAlgo.js:46-66 | each instruction carries the source column, direction, `_idx`, type and its `aDataSort` column, in list order |
| SortAlgo.FlatFromWf | src/core/core.sortAlgo.js:40-69 | the loop only emits instructions naming existing columns, drawn from their source's `aDataSort` |
| SortAlgo.FlattenWf | src/core/core.sortAlgo.js:5-72 | every flattened instruction names an existing column with a direction, and `aaSorting` keeps its length |
| SortAlgo.FlatFromIdx | src/core/core.sortAlgo.js:40-69 | the loop stamps `_idx` exactly on the `aaSorting` entries it reaches |
| SortAlgo.PushAllNoOrigin | src/core/core.sortAlgo.js:75-93 | entries resolved from a list are fresh, never `aaSorting` entries |
| SortAlgo.ResolveNoOrigin | src/core/core.sortAlgo.js:74-107 | resolution of anything but `aaSorting` builds fresh entries |
| SortAlgo.FlattenIdx | src/core/core.sortAlgo.js:5-72 | `_idx` is written onto reached `aaSorting` entries only where undefined, as the direction's index in the first sort column's `asSorting` |
| Sort.WithCache | src/core/core.sort.js:266-268 | a row always has a key cache after the pass reaches it |
| Sort.SortData | src/core/core.sort.js:238-279 | the pass returns and stores the specified keys, changing only the rows' key caches, and fails exactly when reading custom data throws |
| Sort.KeyRow | src/core/core.sort.js:259-278 | one turn of the loop matches its specification, changes only the arena and keeps its length |
| Sort.KeysFrame | src/core/core.sort.js:258-279 | a pass touches only the key caches of live rows for this column: no slot revived or emptied, no other field or column changed, and on success every live row holds a key |
| Sort.KeysCalls | src/core/core.sort.js:258-279 | unless it throws, a pass computes the keys of exactly the live rows that need one, in row order |
| Sort.KeysStored | src/core/core.sort.js:270-277 | a computed row stores its fresh key; every other row keeps its cached key |
| Sort.NeedingSkip | src/core/core.sort.js:258-279 | which rows still need a key from row i on depends only on the slots from i on |
| Sort.NeedingMembers | src/core/core.sort.js:258-279 | the rows listed as needing a key are exactly the live rows from i on whose key the pass computes |
| Sort.NeedingIncreasing | src/core/core.sort.js:258 | those rows are listed in strictly increasing order |
| Sort.EmptyCachesComputeAll | src/core/core.sort.js:258-279 | over rows with empty caches, a pass without a custom ordering function computes each live row's key exactly once |
| Sort.KeysComplete | src/core/core.sort.js:270-277 | without a custom ordering function a pass never throws |
| Sort.KeysIdle | src/core/core.sort.js:270 | a presence-checked pass over rows that all hold a key changes nothing and computes nothing |
| Sort.CachedKeysReused | src/core/core.sort.js:253-279 | with a presence test, a second pass over a column computes no key and leaves every row as it was |
| Sort.FalsyKeysRecomputed | src/core/core.sort.js:270 | as written, the second pass recomputes exactly the live rows whose key came out falsy |
| Sort.EmptyKeyCounterexample | src/core/core.sort.js:270 | an empty-string key is recomputed as written and reused under a presence test |
| Sort.Sign | src/core/core.sort.js:127-132 | the three-way test is -1, 0 or 1 with the sign of the difference |
| Sort.GenericTest | src/core/core.sort.js:116 | the generic test is -1, 0 or 1 |
| Sort.JsLess | src/core/core.sort.js:116 | both keys are first made primitive, arrays and objects through their string forms; two strings compare character by character; a string is neither below nor above a non-string primitive; `undefined` (`NaN`) is below and above nothing; other keys compare by their numbers |
| Sort.Primitive | src/core/core.sort.js:116 | an array, object, function or node becomes a string and every other value is kept, as `ToPrimitive` does before `<` |
| Sort.ArrayKeysCompareAsStrings | src/core/core.sort.js:116 | `[1] < "2"`, `[1] < [2]` and `[10] < [9]` all hold, as in JavaScript |
| Sort.ToOrder | src/core/core.sort.js:109-113 | a custom sorter's numeric answer is used as it is, a boolean reads as 1 or 0, and anything else is a tie |
| Sort.Orig | src/core/core.sort.js:62-70 | `aiOrig` holds `0 .. n-1`, reversed when the first instruction is descending and `orderDescReverse` is set |
| Sort.Ordered | src/core/core.sort.js:60-134 | the sorted master list is a permutation of the master list |
| Sort.SortRun | src/core/core.sort.js:17-145 | the run returns and leaves the specified state, including the throw of a key pass |
| Sort.SortOnMissingKeyThrows | src/core/core.sort.js:48-50 | ordering by an entry whose column's `aDataSort` names a column that does not exist throws and leaves the master list as it was |
| Sort.SortRunDisplayInMaster | src/core/core.sort.js:17-145 | after `_fnSort`, thrown or not, every row of `aiDisplay` is still in `aiDisplayMaster`: the master is kept, or replaced by a permutation of itself |
| Sort.RunPasses | src/core/core.sort.js:52-57 | the loop runs one key pass per instruction, in order, as specified |
| Sort.MakeOrig | src/core/core.sort.js:62-70 | the filling loop and the reversal produce `aiOrig` as specified |
| Sort.PassesShape | src/core/core.sort.js:52-57 | the key passes change only the row arena and keep which slots are live |
| Sort.ColumnSortLeavesMaster | src/core/core.sort.js:33-144 | (the copy at lines 33-47, the sort at lines 136-144) sorting on one given column sorts a copy: the master list, the ordering state and the sorted flag are unchanged, and the result is a permutation of the master |
| Sort.SortReplacesMaster | src/core/core.sort.js:48-144 | (the master chosen at lines 48-50, the sort at lines 136-144) a successful full sort replaces the master with a permutation of it, marks the table sorted and records the instructions |
| Sort.IndexOrderConsistent | src/core/core.sort.js:131-133 | the index order is a consistent comparator with no ties between distinct rows |
| Sort.NoInstructionsIndexOrder | src/core/core.sort.js:129-134 | with nothing to sort on, the master comes out in strictly ascending row order |
| Sort.UnorderedTableIndexOrder | src/core/core.sort.js:129-134 | a table with ordering switched off sorts its master into ascending row order |
| Sort.ServerSideKeepsOrder | src/core/core.sort.js:60 | under server-side processing the master order is left as it was |
| Sort.LexUnfold | src/core/core.sort.js:99-121 | one instruction of the intended comparator on numeric keys is the direction-signed three-way test, or the next instruction on a tie |
| Sort.LexAntisymmetric | src/core/core.sort.js:89-128 | on numeric keys the intended comparator flips sign when its arguments swap and ties only a row with itself |
| Sort.LexTransitive | src/core/core.sort.js:89-128 | on numeric keys the intended comparator is transitive |
| Sort.LexOrder | src/core/core.sort.js:89-128 | the intended comparator is a consistent, strict order on rows with numeric keys |
| Sort.CorrectedOrderIndependent | src/core/core.sort.js:61-128 | with the index tie-break, any arrangement of the same rows sorts to the same order |
| Sort.DenseTieBreakAgrees | src/core/core.sort.js:62-127 | (`aiOrig` built at lines 62-64, read at lines 124-127) the written tie-break agrees with the intended one whenever every row index is below the master's length |
| Sort.TieValues | src/core/core.sort.js:124-127 | two rows past the end of `aiOrig` tie as written and are ordered by index with the intended tie-break |
| Sort.TieBreakCounterexample | src/core/core.sort.js:62-127 | (`aiOrig` built at lines 62-64, read at lines 124-127) as written the order of two tying rows depends on the master's prior order; the intended tie-break gives one order |
| Sort.SortTwo | src/core/core.sort.js:89 | a stable sort of two rows swaps them exactly when the first compares above the second |
| Sort.PosMap | src/core/core.sort.js:298-300 | the map holds exactly the master's rows, each at a position where it stands |
| Sort.DisplayOrder | src/core/core.sort.js:307-310 | the reordered display list is a permutation of the display list |
| Sort.SortDisplay | src/core/core.sort.js:287-311 | the display array is sorted in place into the specified order; shorter than two rows it is left alone |
| Sort.MasterPositions | src/core/core.sort.js:298-300 | the first loop builds the master position map |
| Sort.DisplayPositions | src/core/core.sort.js:303-305 | the second loop maps each displayed row to its master position, `undefined` when absent |
| Sort.PosMapUnique | src/core/core.sort.js:298-300 | on a duplicate-free master every row maps to its own position |
| Sort.FollowSorted | src/core/core.sort.js:307-310 | the displayed rows taken in master order are in strictly increasing master position |
| Sort.FollowPermutes | src/core/core.sort.js:307-310 | taken in master order, the displayed rows are a permutation of the display list, sorted by master position |
| Sort.PosCmpOrder | src/core/core.sort.js:309 | master positions order the master's rows consistently and separate distinct rows |
| Sort.DisplayFollowsMaster | src/core/core.sort.js:287-311 | with duplicate-free lists and every displayed row in the master, the display ends up in master order |
| Sort.AsSortingAt | src/core/core.sort.js:362-381 | (the reads at lines 362 and 381) `asSorting[n]` is the n-th direction inside the list |
| Sort.NextDir | src/core/core.sort.js:328-335 | `next` always gives a position unless `overflow` is set |
| Sort.LooseEqIndex | src/core/core.sort.js:376 | `sorting[0][0] == colIdx` holds for the column number itself and for its printed decimal form, and only ever for a number, a string or a boolean |
| Sort.EntryColumns | src/core/core.sort.js:349 | one column per ordering entry, in order |
| Sort.SortAdd | src/core/core.sort.js:323-389 | the click leaves `aaSorting` as specified and returns `false` for an unsortable column |
| Sort.NotSortableUnchanged | src/core/core.sort.js:337-339 | a column that cannot be ordered returns `false` and changes nothing |
| Sort.ReclickAdvances | src/core/core.sort.js:376-382 | clicking the ordering column again keeps one entry and advances its direction one step through `asSorting`, wrapping round |
| Sort.ClickOtherColumn | src/core/core.sort.js:383-388 | clicking another column orders by it alone, in its first direction |
| Sort.ShiftClickOverflow | src/core/core.sort.js:351-360 | a shift-click past the last direction removes the entry, unless it is the only one, which restarts at the first direction |
| Sort.ShiftClickAppends | src/core/core.sort.js:365-369 | a shift-click on a new column appends it in its first direction |
| Sort.ClicksCycle | src/core/core.sort.js:376-382 | n plain clicks move the direction n steps round `asSorting`; one click per direction returns to the start |
| Selector.OptsLookup | src/api/api.base.js:590-610 | each option is the caller's when defined and the default otherwise; `search` falls back to a truthy legacy `filter` first |
| Selector.SelectorOpts | src/api/api.base.js:590-610 | with no options (a falsy argument) the options are exactly the defaults `columnOrder: 'implied'`, `search: 'none'`, `order: 'current'`, `page: 'all'` |
| Selector.Present | src/api/api.base.js:570-572 | the `null`/`undefined` results are dropped and nothing else is |
| Selector.RunSpec | src/api/api.base.js:546-588 | a selection never holds the same item twice |
| Selector.GatheredThrows | src/api/api.base.js:564-577 | once an atom throws, the selection throws that exception |
| Selector.SelectorRun | src/api/api.base.js:546-588 | the loop over the atoms computes the specified selection |
| Selector.GatheredMembers | src/api/api.base.js:564-577 | the gathered results are exactly what the atoms resolved to |
| Selector.RunMembers | src/api/api.base.js:546-588 | without extensions, an item is selected exactly when some atom resolved to it |
| Selector.RepeatedAtom | src/api/api.base.js:546-588 | naming the same atom twice selects what naming it once does |
| Selector.SelectorFirst | src/api/api.base.js:613-630 | the first table's result only, cut to its first element, empty exactly when it was |
| Selector.FirstIdempotent | src/api/api.base.js:613-630 | taking the first of a first changes nothing |
| Selector.Indices | src/api/api.base.js:649 | the row indexes `0 .. n-1` in order |
| Selector.Keep | src/api/api.base.js:683-701 | the kept elements are exactly those of the input the filter accepts |
| Selector.KeepIncreasing | src/api/api.base.js:683-701 | filtering keeps a strictly increasing order |
| Selector.DisplayEnd | src/api/api.base.js:657 | the page end never passes the end of `aiDisplay`, and is its end when paging is off or the length is -1 |
| Selector.KeepLoop | src/api/api.base.js:683-719 | (the loops at lines 683-701 and 710-719) the filtering loops compute the specified filter |
| Selector.PageLoop | src/api/api.base.js:652-662 | the current-page loop lists the specified page rows |
| Selector.RowIndexes | src/api/api.base.js:632-723 | the candidate rows and new state are the specified ones |
| Selector.IndicesIncreasing | src/api/api.base.js:683-689 | index order is strictly increasing |
| Selector.IndexOrderRows | src/api/api.base.js:682-701 | `order: 'index'` lists in ascending order exactly the live rows that pass `search`, and changes nothing |
| Selector.SearchSplitsMaster | src/api/api.base.js:663-681 | with the current order, `search: 'applied'` and `'removed'` split the master rows into two disjoint parts |
| Selector.CurrentPageRows | src/api/api.base.js:652-662 | `page: 'current'` lists the current page of `aiDisplay`, at most one page long, whatever `order` and `search` say |
| Selector.ColumnOrderRows | src/api/api.base.js:702-707 | a numeric `order` lists a permutation of the master rows and leaves the master list and ordering state unchanged |
| Selector.ServerSideRows | src/api/api.base.js:644-650 | under server-side processing only `search` matters, nothing changes, and the rows are ascending master positions |
| Selector.AllOf | src/api/api.all.js:1234 | every candidate is a result of the atom, in order |
| Selector.RowSelect | src/api/api.all.js:1212-1304 | the row selection and new state are the specified ones |
| Selector.IntegerAtom | src/api/api.all.js:1229-1231 | an integer atom selects that row exactly when it is a candidate |
| Selector.EmptyAtom | src/api/api.all.js:1232-1235 | an empty atom selects every candidate, in candidate order |
| Selector.PresentAll | src/api/api.all.js:1232-1235 | results with no missing entries are kept whole |
| Selector.FunctionAtom | src/api/api.all.js:1238-1243 | a function atom throws exactly when a candidate's slot is empty, and otherwise keeps the candidates it accepts, in order |
| Selector.HashNotInteger | src/api/api.all.js:1215-1272 | (the integer test at line 1215 and the `#` branch at line 1272) a `#id` string is never read as a row index |
| Selector.IdAtom | src/api/api.all.js:1272-1278 | a `#id` atom selects the row registered under that id, candidate or not |
| Selector.RowRun | src/api/api.all.js:1214-1295 | a `null` or `undefined` atom selects every candidate row, in candidate order |
| Selector.NoAtomsNoRows | src/api/api.all.js:1297-1303 | with no atoms no row is selected and the state is unchanged |
| Selector.FollowAll | src/core/core.sort.js:287-311 | ordering the master by itself changes nothing |
| Selector.FollowPrefix | src/core/core.sort.js:287-311 | ordering a prefix of the master by the master changes nothing |
| Selector.AllRowsInMasterOrder | src/api/api.all.js:1306-1330 | `rows()` with default options selects every row once, in master order, and changes nothing |
| Selector.Mask | src/api/api.all.js:1916-1924 | position i holds i exactly when the test accepts i |
| Selector.ColumnPattern | src/api/api.all.js:1827 | a match's kind is one of `name`, `title`, `visIdx`, `visible` |
| Selector.MaskKeeps | src/api/api.all.js:1916-1924 | the columns a mask keeps are the accepted indexes, ascending |
| Selector.AllColumnsAtom | src/api/api.all.js:1898-1901 | `''` selects every column, in index order |
| Selector.ColumnRun | src/api/api.all.js:1895-2014 | an integer atom selects that index, counted from the right when negative; `null` and `undefined` throw on reading `nodeName` |
| Selector.KeepAll | src/api/api.base.js:683-701 | a filter that accepts everything keeps the list as it is |
| Selector.IndexAtomWraps | src/api/api.all.js:1903-1910 | an index from `-n` to `n-1` selects column `i mod n` |
| Selector.ColonNotInteger | src/api/api.all.js:1896-1928 | (the integer test at line 1896 and the pattern at line 1928) a string with a colon and no surrounding white space is not an integer |
| Selector.PatternSplits | src/api/api.all.js:1827 | `name:kind` splits back into its name and kind |
| Selector.PatternRun | src/api/api.all.js:1928-1989 | a `name:kind` string is resolved by the pattern branch |
| Selector.PatternReached | src/api/api.all.js:1928-1989 | a `name:kind` string reaches the pattern branch |
| Selector.NameRun | src/api/api.all.js:1965-1974 | `name:name` masks the columns by `sName` |
| Selector.VisibleIndexRun | src/api/api.all.js:1932-1948 | `n:visIdx` resolves to the visible-to-column mapping of n |
| Selector.VisibleIndexReached | src/api/api.all.js:1932-1948 | `n:visIdx` reaches the visible-index branch |
| Selector.VisibleIndexPattern | src/api/api.all.js:1935-1947 | a digit run names a visible position |
| Selector.PatternColumns | src/api/api.all.js:1930-1985 | every column a `name:kind` pattern selects is an existing column index, and a `:name` pattern gives one entry per column |
| Selector.NameAtom | src/api/api.all.js:1965-1974 | `name:name` selects exactly the columns whose `sName` is `name`, in index order |
| Selector.VisibleIndexAtom | src/api/api.all.js:1932-1948 | `n:visIdx` selects the n-th visible column, visible and at visible position n, and none past the last |
| Selector.FunctionColumns | src/api/api.all.js:1912-1925 | a function atom keeps the accepted columns in index order and throws exactly when the candidate rows do |
| Selector.IndexColumnOrder | src/api/api.all.js:2017-2023 | `columnOrder: 'index'` gives the same columns, each once, in increasing order |
| Selector.ColumnSelectSpec | src/api/api.all.js:1889-2023 | `columnOrder: 'index'` only reorders: the selection throws exactly when the unordered one does and holds the same columns, as many times each |
| Selector.Grid | src/api/api.all.js:2383-2410 | the all-cells grid has one cell per row and column |
| Selector.RowOf | src/api/api.all.js:2386-2409 | one grid row pairs the row with each column in order |
| Selector.PickedRow | src/api/api.all.js:2386-2404 | a cell of a live row is kept exactly when the function accepts it |
| Selector.Queried | src/api/api.all.js:2426-2435 | one new cell object per cell the jQuery filter keeps |
| Selector.GridAt | src/api/api.all.js:2383-2410 | the cell of row i and column j sits at `i * columns + j`: the grid is row-major |
| Selector.AllCellsAtom | src/api/api.all.js:2379-2412 | `null` selects every cell of every candidate row once, in grid order |
| Selector.CellRun | src/api/api.all.js:2376-2453 | `null` and `undefined` give one cell per candidate row and column; a cell index object gives at most itself |
| Selector.CellSelectSpec | src/api/api.all.js:2367-2456 | the candidate rows are worked out first: the table afterwards is the one that pass leaves, and an exception there is the result |
| Selector.CellIndexAtom | src/api/api.all.js:2416-2423 | a cell index object is selected as it is exactly when its row is a candidate |
| Selector.Filter | src/api/api.all.js:2392-2404 | the kept cells are exactly those passing the test |
| Selector.FunctionCellsThrow | src/api/api.all.js:2392-2404 | a function atom throws exactly when there are columns and a candidate's slot is empty |
| Selector.FunctionCells | src/api/api.all.js:2379-2412 | otherwise it keeps the grid cells the function accepts, in row-major order |
| Selector.PresentConcat | src/api/api.base.js:570-576 | dropping missing entries distributes over concatenation |
| Selector.FilterConcat | src/api/api.all.js:2383-2410 | filtering distributes over concatenation |
| Selector.FilterRow | src/api/api.all.js:2386-2409 | one row of a function atom is the accepted cells of that row, in column order |
| Selector.PresentFilter | src/api/api.all.js:2386-2409 | keeping the cells a per-cell test accepted is the same as filtering the row by that test |
| Selector.CrossProduct | src/api/api.all.js:2484-2515 | with a column selector, `cells()` pairs every selected row with every selected column, row by row, under the same options |
| Selector.CellsApi | src/api/api.all.js:2458-2495 | with a column selector, a column selection that throws leaves the table as it was and passes the exception on |
| Selector.OptionsFirst | src/api/api.all.js:2460-2466 | options passed first without `row` mean all rows: `cells(opts)` is `cells(null, opts)` |
| TableApi.Unlisted | src/api/api.all.js:1405-1408 | a row that is not listed leaves the master list as it was |
| TableApi.RemoveRow | src/api/api.all.js:1400-1425 | removing one row leaves the specified state, including the throw on an empty slot after the list updates |
| TableApi.RemoveRows | src/api/api.all.js:1399-1428 | removing a selection leaves the specified state, row by row |
| TableApi.RemovedRowsStop | src/api/api.all.js:1399-1428 | once a removal throws, the later rows are not touched |
| TableApi.UnlistedMembers | src/api/api.all.js:1405-1408 | taking a row out of a duplicate-free list leaves every other element, once each |
| TableApi.SpliceMembers | src/api/api.all.js:1407 | splicing out one position leaves exactly the other elements |
| TableApi.RemoveLiveRow | src/api/api.all.js:1400-1425 | removing a live row keeps the arena invariant, empties only its slot, takes it out of the master list and `aIds`, and leaves `aiDisplay` as it was |
| TableApi.RemoveDisplayedRowLeavesDisplay | src/api/api.all.js:1400-1425 | removing a displayed live row takes it out of the master but leaves it in `aiDisplay`, so `aiDisplay` is no longer drawn from the master until the next draw |
| TableApi.RemoveEmptySlot | src/api/api.all.js:1402-1419 | (the slot read at line 1402 and the empty-slot write at line 1419) an empty slot is never revived: removing it throws and leaves the arena as it was |
| TableApi.RemoveTwice | src/api/api.all.js:1399-1428 | removing the same row twice throws on the second removal, after the first took effect |
| TableApi.RemoveDistinctRows | src/api/api.all.js:1399-1428 | removing distinct live rows keeps the arena invariant and leaves live exactly the slots not removed |
| TableApi.Entries | src/api/api.all.js:2673-2676 | resolution never yields more entries than it is given |
| TableApi.Order | src/api/api.all.js:2653-2678 | `order()` reads or replaces the ordering as specified, changing nothing else |
| TableApi.OrderSpec | src/api/api.all.js:2653-2678 | with no first argument `order()` reads `aaSorting`; any other call replaces `aaSorting` and changes nothing else |
| TableApi.OrderColumn | src/api/api.all.js:2663-2665 | `order(n, dir)` makes `[[n, dir]]` the whole ordering and changes nothing else |
| TableApi.OnePair | src/core/core.sortAlgo.js:101-105 | a 2-D list of one pair resolves to that pair |
| TableApi.OrderArgumentsAsList | src/api/api.all.js:2666-2669 | pairs given as separate arguments order the table as the same pairs given as one list |
| TableApi.PairList | src/api/api.all.js:2650 | one `[column, direction]` pair per input pair |
| TableApi.PushPairs | src/core/core.sortAlgo.js:101-105 | resolving a list of pairs yields one entry per pair, in order |
| TableApi.EntriesAppend | src/api/api.all.js:2673-2676 | entries of a joined list are the entries of each part, joined |
| TableApi.OrderPairs | src/api/api.all.js:2672-2677 | a 2-D list of pairs becomes the ordering, pair for pair, in order |
| TableApi.OrderReadBack | src/api/api.all.js:2657-2677 | reading the ordering after setting it gives the stored entries back |
| TableApi.PageArithmetic | src/api/api.all.js:842-843 | `floor(start / len)` is the page holding `start`, one of `ceil(records / len)` pages when `start` is a record |
| TableApi.PageInfoSpec | src/api/api.all.js:830-851 | with paging on and a positive length, `page` is the page holding `start`, below `pages` when `start` is a displayed record; `recordsDisplay` is the server's count or the length of `aiDisplay` |
| TableApi.PageHoldsStart | src/api/api.all.js:830-851 | the reported page holds the first displayed record and is one of `pages`; with paging off everything is page 0 of 1 |
| Table.Settings.constructor | src/model/model.all.js:49-63 | a settings object holds exactly the state it is built from |
| JsValue.Get | src/core/core.jq.js:80-156 | an absent property reads `undefined` |
| JsValue.Put | src/core/core.jq.js:80-156 | after a write the property reads the new value, every other property reads as before, no key is lost and keys stay unique |
| JsValue.Trim | src/api/api.base.js:566 | the result is a slice `s[i..j]` of the input, everything cut off on either side is white space, and a non-empty result neither starts nor ends with white space |
| JsValue.TrimIdempotent | src/api/api.base.js:566 | trimming twice is trimming once |
| JsValue.NatToStringRoundTrip | src/core/core.internal.js:144-147 | printing a number and reading it back gives the number |
| JsValue.Prop | src/core/core.internal.js:199-221 | `length` of an array or a string is its size; on an array, a key that is neither `length` nor a canonical index reads `undefined` |
| JsValue.PropAtPrinted | src/core/core.sort.js:272 | reading an array at a printed row index gives the element at that index |
| Internal.Unescape | src/core/core.internal.js:319-321 | unescaping never lengthens the string |
| LibRegistry.Libraries.constructor | src/api/api.lib.js:1-5 | before any set, every library slot holds `undefined` |
| FeatureRegistry.Registry.constructor | src/features/features.api.js:1 | the registry (`_dt_ext_features` and `_dt_ext_feature`, imported from `ext/ext.feature`, which is not part of this model) starts with no features and no legacy letters |
| TypeRegistry.TypeRegistryState.constructor | src/ext/ext.types.js:23-120 | the type registry starts empty |
| TypeRegistry.TypeRegistryState.RegisterBuiltIn | src/ext/ext.types.js:269-279 | the k-th built-in registration adds exactly the k-th built-in type |
| ColumnTypes.ScanLocal | src/core/core.columns.js:298-361 | scanning a column's cells reads only that column and the row data |
| ColumnTypes.DetectLocal | src/core/core.columns.js:298-361 | detecting a column's type reads only that column and the row data |
| Columns.FirstNumChar | src/core/core.columns.js:561 | the regular expression's match starts at the first digit or `.` |
| Columns.RunEnd | src/core/core.columns.js:561 | each group ends where its character class stops matching |
| Columns.FirstNumCharSkips | src/core/core.columns.js:561 | no digit or `.` precedes the match's start |
| Columns.RunEndMaximal | src/core/core.columns.js:561 | each group is the longest run of its class: the regular expression is greedy |

## Left out

- DOM and rendering: creating and writing rows and cells, header and width handling, the sort listeners and classes, and the jQuery-string, node and `closest()` branches of the selectors. The DOM-query branches take their answer from a parameter; the `tr` and cell nodes a predicate receives are `null`.
- Network, asynchronous loading, initialisation and state saving: these are I/O plumbing with no data logic to state.
- Floating point: numbers are integers. `_isNumber`, `_numToDecimal`, the numeric and date formatters, `localeCompare` ordering and fractional widths are not modelled.
- Columns.ColumnsSumWidth: the number part of a width string is converted with `matched[1] * 1` (src/core/core.columns.js:565). The model reads only its leading digit run (`IntegerPart`), so fractional widths such as `"1.5em"` are truncated, and a number part that JavaScript turns into `NaN` (`"1.2.3"`, `"."`) is read as 1 and 0; a `NaN` sum from such a part is not modelled.
- Unicode normalisation (NFD) and the HTML-tag regular expression are parameters of `Text.Normalize` and `Text.StripHtml`. They are not implemented.
- TypeRegistry.TypeRegistryState.Type: the setters never throw. In the source `setDetect` tags the detector with `Object.defineProperty(detect, "_name", ...)` (src/ext/ext.types.js:205), which throws a `TypeError` when the detector is not an object or function, or when the same detector object was already tagged under another name; `setOrder(null)` throws on reading `obj.pre` (line 218). The model has no per-object tags and `Apply` returns the registry as if the write had succeeded.
- TypeRegistry.LowerString: `toLowerCase` is modelled for ASCII letters only. `toString()` of a non-array object is the fixed `"[object Object]"`, of a function the fixed `"function"` (not its source text) and of a DOM node `"[object HTMLElement]"` (`Text.ToJsString`); a custom `toString` method is not modelled.
- Sort.JsLess: keys are first made primitive as JavaScript does (`Sort.Primitive`). When one primitive is a string and the other is not, the answer is always false. JavaScript would convert the string to a number, so `"2" < 10` is true there; that conversion is not modelled.
- Sort.StrLess, Sort.JsLess, JsValue.Prop, MaxLen.GetMaxLenString, Text.StripHtml, Text.Normalize: strings are sequences of Unicode code points, while JavaScript strings are sequences of UTF-16 code units. A character outside the Basic Multilingual Plane is one element here and a surrogate pair in JavaScript. So `"😀" < "\uFFFD"` is true in JavaScript (0xD83D < 0xFFFD) and false in `Sort.StrLess`. The `length` read by `JsValue.Prop`, the widest-cell measure of `MaxLen.GetMaxLenString`, the `MaxStrLen` guard of `Text.StripHtml` and the length test of `Text.Normalize` count such a character once where JavaScript counts it twice, so `_fnGetMaxLenString` can pick a different widest cell.
- SortAlgo.SortFlatten, Sort.SortRun: both throws of `_fnSortFlatten`, on a `null` entry of a fixed 2-D list and on an `aDataSort` column that does not exist (src/core/core.sortAlgo.js:48), carry the one message `Cannot read properties of null`; JavaScript's message for the second says `undefined` and names `sType`.
- Sort.ToOrder: a custom sorter's return value is read as an integer or a boolean; any other value counts as a tie.
- `Array.prototype.sort` is modelled as a stable insertion sort (`Sorting.InsertionSort`). With an inconsistent comparator the engine's order is implementation-defined, and the model fixes one such order.
- `_fnDataSource` is the flag `serverSide`, and `fnRecordsDisplay` reads `_iRecordsDisplay` only in that mode.
- `fnDisplayEnd` is not part of this model's source; it is `Selector.DisplayEnd`, the end of the current page within `aiDisplay`.
- `_fnLengthOverflow` is the parameter `overflow` of `TableApi.RemoveRow`.
- The `order` event fired by `_fnSort`, and the `_fnCallbackFire` calls of `_fnApplyColumnDefs`, are recorded as a list of calls or dropped. No listener runs.
- The selector extensions (`_dt_ext_selector`) receive only the current result list.
- The `opts.selected` re-selection in `cells()` belongs to the Select extension and is not modelled.
- The state that a column function selector's call of `_selector_row_indexes` may change (a numeric `order` sorts on the way) is not threaded back into the table state.
- Selector.PatternColumns: the `idx < 0` branch of `N:visIdx` cannot run, because `^\d+$` admits no sign, so it is not modelled.
- Selector.CellIndexAtom: a cell index object is compared by value, not by identity.
- Selector.SelectorFirst: the API instance, its `context` and `selector` fields, and aliasing of the spliced array are not modelled; only the result lists are.
- `_unique`, `indexOf` and `includes` compare by structural equality of values. Where the source writes loose equality against a string literal, in `_selector_row_indexes`'s `page == 'current'`, `order == 'current'`, `search == 'applied'` and the like (src/api/api.base.js:652-715), the model compares structurally, so an option value such as `['current']` or an object whose `toString` gives `'current'`, which JavaScript would accept, selects nothing here. The one loose comparison against a number is `Sort.LooseEqIndex`.
- `aIds` is a map from string ids to row indexes. Each table is modelled on its own; the API's multi-table iteration is not.
- TableApi.RemoveRows: `aiDisplay` is not updated, so after removing a displayed row it lists a row the master no longer holds (TableApi.RemoveDisplayedRowLeavesDisplay); the next draw, which rebuilds `aiDisplay`, is not part of this model.
- TableApi.PageInfoSpec, Paging.DrawPages, Paging.InfoPages: each requires a page length of -1 or above 0. A length of 0 makes `page.info()` divide by zero. A negative length other than -1 is also excluded, although the source accepts one: `page.len(-5)` stores -5 through `_fnLengthChange`'s `parseInt`, and `page.info()` then reports `floor(start / -5)` and `ceil(records / -5)` (src/api/api.all.js:842-843), and `_pagingDraw` computes `ceil` of both (src/features/features.page.js:82-87); those negative pages are not modelled.
- TableApi.Entries: a `null` element of a 2-D ordering list is dropped. `order()` stores it, and the next `_fnSortFlatten` throws on it.
- Jq.Extend: the `target === copy` skip of src/core/core.jq.js:121 is not modelled. It compares object identity to avoid building a cycle; values here are finite trees without identity, so a source property whose value equals the target (`_extend(t, {self: t})`) is copied, where JavaScript skips it.
- Columns.ApplyColumnDefs: the callback `fn` receives the column only; the settings object is not passed.
- ColumnTypes.ColumnTypes: detectors receive no settings object, and the `autoClass` class names and the type `render` functions are not applied.
- MaxLen.GetMaxLenString: after a throw, the display caches that were already filled stay filled; nothing else is modelled about the exception.
- SortAlgo.SortFlatten: `_idx` is written onto `aaSorting` entries only. Fixed orderings are resolved afresh on each call, so their `_idx` is not kept.
- Sort.SortData: the custom ordering function receives the column index and its visible index, but not the settings object. String keys into its result are not modelled.
- Sort.SortAdd: a 1-D `aaSorting` is assumed already converted to 2-D, and `addIndex` stands for a non-zero counter.
- Sort.LooseEqIndex: a string column matches when it is a non-empty run of decimal digits whose value is the column index, so `"01"` matches column 1 as in JavaScript. JavaScript's `==` converts the string with `ToNumber`, which also accepts `""` (as 0), surrounding white space, a sign (`"+1"`), a fraction or exponent (`"1.0"`, `"1e0"`) and hexadecimal (`"0x1"`); the model answers false for all of these, and for an array column, which JavaScript converts through its string form.
- `_isPlainObject`, `isArrayLike` and `isWindow` are decided by the kind of value (`Obj` and `Arr`); other array-like objects are not modelled.
- Internal.AreAllUnique: the copy is sorted numerically, where JavaScript's default `sort()` compares printed forms. Both orders put equal integers next to each other, so the answer is the same.
- Internal.IntVal: only numbers and strings holding a plain decimal integer are read. `_intVal('1.5')` and `_intVal('1e3')` give 1 in JavaScript but `null` here, and a one-element array is read through its string form in JavaScript (`_intVal([5])` is 5) but gives `null` here.
- `_dt_util.get`/`set` (object-notation accessors) are the column-accessor parameters; their string paths are not interpreted.
- The `_dt_api` facade (`iterator`, chaining, plural/singular registration) forwards to `Array.prototype` and is not modelled. `rows()`, `columns()` and `cells()` are modelled for one table.

## Findings

| source | as written | input that shows it | evidently intended | confidence | as-written member | corrected member |
|---|---|---|---|---|---|---|
| src/core/core.columns.js:561-570 | the regular expression has two capture groups, so its match array always has three entries and `matched.length === 3` always holds: a width without a unit takes the empty unit and no `px` is appended | one visible column of width `"100"`: the sum is `"100"` | the `px` fallback applies when the unit is empty, giving `"100px"` | high, not executed | Columns.UnitlessWidthAsWritten | Columns.CorrectedSumHasUnit |
| src/core/core.sort.js:62-127 | `aiOrig` (built at lines 62-64, read at lines 124-127) has one entry per master position but is indexed by row index, so a row index at or past the length of the master reads `undefined` and ties with every row | arena `[empty, r1, r2]`, master `[2, 1]`, rows 1 and 2 with equal keys: the order depends on the master's prior order | ties break by row index | high, not executed | Sort.TieBreakCounterexample | Sort.CorrectedOrderIndependent |
| src/core/core.sort.js:270 | the cache test is truthiness, so a falsy key (`""`, `0`, `false`, `null`) is recomputed on every sort | a row whose `-pre` formatter gives `""` is formatted again on the second sort | each cell's key is computed once per cache lifetime | medium, not executed | Sort.EmptyKeyCounterexample | Sort.CachedKeysReused |
