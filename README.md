# PDF tools page list, modelled in Dafny

The PDF tools extension shows the pages of the PDF files dropped on it as a flat tree
view. Each page item has a label (the file name), a description (`#1`, `#2`, ... or
`#A`/`#B` after a split) and a context that binds it to a page of one in-memory PDF
container. The provider (`PageTreeProvider`) keeps the ordered list of items, `data`, and
edits it in place:

- refreshing it, which applies the placeholder rule;
- moving dragged items onto a target;
- appending the pages of a dropped file;
- renaming, removing and sorting;
- splitting a page into two halves, and combining two pages into one;
- rebuilding the container.

The command handlers pick the items a command acts on (the selection, or everything). They
also toggle the sort direction, cut the list into numbered output files (`splitPages`) and
turn pages by 90 degrees (`rotate`).

The model has five modules:

- `Text` (text.dfy): the JavaScript string and number operations used, which are decimal
  printing, `lastIndexOf`, `substring` and the `<` order on strings, which compares UTF-16
  code units.
- `JsArray` (js_array.dfy): `indexOf`, `splice` with negative and clamped positions, and
  `filter(e => !items.includes(e))`.
- `LabelSort` (label_sort.dfy): the label comparator of `sort` and a stable sort on
  (label, item) pairs, standing in for `Array.prototype.sort`.
- `PageTree` (pagetree.dfy): the classes `PdfPage`, `PageItem` and `PageTreeProvider`. It
  also holds the specification functions the provider's methods are proved against
  (`Refresh`, `MoveResult`, `SortedByLabel`, `ApplySplits`, `CombineResult`, ...) and the
  loops of `rename`, `addPdfFile`, `refreshModel` and `split`. `pdfFrom` is a method of
  the provider.
- `Extension` (extension.dfy): the selection rules, the `splitPages` loop (with the
  export and reload of each round) and its file names, the sort command's state (class
  `Context`) and the `rotate` loop.

Some things are modelled to match the source's semantics exactly:

- Items are objects compared by reference, as `includes` and `indexOf` compare them.
- A page is a `PdfPage` object with its size and its mutable rotation angle, so a rotation
  is seen by every item that shows the same page.
- The placeholder is one distinguished item of the provider.
- JavaScript's truncating `%`, `splice`'s handling of -1, `substring`'s clamping and the
  printing of `undefined` in `+` are written out.

## Model

| member | source | states |
|---|---|---|
| Text.NatToString | src/pagetree.ts:158 | the printed counter `n` of `"#" + n` is a non-empty string of decimal digits with no leading zero: a leading `0` is the whole of "0", the print of 0 |
| Text.ParsePrinted | src/extension.ts:97 | reading the printed counter back as decimal digits gives the counter |
| Text.PrintedInjective | src/extension.ts:97 | two different counters never print the same |
| Text.LastIndexOf | src/pagetree.ts:135 | `lastIndexOf("/")` is -1 or a position holding the character, and no later position holds it |
| Text.Substring | src/pagetree.ts:135 | `substring` never yields more than the string, and within bounds it is the slice between them |
| Text.CodeUnits | src/pagetree.ts:289 | a character below 0x10000 is one code unit, its own value and not a surrogate; above, it is a lead surrogate then a trail surrogate, which decode back to the character |
| Text.Utf16 | src/pagetree.ts:289 | a string is held as its characters' code units, at least one per character |
| Text.Utf16Injective | src/pagetree.ts:289 | different strings are held as different code units |
| Text.Utf16Concat | src/extension.ts:87 | the code units of a concatenation are those of its parts, in order |
| Text.Utf16OfBmp | src/extension.ts:87 | a string of characters below 0x10000 has one code unit per character |
| Text.UnitsLessIrreflexive | src/pagetree.ts:289 | no code-unit sequence is before itself |
| Text.UnitsLessTransitive | src/pagetree.ts:289 | the code-unit order is transitive |
| Text.UnitsLessTotal | src/pagetree.ts:289 | of two different code-unit sequences, one comes before the other |
| Text.LexLess | src/pagetree.ts:289 | JavaScript's `<` on strings: lexicographic on the UTF-16 code units, a proper prefix first |
| Text.LexLessIrreflexive | src/pagetree.ts:289 | no label is `<` itself |
| Text.LexLessTransitive | src/pagetree.ts:289 | string `<` is transitive |
| Text.LexLessTotal | src/pagetree.ts:289 | of two different labels, one is `<` the other |
| Text.LexLessAsymmetric | src/pagetree.ts:289 | `a < b` excludes `b < a` |
| Text.SurrogatesSortFirst | src/pagetree.ts:289 | a character above 0xFFFF sorts by its lead surrogate: U+1F600 comes before U+FF01, against the order of the characters |
| JsArray.IndexOf | src/pagetree.ts:147 | `indexOf` is -1 exactly when the item is absent; otherwise the item is there and not earlier |
| JsArray.IndexOfFirst | src/pagetree.ts:192 | the first position that holds an item is the one `indexOf` returns |
| JsArray.SpliceStart | src/pagetree.ts:150 | the start of `splice` is the position itself when it is in range, counts from the end when it is negative, and is clamped into the array |
| JsArray.Splice | src/pagetree.ts:150 | the length after `splice` counts the deleted and the inserted elements; everything before the start is kept |
| JsArray.SpliceInRange | src/pagetree.ts:214-215 | inside the array, `splice` puts the items in place of `deleteCount` elements at the start |
| JsArray.SpliceNothing | src/pagetree.ts:150 | a splice that deletes nothing and inserts nothing changes nothing, wherever it starts |
| JsArray.Without | src/pagetree.ts:148 | the filtered list is no longer than the list and holds none of the removed items |
| JsArray.WithoutKeeps | src/pagetree.ts:165 | every element that is not removed survives the filter |
| JsArray.WithoutExcludes | src/pagetree.ts:165 | no removed element survives the filter |
| JsArray.WithoutConcat | src/pagetree.ts:148 | filtering distributes over concatenation, so the relative order of what stays is kept |
| JsArray.WithoutNone | src/pagetree.ts:148 | filtering out items the list does not hold changes nothing |
| JsArray.WithoutIdempotent | src/pagetree.ts:148 | filtering twice by the same items is filtering once |
| JsArray.FilteredSliceUnchanged | src/pagetree.ts:148-150 | a slice of a filtered list has nothing left to filter out |
| JsArray.WithoutCovered | src/pagetree.ts:148 | a list made only of removed items filters to nothing |
| JsArray.WithoutEverything | src/pagetree.ts:148 | a list filtered by itself is empty |
| JsArray.WithoutInsertedBlock | src/pagetree.ts:148-150 | the removed items, put back as a block between two clean parts, are filtered out again |
| LabelSort.Compare | src/pagetree.ts:289 | the comparator gives 0 exactly for equal labels, and otherwise -1 or 1 |
| LabelSort.BeforeMeaning | src/pagetree.ts:289 | with `ascending` the comparator puts `a` first exactly when `b < a`, so the larger label comes first; without it, exactly when `a < b` |
| LabelSort.NotBeforeTransitive | src/pagetree.ts:289 | "not put after" is transitive, so the comparator is a consistent order |
| LabelSort.CompareAntisymmetric | src/pagetree.ts:289 | swapping the two labels negates the comparator's result |
| LabelSort.InsertSplit | src/pagetree.ts:289 | one insertion step of the sort puts the entry between a front and a back part of the sorted rest |
| LabelSort.InsertPermutes | src/pagetree.ts:289 | an insertion step adds the entry and loses none |
| LabelSort.SortKeyedPermutes | src/pagetree.ts:289 | the sort is a permutation of the (label, item) entries |
| LabelSort.InsertMembers | src/pagetree.ts:289 | an insertion step adds only the inserted entry |
| LabelSort.InsertSorted | src/pagetree.ts:289 | inserting into an ordered sequence keeps it ordered |
| LabelSort.SortKeyedSorted | src/pagetree.ts:289 | the sorted sequence is ordered by the comparator |
| LabelSort.WithKey | src/pagetree.ts:289 | the entries picked out all carry the given label |
| LabelSort.InsertStable | src/pagetree.ts:289 | an insertion step keeps the order of the entries sharing a label, the new one going first among them |
| LabelSort.SortKeyedStable | src/pagetree.ts:289 | the sort is stable: for every label, its entries keep their relative order |
| LabelSort.SortDirection | src/pagetree.ts:289 | after the sort the labels are non-increasing for `ascending` and non-decreasing otherwise |
| PageTree.PageItem.constructor | src/pagetree.ts:15-20 | a new item carries the given label, description and page context |
| PageTree.PdfPage.constructor | src/pagetree.ts:70 | a new page has the given size and rotation |
| PageTree.RealItems | src/pagetree.ts:56 | the filter of `refreshTree` keeps only items of the list and never the placeholder |
| PageTree.Refresh | src/pagetree.ts:52-59 | the refreshed list is never empty; it is `[placeholder]` exactly when the list held no real item; otherwise the placeholder is gone; every item shown came from the list |
| PageTree.RealItemsComplete | src/pagetree.ts:56 | every item that is neither undefined nor the placeholder passes the filter |
| PageTree.RefreshComplete | src/pagetree.ts:52-59 | every real item is still in the list after a refresh |
| PageTree.RealItemsConcat | src/pagetree.ts:56 | the filter keeps the relative order of the real items |
| PageTree.RealItemsOfReal | src/pagetree.ts:56 | a list holding neither undefined entries nor the placeholder passes the filter unchanged |
| PageTree.RefreshIdempotent | src/pagetree.ts:244-245 | refreshing twice is refreshing once, so the second refresh of `combine` changes nothing |
| PageTree.MovePositionAtTop | src/pagetree.ts:147-149 | a target that was first, is one of the moved items or is not in the list makes the splice position 0 |
| PageTree.MovePositionAfterTarget | src/pagetree.ts:147-149 | a target that stays and is not first makes the splice position one past the number of items that stay and came before it |
| PageTree.StayingTargetIndex | src/pagetree.ts:148-149 | a target that stays is found, in the filtered list, after exactly the items that stay and preceded it |
| PageTree.MoveResult | src/pagetree.ts:145-150 | the list after `moveTo`: the filtered list with the moved items spliced in at the move position (its meaning is stated by the lemmas below) |
| PageTree.MoveIsBlockInsertion | src/pagetree.ts:148-150 | the moved items come back as one block, in the order given, inside the filtered list |
| PageTree.MoveKeepsOthers | src/pagetree.ts:148-150 | the items not moved keep their relative order |
| PageTree.MoveNothing | src/pagetree.ts:145-151 | moving no items leaves the list as it was |
| PageTree.MoveOntoFirst | src/pagetree.ts:147-150 | dropping onto the item at index 0 puts the block at the top |
| PageTree.MoveOntoOther | src/pagetree.ts:147-150 | dropping onto any other item that stays puts the block right after the target, in the list without the moved items |
| PageTree.MoveOneDown | src/pagetree.ts:147-150 | one item dragged downwards lands at the target's old index, right after the target |
| PageTree.MoveOneUp | src/pagetree.ts:147-150 | one item dragged upwards onto a target that is not first lands one slot below the target's old index, right after the target |
| PageTree.MoveOntoMovedItem | src/pagetree.ts:147-150 | dropping onto one of the moved items, when it is not first, puts the block at the top, because `indexOf` then gives -1 |
| PageTree.MoveWithoutTarget | src/pagetree.ts:149-150 | without a target the block goes before the last remaining item, or alone into an empty list |
| PageTree.FileLabel | src/pagetree.ts:135 | the label of a new item: the file name between the last `/` and the last four characters, with `substring`'s clamping (see the two lemmas below) |
| PageTree.FileLabelOfPath | src/pagetree.ts:135 | the label of a file at `dir/name` is `name` without its last four characters |
| PageTree.FileLabelOfName | src/pagetree.ts:135 | the label of a bare file name is the name without its last four characters |
| PageTree.JsRemainder | src/pagetree.ts:187 | JavaScript's `%` takes the sign of the dividend, stays below the divisor in size, and differs from the dividend by a multiple of the divisor |
| PageTree.FlipsOrientation | src/pagetree.ts:187 | the rotation test `angle / 90 % 2 === 1`, which needs a whole quotient |
| PageTree.FlipsOrientationIff | src/pagetree.ts:187-189 | the rotation test flips the split direction exactly for the positive odd multiples of 90 degrees |
| PageTree.IsHorizontal | src/pagetree.ts:185-189 | the split direction asked for, flipped when the rotation test holds |
| PageTree.SplitsAt | src/pagetree.ts:185-193 | an item is split exactly when it has a page, its index names a page of the container, and the page is wider than tall for a horizontal split (after the rotation test) or taller than wide for a vertical one |
| PageTree.Angles | src/pagetree.ts:187 | the angles recorded for the items are their pages' angles |
| PageTree.ChosenStep | src/pagetree.ts:216-217 | one more decision adds the item to the items split exactly when it is split |
| PageTree.HalfSize | src/pagetree.ts:194-197 | both halves get half the width for a horizontal split and half the height for a vertical one |
| PageTree.SplitReplacesSlot | src/pagetree.ts:192-215 | a split item's slot is replaced by its two nodes, so the list grows by one |
| PageTree.SplitOfAbsentItemReplacesLast | src/pagetree.ts:192-215 | splitting an item that is not in the list replaces the list's last item, because `indexOf` gives -1 |
| PageTree.SplitsLengthen | src/pagetree.ts:214-215 | the split steps lengthen the list by one item per split (two when the first split goes into an empty list) |
| PageTree.SplitPair | src/pagetree.ts:193-215 | what one split leaves: two nodes with the item's label, `#A` and `#B`, bound to the two new pages (left node first for a horizontal split, right node first for a vertical one), both of the half size and the rotation of the copied page |
| PageTree.SplitPairExtend | src/pagetree.ts:203-210 | pages added to the container later do not disturb an earlier split pair |
| PageTree.SplitPairs | src/pagetree.ts:183-217 | the m-th item split has nodes 2m and 2m+1 and the new pages at the base plus 2m and 2m+1 |
| PageTree.SplitPairsNext | src/pagetree.ts:183-217 | one pass of the loop keeps the pairs so far and adds the pair of a split item |
| PageTree.PairsFollowPattern | src/pagetree.ts:212-213 | the nodes come as `#A` then `#B`, each pair labelled like the item split |
| PageTree.CombinedDescription | src/pagetree.ts:242 | the new description is both descriptions joined by a space; a missing one prints as "undefined", in each of the four cases |
| PageTree.CombineResult | src/pagetree.ts:243-244 | the list after `combine`: the new item spliced in at `left`'s index, then both halves filtered out (see the two lemmas below) |
| PageTree.CombineTakesLeftsPlace | src/pagetree.ts:243-244 | the combined item takes the place of `left` among the items that stay, and both halves are gone |
| PageTree.CombineOfAbsentLeft | src/pagetree.ts:243 | when `left` is not in the list, the combined item goes in before the list's last item |
| PageTree.CombinedSize | src/pagetree.ts:232-237 | the new page is twice as wide side by side ("h") and twice as tall one above the other ("v"), whatever the rotation |
| PageTree.CombineUndoesSplitSize | src/pagetree.ts:194-237 | combining the two halves of a split in the split's direction (flipped when the rotation flipped it) gives back the page's size; the other direction does not, unless the page has no size |
| PageTree.CombineFails | src/pagetree.ts:231 | the embedding throws when either half has no page context or names no page of the container |
| PageTree.KeyedByLabel | src/pagetree.ts:289 | the comparator sees every item paired with its own label, in list order |
| PageTree.SortedByLabel | src/pagetree.ts:289 | the list after the library sort with the label comparator (its meaning is stated by the three lemmas below) |
| PageTree.WithLabelOfKeyed | src/pagetree.ts:289 | picking the items with a label commutes with pairing them with their labels |
| PageTree.InsertKeepsItems | src/pagetree.ts:289 | an insertion step adds one item to the items and loses none |
| PageTree.SortKeepsItems | src/pagetree.ts:289 | the sorted entries hold the same items |
| PageTree.SortedKeysAreLabels | src/pagetree.ts:289 | after the sort every entry's key is still its item's label |
| PageTree.SortByLabelPermutes | src/pagetree.ts:289 | `sort` leaves a permutation of the list |
| PageTree.SortByLabelOrders | src/pagetree.ts:289 | `sort(true)` leaves the labels non-increasing and `sort(false)` non-decreasing |
| PageTree.SortByLabelStable | src/pagetree.ts:289 | the items sharing a label keep their relative order |
| PageTree.Relabel | src/pagetree.ts:155-159 | every listed item gets the label, and the item at position j (its last place in the list) gets `#(j+1)` |
| PageTree.LastOccurrences | src/pagetree.ts:156-159 | an item not listed again later is at its last place, where the numbering leaves it |
| PageTree.Reloadable | src/pagetree.ts:74 | `refreshModel` can rebuild the list exactly when every item has a page context |
| PageTree.Exportable | src/pagetree.ts:255-257 | `pdfFrom` can copy items exactly when each has a page context naming a page of the container |
| PageTree.CopyPages | src/pagetree.ts:70 | copying the pages at the given indices gives one new page per index, in order, with the size and angle of the page at that index |
| PageTree.NewItems | src/pagetree.ts:132-140 | one new item per copied page, labelled after the file, described `#1`, `#2`, ... and bound to consecutive page indices from the container's page count |
| PageTree.RebindItems | src/pagetree.ts:74 | every item gets a new item with the same label, description and page index, bound to the copy at that index (none past the end); an item without a context makes it fail |
| PageTree.PageTreeProvider.constructor | src/pagetree.ts:34-39 | the provider starts with the given list and an empty container |
| PageTree.PageTreeProvider.RefreshTree | src/pagetree.ts:52-60 | a given list replaces the old one before the placeholder rule is applied; the result is never empty and shows the placeholder only on its own |
| PageTree.PageTreeProvider.MoveTo | src/pagetree.ts:145-151 | the list becomes the filtered list with the block spliced in at the move position |
| PageTree.PageTreeProvider.HandleDropItems | src/pagetree.ts:92-116 | dropping dragged items moves them onto the target and then refreshes the tree |
| PageTree.PageTreeProvider.Rename | src/pagetree.ts:154-161 | every item gets the label and `#1` ... `#n` in list order (the last place of an item listed twice), and the tree is refreshed |
| PageTree.PageTreeProvider.Remove | src/pagetree.ts:164-166 | the list becomes the old items not removed, in their order, under the placeholder rule |
| PageTree.PageTreeProvider.Clear | src/pagetree.ts:80-84 | the list ends up as just the placeholder, and the container is empty |
| PageTree.PageTreeProvider.Sort | src/pagetree.ts:288-291 | the list becomes the stable label sort of itself, and on a list of real items the refresh changes nothing more |
| PageTree.PageTreeProvider.AddPdfFile | src/pagetree.ts:127-142 | the container gains a copy of each page of the file; the new items get their labels, numbers and consecutive page indices; they are appended and, when there is a target, moved onto it |
| PageTree.PageTreeProvider.RefreshModel | src/pagetree.ts:68-77 | it fails exactly when an item has no page context, and then changes nothing; otherwise the container is rebuilt from fresh copies of the same sizes and angles, and every item is replaced by a new one with the same label, description and page index, bound to the copy at that index; an empty list becomes the placeholder alone |
| PageTree.PageTreeProvider.PdfFrom | src/pagetree.ts:249-286 | it fails exactly when an item has no page context or names no page of the container, or when the reload asked for fails; otherwise the document holds a fresh copy of each item's page, in the items' order, of its size and angle, and a reload acts as `refreshModel`; a failure or no reload changes nothing |
| PageTree.PageTreeProvider.Split | src/pagetree.ts:181-225 | the decisions follow the split test in turn (the container grows by two pages per split); the list is the result of the split steps, refreshed; for the m-th item split, nodes 2m and 2m+1 are its pair: its label, `#A`/`#B`, bound to the new pages at the old page count plus 2m and 2m+1, the left page first for a horizontal split and the right one for a vertical split, both of the half size and the rotation of the page copied |
| PageTree.PageTreeProvider.Combine | src/pagetree.ts:228-247 | the container gains a blank page; the operation fails exactly when a half has no context or names no page, leaving the list; otherwise the page takes the combined size and is added again; the new item has `left`'s label and both descriptions, is bound to the last page index and takes `left`'s place, and both halves are removed |
| PageTree.PageTreeProvider.PutInPlaceOfHalves | src/pagetree.ts:243-245 | the combined item is spliced in at `left`'s index, both halves are removed, and the tree is refreshed |
| PageTree.SplitItem | src/pagetree.ts:185-217 | one item is split exactly when the split test holds; then two new pages of half the size and the copied page's angle are added, and two nodes `#A` and `#B` (left node first for a horizontal split, right node first for a vertical one) replace its slot, forming its split pair |
| PageTree.SplitNext | src/pagetree.ts:183-218 | one pass of the loop extends the decisions, the split items, the nodes and the list by one item's outcome, and keeps every split pair made so far |
| PageTree.SplitItems | src/pagetree.ts:183-222 | the loop of `split` takes the decisions in order, applies the split steps, adds two pages and two nodes per split, and leaves one split pair per item split |
| Extension.SplitPagesSourceDiffers | src/extension.ts:88 | `splitPages` and `_getSelectedOrAll` choose differently exactly when one item is selected and it is not the whole list |
| Extension.SelectedOrAll | src/extension.ts:118-120 | the selection when something is selected, otherwise the whole list |
| Extension.SplitPagesSource | src/extension.ts:88 | the selection only when more than one item is selected, otherwise the whole list |
| Extension.SelectedOrAllNotEmpty | src/extension.ts:118-120 | on a non-empty list, `_getSelectedOrAll` is never empty and holds only selected or listed items |
| Extension.ChunksFlatten | src/extension.ts:90-98 | the slices written, put back together, are the pages in order |
| Extension.ChunksSizes | src/extension.ts:92-94 | every slice has `pagesPerDoc` pages except the last, which has 1 to `pagesPerDoc` |
| Extension.ChunksCount | src/extension.ts:92-98 | there are ⌈n / pagesPerDoc⌉ slices |
| Extension.FilePrefix | src/extension.ts:87 | the prefix is the chosen path without its last four characters (code points) |
| Extension.FilePrefixCodeUnits | src/extension.ts:87 | when the path's last four characters are each one UTF-16 code unit, the prefix is exactly the path's code units without the last four, as `substring(0, length - 4)` cuts them |
| Extension.ChunkFileName | src/extension.ts:97 | the name `prefix + "_" + counter + ".pdf"` |
| Extension.ChunkFileNameOfPdf | src/extension.ts:87-97 | a path chosen as `p.pdf` gives the files `p_1.pdf`, `p_2.pdf`, ... |
| Extension.ChunkFileNamesDistinct | src/extension.ts:97 | different output files get different names |
| Extension.ExportCount | src/extension.ts:92-97 | how many slices, from the first, `pdfFrom` can copy: never more than there are, and the one at the count cannot be copied |
| Extension.ExportCountPrefix | src/extension.ts:92-97 | every slice before the count can be copied |
| Extension.ExportCountAt | src/extension.ts:92-97 | the count stops at the first slice that cannot be copied |
| Extension.ExportCountPast | src/extension.ts:92-97 | the count goes past a slice that can be copied when all before it can |
| Extension.FilesWritten | src/extension.ts:92-97 | the number of files written before the command ends or throws: none when the first reload throws, at most one when the list was empty, otherwise the slices that can be copied |
| Extension.FilesWrittenStops | src/extension.ts:94-97 | the files written stop at the first round whose copy or reload throws |
| Extension.FilesWrittenGoes | src/extension.ts:94-97 | a round whose copy and reload go through counts as a file written |
| Extension.ChunksExport | src/extension.ts:92-94 | when every page can be copied, every slice can |
| Extension.SplitAllWritesEveryFile | src/extension.ts:88-97 | splitting the whole list of a loaded document writes one file per slice |
| Extension.SplitPlaceholderWritesNothing | src/extension.ts:88-97 | splitting a list that is the placeholder alone writes no file |
| Extension.ExportRound | src/extension.ts:94 | one `pdfFrom(chunk)` of the loop goes through exactly when the round can, and keeps what every reload keeps |
| Extension.SplitRound | src/extension.ts:93-97 | one round takes the next slice and, when `pdfFrom` goes through, writes the next numbered file with it; otherwise it stops with the files written so far |
| Extension.WriteChunks | src/extension.ts:90-98 | the loop writes file `i` named after `i` with the `i`-th slice, as many files as `FilesWritten`, and completes exactly when every slice got one |
| Extension.SplitPages | src/extension.ts:85-98 | with `pagesPerDoc` at least 1: file `i` is named `prefix_i.pdf` and holds the `i`-th slice; the files written are the rounds up to the first whose `pdfFrom` throws (`FilesWritten`), and the command completes exactly when every slice got a file; every reload keeps the pages' sizes and rotations and the items' labels, descriptions and page indices; with no file written nothing changed |
| Extension.SplitPagesNeverEnds | src/extension.ts:89-95 | with `pagesPerDoc` at most 0 and at least one page, `position` never reaches the length |
| Extension.PositionAfter | src/extension.ts:92-95 | the loop's position after a number of rounds, `min(length, position + pagesPerDoc)` each time, for any integer typed in |
| Extension.PositionAdvances | src/extension.ts:92-95 | with `pagesPerDoc` at least 1, the position after `s` rounds is `min(n, s * pagesPerDoc)`, so the loop ends |
| Extension.SortStateAfter | src/extension.ts:38 | the sort state after `n` commands, each negating it |
| Extension.SortStateAlternates | src/extension.ts:37-40 | the `n`-th sort command sorts with `true` when `n` is odd, so the first one sorts descending |
| Extension.Context.constructor | src/extension.ts:6 | the sort state starts out false |
| Extension.Context.SortCommand | src/extension.ts:37-40 | the command flips the state and sorts the provider's list with the new state |
| Extension.RotateReach | src/extension.ts:58-59 | the loop gets as far as the first item without a page |
| Extension.OccurrencesExtend | src/extension.ts:58-61 | each item handled adds one turn to its own page and none to the others |
| Extension.Rotate | src/extension.ts:57-62 | every page turns by 90 degrees once per targeted item that shows it, up to the first item without a page |

## Left out

- The editor host's APIs are parameters or left out. They include the tree view and its
  selection, the change event, `getTreeItem`, drag and drop transfer objects, dialogs,
  input boxes, the webview preview and the output channel.
  A rename whose input box is cancelled passes `newName!`, which is `undefined`
  (src/extension.ts:24-25, 28-29), so the labels become `undefined`. The comparator at
  src/pagetree.ts:289 treats that as "" under `<` but not under `===`. Labels are strings
  here, so that case is not modelled.
- `_getSelected` returns the selection, which is a parameter here. `getPageItems` returns
  the provider's own `data` array, not a copy. Here that is `GetChildren(null)`, a value.
  `splitPages` reads it once before its loop. That is faithful, because `refreshModel`
  assigns a new array to `data` rather than changing the old one.
- getChildren: `GetChildren` returns the list for the root and nothing for an item. Its
  definition is all there is to it, so it has no row above.
- getPageIndices: `PageIndices(n)` is the list 0 to n-1. Its definition is all there is
  to it, so it has no row above; the `CopyPages` and `RefreshModel` rows cover line 70.
- The PDF library is not modelled. A page keeps only its size and rotation. `copyPages`
  makes new pages of the same size and rotation, and `addPage()` makes an A4 page. Crop,
  media, art and bleed boxes, drawing, `embedPdf`'s geometry and saving are not modelled.
  The container is assumed to exist (`initialize` has run), so the `if (this.pdfContainer)`
  test of `pdfFrom` always passes.
- File-system I/O, `walk`, `fileURLToPath` and the uri-list branch of `handleDrop` are left
  out. `AddPdfFile` takes the loaded document's pages as a parameter.
- The async/await ordering is not modelled; each operation runs to completion.
- `crop`, the grid, `toggleGrid`, the `extract` command and `showPreview` are left out.
  They are floating-point geometry, library calls or HTML.
- PdfFrom: the document metadata (`setAuthor` and so on) and the grid lines drawn for
  `showGrid` are not modelled. The document is the list of its pages.
- SplitPages: `pagesPerDoc` is an integer here. A cancelled input box gives
  `Number(undefined)`, which is NaN. Then `Math.min` gives NaN, the first round exports an
  empty slice and writes one file with no pages, and the loop test fails. That case and
  fractional numbers (`Number("1.5")`) are not modelled. An empty input gives 0; that case
  is covered under "Findings".
- Floating-point arithmetic is modelled by exact reals. That covers half sizes, doubled
  sizes and the size comparison of `split`.
- Text.LexLess: JavaScript strings are UTF-16 code units. Dafny characters are code
  points, so code-unit order is modelled explicitly by `Utf16`. A lone surrogate in a
  JavaScript string has no Dafny character, so such labels are not modelled.
- FilePrefix: `substring(0, length - 4)` counts UTF-16 code units, and the model cuts four
  characters. The two agree when the path's last four characters are each below 0x10000
  (`FilePrefixCodeUnits`), which covers every path ending in ".pdf". A save path whose
  last four code units are not four such characters is not modelled: for `/tmp/a` followed
  by U+1F600 the source keeps `/tmp` and the model `/tm`. A cut through a surrogate pair
  would leave a lone surrogate, which has no Dafny character.
- Rotate: does not model the library's check in `setRotation` that the angle is a multiple
  of 90, nor any normalisation of the angle.
- AddPdfFile: copies all pages of the file into the container before it makes the items,
  where the source does one page and one item per round. Nothing reads the list or the
  container in between, so the resulting state is the same.
- Combine: creates the blank page once its final size is known, instead of resizing it.
  The failure condition (a half without context, or an index past the container) stands
  for the library's `embedPdf` throwing. As in the source, a failing combine still leaves
  the blank page in the container.
- Split: the library errors that `split` catches are modelled only as the index check. All
  other library errors are assumed not to happen.
- Split: the items to split are a value taken when `split` starts. With nothing selected,
  the source passes the live `data` array itself. Its `for ... of` then also visits the
  nodes that the loop splices into that array, and may split them again. For example, with
  one 2000 by 500 page at angle 0 and a horizontal split, the source ends with three items
  and returns four nodes, where the model ends with two items and two nodes. That case is
  not modelled. A selection is a separate array and is modelled exactly.

## Findings

| source | as written | input that shows it | evidently intended | confidence | as-written member | corrected member |
|---|---|---|---|---|---|---|
| src/extension.ts:89-95 | the input check refuses only text that is not a number, and the loop then advances `position` to `min(length, position + pagesPerDoc)` | `pagesPerDoc` = 0 (or a negative number) with at least one page: `position` stays at or below 0, so the loop never ends and writes files without end | a chunk size of at least 1, so the loop ends after ⌈n / pagesPerDoc⌉ files | not executed | Extension.SplitPagesNeverEnds | Extension.SplitPages |
