# Product console: list management, forms and export

This project models the client side of a small product-management page (`app.js`).

The page caches the products of a remote catalog and keeps a visible list, `filteredProducts`, drawn from that cache. Users can:

- search titles,
- sort by id, title or price, toggling the direction,
- page through the list with Prev, Next and a window of five numbered buttons,
- change the page size,
- edit or create a product through a form that is validated before anything is sent,
- export the visible page as CSV.

The module-level state (`allProducts`, `filteredProducts`, `currentPage`, `itemsPerPage`, `sortColumn`, `sortDirection`, `currentProductId`) is the class `Console.ProductConsole`. Its methods are the event handlers and change those fields. Their contracts state the whole new state. They also keep the invariant `Valid()`:

- the page size is positive;
- the current page lies between 1 and the page count, or is 1 when the list is empty;
- the visible list holds no product more often than the cache does.

The rest of the page logic is pure, and each part is a module of functions and lemmas:

- `Strings`: ASCII `toLowerCase`, `trim` over the JavaScript white-space set, `includes`, `split`, `join`, and the `<` order on strings.
- `Catalog`: the product record.
- `Html`: `escapeHtml`, the thumbnail URL cleanup and a table row.
- `Csv`: the export text and a CSV reader that reads it back.
- `Paging`: the page count, the page slice and the button window.
- `Ordering`: the sort comparator and an in-place insertion sort on an array.
- `Search`: the search term and the title filter.
- `Forms`: validation and image parsing for edit and create.
- `Store`: lookup by id.

Network replies are inputs to the model: `Store.Reply` is either `Delivered(body)` or `Failed`. Form fields arrive already parsed: a price or category id that `parseFloat`/`parseInt` cannot read is `None`. How numbers are turned into text is a parameter, `Catalog.NumberFormat`.

## Model

| member | source | states |
|---|---|---|
| Strings.Lower | app.js:153-154 | lowering keeps the length and maps every character through ASCII upper-to-lower |
| Strings.Trim | app.js:125 | the trimmed text begins and ends with a non-white-space character, or is empty |
| Strings.TrimIsInfix | app.js:125 | the trimmed text is the input after its leading white space, followed in the input only by white space; with the previous row this fixes the result |
| Strings.TrimShape | app.js:125 | trimming never lengthens, keeps only characters of the input, and gives the empty string exactly when the input is all white space |
| Strings.IncludesIffOccurs | app.js:131 | `includes` holds exactly when the term occurs at some position |
| Strings.Split | app.js:303 | splitting yields at least one piece and no piece holds the separator |
| Strings.SplitJoin | app.js:303 | splitting a separator-join of separator-free pieces gives the pieces back, so `join` loses nothing of the pieces |
| Strings.LexLessTotal | app.js:158 | of two distinct strings one is `<` the other |
| Strings.LexLessAsymmetric | app.js:158 | two strings are never each `<` the other |
| Strings.LexLessTransitive | app.js:158 | `<` on strings is transitive |
| Catalog.CategoryLabel | app.js:237 | the label is the category name when there is a nonempty one, `N/A` when there is no category or its name is empty, and never empty |
| Html.EscapeHtml | app.js:540-548 | the escaped text contains no `<`, `>`, `"` or `'` |
| Html.EscapeHtmlIdentity | app.js:540-548 | escaping never shortens, and changes the text exactly when it holds one of the five special characters |
| Html.EscapeHtmlRoundTrip | app.js:540-548 | reading the five entities back recovers the original text |
| Html.EscapeHtmlConcat | app.js:548 | escaping a concatenation escapes each part on its own, so it is a single left-to-right pass |
| Html.EscapeHtmlExample | app.js:541-548 | `<a>"x"</a>` escapes to `&lt;a&gt;&quot;x&quot;&lt;/a&gt;` |
| Html.StripUrlNoise | app.js:230 | the cleaned URL is never longer and holds no `[`, `]` or `"` |
| Html.StripUrlNoiseCounts | app.js:230 | every other character keeps its number of occurrences |
| Html.StripUrlNoiseIdentity | app.js:230 | the URL is unchanged exactly when it holds no bracket or quote |
| Html.StripUrlNoiseIdempotent | app.js:230 | cleaning a cleaned URL changes nothing |
| Html.StripUrlNoiseConcat | app.js:230 | cleaning a concatenation cleans each part on its own, so the kept characters stay in their order |
| Html.Thumbnail | app.js:229-231 | the thumbnail is the cleaned first image, or the 50-pixel placeholder when there is no image |
| Html.TableRow | app.js:216-242 | the title cell is the escaped title, so it reads back to the title and holds no markup characters; the tooltip is the description lead followed by the escaped description, which reads back to the description; the price cell is `$` followed by the price; the category cell is the label; the image URL is the thumbnail of the product's images and holds no `"` |
| Csv.DoubleQuotes | app.js:516 | doubling quotes never shortens, and leaves quote-free text unchanged |
| Csv.DoubleQuotesConcat | app.js:516 | doubling quotes distributes over concatenation |
| Csv.QuoteExample | app.js:516 | the title `He said "hi"` is written as `"He said ""hi"""` |
| Csv.RowCellsTexts | app.js:514-521 | the six fields of a product line carry its id text, title, price text, category label, description and `;`-joined images, in that order |
| Csv.RowCellsWellFormed | app.js:514-521 | the fields of an exportable product are delimited unambiguously |
| Csv.CsvRowReadsBack | app.js:514-521 | one product line reads back on its own to the product's six values |
| Csv.HeaderLine | app.js:509-511 | the header line is the six names joined by commas, without quotes |
| Csv.CsvTextLines | app.js:510-523 | the text is the header line alone for an empty page, and otherwise the header line, a newline and the product lines joined by newlines |
| Csv.CsvRows | app.js:512-522 | one line per product of the page, in page order |
| Csv.CsvDocument | app.js:526 | the download is the byte-order mark followed by the CSV text |
| Csv.ReadQuotedRoundTrip | app.js:516 | a value wrapped in quotes with its inner quotes doubled reads back to the value |
| Csv.ReadFieldRoundTrip | app.js:514-521 | each written field reads back to its value; a plain field must hold no comma, quote or newline, and a field quoted without doubling must hold no quote |
| Csv.ReadRecordRoundTrip | app.js:514-521 | a comma-joined line of well-formed fields reads back to the list of their values |
| Csv.ReadCsvRoundTrip | app.js:510-523 | newline-joined lines of well-formed fields read back to the list of records |
| Csv.HeaderCellsTexts | app.js:509-511 | the header line carries `ID, Title, Price, Category, Description, Images` |
| Csv.CsvTextReadsBack | app.js:509-523 | when no number text holds a delimiter, and neither the category label nor the image list holds a quote, the export reads back to the header followed by each product's six values |
| Csv.CsvRecordCount | app.js:510-523 | under the same condition the export holds exactly one record more than the page |
| Paging.TotalPages | app.js:447 | the page count is the least number of pages that hold all items, and 0 exactly for an empty list |
| Paging.TotalPagesMonotone | app.js:447 | a longer list never has fewer pages |
| Paging.PageStartsInside | app.js:196 | every page from 1 to the page count starts at an existing item |
| Paging.PageSlice | app.js:196-198 | the slice holds at most a page size of items, is empty past the end, is otherwise as long as the page size or the remainder, and is the run of items starting at `(page - 1) * size` |
| Paging.PagesArePrefix | app.js:196-198 | the first n pages concatenated are the first `n * size` items |
| Paging.PagesCoverList | app.js:196-198 | pages 1 to the page count concatenated give the whole list |
| Paging.ItemOnPage | app.js:196-198 | item i appears on page `i / size + 1`, which is within the page count, at offset `i % size` |
| Paging.PagingExample | app.js:196-198 | 25 items at 10 a page make 3 pages, the last holding 5 and page 4 empty |
| Paging.Window | app.js:467-473 | the button window lies within 1 and the page count, contains the current page and has `min(5, pages)` buttons; away from both ends it is centred on the current page; in general it starts at `max(1, min(current - 2, pages - 4))` and ends four buttons later or at the last page |
| Paging.WindowExample | app.js:467-473 | page 1 of 3 shows 1 to 3, page 9 of 10 shows 6 to 10, page 1 of 10 shows 1 to 5 |
| Ordering.Above | app.js:149-158 | for id and price, one product is above another exactly when its number is greater |
| Ordering.AboveAsymmetric | app.js:149-158 | of two products at most one has the greater key |
| Ordering.NotAboveTransitive | app.js:149-158 | "not greater" is transitive, so the keys form a total preorder |
| Ordering.Compare | app.js:148-162 | the comparator returns -1, 0 or 1; it is at most 0 exactly when the pair is in order for the direction, and 0 exactly when neither key is greater |
| Ordering.CompareAntisymmetric | app.js:157-161 | swapping the arguments negates the comparator |
| Ordering.InOrderTransitive | app.js:157-161 | being in order is transitive |
| Ordering.InOrderTotal | app.js:157-161 | any two products are in order one way or the other |
| Ordering.SortedNumericKeys | app.js:148-162 | sorted by id or price means the keys never decrease when ascending and never increase when descending, and conversely |
| Ordering.SortedTitles | app.js:152-161 | sorted by title means the lowercased titles never decrease in the `<` order when ascending and never increase when descending, and conversely |
| Ordering.ReverseOfAscending | app.js:157-161 | an ascending list read backwards is descending |
| Ordering.ReverseMultiset | app.js:157-161 | a list read backwards holds the same products, each as often |
| Ordering.TiedReflexive | app.js:148-162 | the comparator finds every product equal to itself |
| Ordering.SortedHeadsTied | app.js:148-162 | two lists sorted by the same comparator and holding the same products start with products the comparator finds equal |
| Ordering.SortedPermutationUnique | app.js:148-162 | without equal keys, two sorted lists holding the same products are the same list |
| Ordering.DescendingIsReverse | app.js:141-161 | a list sorted ascending with no equal keys, sorted descending, is that list reversed |
| Ordering.StableSortUnique | app.js:148-162 | two sorted lists holding the same products that keep every group of equal keys in the same order are the same list, so the stable sort's result is fixed by the comparator |
| Ordering.TiedThrough | app.js:157-161 | products the comparator finds equal to a common product are equal to each other |
| Ordering.TiesConcat | app.js:148-162 | the equal-key products of a concatenation are those of each part, in order |
| Ordering.SwapKeepsTies | app.js:148-162 | exchanging two neighbours with different keys keeps the order within every group of equal keys |
| Ordering.SortInPlace | app.js:148-162 | after the in-place sort, the array is sorted by the comparator, is a permutation of its old contents, and lists products with equal keys in their old relative order |
| Ordering.Insert | app.js:148-162 | one insertion step of the sort: with the first `hi` products sorted, the first `hi + 1` end sorted, as a permutation of the array that keeps equal keys in order and leaves the products after `hi` in place |
| Search.SearchTerm | app.js:125 | the term is the lowered input with its leading and trailing white space cut off: trimmed, an infix of the lowered input followed there only by white space, lowercase, and empty exactly when the lowered input is all white space |
| Search.FilterByTitle | app.js:130-132 | the filtered list keeps exactly the products whose lowercased title contains the term, each as often as in the input, in their original order |
| Search.FilterByEmptyTerm | app.js:127-128 | filtering by the empty term keeps the whole list |
| Search.SearchResult | app.js:125-133 | a blank term gives a copy of the cache; otherwise the result is the title filter by the term |
| Search.SearchResultDrawn | app.js:127-133 | the search result is never longer than the cache and holds no product more often |
| Search.FoundIffOccurs | app.js:130-132 | a cached product is found exactly when the term occurs in its lowercased title |
| Forms.CleanPieces | app.js:303 | cleaning never adds pieces, and every piece it keeps is nonempty and trimmed |
| Forms.CleanOnePiece | app.js:303 | one piece cleans to its trimmed text when that is nonempty and to nothing otherwise |
| Forms.CleanPiecesConcat | app.js:303 | cleaning a concatenation cleans each part on its own, so the kept pieces are exactly the nonempty trimmed pieces in their order |
| Forms.ParseImages | app.js:301-309 | the image list is never empty and every URL in it is nonempty, trimmed and comma-free; the list is exactly the nonempty trimmed pieces of the trimmed text split on `,`, or the 600x400 placeholder alone when there are none; a blank text gives the placeholder |
| Forms.EmptyPieceVanishes | app.js:303 | an empty piece between two clean URLs is dropped |
| Forms.BlankTextGivesPlaceholder | app.js:301-309 | a text of only white space and commas, such as ` , `, gives the placeholder alone |
| Forms.BlankSplit | app.js:303 | splitting a text of white space and commas on `,` leaves only blank pieces |
| Forms.BlankPiecesClean | app.js:303 | blank pieces are all dropped |
| Forms.ParseJoinedImages | app.js:301-309 | parsing the `, `-join of clean URLs gives the URLs back |
| Forms.ParseNoImages | app.js:306-309 | an empty image list is sent as the placeholder |
| Forms.ValidateEdit | app.js:278-317 | the edit form is accepted exactly when the trimmed title and description are nonempty and the price and category id are present and positive; the payload then carries the trimmed texts and the parsed images |
| Forms.EditErrors | app.js:285-298 | which alert the edit form raises: a missing field first, then the price, then the category |
| Forms.ValidateCreate | app.js:362-401 | the create form accepts exactly the forms the edit form accepts, with the same payload |
| Forms.CreateErrors | app.js:369-382 | which alert the create form raises: a zero or unreadable price or category counts as missing, so the range alerts fire only for negative numbers |
| Forms.CreateAgreesWithEdit | app.js:369-382 | create and edit accept the same forms with the same payload; where they differ, create reports a missing field and edit does not |
| Forms.CategoryField | app.js:64 | the prefilled category is the product's category id, missing when there is no category or the id is 0 |
| Forms.PrefillForm | app.js:58-84 | the edit form gets the product's title, price, description and category field; its image text parses back to the product's images when they are clean |
| Forms.SaveUntouchedForm | app.js:58-84 | saving an untouched edit form of a product whose fields are already clean sends that product's own fields back |
| Store.FindIndexById | app.js:342 | `findIndex` is -1 exactly when no entry holds the id, and is otherwise the first such entry |
| Store.FindById | app.js:53 | `find` finds a product exactly when some entry holds the id, and returns the first such entry |
| Store.ReplaceFirstMatch | app.js:342-344 | with unique ids, replacing the found entry by a product with the same id keeps ids unique |
| Store.PrependFresh | app.js:426 | prepending a product with a fresh id keeps ids unique and puts it first, with the old entries following in order |
| Console.Flip | app.js:142 | flipping always changes the direction |
| Console.TableRows | app.js:201-204 | one table row per product of the page, in page order |
| Console.ExportMatchesTable | app.js:504-523 | the export reads back to the header followed by one record per table row, each carrying that row's id, title, price, category and description |
| Console.ProductConsole.PageCount | app.js:447 | the page count is the least number of pages that hold the visible list, and 0 exactly when it is empty |
| Console.ProductConsole.Valid | app.js:447 | in a valid state the current page starts within the visible list |
| Console.ProductConsole.constructor | app.js:2-8 | the initial state after `loadProducts`: the delivered list, or nothing, shown whole on page 1 of 10 items, with no sort |
| Console.ProductConsole.CurrentProducts | app.js:196-198 | the visible page holds `min(itemsPerPage, remaining)` products, where `remaining` counts the products from `(currentPage - 1) * itemsPerPage` on, and is the run of products starting there; it is nonempty when the list is |
| Console.ProductConsole.ExportDocument | app.js:502-526 | the export covers exactly the page the table shows |
| Console.ProductConsole.HandleSearch | app.js:124-137 | the visible list becomes the search result over the cache, on page 1; nothing else changes |
| Console.ProductConsole.HandleSort | app.js:140-166 | the same column flips the direction and a new column sorts ascending; the visible list ends sorted, a permutation of itself with equal keys in their old relative order, on the same page; a second click on a column sorted ascending with no equal keys reverses the list |
| Console.ProductConsole.SetItemsPerPage | app.js:30-34 | the new page size, back on page 1 |
| Console.ProductConsole.PrevPage | app.js:457-463 | one page back unless on page 1, staying in range |
| Console.ProductConsole.NextPage | app.js:491-497 | one page on unless on the last page, staying in range |
| Console.ProductConsole.GoToPage | app.js:479-483 | a numbered button moves to its page, which stays in range |
| Console.ProductConsole.Pagination | app.js:446-499 | no bar for a single page; otherwise Prev disabled exactly on page 1, Next disabled exactly on the last page, and `min(5, pages)` consecutive buttons within range that start where `Paging.Window` starts and include the current page, with exactly that one active |
| Console.ProductConsole.ShowDetail | app.js:246 | the detail dialog remembers the product's id |
| Console.ProductConsole.EditForm | app.js:53-84 | the edit form exists exactly when the remembered id is in the cache, and is then that product's prefilled form |
| Console.ProductConsole.ReplaceCached | app.js:344-345 | the entry at the index is replaced, and the visible list becomes the whole cache on the same page |
| Console.ProductConsole.PrependCached | app.js:426-429 | the product goes first in the cache, and the visible list becomes the whole cache on page 1 |
| Console.ProductConsole.SaveEdit | app.js:276-357 | the request is the edit validation; a delivered reply to an accepted form replaces the first entry holding the id and shows the whole cache, and in every other case nothing changes |
| Console.ProductConsole.CreateProduct | app.js:361-443 | the request is the create validation; a delivered reply to an accepted form puts the product first, shows the whole cache and goes to page 1, and in every other case nothing changes |

## Left out

- DOM work, Bootstrap modals and tooltips, and the `innerHTML` templates are presentation. So are `updateSortIcons`, `showLoading`, the dropdown option inserted in the edit form and the detail dialog's markup. The model covers only the values these show, such as `Html.TableRow` and `Forms.PrefillForm`.
- `fetch`, `async`/`await` and JSON decoding are not modelled. A reply is the input `Store.Reply`, and a failed response and a thrown request are both `Failed`.
- `alert` and `console` output are side output only. A rejected form is reported as the `Forms.FormError` the alert corresponds to.
- The download plumbing is not modelled: the Blob, the object URL, the hidden link and the time-stamped file name. Only the byte-order mark in front of the text is kept.
- The page size from the selector is taken to be a positive number. Its options are markup, not part of `app.js`, so `Console.ProductConsole.SetItemsPerPage` requires `n >= 1`.
- `totalCount` shows the cache length on the page; it is not modelled.
- `parseFloat`, `parseInt` and JavaScript's number-to-text conversion are not modelled. Form numbers arrive as `Option` values, and number text comes from the `Catalog.NumberFormat` parameter. The edit form's hidden product id is taken as already parsed.
- Prices are `real`, so floating-point rounding is not modelled.
- `toLowerCase` is modelled on ASCII letters only.
- String `<` compares code points. JavaScript compares UTF-16 units, which differ only for characters outside the Basic Multilingual Plane.
- Only the `id`, `title` and `price` columns are sorted. Comparing category objects with `<` has no meaning.
- The engine's own sort algorithm is not modelled. `Array.prototype.sort` is stable, so the result is fixed by the comparator: the sorted permutation that keeps equal keys in their old order. `Ordering.SortInPlace` is an insertion sort proved to give that result; `Ordering.StableSortUnique` shows there is only one such result.
- A product whose `images` is `null` is not modelled. `images` is always a list, so the `product.images ? … : ''` fallback of the export is not represented.
- The category name is shown in the table without escaping. `Html.TableRow` states only that the category cell is the label.
- Csv.CsvTextReadsBack: the category label and the image list are wrapped in quotes without doubling inner quotes. The read-back is therefore proved only for products whose label and image list hold no `"`, and whose number texts hold no comma, quote or newline.
- Server-side behaviour is owned by the remote catalog: assigned ids, category validity, and what a reply body contains. `Store.ReplaceFirstMatch` and `Store.PrependFresh` state what holds when the reply keeps ids unique.
