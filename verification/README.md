# novel-cli core, modelled in Dafny

novel-cli is a terminal web-novel reader written in C. It searches a novel
site, browses a novel's chapter list, reads chapters and keeps a short
list of recently read chapters. This project models the pure logic inside
that program:

- **Chapter text pipeline.** Whitespace is collapsed while walking the
  page's element tree (`extract_text_recursive`). The text then gets the
  in-place `normalize_whitespace` pass. After that comes the rule that
  joins the `id="chapterText"` divs and accepts or rejects the result
  (modules `Whitespace` and `Extraction`).
- **Chapter reader.** The word-wrap layout of `display_chapter_content`,
  written as a pure function from the text and the terminal width to word
  placements and a line count, plus the reader's scroll-offset state
  machine (modules `Layout` and `Reader`).
- **Chapter-list browser.** The `(offset, highlight)` state machine of
  `show_chapter_browser` and the visible range of `display_chapter_list`
  (module `Browser`).
- **Generic views of `ui.c`.** The wrap-around highlight of `display_menu`
  (module `Menu`). The offset clamping and the chopping of stored lines
  into rows of `cols - 1` bytes in `display_book` (module `Book`).
- **Recent-reading list.** The move-to-front list of `save_to_history`,
  capped at `MAX_HISTORY` (module `History`).
- **Search results.** The page cache lookup and reset, the cache fill of
  `fetch_page`, and the substring-driven card scanner `extract_novel_info`
  (modules `PageCache` and `Cards`).

Supporting modules:

- `CStrings` models the C string functions the code relies on: `strstr`,
  `strncpy`, `atoi` and the C-locale `isspace`.
- `Terminal` is the abstract key event type.
- `Optional` is an option type.
- `Arith` holds small arithmetic lemmas.

C strings are sequences of non-zero bytes (`CChar`, a `char` in 1..255).
Keys are an abstract datatype. The HTML page is an abstract element tree
(`Extraction.Node`). The parser's div collection is taken to be the tree's
divs in document order.

## Model

| member | source | states |
|---|---|---|
| CStrings.Find | webnovel.c:49-53 | `strstr`/`strchr`: the result is a match at or after the start, and no earlier match exists |
| CStrings.FindFirst | webnovel.c:49-53 | when the needle's first byte does not occur before a match, that match is the one found |
| CStrings.Prefix | history.c:29-32 | `strncpy(dst, src, 255)` read back as a C string: the whole source when it has at most 255 bytes, otherwise exactly its first 255 bytes |
| CStrings.Atoi | chapter_controller.c:84 | `atoi` reads an optional sign and the leading digits after white space; the value always fits a 32-bit int |
| CStrings.AtoiOfDecimal | chapter_controller.c:83-85 | the decimal rendering of any int-range number is read back exactly by `atoi` |
| CStrings.DecimalLength | chapter_controller.c:83 | a number below 10^k is written in at most k digits, so a search entry of `1..total` fits the 15-byte input |
| Whitespace.Emit | chapter_controller.c:167-187 | one byte of the pass: the output only grows, stays collapsed, and keeps exactly the non-space bytes |
| Whitespace.Collapse | chapter_controller.c:167-188 | the copy loop keeps every non-space byte in order, never lengthens the text and leaves no double space, double newline or space after a newline |
| Whitespace.TrimEnd | chapter_controller.c:190-193 | trailing blanks and newlines are removed and no other byte is |
| Whitespace.Normalize | chapter_controller.c:161-194 | the result has no `"\n\n"` and no `"  "`; no space at the start or after a newline; no final space or newline; every isspace byte in it is a space or newline; same non-space bytes in order; never longer |
| Whitespace.CollapseOfCollapsed | chapter_controller.c:167-188 | on text that is already collapsed the copy loop is the identity |
| Whitespace.NormalIsFixed | chapter_controller.c:161-194 | text already in normal form is left unchanged |
| Whitespace.NormalizeIdempotent | chapter_controller.c:161-194 | normalising twice gives the same text as normalising once |
| Whitespace.SeparatorKept | chapter_controller.c:167-193 | a run of white space between two words becomes exactly one separator: a space when the run has no newline, a newline when it starts with one, and a space then a newline otherwise; each side is normalised on its own, so words never run together |
| Whitespace.LeadingRunKept | chapter_controller.c:167-193 | a run of white space before the first word leaves a single newline when it holds one and nothing otherwise |
| Extraction.WalkTextKeeps | chapter_controller.c:119-145 | a text node only appends to the buffer, keeps a collapsed buffer collapsed, and copies every non-blank byte in order |
| Extraction.WalkTextBlankRun | chapter_controller.c:133-138 | a run of isspace/0xA0 bytes appends one space exactly when the buffer is non-empty and ends in neither space nor newline |
| Extraction.WalkTextWord | chapter_controller.c:139-141 | bytes that are not blank are copied unchanged |
| Extraction.WalkTextConcat | chapter_controller.c:124-142 | walking two texts in turn equals walking their concatenation, so the collapse state carries across text nodes |
| Extraction.WalkKeeps | chapter_controller.c:114-159 | walking a subtree keeps a collapsed buffer collapsed and copies the subtree's non-blank text bytes in document order |
| Extraction.WalkChildrenKeeps | chapter_controller.c:154-158 | children are walked left to right with the same guarantees |
| Extraction.BreakWritesNewline | chapter_controller.c:148-152 | a P or BR element's output starts with a newline exactly when the buffer is non-empty and does not already end in one |
| Extraction.WalkByMode | chapter_controller.c:133-152 | what a subtree appends depends on the buffer only through whether it is empty or ends in a space or a newline |
| Extraction.WalkAfterNewline | chapter_controller.c:234-238 | after a paragraph break, a div's text is the same as if it were extracted into an empty buffer |
| Extraction.GatherOne | chapter_controller.c:234-245 | each matching div appends its own normalised text followed by `"\n\n"` |
| Extraction.GatherIsPieces | chapter_controller.c:223-249 | the div loop yields the concatenation, in collection order, of every exact `id="chapterText"` div's piece, and notes whether any matched |
| Extraction.Extract | chapter_controller.c:223-262 | the text is accepted exactly when some div matched and the joined text has at least 10 bytes, and it is then that joined text |
| Extraction.ExtractEndsInNewline | chapter_controller.c:242-245 | accepted text ends in a newline, the last byte of the final paragraph break |
| Extraction.TwoParagraphDiv | chapter_controller.c:148-152 | a chapter div with paragraphs `w1 gap w2` and `w3` yields `w1 w2\nw3\n\n`, the general form of the `Hello   world.` / `Second.` example |
| Layout.LayoutKeepsWords | chapter_controller.c:290-341 | the placed words are the text's words, whole, each once, in text order |
| Layout.LayoutCountsLines | chapter_controller.c:298-320 | the line count is the number of newlines plus the number of soft wraps |
| Layout.LayoutFits | chapter_controller.c:316-320 | every word starts at column 4 or later; a word after column 4 ends before `max_x - 4`; a wrapped word starts at column 4; a word alone at column 4 may overflow and is never split |
| Layout.LayoutFirst | chapter_controller.c:292-320 | the next word stays on the current line at the current column, or goes to column 4 of a later line; a word that comes first is wrapped exactly when the column is past 4 and the word would reach `max_x - 4`, and then it goes to column 4 of the next line |
| Layout.WordsAboveLastLine | chapter_controller.c:298-320 | when the text ends in a newline, every word lies on a line below the final count |
| Layout.LayoutLinesBounded | chapter_controller.c:299-320 | the line counter never goes down, and every word's line is within the final count |
| Layout.LayoutChains | chapter_controller.c:328-340 | adjacent words on one line are exactly one column apart, whatever the run of spaces between them; otherwise the next word is on a later line at column 4 |
| Layout.Visible | chapter_controller.c:322-326 | the frame draws only on rows `2 .. 2 + h - 1` |
| Layout.VisibleComplete | chapter_controller.c:322-326 | every word on a line in `[offset, offset + h)` is drawn at row `2 + line - offset` |
| Layout.VisibleSound | chapter_controller.c:322-326 | every drawn word comes from a line in `[offset, offset + h)` |
| Reader.ScrollStep | chapter_controller.c:354-369 | `q`/`Q` closes and nothing else does; keys other than the four scroll keys leave the offset alone; PgUp never goes below 0 and PgDn never past `max(0, total - h)` |
| Reader.PagingClamps | chapter_controller.c:359-369 | PgUp moves `h` lines earlier but not below 0, and PgDn `h` lines later but not past the last full window |
| Reader.ScrollStaysInRange | chapter_controller.c:354-369 | with at least one text row, every key keeps `0 <= offset <= max(0, total - h)`, and a text that fits keeps offset 0 |
| Reader.UpDownInverse | chapter_controller.c:357-358 | inside the settled range, Up undoes Down and Down undoes Up |
| Reader.EveryWordShown | chapter_controller.c:316-369 | every word the layout places for an accepted chapter text is drawn, at its column, in the frame at offset `o = min(line, max(0, total - h))`, and on a terminal that keeps its size the reader opened at offset 0 is at `o` after `o` presses of Down |
| Reader.DownsReach | chapter_controller.c:358 | on a terminal that keeps its size, `n` presses of Down from offset `a` lead to offset `a + n` as long as that is in the settled range, and the reader stays open |
| Reader.Scrolling | chapter_controller.c:268-370 | the reader closes exactly when a quit key arrives, at the first one |
| Reader.ScrollingStaysInRange | chapter_controller.c:268-370 | on a terminal that keeps its size, the offset stays in range for the whole session |
| Reader.Screen | chapter_controller.c:286-287 | words are drawn only on rows `2 .. max_y - 3` |
| Reader.Display | chapter_controller.c:197-262 | returns 1 when there is no page or no acceptable chapter text, and 0 when there is text and a quit key was read |
| Browser.Target | chapter_controller.c:83-88 | the search entry is used only when `atoi` of its first 15 bytes is in `1..total` |
| Browser.BrowserStep | chapter_controller.c:62-110 | `q`/`Q` leaves and nothing else does; a chapter opens only on Enter with a page longer than 1000 bytes, and it is chapter `highlight + 1`; after Up the offset is at most the highlight; PgUp/PgDn set the highlight to the new offset |
| Browser.BrowserKeepsSettled | chapter_controller.c:63-90 | with at least 15 chapters, every key keeps `offset <= highlight < offset + 15` and the highlight on a real chapter |
| Browser.PageDownOnShortList | chapter_controller.c:75-79 | on a list shorter than 15, PgDn makes offset and highlight negative |
| Browser.UpDownKeepHighlight | chapter_controller.c:63-71 | Up and Down keep `0 <= highlight <= total - 1` |
| Browser.SearchSelects | chapter_controller.c:81-90 | entering chapter `n` in `1..total` highlights `n - 1` with offset `max(0, n - 5)` |
| Browser.SearchMissLeavesState | chapter_controller.c:84-89 | an entry outside `1..total` changes nothing |
| Browser.View | chapter_controller.c:29-47 | chapter `i` is listed exactly when `offset <= i < offset + 15` and `i < total`; the upper indicator shows exactly when the offset is positive, and the lower one exactly when chapters remain below the window |
| Browser.HighlightShown | chapter_controller.c:29-42 | in a settled state the highlighted chapter is among the listed ones |
| Menu.MenuStep | ui.c:31-47 | Enter chooses the current highlight exactly when there is one (it is not -1); keys other than Up and Down keep the highlight |
| Menu.MenuWraps | ui.c:32-42 | for `n >= 1` the highlight stays in `[0, n)`; Up from 0 goes to `n - 1` and Down from `n - 1` goes to 0 |
| Menu.MenuStepIsRotation | ui.c:32-42 | Up and Down are subtraction and addition of 1 modulo `n` |
| Menu.ChooseOnEnter | ui.c:16-53 | the menu returns exactly when an Enter arrives, and the result is in `[0, n)`, never -1 |
| Menu.ChooseRotates | ui.c:16-53 | the result is the start highlight moved by the net count of Downs minus Ups before the first Enter, modulo `n` |
| Book.BookStep | ui.c:115-146 | `q` quits, Left goes back, and every other key leaves the offset in `[0, max(0, count - rows + 1)]` |
| Book.BookKeys | ui.c:119-146 | Up stops at 0 and Down at `count - 1` before the clamp; PgUp/PgDn move by `rows` then clamp; other keys change nothing |
| Book.FirstKeyClamps | ui.c:81-146 | a saved offset past the last full screen is the offset of the first frame, which holds no text row when no line is at or after it; every key that does not leave then puts it on the last full screen, except PgUp and PgDn, which first move it by `rows` lines and then clamp it to `[0, max(0, count - rows + 1)]` |
| Book.ReadBook | ui.c:56-159 | -2 without a file; otherwise the view returns exactly when `q` or Left arrives, with 0 when the first of them is `q` and -1 when it is Left |
| Book.Viewing | ui.c:114-146 | the key loop returns exactly when `q` or Left arrives; 0 when `q` comes first and -1 when Left comes first |
| Book.ViewingClamps | ui.c:81-146 | whatever the saved offset, it is in range after the first key that does not leave the view |
| Book.Chunks | ui.c:104-108 | each row of a stored line holds between 1 and `cols - 1` bytes |
| Book.ChunksJoin | ui.c:104-108 | the rows of a line, joined, are the line |
| Book.ChunksCount | ui.c:104-108 | a line of length `len` takes `ceil(len / (cols - 1))` rows, so an empty line takes none |
| Book.ChunkStartIsProduct | ui.c:104-106 | row `k` starts `k` times `cols - 1` bytes into the line |
| Book.ChunkAt | ui.c:104-108 | row `k` of a line is bytes `[k(cols-1), min(len, (k+1)(cols-1)))`, with the row starts given by `ChunkStart` |
| Book.Render | ui.c:96-109 | the drawn rows are the first `rows - 1` of the rows of the lines from the offset on |
| Book.DrawLine | ui.c:104-108 | the rows of one line are added after the rows already drawn, in order, until the screen holds `rows - 1` rows |
| History.NewEntry | history.c:29-33 | each of the four strings is its argument when that has at most 255 bytes, and otherwise exactly the argument's first 255 bytes; the chapter number is `c_num` |
| History.FindSlug | history.c:14-20 | the match is the first entry whose chapter slug is equal |
| History.SaveSlots | history.c:13-35 | the fixed array after a save holds the move-to-front list: the new entry first, then the old entries without the matched one, cut to 15 |
| History.SaveExisting | history.c:15-26 | a slug found at `i` keeps the count; entries `0..i-1` move to `1..i`, and those after `i` stay where they were |
| History.SaveNew | history.c:23-35 | a new slug grows the count to `min(count + 1, 15)` and shifts the old entries down; a full list drops its last |
| History.SaveKeepsOrder | history.c:24-26 | retained entries keep their relative order |
| History.Save | history.c:13-35 | the corrected save, matching on the slug as it will be stored: the new entry is first and the list is at most 15 |
| History.SaveKeepsDistinct | history.c:15-20 | with the corrected matching, distinct chapter slugs stay distinct |
| History.SaveAsWritten | history.c:13-35 | the save as written: the new entry is first and the list is at most 15 |
| History.ShortSlugsAgree | history.c:16-31 | for slugs of at most 255 bytes the code as written and the corrected save agree |
| History.LongSlugDuplicated | history.c:16-31 | as written, saving again a slug longer than 255 bytes adds a second entry with the same stored slug |
| History.LongSlugExample | history.c:16-31 | a 256-byte slug saved twice gives a two-entry list with equal slugs |
| Cards.SlugAt | webnovel.c:49-58 | the slug is the bytes after `/novel/` up to the next `"`, kept only if shorter than 100 |
| Cards.SlugRoundTrip | webnovel.c:49-58 | a slug written as `/novel/<slug>"` is read back exactly |
| Cards.RatingAt | webnovel.c:64-77 | the rating is a run of digits and dots starting with a digit, shorter than 10; none when the rating class is absent |
| Cards.RatingRoundTrip | webnovel.c:64-77 | a rating written after its class and star is read back exactly |
| Cards.DecodeAmpSpace | webnovel.c:88-95 | text before the first `&` is copied and each `&amp;` becomes exactly one space, decoding going on after it |
| Cards.DecodeLeavesNoAmp | webnovel.c:88-95 | no `&amp;` is left after decoding |
| Cards.DecodeKeepsPlain | webnovel.c:88-95 | a title without `&amp;` is left unchanged |
| Cards.DecodeIdempotent | webnovel.c:88-95 | decoding twice is decoding once |
| Cards.TitleSpan | webnovel.c:79-87 | the title's bytes lie just after a `>` and up to the next `<`, with no `<` between, and are between 4 and 79 bytes long |
| Cards.TitleAt | webnovel.c:79-98 | the title is present exactly when its span is, and is then the span's bytes with `&amp;` decoded |
| Cards.TitleRoundTrip | webnovel.c:79-95 | a title written after its class and the next `>` is read back, decoded |
| Cards.CountAt | webnovel.c:100-134 | a count starts with a digit, holds no white space or `<`, and is 1..19 bytes long |
| Cards.CountRoundTrip | webnovel.c:100-134 | a count written after its class and label is read back exactly |
| Cards.ViewsRoundTrip | webnovel.c:100-116 | the yearly-views count is read back |
| Cards.ChaptersRoundTrip | webnovel.c:118-134 | the chapter count is read back |
| Cards.Turn | webnovel.c:48-137 | one turn stops exactly when `/novel/` or the card root is missing, and otherwise resumes inside the page |
| Cards.ScanFrom | webnovel.c:47-138 | cards already found are kept and at most 15 are returned; a turn that succeeds below 15 cards appends its card next; no card is added when `/novel/` or the card root is missing |
| Cards.ScanFromIsRun | webnovel.c:47-138 | the loop equals the found cards followed by the cards of successive turns, taken until 15 in total or the first failed turn |
| Cards.Scan | webnovel.c:44-140 | the result is exactly the cards of successive turns from the start of the page, up to 15 and stopping at the first failed turn; none when either marker is absent |
| Cards.CardAtWellFormed | webnovel.c:49-134 | every field of a card is within its bounds and built from the bytes it may hold |
| Cards.ScanWellFormed | webnovel.c:44-140 | every scanned card is well formed |
| PageCache.Lookup | webnovel.c:25-33 | the lowest-index slot that is valid and holds the page, or none when no slot does |
| PageCache.Clear | webnovel.c:35-42 | every slot becomes invalid with page -1 and count 0, and nothing else changes |
| PageCache.ClearForgets | webnovel.c:35-42 | after a reset every lookup finds nothing |
| PageCache.FetchPage | webnovel.c:165-210 | -1 and an untouched slot without a slot, without a page or without cards; otherwise the returned count is the number of cards the scanner found, and the slot holds the page number, that count, those cards, and is valid |
| PageCache.Visit | webnovel.c:234-252 | a cached page is used as is; otherwise, when the fetch succeeds, slot `page` and only it is replaced by a valid slot holding the page number, the scanned cards and their count, and that slot is the one shown |
| PageCache.VisitThenLookup | webnovel.c:236-251 | after a successful fetch, looking the page up finds it; the fetch fails exactly when there is no page or no card |
| PageCache.FirstVisitFetches | webnovel.c:231-240 | after the reset at the start of a search, page 1 is fetched |

## Left out

- ncurses drawing: headers, footers, separators, the spaces drawn between words, colours and attributes. Keys become the `Terminal.Key` datatype and the screen becomes word placements and row lists.
- The HTML parser, myhtml (chapter_controller.c:200-254). The page is an abstract element tree whose divs are collected in document order, and an attribute lookup is a field of the element.
- The network: `fetch_url`, `fetch_chapter_content`, libcurl escaping and cJSON. Fetched pages are parameters (`Option<CString>`, with `None` for a failed fetch).
- Files: the `.progress` file of `display_book` (its saved offset is a parameter), the `.novel_history` file written after a save, and `debug1.html`.
- `display_book` reads its file with `fgets` into 1024-byte lines and strips the first newline. The model takes the lines as already read, so lines longer than 1023 bytes are not split.
- Buffer capacity: the 32768-byte chapter buffer, its `realloc` growth, the unchecked newline append and the `current_len + 3 < buffer_size` test before `"\n\n"`. Text is an unbounded sequence; a failed `malloc` (return 1) is not modelled.
- The key read after an error message ("No chapter content found", "Failed to fetch chapter", "No Search Results Found") is not modelled; it changes no state.
- Bytes the scanner writes for a card it does not count (a slug stored before the card root is found missing) are not modelled. The card rows that `clear_cache` leaves in place are kept in the model but never reached by a lookup.
- Undefined behaviour, excluded by preconditions:
  - `Cards.Scannable`: every rating class is followed by a star, and every card root by 1000 more bytes. This is stronger than the source needs; see the `Cards.Scannable` line below.
  - `PageCache.FitsRows`, required by `FetchPage`, `Visit` and the lemmas about them: the arrays have 12 rows while the scanner allows 15, and the scanner stores a slug (webnovel.c:49-57) before it tests for the card root (webnovel.c:61-62). A page is therefore admitted only when it yields at most 12 cards and, when it yields exactly 12, no further `/novel/` with a stored slug follows the twelfth card, since that slug would be written to row 12.
  - `Visit`: a page that is not yet cached is below 50.
  - `Book.Render`: a non-negative offset. Only `cols <= 0` is undefined in the source (the pointer moves backwards or by a negative length).
  - `Browser.BrowserKeepsSettled`: PgDn on a list shorter than 15 breaks the window invariant, as `Browser.PageDownOnShortList` shows; it is modelled, not excluded.
- `getnstr` is modelled as the first 15 bytes of what was typed. A bare `/` or a bare Enter in the browser is normalised to an empty entry or an empty page.
- The terminal size is read afresh in every frame. The model takes the size per frame but proves the range invariant only for a fixed size, since the code does not re-clamp on resize.
- `select_main_menu`, the library and download menus, `main.c`, and cache.c's JSON cache are not part of this model.
- Cards.Scannable: the guard ranges over every rating class and every card root in the page, not only the ones the scanner reaches. So it also excludes pages on which the source is defined: a card root that the 1000-byte skip (webnovel.c:137) or the 15-card limit passes over may lie within 1000 bytes of the end, and a rating class that no card's search finds first may lack a star. For example, a page of 1100 bytes with `/novel/a"`, a card root at byte 9 and a second card root at byte 600 is defined, since the second root is skipped, yet it is not admitted. The model states nothing about such pages.
- Reader.ScrollStep: for PgUp and PgDn the contract states only the bound the clamp guarantees; the exact values are in `Reader.PagingClamps`, for a window of at least one row.
- Menu.MenuStep: the wrap-around is stated for `n >= 1`; a menu with no items is left out.
- Book.Render: requires at least two columns. With one column the source is defined: each row is empty, the pointer does not move, and the loop draws `rows - 1` empty rows. The model does not cover that case.
- CStrings.Prefix: `strncpy(dst, src, 255)` never writes byte 255 of the 256-byte field. A source of 255 or more bytes therefore leaves the field terminated only if that byte was already NUL. In `save_to_history` the array is filled by `load_history`, and slot 0 is otherwise uninitialised (history.c:10-11). The model reads such a field as its first 255 bytes, which assumes byte 255 is NUL.
- History.NewEntry: inherits the same assumption for each of the four strings (history.c:29-32).
- Extraction.Walk: the newline that a P or BR element appends (chapter_controller.c:150) is not followed by a terminator. Only the text branch writes one (chapter_controller.c:143). The buffer comes from `malloc` with only byte 0 set to NUL (chapter_controller.c:210, 217). So a div whose walk ends in that newline leaves the buffer unterminated, for example one ending in `<br>` or an empty `<p>`. The following `normalize_whitespace` and `strlen` (chapter_controller.c:238-239) then read uninitialised bytes. The model assumes a NUL follows the bytes written.

## Findings

| source | as written | input that shows it | evidently intended | confidence | as-written member | corrected member |
|---|---|---|---|---|---|---|
| history.c:16-31 | the new slug is compared in full with stored slugs that were cut to 255 bytes | a chapter slug of 256 bytes saved twice | a chapter already in the list is moved to the front rather than added again | low, not executed; assumes byte 255 of the stored slug is NUL; whether such long slugs reach `save_to_history` is unknown | History.SaveAsWritten, History.LongSlugDuplicated, History.LongSlugExample | History.Save, History.SaveKeepsDistinct |
