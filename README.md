# PDF Studio page assembly, in Dafny

PDF Studio (`app_pdf_studio.py`) is a desktop tool with two tabs. "Images → PDF" turns a
list of image files into one PDF, one image per page. "Merge PDFs by page" builds a PDF
from individual pages picked out of several PDF files. Each tab keeps an ordered list of
page records. The user fills the list from a file dialog or by drag and drop, reorders it
by dragging, with "move up" and "move down", removes entries or clears it, and finally
exports it.

This project models the page-assembly logic under the widgets:

- `Text`: the few Python string operations the logic relies on.
  - `str.strip` with Python's whitespace set.
  - ASCII `str.lower`.
  - `os.path.splitext` and `os.path.basename` for POSIX paths.
  - `f"{n}"` and `f"{n:03d}"`.
- `Letterbox`: `fit_to_box` and the placement done by `make_square_thumbnail`, on pixel
  sizes, with the scale factor as an exact rational.
- `Sources`: `parse_dropped_files` and `collect_files`.
  - Both are methods with loops.
  - They are proved equal to recursive specification functions.
  - Lemmas about those functions give the promised properties: cleaned non-empty tokens,
    allowed extensions only, order-preserving deduplication by normalised key, and
    first-seen entries.
- `Pages`: the page entry of both tabs (`ImagePage(path)` or `PdfPage(path, pageIdx)`),
  the numbered tree rows and the count footer.
- `Registry`: the list operations as functions (pop, insert, the drag splice, swap) with
  their lemmas. It also holds `PageRegistry`, one class for both tabs. Its fields are the
  `records` sequence, the tree selection and the drag origin. Its methods are the tab
  handlers, and each states the new state exactly.
- `Export`: `normalize_image_for_pdf`'s mode dispatch, `convert_to_pdf` and `merge_pdf`.
  - Each export is a method that returns its outcome and its trace of I/O events.
  - Each is proved against a function that recurses on all but the last record and then steps on the last one, as the loop does.
  - Lemmas give the all-or-nothing behaviour, the page order, and "each source is opened
    at most once".

Paths are POSIX strings. The filesystem (`os.path.isdir`, `os.path.isfile`, `os.walk`,
`normcase(abspath(.))`), `tk.splitlist`, image decoding, PDF rasterising and parsing,
and the writability of the output are parameters of the operations that use them.

## Model

| member | source | states |
|---|---|---|
| Text.StripShape | app_pdf_studio.py:60 | the stripped token starts and ends with a non-space, and is the token minus its leading and trailing Python whitespace |
| Text.StripIdempotent | app_pdf_studio.py:60 | stripping twice is stripping once |
| Text.LowerEqualIgnoringCase | app_pdf_studio.py:69 | two strings lower-case to the same text exactly when they are equal position by position up to ASCII case |
| Text.ExtMatchesSplitext | app_pdf_studio.py:77-79 | the recursive extension function equals the rfind-based `splitext` algorithm: the text from the last '.' of the last component, unless that component is only leading dots |
| Text.ExtShape | app_pdf_studio.py:77-79 | an extension is empty, or a suffix of the path that starts with '.' and holds no other '.' and no '/' |
| Text.Basename | app_pdf_studio.py:274 | the base name is the suffix of the path after its last '/' (the whole path when there is none) |
| Text.DigitsRoundTrip | app_pdf_studio.py:277 | the decimal text of `n` reads back as `n` |
| Text.Format03dRoundTrip | app_pdf_studio.py:274 | `f"{n:03d}"` is at least three digits and reads back as `n` |
| Letterbox.FitScale | app_pdf_studio.py:25 | the scale never exceeds 1 or either box ratio, and is one of the three |
| Letterbox.ScaledSideBounds | app_pdf_studio.py:26 | a side scaled within its bound lands in `[1, side]`, and in `[1, bound]` when the bound is at least 1 |
| Letterbox.FitToBoxBounds | app_pdf_studio.py:21-27 | a degenerate size is returned unchanged; otherwise each side is in `[1, original]` and within every bound of at least 1 |
| Letterbox.FitToBoxFills | app_pdf_studio.py:21-27 | in exact arithmetic, an image that fits keeps its size; otherwise one side meets the box exactly |
| Letterbox.FitToBoxIdempotent | app_pdf_studio.py:21-27 | fitting a fitted size into the same box changes nothing |
| Letterbox.Thumbnail | app_pdf_studio.py:30-36 | the image is centred on the canvas: the right and bottom margins equal the left and top ones or exceed them by one pixel |
| Letterbox.ThumbnailInside | app_pdf_studio.py:30-36 | with a canvas larger than the margin, the image lies inside it with at least 4 pixels on every side and is never enlarged |
| Letterbox.ListThumbnailSize | app_pdf_studio.py:262 | list thumbnails are 76 by 76, the image is at most 68 by 68 and at least 4 pixels from each edge |
| Letterbox.PreviewSize | app_pdf_studio.py:312 | the preview fits the 760 by 560 panel and never enlarges the image |
| Sources.CleanTokenShape | app_pdf_studio.py:60-62 | a cleaned token is the stripped token, or exactly the text between its outer braces, and the latter exactly when the stripped token is braced |
| Sources.ParseDroppedFiles | app_pdf_studio.py:53-65 | the loop returns the cleaned non-empty tokens of the split text in order; every returned token is non-empty |
| Sources.DroppedTokensNonEmpty | app_pdf_studio.py:63-64 | no kept token is empty |
| Sources.DroppedTokensAppend | app_pdf_studio.py:59-65 | parsing is token by token and order-preserving: the tokens of `a + b` are those of `a` followed by those of `b` |
| Sources.DroppedTokensSingle | app_pdf_studio.py:60-65 | one token is kept, cleaned, exactly when cleaning leaves something |
| Sources.BracedPathKept | app_pdf_studio.py:60-62 | a padded braced path keeps exactly its non-empty inner text, spaces included even at its ends (`"  { a.png } "` gives `" a.png "`) |
| Sources.AllowedIgnoringCase | app_pdf_studio.py:69-79 | a path passes the extension test exactly when its extension equals one of the listed extensions up to ASCII case |
| Sources.FilterAllowedSound | app_pdf_studio.py:74-78 | only walked files with an allowed lower-cased extension are kept |
| Sources.CandidatesAllowed | app_pdf_studio.py:72-81 | every candidate has an allowed lower-cased extension |
| Sources.CandidatesAppend | app_pdf_studio.py:72-81 | the candidates of `a + b` are those of `a` followed by those of `b` |
| Sources.DedupKeys | app_pdf_studio.py:83-89 | deduplication keeps every normalised key of its input, and no other |
| Sources.DedupDistinct | app_pdf_studio.py:83-89 | no two kept paths share a normalised key |
| Sources.DedupFirstSeen | app_pdf_studio.py:83-89 | the kept paths are an order-preserving subsequence of the input, each the first entry with its key |
| Sources.DedupAbsorbs | app_pdf_studio.py:83-89 | appending paths whose keys were all seen changes nothing |
| Sources.CollectFiles | app_pdf_studio.py:68-90 | the result is the deduplicated candidate list; every entry has an allowed extension and no two share a key |
| Sources.GatherCandidates | app_pdf_studio.py:72-81 | the first loop yields exactly the candidate list |
| Sources.PathFiles | app_pdf_studio.py:73-81 | a directory contributes its allowed walked files, a file itself if allowed, anything else nothing |
| Sources.FilterWalk | app_pdf_studio.py:74-78 | the inner loop keeps exactly the walked files with an allowed extension, in walk order |
| Sources.RemoveDuplicates | app_pdf_studio.py:83-89 | the `seen`-set loop computes the first-seen deduplication |
| Sources.CollectedProperties | app_pdf_studio.py:68-90 | collected paths have allowed extensions, distinct keys, and are the first occurrences of their keys in order |
| Sources.CollectRepeatIdempotent | app_pdf_studio.py:68-90 | giving the same paths twice collects the same files as giving them once |
| Pages.RowLabelNumber | app_pdf_studio.py:274 | a tree row starts with its one-based position |
| Pages.TreeLabelsNumbered | app_pdf_studio.py:535-536 | row `i` carries the number `i + 1`, so rows are pairwise distinct even for repeated pages |
| Pages.CountLabelNumber | app_pdf_studio.py:539 | the footer starts with the number of records |
| Registry.RemoveAtShape | app_pdf_studio.py:345 | `pop(i)` shortens the list by one, keeps entries before `i`, shifts later ones left, and removes exactly one copy of the popped entry |
| Registry.InsertAtShape | app_pdf_studio.py:337 | `insert(i, x)` lengthens by one, puts `x` at `i`, shifts later entries right, and adds exactly `x` |
| Registry.InsertRemoveRoundTrip | app_pdf_studio.py:336-337 | insert and pop at the same position undo each other |
| Registry.MoveToShape | app_pdf_studio.py:336-337 | the drag splice keeps length and multiset, puts the dragged entry at the target, shifts the entries in between by one, and leaves the rest |
| Registry.MoveToInverse | app_pdf_studio.py:326-339 | dragging back to the origin undoes a drag |
| Registry.MoveToCompose | app_pdf_studio.py:326-339 | since the drag origin follows the entry, two drag steps equal one drag from the first origin to the last target |
| Registry.MoveToSelf | app_pdf_studio.py:333-335 | a drag onto the origin leaves the list unchanged |
| Registry.SwapAtShape | app_pdf_studio.py:352 | the swap exchanges the two positions and leaves every other one |
| Registry.SwapAtPermutes | app_pdf_studio.py:352 | the swap keeps the multiset of records |
| Registry.SwapAtInvolution | app_pdf_studio.py:352 | swapping twice restores the list |
| Registry.SwapIsAdjacentMove | app_pdf_studio.py:348-360 | moving up or down is a drag by one slot |
| Registry.ClampSelection | app_pdf_studio.py:279-288 | no selection exactly when the list is empty; otherwise the requested index (0 when absent) clamped into `[0, n - 1]` |
| Registry.RenderedPagesAround | app_pdf_studio.py:505-525 | the pages of one file are appended together, pages `0 .. n - 1` in order, between the pages of the files before it and those after it |
| Registry.FailedPaths | app_pdf_studio.py:528-529 | only given paths whose rendering raised are warned about |
| Registry.FailedPathsExact | app_pdf_studio.py:505-529 | every given path whose rendering raised is warned about, once per time it was given, and no other path |
| Registry.OpenedImagesAreImages | app_pdf_studio.py:256-266 | the images tab only gains image entries for given paths that open, never more than the paths given |
| Registry.OpenedImagesExact | app_pdf_studio.py:256-267 | an image entry occurs once per time its path was given when that path opens, and not at all otherwise |
| Registry.OpenedImagesComplete | app_pdf_studio.py:256-267 | every given path that opens is appended, and there are as many new entries as paths that open |
| Registry.RenderedPagesArePdf | app_pdf_studio.py:504-529 | the merge tab only gains PDF page entries, each index below what was rendered of its file |
| Registry.PageRegistry.constructor | app_pdf_studio.py:145-153 | a new tab has no records, no selection and no drag |
| Registry.PageRegistry.PreviewEntry | app_pdf_studio.py:285-288 | the preview shows a record exactly when there are records, and it is the selected one |
| Registry.PageRegistry.RefreshTree | app_pdf_studio.py:271-288 | the selection becomes the clamped index and the registry invariant holds |
| Registry.PageRegistry.Select | app_pdf_studio.py:299-302 | clicking a row selects it |
| Registry.PageRegistry.AppendPages | app_pdf_studio.py:510-525 | the page loop appends pages `0 .. n - 1` of the file in order |
| Registry.PageRegistry.AddImagePaths | app_pdf_studio.py:256-269 | the images that open are appended in order; the last record is selected if any was added, otherwise the selection stays |
| Registry.PageRegistry.AppendRendered | app_pdf_studio.py:505-529 | the file loop appends each file's rendered pages in order and collects the files that raised |
| Registry.PageRegistry.AddPdfPaths | app_pdf_studio.py:504-531 | the rendered pages are appended, the failing files are warned about, and the last record is selected (even when nothing was added) |
| Registry.PageRegistry.AddPaths | app_pdf_studio.py:256-269 | the images tab appends the images that open and selects the last record if any was added; the merge tab (`add_pdf_paths`, app_pdf_studio.py:504-531) appends the rendered pages and selects the last record |
| Registry.PageRegistry.AddFromDialog | app_pdf_studio.py:248-254 | a cancelled dialog changes nothing; otherwise the chosen paths are added as the tab's add operation does, records and selection included (`add_pdfs`, app_pdf_studio.py:499-502, does the same on the merge tab) |
| Registry.PageRegistry.OnDropFiles | app_pdf_studio.py:240-246 | a drop warns exactly when no collected file is left and then changes nothing; otherwise the collected files are added as the tab's add operation does, records and selection included |
| Registry.PageRegistry.OnDragStart | app_pdf_studio.py:322-324 | the drag origin is the row under the pointer, or none |
| Registry.PageRegistry.OnDragMotion | app_pdf_studio.py:326-339 | with a drag over another row the records become the drag splice, and the origin and the selection follow the entry; otherwise nothing changes |
| Registry.PageRegistry.RemoveSelected | app_pdf_studio.py:341-346 | the selected record is popped and the previous one (or the first) is selected; nothing happens without a selection |
| Registry.PageRegistry.MoveUp | app_pdf_studio.py:348-353 | swaps the selection with the record above and follows it; no-op without selection or at the top |
| Registry.PageRegistry.MoveDown | app_pdf_studio.py:355-360 | swaps the selection with the record below and follows it; no-op without selection or at the bottom |
| Registry.PageRegistry.ClearAll | app_pdf_studio.py:362-364 | no records and no selection |
| Export.NormalizeShape | app_pdf_studio.py:39-50 | the result is upright RGB; it is on white exactly when the mode was RGBA, LA or P (or already was) |
| Export.NormalizeIdempotent | app_pdf_studio.py:39-50 | normalising twice is normalising once |
| Export.ConvertRunOk | app_pdf_studio.py:380-383 | the loading loop succeeds exactly when every record is an image entry whose source opens |
| Export.ConvertRunShape | app_pdf_studio.py:380-383 | sources are opened in record order, and picture `k` is record `k`'s image normalised; on success every source was opened once |
| Export.ConvertRunFailure | app_pdf_studio.py:380-383 | on failure the loop stopped at the first source that does not open, or before opening anything at the first PDF page entry |
| Export.ConvertToPdf | app_pdf_studio.py:366-393 | empty list: warning, no I/O; cancelled dialog: no I/O; otherwise every source is opened before the single write, which happens only if all opened, and the pages are the loaded images |
| Export.ConvertAllOrNothing | app_pdf_studio.py:379-386 | the loop succeeds exactly when every record is an image entry whose source opens, and then page `k` is record `k`'s image normalised |
| Export.MergeStepInvariant | app_pdf_studio.py:650-654 | one loop step keeps the cache faithful, the opened paths distinct, and the taken pages in range |
| Export.MergeRunInvariant | app_pdf_studio.py:648-654 | the invariant holds after every prefix of the records |
| Export.MergeOpensOnce | app_pdf_studio.py:652-653 | no source path is opened twice in one merge, and only record paths are opened |
| Export.MergeStepPages | app_pdf_studio.py:651-654 | a step succeeds exactly when the record is a PDF page entry whose source opens and has that page, and then hands over exactly that page |
| Export.MergeRunOk | app_pdf_studio.py:648-654 | the merge loop succeeds exactly when every record is a PDF page entry whose source opens and has the named page |
| Export.MergeRunPages | app_pdf_studio.py:650-654 | writer page `k` comes from a PDF page entry and is page `records[k].pageIdx` of record `k`'s source; success hands over one page per record |
| Export.MergeOpensDistinctPaths | app_pdf_studio.py:648-654 | a successful merge opens each distinct source path exactly once, in order of first use |
| Export.MergePdf | app_pdf_studio.py:633-661 | empty list: warning, no I/O; cancelled dialog: no I/O; otherwise sources are opened through the cache, and the single write comes last and only if every page was found |

## Left out

- Widgets, styling, layout, the logo and icon, and the application window are left out. They are presentation only.
- Message boxes are left out. They appear as the `warned` result, the `warnings` list and the `NothingToExport` / `Failed` outcomes; their texts are not modelled.
- File dialogs are parameters: the chosen paths, and the save path (`""` when cancelled).
- Drag-and-drop registration is left out. `tk.splitlist` is the `split` parameter, `None` when it raises.
- Filesystem queries are the `FileSystem` parameter: `isdir`, `isfile`, `os.walk` (as the joined file paths in walk order) and `normcase(abspath(.))`.
- Image decoding is a parameter. For the images tab, `opens(path)` says whether opening, orienting and thumbnailing succeed. For export, `load(path)` gives the decoded picture or nothing.
- Pixel content is not modelled: resizing, pasting, alpha compositing and colour conversion are represented only by the size, mode and "on white" flag of a picture.
- PDF handling is a parameter. `render(path)` gives the pages PyMuPDF appended and whether it raised. `docs(path)` gives the page count pypdf reads, or nothing when it raises.
- Rasterisation scales (0.30 for thumbnails, 1.4 for previews) are left out, and so is the content of previews and thumbnails.
- Thumbnail image handles stored in the records (`thumb`) are left out. They are Tk objects that never influence order or export.
- Floating point is not modelled. `max_w / w` and `int(w * scale)` are exact rationals and their floor, so results may differ from the float ones by rounding.
- Letterbox.FitToBoxFills: with floats, the longer side can land one pixel short of the box (1126 fitted to 760 gives 759). Its first half, that an image which fits keeps its size, holds with floats too. Letterbox.FitToBoxIdempotent holds with floats as well: a fitted size lies inside the box, so the refit scale is exactly 1.0.
- Only POSIX paths are modelled: '/' is the only separator, and `lower()` covers ASCII letters only.
- Closing images and documents after use (`close()`, `doc.close()`) is left out. So is the leak of already-loaded images when a later one fails.
- Writing the output is one event that succeeds or fails as `writable(dest)` says. A partially written file is not modelled.
- An image entry in a merge list is read with the keys of a PDF page entry. The resulting key lookup error is caught like any other, so `MergePdf` treats it as a failed merge. `ConvertToPdf` treats a PDF page entry in the same way. Neither tab's registry holds the other tab's entries.
- Export.Normalize: EXIF orientations 2 to 8 are distinguished only by whether they exchange width and height. The result's orientation is 1 even when the tag was absent.
- Registry.PageRegistry.OnDropFiles: the per-file warnings of `add_pdf_paths` during a drop are dropped from the result. `AddPdfPaths` itself returns them.
- Registry.PageRegistry.AddFromDialog: the per-file warnings of `add_pdf_paths` are likewise not returned.
- Registry.PageRegistry.AddPaths: on the merge tab, the per-file warnings of `add_pdf_paths` are likewise not returned.
- The record's stored `label` in the merge tab is not stored. `Pages.EntryLabel` computes the same text from the entry, because it is built from the same path and index when the record is added.
- The images tab's `get_selected_index` guards `int()` with a try. The merge tab's does not. Both read the selection the model keeps, so neither can fail here.

Behaviour worth noting:

- Only modes RGBA, LA and P (every P image, transparent or not) are composited onto white. Every other mode, including ones with alpha such as PA or RGBa, is converted straight to RGB.
- A missing page raises inside the merge loop and ends in the same generic error dialog as an unreadable source, so `MergePdf` has one `Failed` outcome. The output is written with a plain `open`, so a failed write is not atomic; the model records only whether it succeeded.
- The selection after a change follows fixed rules: `max(0, idx - 1)` after removal, the target after a move or drag, and the last record after an add. `add_pdf_paths` re-selects the last record even when no page was added; `add_image_paths` leaves the selection alone in that case.
