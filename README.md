# image-organizer: a verified model of the PDF composer and its hooks

This project models the core of image-organizer, a browser tool. The user picks JPEG and PNG images, keeps them in a list, and composes them into a PDF at a fixed number of images per page, laid out on a grid. The model has four parts:

- **The composer** (`generatePdf`), modelled by `Composer.GeneratePdf`. This is an imperative single pass over the images. It keeps a current page and a count of the images already on it. Each image is fetched and dispatched on its declared type: `image/jpeg` and `image/jpg` go to the JPEG embedder, `image/png` goes to the PNG embedder, and anything else is skipped. An embedded image is drawn into the next cell, scaled to fit and centred. A new page starts when the current one fills, unless that image was the last entry. The method is proved equal to `Composer.Compose`, a closed form:
  - the process fails at the first entry whose fetch or embedder rejects it;
  - otherwise the k-th placed image lands on page `k div P`, in slot `k mod P`, at row `slot div cols`, column `slot mod cols`.

  Lemmas in `ComposerProperties` state what that closed form means: where each placed image lands, that input order is kept, how many pages there are, and when the result is a failure.
- **The grid helper** (`calculateGrid`), modelled by `GridUtils.CalculateGrid`. It has a fixed table for 1, 2, 4, 6 and 9 images per page, and otherwise uses `cols = ceil(sqrt n)` and `rows = ceil(n / cols)`. The lemmas show that the table agrees with the formula. They also show that `cols` is the least column count whose square holds `n` cells, and that `rows` is the least row count that holds `n` cells at that width.
- **The intake list** (`useImageHandler`), modelled by the class `ImageHandler.ImageList`. It holds a sequence that the hook's operations replace:
  - picking files appends those of an allowed type, in order, and raises a warning exactly when some file was turned away;
  - removing an entry is a filter on positions;
  - clearing empties the list.

  Every type the list accepts is one the composer embeds. So when no entry's fetch or embedder rejects it, every stored entry gets a cell (`ImageHandler.StoredImagesAllPlaced` with `ComposerProperties.ComposeOutcome`).
- **The generation state** (`usePdfGenerator`), modelled by the class `PdfGenerator.GeneratorState`. It holds the last document URL and whether the preview is open:
  - with no images, it only returns a notice;
  - a successful generation stores the URL and opens the preview;
  - a failed one leaves the state as it was;
  - closing hides the preview.

Every page but the last is full (`ComposerProperties.PagesBeforeLastFull`). The last page is empty exactly when the number of placed images is a multiple of the page capacity, zero included, and the last input entry was skipped (`ComposerProperties.LastPageEmptyIff`). Two behaviours of the source are kept as written, and both are proved by example lemmas.

- A skipped entry (an unsupported type) after a page has just filled leaves an empty last page. The guard that avoids an empty trailing page only looks at whether this is the last input entry, not whether any later entry will be placed (`ComposerProperties.TrailingSkippedEntryLeavesEmptyPage`).
- A full last page adds no page (`ComposerProperties.FullLastPageAddsNoPage`).

Geometry is over `real`. Page sizes are in points: A4 is 595.28 by 841.89 and Letter is 612 by 792. The padding is 20 points in each direction. A 200-by-100 image in a 100-point square cell is limited by its width and drawn at 80 by 40 (`Geometry.WideImageInSquareCell`).

## Model

| member | source | states |
|---|---|---|
| Numeric.CeilDiv | src/utils/generatePdf.ts:21 | the row count `ceil(a / b)`: it times `b` covers `a`, and one less does not |
| Numeric.CeilDivLeast | src/utils/generatePdf.ts:21 | any count whose multiple of `b` covers `a` is at least `ceil(a / b)` |
| Numeric.CeilSqrt | src/utils/gridUtils.ts:15 | `ceil(sqrt n)` on integers: its square covers `n`, and the square of one less does not |
| Numeric.CeilSqrtIs | src/utils/gridUtils.ts:15 | the integer ceiling square root is unique: any `c` with both properties equals it |
| Mime.FormatOf | src/utils/generatePdf.ts:36-42 | the embedder chosen for a type: JPEG exactly for `image/jpeg` and `image/jpg`, PNG exactly for `image/png`, none otherwise |
| Mime.IntakeAllowedIsEmbeddable | src/hooks/useImageHandler.ts:11-12 | a type passes the intake filter if and only if the composer has an embedder for it |
| GridUtils.DefaultGrid | src/utils/gridUtils.ts:14-17 | the formula grid: `cols` is the ceiling square root, `rows` the ceiling quotient, and `1 <= rows <= cols` |
| GridUtils.CalculateGrid | src/utils/gridUtils.ts:2-19 | the grid holds `n` cells, drops no whole row, and is no taller than it is wide |
| GridUtils.TableMatchesFormula | src/utils/gridUtils.ts:3-13 | each table entry (1, 2, 4, 6, 9) is exactly what the default formula gives |
| GridUtils.CalculateGridIsLeast | src/utils/gridUtils.ts:2-19 | no column count whose square holds `n` is smaller, and no row count that holds `n` at this width is smaller |
| Geometry.PageWidth | src/utils/generatePdf.ts:17 | the page width is positive and less than the height (portrait) |
| Geometry.PageHeight | src/utils/generatePdf.ts:18 | the page height is positive |
| Geometry.CellAt | src/utils/generatePdf.ts:46-47 | the cell has the cell extent, its top edge lies `row` cell heights below the page top, and its right edge lies `col + 1` cell widths from the left; `Geometry.CellOnPage` shows it lies on the page |
| Geometry.FitInCell | src/utils/generatePdf.ts:49-59 | the drawn rectangle is centred in its cell horizontally and vertically |
| Geometry.FitWithinPadding | src/utils/generatePdf.ts:49-56 | the drawn image keeps its aspect ratio, has positive extent, fits inside the cell less the padding, meets the padded bound in one direction, and leaves at least half the padding on every side |
| Geometry.CellOnPage | src/utils/generatePdf.ts:23-47 | every cell of the grid lies inside the page |
| Geometry.WideImageInSquareCell | src/utils/generatePdf.ts:52-59 | a 2:1 image in a 100-point square cell is drawn at 80 by 40, with its lower-left corner at (10, 30) |
| Composer.FrameOf | src/utils/generatePdf.ts:17-24 | the page size in points; `cols = columns`; `rows` is the least count whose grid holds a full page |
| Composer.Embedded | src/utils/generatePdf.ts:35-42 | a decoded size exists only for an embeddable type whose bytes were fetched |
| Composer.FirstAbort | src/utils/generatePdf.ts:29-42 | the first entry whose fetch fails, or whose type's embedder rejects its bytes; none when no entry does |
| Composer.PlacedIn | src/utils/generatePdf.ts:36-42 | the placed entries below `j` are strictly ascending, and each has an embeddable type |
| Composer.Aborts | src/utils/generatePdf.ts:31-39 | an aborting entry has no decoded size; for any other entry, a size exists if and only if its type is embeddable; `ComposerProperties.ComposeOutcome` shows that the run fails exactly at the first such entry |
| Composer.PlaceAt | src/utils/generatePdf.ts:44-59 | the placement keeps the input index and its cell decomposes the slot row-major (`row * cols + col == slot`, `col < cols`); `ComposerProperties.LayoutCell` locates each placement on its page |
| Composer.PageCount | src/utils/generatePdf.ts:68-72 | at least one page |
| Composer.Compose | src/utils/generatePdf.ts:10-77 | the closed-form outcome: a failure names an aborting entry with no abort before it, and a document has no aborting entry and `PageCount` pages; `ComposerProperties.ComposeOutcome`, `LayoutCell` and `LayoutInOrder` state the rest |
| Composer.GeneratePdf | src/utils/generatePdf.ts:10-77 | the loop's result equals the closed-form composition (failure at the first aborting entry, or the paginated placements) |
| ComposerProperties.PlacedExactly | src/utils/generatePdf.ts:36-42 | an entry is placed if and only if it comes before `j` and its type is embeddable; unsupported entries are skipped |
| ComposerProperties.PlacedAll | src/utils/generatePdf.ts:36-42 | when every type is embeddable, the k-th placement is of entry k |
| ComposerProperties.ComposeOutcome | src/utils/generatePdf.ts:29-42 | a document is produced if and only if no entry aborts; the failure index is exactly the first aborting entry; a document has the chosen page size |
| ComposerProperties.LayoutCell | src/utils/generatePdf.ts:44-47 | each entry of page p at position t is placement `p*P + t`: t is below P, its row and column are `t div cols` and `t mod cols` inside the grid, and its input entry is embeddable |
| ComposerProperties.LayoutOfPlaced | src/utils/generatePdf.ts:44-72 | the k-th placed image appears on page `k div P` at position `k mod P`, with its own input index and cell |
| ComposerProperties.LayoutInOrder | src/utils/generatePdf.ts:29-73 | reading the pages in order gives every placement, in input order, with none lost or repeated |
| ComposerProperties.PageCountAllPlaced | src/utils/generatePdf.ts:68-72 | when every entry is placed there are `ceil(n / P)` pages, and one page for an empty input |
| ComposerProperties.EmptyInputOnePage | src/utils/generatePdf.ts:26 | no images give one empty page |
| ComposerProperties.FiveImagesTwoPages | src/utils/generatePdf.ts:68-72 | five images at four per page give a full page and a page with the fifth image in the top-left cell |
| ComposerProperties.SkippedEntryTakesNoCell | src/utils/generatePdf.ts:40-45 | an unsupported entry between two images takes no cell, so the next image takes the adjacent cell |
| ComposerProperties.TrailingSkippedEntryLeavesEmptyPage | src/utils/generatePdf.ts:69 | filling a page with a later, unsupported entry still to come leaves an empty last page |
| ComposerProperties.FullLastPageAddsNoPage | src/utils/generatePdf.ts:69 | filling a page on the last entry adds no page |
| ComposerProperties.PagesBeforeLastFull | src/utils/generatePdf.ts:68-72 | every page before the last holds exactly the page capacity |
| ComposerProperties.LastPageEmptyIff | src/utils/generatePdf.ts:68-72 | the last page is empty if and only if the placed count is a multiple of the capacity (zero included) and the last input entry was skipped |
| ImageHandler.AllowedFiles | src/hooks/useImageHandler.ts:11-12 | the kept files are no more than the picked ones, and each has an allowed type |
| ImageHandler.Records | src/hooks/useImageHandler.ts:17-20 | one entry per kept file, with that file's URL and type |
| ImageHandler.AllowedFilesConcat | src/hooks/useImageHandler.ts:12 | filtering a concatenation is concatenating the filtered parts, so the kept files keep their order |
| ImageHandler.AllowedFilesMembers | src/hooks/useImageHandler.ts:12 | a file is kept if and only if it was picked and its type is allowed |
| ImageHandler.DroppedIffRejected | src/hooks/useImageHandler.ts:13-15 | the kept list is shorter if and only if some picked file has a type that is not allowed |
| ImageHandler.RemoveAt | src/hooks/useImageHandler.ts:26 | the positional filter: one entry shorter when the index is in range, the same length otherwise, and only former entries remain; `ImageHandler.RemoveAtIs` gives the exact result |
| ImageHandler.RemoveAtIs | src/hooks/useImageHandler.ts:26 | removing by position deletes exactly the entry at that index; an index outside the list changes nothing |
| ImageHandler.StoredImagesAllPlaced | src/hooks/useImageHandler.ts:11-12 | entries whose types the list admits are all placed by the composer, the k-th in cell order being entry k |
| ImageHandler.ImageList.constructor | src/hooks/useImageHandler.ts:6 | the list starts empty |
| ImageHandler.ImageList.HandleFileChange | src/hooks/useImageHandler.ts:8-23 | no file list changes nothing; otherwise the allowed files' entries are appended in order, the warning is raised if and only if some file was rejected, and only allowed types are ever stored |
| ImageHandler.ImageList.RemoveImage | src/hooks/useImageHandler.ts:25-27 | the entry at the index goes and the others keep their order; an out-of-range index changes nothing |
| ImageHandler.ImageList.ClearImages | src/hooks/useImageHandler.ts:29 | the list becomes empty |
| PdfGenerator.GeneratorState.constructor | src/hooks/usePdfGenerator.ts:5-6 | no document and no preview |
| PdfGenerator.GeneratorState.HandleGeneratePdf | src/hooks/usePdfGenerator.ts:8-28 | with no images: the no-images notice and an unchanged state; on success: the new URL is stored and the preview opens; on failure: the failure notice and an unchanged state; a preview is only ever shown for a stored URL |
| PdfGenerator.GeneratorState.CloseModal | src/hooks/usePdfGenerator.ts:30 | the preview closes and the URL is kept |

## Left out

- Fetching URLs, decoding image bytes and building the PDF file are foreign code. This covers `fetch`, the `pdf-lib` document, `embedJpg`/`embedPng`, `scale(1)`, `drawImage`, `save` and the `Blob`. An image is modelled by its declared type and by what fetching and each embedder make of it. The document is modelled by its page size and the placements drawn on each page, not by its bytes.
- `URL.createObjectURL` is modelled as a URL token carried by each picked file, and as the URL carried by a successful `Generation`.
- `alert` and `console.error` are modelled as a returned warning flag or notice. The error value itself is not modelled.
- Asynchrony is not modelled: `async`/`await` and React's state setters are modelled as sequential updates. Concurrent calls, stale state, and the timing of `setImages(prev => …)` are not modelled.
- Composer.GeneratePdf: arithmetic is over exact reals and integers, not IEEE doubles. So `Math.ceil(imagesPerPage / cols)` is the exact integer ceiling, and rounding in the cell size and scale is not modelled.
- Composer.GeneratePdf: requires `imagesPerPage >= 1` and `columns >= 1`. The only caller passes values from the fixed option lists {1, 2, 4, 6, 9, 12} and {1, 2, 3, 4}. The JavaScript behaviour for zero (an infinite cell height, or `NaN` coordinates) is not modelled.
- GridUtils.CalculateGrid: requires `n >= 1`. For 0 the source's default branch returns 0 columns and `NaN` rows (`Math.ceil(0 / 0)`), and for negative input `NaN` for both; these are not modelled. `Math.sqrt` is taken as exact, so its ceiling is the integer ceiling square root.
- Composer.GeneratePdf: a decoded image always has a positive width and height (`Composer.Extent`). The source divides by both without a guard, and a zero-size decode is not modelled.
- usePdfGenerator's pass-through of the page size, images per page and columns to the composer is not modelled. HandleGeneratePdf takes the composer's outcome as its `Generation` input, so any failure, whether a fetch, a rejected embedding or the file build, is one `GenerationFailed`.
- The crop dialog, drag-and-drop, the preview modal component and the page component are presentation code. They are not part of this model.
