# PDF 2 → 1: a verified model of the batch page-stacking transform

PDF-APP is a small browser tool that takes a batch of two-page PDFs. It turns
each one into a single-page PDF twice as tall: page 1 goes in the top half and
page 2 in the bottom half. That way a signature placed near the bottom of page 2
ends up on the same physical page as the content. All results go into one zip
archive, and each entry keeps its original file name.

This project models the component's `handleProcess` handler (`src/App.jsx`,
lines 12-72) and proves its properties in Dafny:

- `compositor.dfy` (module `Compositor`) covers page geometry and placement. A
  PDF is its list of pages. A page is its size plus the `drawPage` calls made on
  it. The origin is at the bottom-left.
- `batch.dfy` (module `Batch`) covers the loop over the selected files:
  - loading each file in order;
  - skipping documents that do not have exactly two pages;
  - storing each composite in the archive (a map from entry name to PDF) under
    the file's own name.

  `BuildArchive` is the loop itself. It is proved against the specification
  functions `Load`, `ArchiveOf` and `BatchResult`, and lemmas establish their
  properties.
- `app.dfy` (module `App`) has the component state as a class: the selection
  `files`, the `loading` flag and `zipUrl`.
- `wrappers.dfy` holds `Option` and `Result`.

A file that fails to parse is not skipped. There is no `try`/`catch` around
`PDFDocument.load` (`src/App.jsx`, line 21), so one unreadable file ends the
whole handler. No archive is produced, `loading` stays `true` and `zipUrl` stays
empty. `Load`, `LoadFailureSticks`, `BuildArchive` and `HandleProcess` model
that abort.

A document whose page count is not 2 leaves no entry under its name only when
no two-page document has the same name; `SuccessfulRunEntries` states the exact
condition.

## Model

| member | source | states |
|---|---|---|
| `Compositor.Compose` | src/App.jsx:30-59 | The composite is a fresh document with exactly one page. Its width is page 1's width and its height is exactly twice page 1's height. Two draws are recorded: source page 1 in the top half of the page, then source page 2 in the bottom half. Each is drawn at page 1's size (w, h). |
| `Compositor.HalvesTileCanvas` | src/App.jsx:45-59 | The top half and the bottom half of any page never overlap. Together they cover exactly the page's points. |
| `Compositor.ComposedPagesTileCanvas` | src/App.jsx:45-59 | In a composite, the rectangles for page 1 and page 2 are disjoint and together cover the whole (w, 2h) canvas. Page 1 sits directly on top of page 2 (its bottom edge is page 2's top edge). |
| `Compositor.ComposeReadsOnlyFirstPageSize` | src/App.jsx:32-59 | Two documents whose page 1 has the same size give the same composite. Page 2's own size is never read, so page 2 is always scaled into (w, h). |
| `Batch.Load` | src/App.jsx:19-21 | Loading succeeds exactly when every selected file parses. The documents then match the files in order, by name and page sizes. Otherwise the error is the name of the first file that does not parse. |
| `Batch.LoadFailureSticks` | src/App.jsx:19-21 | Once a file fails to load, the files after it make no difference: the run ends with that failure. |
| `Batch.ArchiveKeys` | src/App.jsx:19-65 | The archive's keys are exactly the names of the two-page documents, used verbatim. |
| `Batch.SkipIneligible` | src/App.jsx:24-28 | A document whose page count is not 2 adds no entry and changes nothing. Processing continues as if the file had not been selected. |
| `Batch.ArchiveEntryIsLastEligible` | src/App.jsx:19-65 | Last write wins: the entry under a name is the composite of the last two-page document with that name. |
| `Batch.ArchiveEntriesAreComposites` | src/App.jsx:30-64 | Every archive entry is the composite of a two-page document with the same name. |
| `Batch.DistinctNamesCount` | src/App.jsx:19-65 | When the two-page documents have distinct names, the archive has exactly one entry per two-page document. |
| `Batch.AllIneligibleGivesEmptyArchive` | src/App.jsx:17-65 | When no document has two pages, the run produces an empty archive. |
| `Batch.SuccessfulRunEntries` | src/App.jsx:19-65 | On a completed run, a name is in the archive exactly when some selected two-page file has that name. The entry is the composite of such a file. |
| `Batch.ScenarioSkipsThreePageFile` | src/App.jsx:19-65 | Input: A.pdf and C.pdf (two pages of 600×800 each) and B.pdf (three pages). The archive holds A.pdf and C.pdf only, each a single 600×1600 page. |
| `Batch.BuildArchive` | src/App.jsx:17-65 | The loop returns exactly `BatchResult(files)`: the archive of the loaded documents, or the name of the first file that fails to load. On success its keys are the names of the two-page documents. |
| `App.PdfReverseSaaS.constructor` | src/App.jsx:8-10 | Initially nothing is selected, `loading` is false and there is no archive. |
| `App.PdfReverseSaaS.SelectFiles` | src/App.jsx:99 | Choosing files replaces the selection and leaves `loading` and `zipUrl` alone. |
| `App.PdfReverseSaaS.HandleProcess` | src/App.jsx:12-72 | With an empty selection, `loading` and `zipUrl` stay as they were. On success, `zipUrl` holds the batch's archive and `loading` is false. When a file fails to load, `loading` stays true and `zipUrl` stays empty (the state set at the start). A download link is never shown while `loading` is set. |

## Left out

- Rendering, styling, animation and icons (src/App.jsx:74-145) are UI only. That includes the disabled state of the button (line 111) and the signature coordinates in the footer (lines 138-140).
- pdf-lib's byte-level work is not modelled. `PDFDocument.load` is reduced to "parses to these page sizes, or fails". `embedPages`, `drawPage` and `save` are reduced to the recorded geometry. The model keeps no bytes, fonts or content streams.
- Failures inside `embedPages`, `drawPage`, `save` and `zip.generateAsync` are not modelled. They happen in foreign library code. Like a load failure, any of them would end the handler with `loading` still set.
- JSZip compression and `generateAsync` are not modelled, and neither are `Blob` and `URL.createObjectURL` (browser I/O). The archive is a map from entry name to composite. The object URL is a `ZipHandle` whose id is a parameter of `HandleProcess`. Releasing the URL is the caller's job, and the source never does it.
- JSZip turns a `/` in an entry name into folders. Browser file names contain no `/`, so the model keeps names as plain keys.
- `async`/`await` and React's batching of state updates are not modelled. Each file is awaited before the next, so the loop is modelled as sequential. The intermediate state that the UI sees during the run (`loading` set, `zipUrl` empty) is what `HandleProcess` leaves behind on a load failure. It is not a separate observable step of the model.
- Page sizes are `real`, so `h * 2` and the offsets are exact. JavaScript floating-point rounding is not modelled.
- The `console.warn` for a skipped file (line 26) is logging only.
- After a load failure `loading` stays `true`, so the button is disabled (line 111) and the handler cannot run again until the page is reloaded. The model does not capture this lock-out: the button's disabled state is UI, and `HandleProcess` does not require `loading` to be false.
- The archive is a map, so JSZip's entry order is not modelled. JSZip keeps entries in first-insertion order, and a replaced duplicate keeps its earlier position. No property here depends on that order.
