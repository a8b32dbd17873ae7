# Image-to-PDF page: file intake, conversion trigger and toasts

This project models the browser script of a small web application. The script
lets a user stage one image, by the file dialog or by drag-and-drop, and turn it
into a single-page PDF. The model covers the script's own logic:

- `Intake.Page` is a class whose fields are the script's module-level state and
  the page elements it writes. These are the staged file (`selectedFile`), the
  name and size texts, the preview's `show` class, the drop zone's highlight
  classes, the convert button's `loading` class and the toast element. Each
  event handler is a method that changes exactly the fields the handler writes.
  A ghost field `displayed` holds the last accepted file. `Valid()` says that
  the preview is shown exactly when such a file exists, and that the name and
  size texts then describe it.
- `FileNames` models `name.split('.')[0] + '.pdf'`, with `split` in full.
- `FileSizes` models `formatFileSize`: the unit index, the rounding done by
  `toFixed(1)`, and the text `parseFloat` produces.
- `Toasts` models the icon `switch`, the `colors` lookup and the gradient
  accent used by `showToast`.

The model follows the code:

- `handleFileSelect` stores `files[0]` before it checks the type. A rejected
  file therefore stays selected, and a later convert goes ahead with it
  (`Intake.RejectedFileIsStillConverted`).
- An empty list clears the selection but leaves the preview and texts as they
  were (`Intake.EmptySelectionKeepsPreview`).
- The selection is not cleared when a conversion starts.
- The completion callback reads `selectedFile.name` when it runs. If the file
  was cleared in between, the callback throws and the button stays in its
  loading state (`Intake.ClearDuringConversionLeavesButtonLoading`).
- `parseFloat` drops a trailing ".0", so 1024 bytes show as "1 KB", not
  "1.0 KB".
- A size of 1024^4 bytes or more reads `sizes[4]` or later, which is
  `undefined`. The text then ends in "undefined".
- `colors` has entries only for success, error, warning and info. Any other
  kind gets no valid colour, so the browser keeps the previous icon colour and
  progress background.

## Model

| member | source | states |
|---|---|---|
| `FileNames.Split` | public/script.js:125 | `split` always yields at least one piece, so `[0]` is defined, even for the empty name |
| `FileNames.JoinSplit` | public/script.js:125 | Joining the pieces of `split(sep)` with `sep` gives back the original string |
| `FileNames.SplitPiecesHaveNoSeparator` | public/script.js:125 | No piece of a split contains the separator |
| `FileNames.FirstPieceIsPrefixBeforeSeparator` | public/script.js:125 | The first piece is a prefix of the string, has no separator, and is either the whole string or followed by a separator |
| `FileNames.BaseName` | public/script.js:125 | `name.split('.')[0]` is the longest prefix of the name without a '.': it has no '.', and it is either the whole name or followed by a '.' |
| `FileNames.OutputFileName` | public/script.js:125 | The saved name ends in ".pdf", and what comes before is the part of the source name before its first '.', which has no '.' |
| `FileNames.OutputFileNameWithoutDot` | public/script.js:125 | A name without '.' is saved as the name followed by ".pdf" |
| `FileNames.BaseNameAtFirstDot` | public/script.js:125 | If the first '.' is at index k, the base name is `name[..k]` and the saved name is that plus ".pdf" |
| `FileNames.OutputFileNameOfPhoto` | public/script.js:125 | "photo.jpg" is saved as "photo.pdf" |
| `FileNames.OutputFileNameOfDottedName` | public/script.js:125 | "my.photo.jpg" is saved as "my.pdf", losing everything after the first dot |
| `FileNames.OutputFileNameOfEmptyName` | public/script.js:125 | The empty name is saved as ".pdf" |
| `FileSizes.UnitBytes` | public/script.js:95-98 | `Math.pow(1024, i)` is at least 1, so dividing by it is defined |
| `FileSizes.UnitIndex` | public/script.js:97 | For a positive size, 1024^i <= bytes < 1024^(i+1) |
| `FileSizes.UnitIndexIsLargest` | public/script.js:97 | Every j with 1024^j <= bytes is at most the unit index, so the index is the largest such j |
| `FileSizes.UnitIndexUnique` | public/script.js:97 | The unit index is the only i that brackets the size between 1024^i and 1024^(i+1) |
| `FileSizes.UnitDefinedBelowFourthPower` | public/script.js:96-98 | `sizes` defines only indices 0-3. A positive size gets an index inside the table, and a unit name other than "undefined", if and only if it is below 1024^4 bytes |
| `FileSizes.RoundedTenths` | public/script.js:98 | `toFixed(1)`: the result is the nearest tenth of bytes / 1024^i, the larger one on a tie |
| `FileSizes.ShownValueBounds` | public/script.js:97-98 | The number shown for a positive size lies between 1.0 and 1024.0 |
| `FileSizes.DecimalText` | public/script.js:98 | The decimal rendering of a whole number is a non-empty string of digits with no leading zero, unless the number is 0 |
| `FileSizes.DecimalTextRoundTrip` | public/script.js:98 | Reading the decimal rendering back gives the same number |
| `FileSizes.NumeralIsDecimalText` | public/script.js:98 | Every digit string without a leading zero is the rendering of its own value, so the rendering is the only such string for a number |
| `FileSizes.TenthsText` | public/script.js:98 | `parseFloat(x.toFixed(1))` as text, for x = n/10: either a numeral worth n/10, or a numeral, '.', and a tenths digit other than '0', together worth n/10. So a trailing ".0" is dropped |
| `FileSizes.TenthsTextIsTheOnlyRendering` | public/script.js:98 | Any text that writes n/10 in that form is `TenthsText(n)` |
| `FileSizes.FormatFileSize` | public/script.js:93-99 | A zero size gives "0 Bytes". A positive size gives the nearest tenth of bytes / 1024^i, written as JavaScript writes it, then a space and the name of unit i |
| `FileSizes.FormatFileSizeOfZero` | public/script.js:94 | A zero size is shown as "0 Bytes" |
| `FileSizes.FormatFileSizeOfOneKilobyte` | public/script.js:93-99 | 1024 bytes are shown as "1 KB" |
| `FileSizes.FormatFileSizeOfOneAndAHalfKilobytes` | public/script.js:93-99 | 1536 bytes are shown as "1.5 KB" |
| `FileSizes.FormatFileSizeOfOneMegabyte` | public/script.js:93-99 | 1048576 bytes are shown as "1 MB" |
| `FileSizes.FormatFileSizeJustUnderOneMegabyte` | public/script.js:93-99 | 1048575 bytes are still counted in KB and rounded up to "1024 KB" |
| `FileSizes.FormatFileSizeOfOneTerabyte` | public/script.js:93-99 | 1024^4 bytes are past the unit table and shown as "1 undefined" |
| `Toasts.Icon` | public/script.js:157-169 | The info icon is chosen if and only if the kind is not success, error or warning |
| `Toasts.IconDistinguishesKinds` | public/script.js:157-169 | Distinct kinds from the colour table get distinct icons |
| `Toasts.Color` | public/script.js:176-183 | A colour exists if and only if the kind is success, error, warning or info |
| `Toasts.ColorDistinguishesKinds` | public/script.js:176-183 | No two kinds share a colour |
| `Toasts.Accent` | public/script.js:184 | The second gradient stop is '#3a0ca3' if and only if the kind is success |
| `Toasts.Progress` | public/script.js:176-184 | A progress background exists exactly for the four kinds; it is the kind's colour followed by '#3a0ca3' for success and by '#f72585' for error, warning and info |
| `Intake.IsValidType` | public/script.js:78-79 | A media type is accepted if and only if it is exactly image/jpeg, image/png or image/webp |
| `Intake.Shown` | public/script.js:154-187 | After a toast, the element holds the message, the kind, the kind's icon and the `show` class. The colour and progress background are the kind's own, or the previous ones when the kind has no colour |
| `Intake.Page.constructor` | public/script.js:11 | A loaded page has no selection, a hidden preview, no highlight, no loading state and no conversion pending |
| `Intake.Page.ShowToast` | public/script.js:154-193 | The toast element becomes `Shown` of its previous state; nothing else changes; the kind defaults to info; `Valid()` is kept |
| `Intake.Page.Welcome` | public/script.js:14-17 | The welcome message is shown as an info toast |
| `Intake.Page.HandleFileSelect` | public/script.js:73-91 | The selection becomes `files[0]`, or nothing for an empty list. An accepted type sets name, size text and preview and gives a success toast. A rejected type gives an error toast and leaves the display alone. An empty list changes nothing else. `Valid()` is kept |
| `Intake.Page.HandleDrop` | public/script.js:63-71 | A non-empty drop has the outcome of `HandleFileSelect`; an empty drop changes nothing |
| `Intake.Page.HighlightDropZone` | public/script.js:53-56 | The drop zone is highlighted, and nothing else changes |
| `Intake.Page.UnhighlightDropZone` | public/script.js:58-61 | The drop zone is not highlighted, and nothing else changes |
| `Intake.Page.OnDropZoneEvent` | public/script.js:27-40 | After dragenter or dragover the zone is highlighted; after dragleave or drop it is not. Only a non-empty drop changes the selection, texts, preview or toast. An accepted drop shows the file's name and formatted size; a rejected one leaves both texts and the preview alone |
| `Intake.Page.ClearFile` | public/script.js:145-152 | From any state: no selection, "No file selected", "-", hidden preview, an info toast; `Valid()` is kept |
| `Intake.Page.ConvertToPDF` | public/script.js:101-108 | Without a selection: a warning toast, and the loading state and pending count are unchanged. With one: the loading state is set, one conversion is pending, and there is no toast |
| `Intake.Page.CompleteConversion` | public/script.js:115-134 | With a selection at completion, the document is saved under `OutputFileName` of its name, the loading state ends and a success toast appears. Without one, nothing is saved and the loading state stays |
| `Intake.RejectedFileIsStillConverted` | public/script.js:74-82 | A GIF, outside the allow-list but decodable as an image, gets an error toast yet stays selected; convert then sets the loading state and saves "anim.pdf" |
| `Intake.ClearDuringConversionLeavesButtonLoading` | public/script.js:101-152 | Clearing between convert and completion leaves the button loading with nothing pending and nothing saved |
| `Intake.EmptySelectionKeepsPreview` | public/script.js:73-105 | An empty selection after an accepted one keeps its preview and name text, and convert then only warns |

## Left out

- Element lookups, listener registration and `preventDefaults` (lines 1-51) are UI wiring. The model's fields stand for the elements, and its methods stand for the listeners.
- The file input's own list (`fileInput.files = files` at line 68 and `fileInput.value = ''` at line 146) is left out. The script reads it only as `e.target.files` at line 74, so the model passes the list to `HandleFileSelect` directly.
- Timers are left out because they depend on browser scheduling: the 1000 ms welcome delay, the 800 ms conversion delay and the 3000 ms toast hide. The toast's `shown` flag is never turned off by the model.
- The `FileReader`/`Image` read-and-decode chain and the PDF library calls (`new jsPDF`, `addImage`, `save`) are foreign code. `CompleteConversion` returns the name passed to `save` instead. A read or decode that fails means the completion never runs, and the pending conversion simply stays pending.
- The page-height computation at line 120 is left out; it is floating point.
- `triggerConfetti` (lines 195-202) is a cosmetic foreign call and is left out.
- Intake.Page.CompleteConversion: reads the selection once, at completion. The source reads it twice: at line 141 when the delay ends, and at line 125 in the image callback. So the model does not capture a clear-then-reselect that falls between those two reads.
- FileSizes.UnitIndex: an exact integer idealisation of `Math.floor(Math.log(bytes) / Math.log(1024))`. The floating-point quotient can differ from it for sizes at or just below a power of 1024.
- FileSizes.RoundedTenths: exact only while `bytes / 1024^i` is exactly representable as a double, which holds for sizes below 2^53 bytes. Larger sizes are not modelled as doubles.
- Toasts.Color: treats every kind outside the four keys as having no colour. For a kind that names an inherited object member (`constructor`, `toString`, ...), the script reads a non-colour value. The browser ignores that value just the same.
- Strings are sequences of Unicode scalar values, not JavaScript's UTF-16 code units. Splitting at '.' gives the same pieces in both.
- The click-to-browse path (line 24) is left out: it only opens the browser's file dialog, whose result arrives through `HandleFileSelect`.
- The server bootstrap file (index.js) is left out. Its database module and route modules are not part of this model.
