# WebP batch converter: a Dafny model of the upload component

The repository is a single-page tool. The user drops JPEG, PNG, AVIF or BMP
images onto it, and it re-encodes each one to WebP in the browser. The
converted files are packed into one ZIP archive. All of its logic sits in
the `FileUpload` component. This project models that component:

- **Output-name rewrite** (module `Rename`). The converter names its output
  `name.replace(/\.[^/.]+$/, ".webp")`. The model defines this through the
  index of the last dot. The lemmas prove it has the pattern's meaning.
  When the pattern matches, the suffix from the last dot on becomes `.webp`.
  When it does not match, the name is returned unchanged.
- **The file list** (module `Files`). A dropped file is an object with a fixed
  name and size. Intake sets a `status` on that same object. `removeFile`
  filters the list by object identity. `totalFileSize` is the sum of the sizes.
- **One run, as a specification** (module `Batch`). These are functions of the
  file names and the codec's outcome for each file:
  - the number of successes;
  - the names added to the archive, in order;
  - the progress values, from the start through each file.
- **The component** (module `Upload`). The class `FileUpload` has one field
  per state variable: `files`, `failedConversions`, `isProcessing`, `progress`
  and `zipFile`. It has one method per handler. `BeginProcessing` is the
  `for` loop of `beginProcessing`. It is proved to compute exactly the values
  of the `Batch` functions.

Modelling choices:

- The image codec is an oracle. `outcomes[i]` is true when converting the
  i-th listed file succeeds, and false when the codec throws.
- The ZIP archive is the sequence of entry names passed to `zip.file`.
- `zipFile` is `Some(entries)` for a stored archive and `None` for `null`.
- Progress is the pair `Progress(done, total)`. The component shows it as
  `done / total * 100` percent. The start-of-run `setProgress(0)` is
  `Progress(0, |files|)`. The reset value `0` is `Progress(0, 0)`.

Behaviour of the code that the model keeps as written:

- An empty file list is not rejected. `beginProcessing` runs an empty loop
  and stores no archive. The UI hides the button when the list is empty.
- Nothing rejects a second run while one is in progress. Only disabled
  buttons prevent it. So `BeginProcessing` has no `!isProcessing`
  precondition.
- Files are never marked converted or failed. Intake sets `'queued'`, and
  nothing changes it afterwards.
- A run with no successes does not replace or clear the stored archive. The
  previous run's archive stays downloadable (`FailedRunKeepsArchive`).
- The quality passed to the codec is the constant 50. It is not validated.

## Model

| member | source | states |
|---|---|---|
| `Rename.LastIndexOf` | src/components/FileUpload.js:68 | the result is -1 or an index holding the character, and no later index holds it |
| `Rename.MatchIsLastDot` | src/components/FileUpload.js:68 | the pattern can match only at the last dot, so there is at most one match |
| `Rename.WebpNameReplacesMatch` | src/components/FileUpload.js:68 | a match at `p` means the result is `name[..p] + ".webp"`; with no match, the name comes back unchanged |
| `Rename.WebpNameChangesIff` | src/components/FileUpload.js:68 | the name changes exactly when the pattern matches and the matched suffix is not already `.webp` (both directions) |
| `Rename.WebpNameKeepsStem` | src/components/FileUpload.js:68 | everything before the last dot is preserved; a name without a dot is unchanged |
| `Rename.WebpNameIdempotent` | src/components/FileUpload.js:68 | after a match, the result ends in `.webp`; renaming twice equals renaming once |
| `Rename.WebpNameExampleSimple` | src/components/FileUpload.js:68 | `a.jpg` becomes `a.webp` |
| `Rename.WebpNameExampleDoubleExtension` | src/components/FileUpload.js:68 | `a.tar.gz` becomes `a.tar.webp`: only the last extension goes |
| `Rename.WebpNameExampleDotInDirectory` | src/components/FileUpload.js:68 | `x.d/file` is unchanged: a suffix containing `/` does not match |
| `Rename.WebpNameExampleTrailingDot` | src/components/FileUpload.js:68 | `name.` is unchanged: the suffix must be non-empty |
| `Rename.WebpNameExampleLeadingDot` | src/components/FileUpload.js:68 | `.bashrc` becomes `.webp` |
| `Files.Without` | src/components/FileUpload.js:38 | the removed file is gone, and every kept entry was in the list |
| `Files.WithoutMultiset` | src/components/FileUpload.js:38 | removal drops every occurrence of the file and no occurrence of any other file |
| `Files.WithoutConcat` | src/components/FileUpload.js:38 | removal distributes over concatenation, so the kept entries stay in their original order |
| `Files.WithoutAbsent` | src/components/FileUpload.js:38 | removing a file that is not listed leaves the list unchanged |
| `Files.WithoutIdempotent` | src/components/FileUpload.js:38 | removing the same file twice equals removing it once |
| `Files.TotalSize` | src/components/FileUpload.js:112 | the fold's result is at least the size of every listed file |
| `Files.TotalSizeConcat` | src/components/FileUpload.js:112 | the total of two lists appended is the sum of their totals |
| `Files.TotalSizeWithout` | src/components/FileUpload.js:37-40 | removing a file lowers the total by its size times the number of times it was listed |
| `Batch.Successes` | src/components/FileUpload.js:81-92 | the success count never exceeds the number of files |
| `Batch.ArchiveEntriesLength` | src/components/FileUpload.js:84-92 | the number of archive entries equals the number of successes |
| `Batch.RunStep` | src/components/FileUpload.js:84-92 | each file contributes its own outcome: one more success and one renamed entry on success, nothing added on failure |
| `Batch.ProgressSeriesStep` | src/components/FileUpload.js:93 | each file appends exactly one progress value, `(k + 1, total)` |
| `Batch.ArchiveEntriesConcat` | src/components/FileUpload.js:84-92 | the entries are added in input order: the archive of `a + b` is the archive of `a` followed by that of `b` |
| `Batch.SuccessesConcat` | src/components/FileUpload.js:81-92 | success counts of consecutive parts of the list add up |
| `Batch.ArchiveEntriesSingle` | src/components/FileUpload.js:85-92 | one file adds its renamed name on success and nothing on failure |
| `Batch.ArchiveEntriesComplete` | src/components/FileUpload.js:84-92 | every file that converted has its renamed name in the archive |
| `Batch.ArchiveEntriesSound` | src/components/FileUpload.js:84-92 | every archive entry is the renamed name of some file that converted |
| `Batch.ArchiveEntriesMembership` | src/components/FileUpload.js:84-92 | a name is an entry iff it is the renamed name of a file that converted (both directions) |
| `Batch.ArchiveEntriesAllSucceed` | src/components/FileUpload.js:84-92 | if every file converts, there are as many successes as files and the archive holds every renamed name in order |
| `Batch.ArchiveEntriesAllFail` | src/components/FileUpload.js:84-92 | if every file fails, there are no successes and no entries |
| `Batch.ProgressSeriesMonotone` | src/components/FileUpload.js:78-93 | progress starts at 0, never decreases, keeps the run's total, and is 100% exactly after the last file of a non-empty list |
| `Batch.ThreeFilesOneFailure` | src/components/FileUpload.js:84-92 | with outcomes success, success, failure: 2 successes, and the archive holds the first two renamed names |
| `Batch.ThreeImagesOneFailure` | src/components/FileUpload.js:84-92 | with `a.jpg`, `b.png` and `c.bmp`, where only `c.bmp` fails: the archive holds `a.webp` and `b.webp` |
| `Upload.FileUpload.constructor` | src/components/FileUpload.js:10-14 | initial state: no files, no failures, not processing, progress `Progress(0, 0)` (the number 0), no archive |
| `Upload.FileUpload.TotalFileSize` | src/components/FileUpload.js:112 | 0 for an empty list, and at least each listed file's size |
| `Upload.FileUpload.OnDrop` | src/components/FileUpload.js:16-24 | the accepted files are appended after the existing ones, in order, and each gets status `Queued`; the total size grows by theirs; nothing else changes |
| `Upload.FileUpload.RemoveFile` | src/components/FileUpload.js:37-40 | `files` becomes the list without every entry that is this object, in the same order; the total shrinks by that file's share; nothing else changes |
| `Upload.FileUpload.ResetForm` | src/components/FileUpload.js:42-49 | files emptied, failure count and progress zeroed, archive cleared, not processing |
| `Upload.FileUpload.BeginProcessing` | src/components/FileUpload.js:75-105 | `converted` is the number of successes and `converted + failed` is the number of files; the entries are the renamed successful names, in order; the progress values are 0 then k/n for each k; the final progress is `Progress(n, n)`: 100% for a non-empty list, 0 for an empty one; `failedConversions` equals `failed`; processing ends; `zipFile` is replaced only when `converted > 0`; the list is unchanged |
| `Upload.RunIsRepeatable` | src/components/FileUpload.js:42-105 | for any dropped files and outcomes, a reset followed by the same drop and outcomes gives the same `converted` and `failed` counts, the same archive entries and the same stored `zipFile` as the first run |
| `Upload.FailedRunKeepsArchive` | src/components/FileUpload.js:76-100 | a run with no success leaves the earlier run's archive stored and sets the failure count to that run's failures |

## Left out

- The image codec (`imageCompression`, with its size cap of 10 MB, its dimension cap of 4096 pixels, the output type and the quality 50 / 100). It is an external library. The model keeps only whether each call succeeds or throws.
- The output file's bytes and MIME type. Only its name is modelled.
- JSZip internals. This includes what happens to two entries with the same name: the model records the names added, duplicates included.
- `zip.generateAsync` and `saveAs`. The model assumes archive generation succeeds. If it rejected in the source, the handler would stop before clearing `isProcessing`.
- `URL.createObjectURL` / `URL.revokeObjectURL`, the `preview` property and the `useEffect` cleanup. These are browser resource handling.
- `useDropzone`: its MIME filter, drag state and multiple-file option. Also the rendered markup, including the buttons disabled while processing.
- Upload.FileUpload.BeginProcessing: it runs without interruption. In the source, control returns to the browser at each `await`, so a drop can happen mid-run. The loop still walks the list captured when the run started. The model does not show other handlers the intermediate state in which `isProcessing` is true.
- Floating-point progress and sizes: the percentage, the MB division, `toFixed` and `Math.round`. Progress is the exact pair (done, total).
- `console.log` and `console.error`.
- `src/app/page.js` and `src/app/layout.js`. They are static markup and metadata with no logic.
