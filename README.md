# pdfEditing in Dafny

pdfEditing is a small PDF editor with three operations: reverse the page
order of files, split a page range out of files, and merge files into one.
It has two front ends. `pdf_edit.py` is the `PDFEdit` class used by the GUI.
It checks its inputs, picks an output subdirectory per operation, and makes
output names unique against the directory listing. `project.py` is an older
command-line version. It has a weaker name check and fixed output paths
under `output/`. It exits on a missing file, an out-of-range page, or a
split that selects the whole file, and raises an exception in the other
failure cases.

The model treats a PDF as three things:

- a sequence of opaque pages, where only order matters;
- an outline, a list of bookmarks, each a title and a page position;
- a metadata value.

The file system is a `Disk` value. It maps each path to a file, which either
parses as a PDF or does not. It also gives each directory the listing that
`os.listdir` would return. Each operation takes a disk and returns an
`Outcome` together with the new disk. An `Outcome` is one of:

- a normal return;
- the `(False, message)` tuple of a failed check;
- a raised `ValueError`;
- `sys.exit(message)`;
- an exception nobody catches: IndexError, UnboundLocalError, or a read error.

Each loop that updates state as it goes (the page loops, the file loops,
the listing scan, the append loop) is a Dafny `method` with a `while` loop,
proved equal to a recursive function. The name checks, which return at the
first failing name, are recursive functions with no method beside them, and
the list comprehensions of the source are folded into the functions that use
them. The properties are lemmas about those functions.

Modules:

- `Text` (text.dfy) holds the Python string and path operations the editor
  relies on: `str.replace`, `str.split`, the `in` test on strings, `str.lower`
  (ASCII only), `f"{n}"`, and `os.path.basename`, `os.path.splitext` and
  `os.path.join` with `/` as the separator.
- `Documents` (documents.dfy) holds the document, the disk and outcomes.
- `Pages` (pages.dfy) holds the page logic of `pdf_edit.py` that does not
  write to the disk: reversing a document with its bookmarks, and merging files.
  `project.py` reuses the reversal, but has its own page-range loop
  (negative indices, `sys.exit`) in `Project`; `pdf_edit.py`'s page-range
  loop is in `PdfEdit`.
- `PdfEdit` (pdf_edit.dfy) models `PDFEdit`. Its one field, `output_dir`,
  becomes the `root` parameter, because no method changes it.
- `Project` (project.dfy) models the functions of `project.py`.

## Model

| member | source | states |
|---|---|---|
| Text.Extension | pdf_edit.py:35 | The extension `splitext` splits off is empty, or a suffix of the path that starts with its only dot and holds no `/`. |
| Text.Basename | pdf_edit.py:86 | `os.path.basename`: the text after the last `/` (properties in Text.BasenameSuffix). |
| Text.BasenameSuffix | pdf_edit.py:86 | The base name is a suffix of the path with no `/`, and a `/` comes right before it unless it is the whole path. |
| Text.JoinPath | pdf_edit.py:64-75 | `os.path.join` of a directory and one component: an absolute component wins, otherwise a single `/` goes between them (properties in Text.JoinPathSpec and Text.JoinPathInjective). |
| Text.JoinPathSpec | pdf_edit.py:64 | The joined path ends with the component, and starts with the directory unless the component is absolute. |
| Text.JoinPathInjective | pdf_edit.py:62-74 | Two relative names joined to one directory give the same path only if the names are equal. |
| Text.Lower | pdf_edit.py:36 | `str.lower` over ASCII, character by character (properties in Text.LowerAt). |
| Text.LowerAt | pdf_edit.py:36 | Lower-casing keeps the length and maps each character on its own. |
| Text.ReplaceAbsent | pdf_edit.py:50 | `str.replace` leaves a string without the pattern unchanged. |
| Text.ReplaceLength | pdf_edit.py:50 | A replacement that is longer than the pattern makes a string that contains the pattern strictly longer. |
| Text.ReplaceIntroduces | pdf_edit.py:50 | After a replacement, a string that contained the pattern contains the replacement. |
| Text.ReplaceDistinct | pdf_edit.py:50 | Two different replacements of equal length give different results on a string that contains the pattern. |
| Text.Replace | pdf_edit.py:50-54 | `str.replace(pat, rep)`: each non-overlapping occurrence of the pattern, scanning from the left, becomes the replacement (properties in Text.ReplaceAbsent, ReplaceLength, ReplaceIntroduces and ReplaceDistinct). |
| Text.Split | project.py:16 | `str.split` gives at least one piece, and no piece contains the separator. |
| Text.SplitHasSecond | project.py:16 | A split has a second piece, the one `[1]` reads, exactly when the separator occurs. |
| Text.IntToString | project.py:114 | The numeral of an integer is non-empty and starts with a minus sign exactly when the integer is negative. |
| Documents.Open | pdf_edit.py:89-92 | Opening fails with FileNotFoundError exactly when the path does not exist. |
| Documents.Store | pdf_edit.py:75-77 | Writing a document to a directory and name, as `open(..., "wb")` and `writer.write` do here and at project.py:70-71: the path now holds the document, and a new name joins the directory listing (properties in Documents.StoreSpec). |
| Documents.StoreSpec | pdf_edit.py:75-77 | After a write, the path holds the new document and every other path is unchanged. No file disappears, and the name joins the directory listing without removing entries. |
| Pages.ReverseDocument | pdf_edit.py:93-109 | The reversal of one document: IndexError when the outline is non-empty and shorter than the page count, else the reversed pages, the bookmarks rebuilt by position and the metadata kept (properties in Pages.ReverseDocumentSpec). |
| Pages.ReverseSeqAt | pdf_edit.py:99-103 | The reversed page sequence has N pages, and position k holds original page N-1-k. |
| Pages.ReverseSeqInvolution | pdf_edit.py:99-103 | Reversing twice restores the order. |
| Pages.ReverseDocumentSpec | pdf_edit.py:93-109 | The reversal succeeds exactly when the outline is empty or has at least N entries; otherwise IndexError escapes. On success: N pages, page k is original page N-1-k, metadata unchanged, no outline for an empty input outline, else N bookmarks where bookmark k is titled `outline[N-1-k]` and points at page k. |
| Pages.BookmarksFollowPages | pdf_edit.py:104-109 | The title at outline index j lands on the new position of original page j, whatever page entry j pointed at. |
| Pages.BookmarksIgnoreDestinations | pdf_edit.py:104-109 | Destinations are not carried over: with outline "A" on page 1 then "B" on page 0 over two different pages, the reversed document's first bookmark is "B" on page 0, a different page from the one "B" pointed at. |
| Pages.ReverseDocumentTwice | pdf_edit.py:93-109 | Reversing a reversal restores the pages and the metadata. The outline becomes the first N original bookmarks, renumbered 0..N-1. |
| Pages.LastBookmarksAt | pdf_edit.py:104-109 | After `count` iterations the loop has added `count` bookmarks, bookmark k titled `outline[N-1-k]` and pointing at page k. |
| Pages.LastBookmarksAll | pdf_edit.py:97-109 | After all N iterations, the loop's bookmarks are the reversed first N outline entries, renumbered from 0. |
| Pages.ReverseWriter | pdf_edit.py:96-109 | The page loop with its `page_number` counter builds exactly the reversal above, or stops with IndexError. |
| Pages.MergedPages | pdf_edit.py:186-192 | The merge of the inputs: the first missing input exits, the first unreadable one raises, otherwise their pages in order (properties in Pages.MergedPagesSpec). |
| Pages.FlattenLength | pdf_edit.py:186-190 | The merged page count is the sum of the inputs' page counts. |
| Pages.MergedPagesSpec | pdf_edit.py:186-192 | The merge returns exactly when every input parses. It returns the in-order concatenation of the inputs' pages, whose length is the sum of their counts. |
| Pages.MergeTwo | pdf_edit.py:186-192 | Merging two parsed files gives the first file's pages followed by the second's. |
| Pages.MergedPagesNeverExitsOnExistingFiles | pdf_edit.py:188-192 | With every input present, the merge never reaches the "This is File Not found" exit. |
| Pages.MergedPrefixStops | pdf_edit.py:186-192 | The first failing input ends the merge, and later inputs do not change the outcome. |
| Pages.AppendAll | pdf_edit.py:186-192 | The `append` loop computes the merge function. |
| PdfEdit.LowerIsPdf | pdf_edit.py:35 | Four characters that lower-case to ".pdf" are a dot followed by three non-dots. |
| PdfEdit.ExtensionToBasename | pdf_edit.py:35 | A path that passes the extension test has a base name of the accepted shape. |
| PdfEdit.BasenameToExtension | pdf_edit.py:35 | A path whose base name has the accepted shape passes the extension test. |
| PdfEdit.HasPdfExtensionIff | pdf_edit.py:35-36 | The extension test passes exactly when the base name is at least five characters long, ends in ".pdf" in any case, and has a non-dot character before that. |
| PdfEdit.CheckPdfExtension | pdf_edit.py:34-40 | The check over the paths in order, returning at the first failing one (properties in PdfEdit.CheckPdfExtensionSpec). |
| PdfEdit.CheckPdfExtensionSpec | pdf_edit.py:34-40 | The check returns `(True, "")` exactly when every path has a .pdf extension and exists. |
| PdfEdit.CheckReportsFirstFailure | pdf_edit.py:34-40 | A failed check names the first failing path. For that path, the extension message takes precedence over the missing-file message. |
| PdfEdit.MatchCount | pdf_edit.py:48-51 | The scan's counter never exceeds the length of the listing. |
| PdfEdit.ResolvedName | pdf_edit.py:48-54 | The name the scan returns: the name when the counter ends at 0, else ".pdf" replaced by "copy-<count>.pdf" (properties in the lemmas below). |
| PdfEdit.SearchIsNameValid | pdf_edit.py:48-54 | The listing loop returns the resolved name: the name itself when no entry matched, else the name with ".pdf" replaced by "copy-<count>.pdf". |
| PdfEdit.MatchCountAtLeastOccurrences | pdf_edit.py:49-51 | Every listing entry equal to the name bumps the counter. |
| PdfEdit.ResolvedNameUnchangedIff | pdf_edit.py:52-54 | For a name containing ".pdf", the name comes back unchanged exactly when no entry matched. |
| PdfEdit.UnchangedNameIsFree | pdf_edit.py:48-54 | A name that comes back unchanged is not in the listing. |
| PdfEdit.ExistingNameGetsCopy | pdf_edit.py:48-54 | A listed name that contains ".pdf" comes back different, with "copy-" in it. |
| PdfEdit.NameWithoutPdfIsKept | pdf_edit.py:50-54 | A name without a lower-case ".pdf" comes back unchanged even when it is listed. |
| PdfEdit.FirstCopyNameIsNew | pdf_edit.py:50 | The first copy name differs from the name and from the zeroth copy name. |
| PdfEdit.ResolvedNameCanCollide | pdf_edit.py:48-54 | With "<x>copy-1.pdf" listed before "<x>.pdf", the scan returns "<x>copy-1.pdf", a name already listed. |
| PdfEdit.Subdirectory | pdf_edit.py:62-73 | "rev", "split" and "marge" map to `reverse`, `split` and `marge`; any other tag to "". |
| PdfEdit.SaveDirectory | pdf_edit.py:62-73 | The tag's subdirectory joined to the output root (properties in PdfEdit.SaveDirectoriesDistinct and PdfEdit.OtherProcessSavesInRoot). |
| PdfEdit.SaveDirectoriesDistinct | pdf_edit.py:62-71 | "rev", "split" and "marge" save into three different directories, each strictly inside the output root. |
| PdfEdit.OtherProcessSavesInRoot | pdf_edit.py:72-73 | Any other process tag saves into the output root. |
| PdfEdit.Save | pdf_edit.py:56-77 | `__save_file_as_pdf` on the disk: store the document in the process's directory under the name made unique against that directory's listing (properties in PdfEdit.SaveStaysInDirectory and PdfEdit.SaveKeepsListedFile). |
| PdfEdit.SaveFileAsPdf | pdf_edit.py:56-77 | Saving picks the process's directory, resolves the name against that directory's listing, and writes the document under the resolved name. |
| PdfEdit.SaveKeepsListedFile | pdf_edit.py:74-77 | Saving under a listed name that contains ".pdf" leaves the file of that name untouched. |
| PdfEdit.SavedNameRelative | pdf_edit.py:48-54 | A name not starting with `/` resolves to a non-empty name not starting with `/`. |
| PdfEdit.SaveStaysInDirectory | pdf_edit.py:56-77 | A save of such a name writes the document at the resolved name in the process's directory, and every path outside that directory reads as before. |
| PdfEdit.ReverseRun | pdf_edit.py:87-114 | The file loop: exit on a missing file, a read error on an unreadable one, IndexError on a short outline, otherwise save and go on (properties in the lemmas below). |
| PdfEdit.PdfReverseOutcome | pdf_edit.py:85-116 | `pdf_reverse` as a whole: the failure tuple when the check fails, otherwise the file loop (properties in PdfEdit.PdfReverseChecksFirst and PdfEdit.PdfReverseSucceedsIff). |
| PdfEdit.PdfReverse | pdf_edit.py:85-116 | The file loop either ends with True, every file reversed and saved as "reverse-<basename>" under `reverse`, or stops at the first missing file (exit), unreadable file or short outline. A failed check returns its tuple. |
| PdfEdit.ReverseRunEnds | pdf_edit.py:87-114 | The loop ends in True, an exit or an uncaught exception. With every file present, it never exits. |
| PdfEdit.PdfReverseChecksFirst | pdf_edit.py:85-116 | `pdf_reverse` returns the failure tuple exactly when some path fails the check, and then writes nothing. It never exits once the check has passed. |
| PdfEdit.PdfReverseOneFile | pdf_edit.py:86-113 | For one valid file, the reversal is saved under `reverse` as "reverse-<basename>", resolved against the listing, or IndexError escapes with nothing written. |
| PdfEdit.ReversalsSavedOutside | pdf_edit.py:111-113 | Saving reversals in turn changes no path outside `reverse`. |
| PdfEdit.ReverseRunFrom | pdf_edit.py:87-114 | With no input under `reverse` and the first k files reversible, once their reversals are saved the rest of the loop ends as the whole loop does. |
| PdfEdit.ReverseRunSucceedsIff | pdf_edit.py:87-114 | With no input under `reverse`, the loop returns True exactly when every file opens and its reversal succeeds. |
| PdfEdit.ReverseRunWrites | pdf_edit.py:87-114 | With no input under `reverse` and every file reversible, the loop returns True with each reversal, read from the starting disk, saved in turn, and no path outside `reverse` changes. |
| PdfEdit.ReverseStepWrites | pdf_edit.py:111-113 | In such a run, step i writes file i's reversal at "reverse-<basename>" made unique against `reverse` as it stood after the files before it. |
| PdfEdit.PdfReverseSucceedsIff | pdf_edit.py:85-116 | With no input under `reverse`, `pdf_reverse` returns True exactly when every input passes the check, opens and reverses, and then leaves the reversals saved in turn. |
| PdfEdit.PageRange | pdf_edit.py:158-163 | The pages the page loop copies: from lo up to hi or the last page, the IndexError ending the loop with `break` (properties in PdfEdit.PageRangeSpec). |
| PdfEdit.PageRangeSpec | pdf_edit.py:158-163 | The copied pages are `pages[lo..min(hi, N)]`, and nothing when that range is empty. |
| PdfEdit.AddPages | pdf_edit.py:158-163 | The `add_page` loop with its `except IndexError: break` computes the page range above. |
| PdfEdit.SplitFile | pdf_edit.py:135-167 | One file of the split loop: skipped with a note when it does not open, is empty or `from_` is past its end, else its pages `from_..min(to, N)` saved as "split-{from_}-{min(to, N)}-<basename>" under `split` (properties in PdfEdit.SplitFileSkips and PdfEdit.SplitFileSaves). |
| PdfEdit.SplitRun | pdf_edit.py:134-168 | The split loop over the files with the writer and notes so far (properties in the lemmas below). |
| PdfEdit.PdfSplitOutcome | pdf_edit.py:124-171 | `pdf_split` as a whole: the failure tuple when the check fails, the invalid-range result when `from_ > to`, otherwise the file loop (properties in PdfEdit.PdfSplitChecks, PdfSplitNotes and PdfSplitFiles). |
| PdfEdit.PdfSplit | pdf_edit.py:124-171 | Follows the code step by step: the check, then the range test, then each file on its own with the `continue` skips, the `min(to, N)` clamp and a fresh writer per saved file. |
| PdfEdit.SplitOne | pdf_edit.py:135-167 | One pass of the loop body computes the per-file step the spec function describes. |
| PdfEdit.SplitFileSkips | pdf_edit.py:136-154 | The file is skipped as unopenable exactly when it does not open, as empty exactly when it has no pages, and saved exactly when `from_` is one of its pages. A skipped file writes nothing. |
| PdfEdit.SplitRangeNeverCut | pdf_edit.py:158-163 | For a file that is not skipped, every index the page loop visits is a page: the loop adds `min(to, N) - from_ + 1` pages, each at its own index, and never reaches the IndexError branch. |
| PdfEdit.SplitFileSaves | pdf_edit.py:155-167 | A saved file's document holds pages `from_..min(to, N)` in order, under "split-{from_}-{min(to,N)}-<basename>" in `split`. |
| PdfEdit.SplitRunNotes | pdf_edit.py:134-168 | One note per file, in file order, after the notes already printed. |
| PdfEdit.SplitRunWriter | pdf_edit.py:132-169 | The returned writer is None exactly when it started as None and no file was saved. |
| PdfEdit.PdfSplitChecks | pdf_edit.py:125-130 | The failure tuple exactly when a path fails the check, with nothing written. With `from_ > to`, the invalid-range result and nothing read or written. |
| PdfEdit.PdfSplitNotes | pdf_edit.py:132-169 | Once the checks pass, the loop returns one note per file, in file order. |
| PdfEdit.SplitFileReads | pdf_edit.py:135-163 | A file's note and writer depend on the disk only through that file. |
| PdfEdit.SplitFileStaysInDirectory | pdf_edit.py:166-167 | One file of the loop writes nothing outside `split`. |
| PdfEdit.SplitDisksOutside | pdf_edit.py:134-168 | The disks after each prefix of the loop differ from the start only inside `split`. |
| PdfEdit.SplitRunDisk | pdf_edit.py:134-168 | The disk the loop leaves does not depend on the writer and notes it carries. |
| PdfEdit.SplitRunFrom | pdf_edit.py:134-168 | After the first k files the rest of the loop leaves the disk the whole loop leaves. |
| PdfEdit.SplitRunReads | pdf_edit.py:134-168 | With no input under `split`, and every input reading as on the starting disk, the loop processes every file and each note after the ones carried in is what that file alone gives on the starting disk. |
| PdfEdit.PdfSplitFiles | pdf_edit.py:124-169 | After the checks, with no input under `split`: note i is what file i alone gives on the starting disk, the final disk is the files handled in turn, and nothing outside `split` changes. |
| PdfEdit.SplitStepWrites | pdf_edit.py:134-168 | With no input under `split`, step i gives the note and writer of file i alone on the starting disk; a saved file's pages are written at its name made unique against `split` as it stood then, and a skipped file writes nothing. |
| PdfEdit.PdfMargeOutcome | pdf_edit.py:180-200 | `pdf_marge` as a whole: the check, the two-file minimum, the merge, then the save of "merger-output.pdf" under `marge` (properties in PdfEdit.PdfMargeFailures and PdfEdit.PdfMargeResult). |
| PdfEdit.PdfMarge | pdf_edit.py:180-200 | Check, then refuse fewer than two files, then the append loop, then save as "merger-output.pdf" under `marge`. |
| PdfEdit.PdfMargeFailures | pdf_edit.py:180-192 | The failure tuple exactly when the check fails, ValueError exactly when it passes with fewer than two files, nothing written on any failure, and never an exit. |
| PdfEdit.PdfMargeResult | pdf_edit.py:186-196 | Success exactly when the check passes, there are at least two files and all parse; the saved document is the in-order concatenation of their pages, saved under `marge`. |
| Project.ExtensionAccepted | project.py:16 | The name's second dot-separated piece is "pdf" or "PDF" (properties in Project.ExtensionAcceptedIff). |
| Project.CheckPdfExtension | project.py:15-18 | The check returns True exactly when every name's second dot-separated piece is "pdf" or "PDF". Otherwise IndexError or the "mime_type wrong" ValueError. |
| Project.CheckReportsFirstFailure | project.py:15-18 | The first rejected name decides the failure: IndexError exactly when it has no dot. |
| Project.ExtensionAcceptedIff | project.py:16 | Only the text between the first dot and the next decides, so "a.pdf.txt" passes while "a.Pdf" and "a.tar.pdf" fail. |
| Project.ReverseOutPathInjective | project.py:31-64 | Two inputs share "output/reverse/reverse-<file>" only when they are the same string. |
| Project.ReverseRun | project.py:33-73 | The file loop of `pdf_reverse`: the first file that does not reverse ends it (exit when missing, the read or IndexError otherwise); each reversal is written to "output/reverse/reverse-<file>"; at the end the last writer, or UnboundLocalError when there was none (properties in the Project.ReverseRun lemmas below). |
| Project.ReverseOne | project.py:35-60 | One pass of the loop body gives the file's reversal when it opens and reverses, else the exit, the read error or the IndexError. |
| Project.PdfReverseOutcome | project.py:29-73 | `pdf_reverse` as a whole: the check's exception, otherwise the file loop with no writer yet (properties in Project.PdfReverseSpec). |
| Project.PdfReverse | project.py:29-73 | The loop computes the reverse-run function. It writes each file's reversal to "output/reverse/reverse-<full input string>" and returns the last writer. An empty list ends in UnboundLocalError. |
| Project.ReverseRunStops | project.py:35-60 | A first file that does not reverse ends the loop with nothing written, by an exit only when it is missing, otherwise by an exception. |
| Project.ReverseFirstStep | project.py:63-71 | When no input is another input's output path, writing the first reversal leaves every input reading as before. |
| Project.ReverseRunSucceeds | project.py:33-73 | When no input is another input's output path, a loop that runs at least once over files that all open and reverse returns. |
| Project.ReverseRunSucceeded | project.py:33-73 | A loop that returned ran at least once and every file opened and reversed. |
| Project.ReverseRunSucceedsIff | project.py:33-73 | When no input is another input's output path, the loop returns exactly when it ran at least once and every file opened and reversed. |
| Project.ReverseRunExitsOnMissing | project.py:35-38 | For every input list, the loop exits only when some input is missing from the starting disk: a save only adds files, so no later input goes missing. |
| Project.ReverseRunReturnsLast | project.py:33-73 | A successful loop returns the last file's reversal. |
| Project.ReverseRunWrites | project.py:46-71 | When no input is another input's output path, after a successful loop each input's output file holds that input's reversal, the document Pages.ReverseDocumentSpec describes, even when an input is listed twice. |
| Project.ReverseRunWritesFirst | project.py:63-71 | The first input's reversal survives the rest of a successful loop. |
| Project.ReverseOutputsDistinct | project.py:31-64 | A name not among the other inputs has an output path none of them shares. |
| Project.ReverseRunFrame | project.py:63-71 | The loop writes no path other than the inputs' output paths. |
| Project.ReverseRunEnds | project.py:33-73 | The loop returns, exits, or lets an exception escape. It never raises a ValueError. |
| Project.PdfReverseSpec | project.py:29-73 | A rejected name raises the check's exception with nothing written. A ValueError comes only from the check. An empty list gives UnboundLocalError. |
| Project.PageAt | project.py:104 | `reader.pages[i]` exists exactly for -N <= i < N. |
| Project.CopyPages | project.py:102-106 | The page loop of `pdf_split`: each index from `from_ - 1` to `to - 1` adds `reader.pages[i]`, and an index with no page ends it with None, the `sys.exit` (properties in Project.CopyPagesSpec). |
| Project.CopyPagesSpec | project.py:102-106 | The page loop succeeds exactly when the range is empty or lies within [-N, N], and then adds the indexed pages in order. |
| Project.CopyPagesFromOne | project.py:102-106 | For `1 <= from_ <= to`, the loop succeeds exactly when to <= N, and adds `pages[from_-1..to]`, `to - from_ + 1` pages. |
| Project.AddPages | project.py:102-106 | The `add_page` loop computes the page-copy function. |
| Project.PdfSplitOutcome | project.py:86-123 | `pdf_split` as a whole: the check, the `from_ > to` ValueError, the read, the page loop, the "This equal" exit, then the write to "output/split/split-{from_}-{to}.pdf" (properties in Project.PdfSplitSpec and Project.PdfSplitChecksFirst). |
| Project.PdfSplit | project.py:86-123 | Check, range test, read, page loop, "This equal" test, then write "output/split/split-{from_}-{to}.pdf", overwriting any file there. |
| Project.PdfSplitSpec | project.py:102-121 | For a readable N-page file and `1 <= from_ <= to`: exit when `to > N`; exit "This equal" exactly when the range is the whole file; otherwise pages `from_..to` are saved at the fixed path and no other path changes. |
| Project.PdfSplitChecksFirst | project.py:86-96 | The name check, then the `from_ > to` ValueError, then the missing-file exit, each with nothing written. |
| Project.PdfMargeOutcome | project.py:134-165 | `pdf_marge` as a whole: the check, the two-file minimum, the merge, then the write to "output/marge/output.pdf" (properties in Project.PdfMargeFailures and Project.PdfMargeResult). |
| Project.PdfMarge | project.py:134-165 | Check, then refuse fewer than two files, then the append loop, then write "output/marge/output.pdf". |
| Project.PdfMargeFailures | project.py:134-149 | A bad name gives the check's exception, fewer than two names give ValueError, no failure writes anything, and an exit means a missing file. |
| Project.PdfMargeResult | project.py:143-158 | Success exactly when every name passes, there are at least two and all parse; then "output/marge/output.pdf" holds the in-order concatenation of their pages and no other path changes. |

## Left out

- The PDF library (pypdf) is abstracted. Pages are opaque values. A reader
  fails either on a missing path or on a file that does not parse, and
  nothing finer is modelled.
- The outline and metadata of a merged document are not modelled. `append`
  also carries over the inputs' outlines; the model gives the merged
  document an empty outline and fresh metadata. Nested outline entries are
  not modelled: an outline is a flat list of bookmarks.
- Directory listings are arbitrary input. A newly written name is appended
  at the end of its directory's listing; the real order of `os.listdir` is
  unspecified.
- `os.makedirs`, and whether a parent directory exists, are not modelled.
  In `project.py` a name with a `/` in it, such as "reverse-dir/a.pdf",
  writes below a directory that may not exist. The model writes it anyway.
- Printing in `PDFEdit.pdf_split` becomes the list of notes it returns. The
  exception text printed for an unopenable file is not recorded.
- Project.PageAt: treats pypdf's page list as indexing like a Python
  list, so a negative index counts from the end. Project.PdfSplitSpec states
  the behaviour only for `from_ >= 1`, the documented 1-based use.
  CopyPagesSpec covers the other values.
- Project.ReverseRunSucceedsIff, Project.ReverseRunReturnsLast,
  Project.ReverseRunWrites and the lemmas they
  rest on are stated only for
  input lists in which no input is "output/reverse/reverse-<another input>".
  With such a list an earlier write changes what a later input reads, and
  the model says nothing about that case.
- PdfEdit.ReverseRunSucceedsIff, PdfEdit.ReverseRunWrites,
  PdfEdit.PdfReverseSucceedsIff and the lemmas they rest on are stated only
  when no input path starts with the `reverse` output directory, and
  PdfEdit.PdfSplitFiles, PdfEdit.SplitStepWrites and PdfEdit.SplitRunReads
  only when none starts with the `split` one. Without that hypothesis a save
  can change what a later input reads, and the model says nothing about that
  case. The hypothesis compares path strings, so it does not rule out every
  such case (see the next line).
- PdfEdit.OutsideOf, PdfEdit.SaveStaysInDirectory, PdfEdit.MatchCount,
  Project.InputsNotOutputs and Project.ReverseOutPathInjective: a path is a
  plain string and two paths are the same file only when the strings are
  equal. There is no normalisation, no resolution of `.`, `..` or absolute
  spellings, and no case folding. So with root "out" the input
  "./out/reverse/reverse-a.pdf" counts as outside `reverse`, although the save
  for "a.pdf" writes that very file. On a case-insensitive file system, a
  listed "A.pdf" does not make "a.pdf" count as taken, and the save replaces
  it.
- The message `pdf_split` prints when its page loop hits IndexError is not
  recorded. The loop's range is clamped to the page count, so that branch
  never runs (PdfEdit.SplitRangeNeverCut).
- `PDFEdit.__init__` (the home-directory default and `makedirs`), the
  argparse-driven `main` of both files, `gui_.py` and `test.py` are user
  interface. They are not part of this model.
- `str.lower` is ASCII-only here, and paths use the POSIX `/` separator.
- Python's `writer.close()` and open file handles are not modelled, nor is
  any exception raised while writing an output file.
