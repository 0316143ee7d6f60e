# MyFileExplorer text search, modelled in Dafny

MyFileExplorer searches a directory tree for files whose content contains a literal
substring and returns the matching paths ordered by file size. This project models its
search engine and proves properties of that model. The engine is
`FileTextRecognitionVisitor`, a `SimpleFileVisitor` driven by `Files.walkFileTree`, together
with `TextFinder.findText`, which drives the walk. The project also models
`FileGenerator.generateFiles`, which seeds a directory with sample files.

The modules follow the program's structure:

- `Results` holds the `Option` and `Result` datatypes.
- `FileSystem` is the data model:
  - a tree of `Node`s (file entry, directory, unreachable entry);
  - `FileInfo` carries the flags the code queries: regular, exists, readable, length, leading
    bytes;
  - a `Stream` is text plus the `readLine` call that throws, if any, plus whether `close`
    throws;
  - a `ZipArchive` holds its entries.
- `Decimal` models `String.valueOf(int)`: rendering, parsing back, injectivity.
- `LineReader` models `BufferedReader` line splitting at `\n`, `\r` and `\r\n`, and
  `String.contains`.
- `Scanner` models `containsTextInFile` and `containsTextInZippedFile`.
- `ArchiveSniffer` models `isFileArchive`:
  - `readInt` as big-endian two's complement;
  - the `ARCHIVE_SIGNATURE` table;
  - the proof that the test never succeeds.
- `StableSort` is a stable insertion sort with permutation, order, tie-order and uniqueness
  lemmas. It models `List.sort`.
- `Visitor` models `visitFile`, the archive processing, `getFileSize` and
  `getFileContainsText`.
- `Finder` models the depth-first walk as a fold of `visitFile`, and `findText`.
- `Generator` models `generateFiles` as an (index → path, content) schedule with a success
  flag.

## How the code behaves

- **The archive branch is dead.** `isFileArchive` looks up the decimal text of a 32-bit int,
  for example `"-1234"`, in a table of `"0x…"` strings. The lookup never succeeds, so
  `visitFile` never takes the archive branch (`ArchiveSniffer.IsFileArchive`). The branch is
  still modelled as written. Extraction of directory entries is abstracted as the list of
  paths the nested walk would append (`ZipArchive.extractedMatches`).
- **A failed read inside a plain file is an error, not "no match".** `containsTextInFile`
  scans `lines()`, which wraps a read error in `UncheckedIOException`. That exception escapes
  `visitFile`, `walkFileTree` and `findText`, so the model makes it an error outcome
  (`ScanError.ReadFailed`, then `SearchError.ScanFailed`).
- **An unreachable entry anywhere aborts the walk, not only at the root.**
  `SimpleFileVisitor.visitFileFailed` rethrows, so this is `SearchError.WalkFailed`.
- **A failing `close` after a hit turns the answer into false** in `containsTextInFile`: the
  `IOException` is caught and the method falls through to `return false`. Such a file is not
  reported, even though it has a matching line. In `containsTextInZippedFile` the flag
  survives the same failure.
- **The two scanners are not one implementation.** They agree on streams that never fail
  (`Scanner.ScannersAgree`) and differ on faults (`Scanner.ScannersDisagreeOnFaults`).

## Model

| member | source | states |
|---|---|---|
| Decimal.ValueOf | src/main/java/org/example/visitor/FileTextRecognitionVisitor.java:204 | `String.valueOf(int)` is a non-empty text: an optional minus sign, present exactly for negative values, then decimal digits only |
| Decimal.ValueOfRoundTrip | src/main/java/org/example/visitor/FileTextRecognitionVisitor.java:204 | reading the rendered text back as a decimal number gives the original int |
| Decimal.ValueOfInjective | src/main/java/org/example/utill/FileGenerator.java:30 | two different ints never render as the same text |
| LineReader.Lines | src/main/java/org/example/visitor/FileTextRecognitionVisitor.java:141-143 | the lines a `BufferedReader` yields contain no terminator, and there are none exactly when the content is empty |
| LineReader.LinesOfTerminated | src/main/java/org/example/visitor/FileTextRecognitionVisitor.java:141-143 | lines written with `\n` after each are read back as exactly those lines |
| LineReader.LineScanIsTextSearch | src/main/java/org/example/visitor/FileTextRecognitionVisitor.java:121 | for a non-empty query without line breaks, some line contains it if and only if the whole content contains it |
| Scanner.ContainsTextInFile | src/main/java/org/example/visitor/FileTextRecognitionVisitor.java:119-128 | the `FileNotFound` error exactly for a file `FileReader` cannot open; the `ReadFailed` error only when reading reaches the failing call before any hit; true whenever a line before any read fault contains the query and the close succeeds, and true only when some line contains it; on a stream that never fails, true exactly when some line contains it; never true for empty content |
| Scanner.ZippedEntryContains | src/main/java/org/example/visitor/FileTextRecognitionVisitor.java:138-154 | true only when some line contains the query; on a stream that never fails, exactly then; false when opening the entry fails or it is empty |
| Scanner.ScanZippedEntry | src/main/java/org/example/visitor/FileTextRecognitionVisitor.java:139-148 | the early-break `readLine` loop sets the flag exactly when a line read before the first failing call contains the query, which is the answer `Scanner.ZippedEntryContains` gives |
| Scanner.ScannersAgree | src/main/java/org/example/visitor/FileTextRecognitionVisitor.java:119-154 | on a readable file whose reads and close never fail, the stream scanner and the loop scanner return the same answer |
| Scanner.ScannersDisagreeOnFaults | src/main/java/org/example/visitor/FileTextRecognitionVisitor.java:119-154 | a read failure before any hit is an error for the file scanner but false for the zip scanner; a failing close turns the file scanner's hit into false but not the zip scanner's |
| ArchiveSniffer.ReadInt | src/main/java/org/example/visitor/FileTextRecognitionVisitor.java:197-199 | `readInt` yields a 32-bit int, negative exactly when the first byte has its top bit set |
| ArchiveSniffer.ReadIntRoundTrip | src/main/java/org/example/visitor/FileTextRecognitionVisitor.java:199 | writing the int back as four big-endian two's-complement bytes reproduces the bytes read |
| ArchiveSniffer.SignatureOf | src/main/java/org/example/visitor/FileTextRecognitionVisitor.java:197-202 | the compared value is a 32-bit int, and it is the initial 0 unless the file exists, is readable and has four leading bytes |
| ArchiveSniffer.IsFileArchiveWith | src/main/java/org/example/visitor/FileTextRecognitionVisitor.java:190-205 | for any table, a file shorter than 4 bytes is never an archive, and a positive answer means the decimal text of its signature is in the table |
| ArchiveSniffer.TableIsHex | src/main/java/org/example/visitor/FileTextRecognitionVisitor.java:18-19 | every `ARCHIVE_SIGNATURE` entry starts with `0x` |
| ArchiveSniffer.DecimalNeverInTable | src/main/java/org/example/visitor/FileTextRecognitionVisitor.java:204 | no decimal rendering of any integer, 0 included, is an entry of `ARCHIVE_SIGNATURE` |
| ArchiveSniffer.IsFileArchive | src/main/java/org/example/visitor/FileTextRecognitionVisitor.java:190-205 | false for a file shorter than 4 bytes, and in fact false for every file |
| Visitor.MatchingEntries | src/main/java/org/example/visitor/FileTextRecognitionVisitor.java:101-105 | an entry is selected if and only if it is a non-directory entry whose content the zip scanner matches, and each matching entry appears exactly as often as the archive lists it |
| Visitor.MatchingEntriesAppend | src/main/java/org/example/visitor/FileTextRecognitionVisitor.java:101-105 | the selection keeps archive order: the matches of two consecutive runs of entries are those of the first run followed by those of the second |
| Visitor.ProcessCompressedFileForMatch | src/main/java/org/example/visitor/FileTextRecognitionVisitor.java:96-111 | every element is the archive's own path, one per matching non-directory entry; the list is empty exactly when the archive cannot be opened or no such entry matches |
| Visitor.ProcessCompressedFile | src/main/java/org/example/visitor/FileTextRecognitionVisitor.java:69-94 | the archive's own matches end the returned list; nothing is returned when the archive cannot be opened |
| Visitor.VisitFile | src/main/java/org/example/visitor/FileTextRecognitionVisitor.java:50-62 | always CONTINUE; the list grows by exactly the file's path when it is a valid regular file whose scan answers true (a hit before any read fault, and a close that succeeds), and is otherwise unchanged; a non-regular file never changes it; the only error is a read failure of a valid regular file |
| Visitor.InvalidFilesSkipped | src/main/java/org/example/visitor/FileTextRecognitionVisitor.java:177-182 | `isFileValid` gates the scan: a file that cannot be read or does not exist is never added and never makes `visitFile` fail |
| Visitor.ScannedFileMatches | src/main/java/org/example/visitor/FileTextRecognitionVisitor.java:57-58 | a valid regular file whose scan does not throw is added whenever it has a line with the query and its reader closes cleanly |
| Visitor.MatchHasLine | src/main/java/org/example/visitor/FileTextRecognitionVisitor.java:52-59 | a file `visitFile` adds is regular, readable, exists and has a line containing the query |
| Visitor.UnsizedSortsFirst | src/main/java/org/example/visitor/FileTextRecognitionVisitor.java:162-169 | `getFileSize` (`Visitor.GetFileSize`) counts a path whose size lookup throws as size 0: every path before it in the result has size 0 or no readable size |
| Visitor.GetFileContainsText | src/main/java/org/example/visitor/FileTextRecognitionVisitor.java:212-217 | the result is a permutation of the collected paths, duplicates kept, non-decreasing in size, with paths of equal size in collection order |
| Visitor.GetFileContainsTextIdempotent | src/main/java/org/example/visitor/FileTextRecognitionVisitor.java:212-217 | asking for the list again returns the same order |
| Visitor.GetFileContainsTextIsTheStableOrder | src/main/java/org/example/visitor/FileTextRecognitionVisitor.java:214 | any size-sorted list that keeps collection order among equal sizes equals the returned list, so the result does not depend on which stable algorithm sorts |
| StableSort.Insert | src/main/java/org/example/visitor/FileTextRecognitionVisitor.java:214 | inserting adds exactly one element and keeps a sorted list sorted |
| StableSort.InsertTies | src/main/java/org/example/visitor/FileTextRecognitionVisitor.java:214 | inserting an element puts it ahead of all elements with the same key |
| StableSort.Sort | src/main/java/org/example/visitor/FileTextRecognitionVisitor.java:214 | the result is a permutation of the input, sorted by key, with the elements of each key in input order |
| StableSort.StableSortedUnique | src/main/java/org/example/visitor/FileTextRecognitionVisitor.java:214 | two sorted lists with the same elements per key, in the same order, are equal |
| StableSort.SortIdempotent | src/main/java/org/example/visitor/FileTextRecognitionVisitor.java:214 | sorting a sorted result changes nothing |
| Finder.WalkIsFold | src/main/java/org/example/finder/TextFinder.java:40 | the recursive `walkFileTree` descent equals the depth-first fold of `visitFile` over the tree's entries in enumeration order |
| Finder.FoldSucceedsIffClean | src/main/java/org/example/finder/TextFinder.java:39-43 | the walk completes if and only if no entry is unreachable and no scan throws, whatever the list held before |
| Finder.FoldAppendsMatches | src/main/java/org/example/finder/TextFinder.java:37-43 | a completed walk appends exactly the matching files' paths, in walk order |
| Finder.FindText | src/main/java/org/example/finder/TextFinder.java:31-46 | a null or empty query fails with the validation error before any walking; an unreachable or unlistable root fails the whole search; a result is ordered by size |
| Finder.FindTextIsSortedFold | src/main/java/org/example/finder/TextFinder.java:37-45 | for a valid query the search succeeds exactly on a clean walk, and then returns `getFileContainsText` of the matching paths in walk order |
| Finder.CleanVisitMatches | src/main/java/org/example/finder/TextFinder.java:40 | on a walk that completes, every visited readable regular file with a matching line and a reader that closes cleanly is one `visitFile` adds |
| Finder.FindTextSoundAndComplete | src/main/java/org/example/finder/TextFinder.java:40-45 | every returned path is a readable regular file of the tree with a line containing the query; every such file whose reader closes cleanly is returned (a failing close after a hit makes the scan answer false); each path appears as often as the walk meets a file with it whose scan answers true |
| Generator.FileNamesDistinct | src/main/java/org/example/utill/FileGenerator.java:30-31 | files of different indices get different names |
| Generator.WriteInOrder | src/main/java/org/example/utill/FileGenerator.java:28-49 | files are written in index order starting at 1; the result is true exactly when every file can be written, and otherwise the loop stops at the first file that cannot be written: every file written could be written, and the next one could not |
| Generator.ScheduledFiles | src/main/java/org/example/utill/FileGenerator.java:29-41 | the first n scheduled files are files 1..n in order, with pairwise distinct paths |
| Generator.GenerateFiles | src/main/java/org/example/utill/FileGenerator.java:27-52 | the result is true exactly when every file 1..numFiles can be written; the k-th file written is file k, with its path and content; all paths differ; on success numFiles files are written, or none when numFiles ≤ 0; on failure the files written are exactly those before the first file that cannot be written, and they stay written |
| Generator.GeneratedFileLines | src/main/java/org/example/utill/FileGenerator.java:35-41 | read back with any of the three terminators, a generated file has two lines: its body and `Version: 1.0.0` |
| Generator.EvenFilesContainDemo | src/main/java/org/example/utill/FileGenerator.java:35-36 | every even-numbered file has a line containing `demo` |

## Left out

- Byte-level I/O and format parsing are not modelled: `FileReader` charset decoding,
  `RandomAccessFile`, `ZipFile` container parsing. File content is given as text, the first
  four bytes as values, and a zip archive as its list of entries.
- Permission and existence checks are booleans on each file (`regular`, `present`,
  `readable`), fixed for the whole search.
- Extraction of zip directory entries in `processCompressedFile` is not modelled:
  `Files.copy` into the working directory, then a re-entrant `walkFileTree`. Its effect is
  the list of paths the nested walk would append (`ZipArchive.extractedMatches`). The code is
  unreachable, because `isFileArchive` is always false.
- Visitor.GetFileContainsText: sizes come from one fixed function `stat`. The source calls
  `Files.size` on each comparison, and a size that changes during the sort is not modelled.
- Nothing that is logged is modelled: `printStackTrace`, and the `println` in
  `generateFiles`.
- Generator.GenerateFiles: requires `numFiles < 2147483647`. At `Integer.MAX_VALUE` the Java
  counter wraps after the last file and the loop goes on to negative indices. It then ends,
  returning false, only when some write throws, and never ends while every write succeeds. A
  terminating model cannot express that run.
- Generator.WriteInOrder: requires `numFiles < 2147483647`, for the same reason. At
  `Integer.MAX_VALUE` the Java counter wraps after the last file and the loop does not stop
  while every write succeeds; a model with a terminating loop cannot express that run.
- Generator.GenerateFiles: a file whose write fails is counted as not written. The partial
  content such a file may keep on disk is not modelled. The line separator that
  `BufferedWriter.newLine` writes is a parameter.
- The `TextFinder` and `FileGenerator` constructors are not modelled. Each always throws
  `IllegalStateException` and has no state, so `findText` and `generateFiles` are module-level
  functions and no instance exists in the model.
- `Main` (console prompts and printing) is not part of this model.
- Files that appear or disappear during the walk, and `walkFileTree` options, are not
  modelled: the tree is a fixed value. `walkFileTree` does not descend into linked
  directories. A link to a file is an `Entry` whose flags describe its target, because
  `Files.isRegularFile`, `File.canRead`, `File.exists` and `FileReader` all follow links; the
  link's own path is the one reported.
