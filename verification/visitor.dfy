/** FileTextRecognitionVisitor: the per-file step of the walk, the archive handling behind it,
    and the final ordering of the collected paths. */
module Visitor {
  import opened Results
  import opened FileSystem
  import opened LineReader
  import opened Scanner
  import opened ArchiveSniffer
  import opened StableSort

  /** java.nio.file.FileVisitResult. */
  datatype FileVisitResult = Continue | Terminate | SkipSubtree | SkipSiblings

  /** isFileValid: the file may be read and exists. */
  predicate IsFileValid(f: FileInfo) {
    f.readable && f.present
  }

  /** The non-directory entries whose content the zip scanner finds the query in, each as
      often as the archive lists it, in archive order (see MatchingEntriesAppend). */
  function MatchingEntries(es: seq<ZipEntry>, q: string): (m: seq<ZipEntry>)
    ensures |m| <= |es|
    ensures forall e :: e in m ==> e in es && !e.isDirectory && ZippedEntryContains(e.data, q)
    ensures forall e :: e in es && !e.isDirectory && ZippedEntryContains(e.data, q) ==> e in m
    ensures forall e :: multiset(m)[e] ==
              (if !e.isDirectory && ZippedEntryContains(e.data, q) then multiset(es)[e] else 0)
  {
    if es == [] then []
    else
      var rest := MatchingEntries(es[1..], q);
      assert es == [es[0]] + es[1..];
      if !es[0].isDirectory && ZippedEntryContains(es[0].data, q) then [es[0]] + rest else rest
  }

  /** Filtering keeps archive order: the matches of two consecutive runs of entries are the
      matches of the first run followed by those of the second. */
  lemma {:induction false} MatchingEntriesAppend(a: seq<ZipEntry>, b: seq<ZipEntry>, q: string)
    ensures MatchingEntries(a + b, q) == MatchingEntries(a, q) + MatchingEntries(b, q)
    decreases |a|
  {
    if a == [] {
      assert a + b == b;
    } else {
      var head := if !a[0].isDirectory && ZippedEntryContains(a[0].data, q) then [a[0]] else [];
      assert (a + b)[0] == a[0];
      assert (a + b)[1..] == a[1..] + b;
      assert MatchingEntries(a, q) == head + MatchingEntries(a[1..], q);
      assert MatchingEntries(a + b, q) == head + MatchingEntries(a[1..] + b, q);
      MatchingEntriesAppend(a[1..], b, q);
      AppendAssoc(head, MatchingEntries(a[1..], q), MatchingEntries(b, q));
    }
  }

  /** processCompressedFileForMatch: one copy of the archive's own path for every matching
      non-directory entry; nothing when ZipFile cannot open the file. */
  function ProcessCompressedFileForMatch(path: Path, zip: ZipArchive, q: string): (r: seq<Path>)
    ensures forall k :: 0 <= k < |r| ==> r[k] == path
    ensures |r| == (if zip.opens then |MatchingEntries(zip.entries, q)| else 0)
    ensures r == [] <==>
              !zip.opens ||
              forall e :: e in zip.entries && !e.isDirectory ==> !ZippedEntryContains(e.data, q)
  {
    if zip.opens then
      var m := MatchingEntries(zip.entries, q);
      assert m != [] ==> m[0] in m;
      seq(|m|, _ => path)
    else []
  }

  /** processCompressedFile as visitFile sees it. While the argument of addAll is computed, the
      nested walkFileTree over each extracted directory entry runs with this same visitor and
      appends straight into its list; addAll then appends the archive's own matches. */
  function ProcessCompressedFile(f: FileInfo, q: string): (r: seq<Path>)
    ensures var m := ProcessCompressedFileForMatch(f.path, f.zip, q); |m| <= |r| && r[|r| - |m|..] == m
    ensures !f.zip.opens ==> r == []
  {
    (if f.zip.opens then f.zip.extractedMatches else []) + ProcessCompressedFileForMatch(f.path, f.zip, q)
  }

  /** The file is one visitFile reports: a valid regular file whose scan answers true. */
  predicate Matches(f: FileInfo, q: string) {
    f.regular && IsFileValid(f) && ContainsTextInFile(f, q) == Success(true)
  }

  /** visitFile. The archive branch is kept as the source has it, but isFileArchive is
      always false, so a regular file is appended exactly when it matches; earlier entries are
      never touched; the answer is always CONTINUE; the only error that escapes is a read
      failure inside the line stream. */
  function VisitFile(f: FileInfo, acc: seq<Path>, q: string): (r: Result<(seq<Path>, FileVisitResult), ScanError>)
    ensures r.Success? ==> r.value.1 == Continue
    ensures r.Success? ==> r.value.0 == (if Matches(f, q) then acc + [f.path] else acc)
    ensures r.Failure? <==> f.regular && IsFileValid(f) && ContainsTextInFile(f, q).Failure?
    ensures r.Failure? ==> r.error == ReadFailed
    ensures !f.regular ==> r == Success((acc, Continue))
  {
    if !f.regular then Success((acc, Continue))
    else if IsFileArchive(f) then Success((acc + ProcessCompressedFile(f, q), Continue))
    else if IsFileValid(f) then
      match ContainsTextInFile(f, q)
      case Failure(e) => Failure(e)
      case Success(hit) => Success((if hit then acc + [f.path] else acc, Continue))
    else Success((acc, Continue))
  }

  /** Every reported file has a line that contains the query. */
  lemma MatchHasLine(f: FileInfo, q: string)
    requires Matches(f, q)
    ensures f.regular && f.readable && f.present
    ensures SomeLineContains(Lines(f.data.text), q)
  {
  }

  /** isFileValid gates the scan: a file that cannot be read or does not exist is never
      opened, never added, and never makes visitFile fail. */
  lemma InvalidFilesSkipped(f: FileInfo, acc: seq<Path>, q: string)
    requires !IsFileValid(f)
    ensures VisitFile(f, acc, q) == Success((acc, Continue))
    ensures !Matches(f, q)
  {
  }

  /** A valid regular file whose scan does not throw is added exactly when it has a line with
      the query, unless closing its reader fails. */
  lemma ScannedFileMatches(f: FileInfo, q: string)
    requires f.regular && IsFileValid(f) && VisitFile(f, [], q).Success?
    ensures !f.data.closeFails && SomeLineContains(Lines(f.data.text), q) ==> Matches(f, q)
  {
  }

  /** getFileSize: Files.size, or 0 when it throws (`None`). */
  function GetFileSize(size: Option<nat>): nat
  {
    if size.Some? then size.value else 0
  }

  /** The sort key: the size each path has when the list is sorted. */
  function SizeKey(stat: Path -> Option<nat>): Path -> int
  {
    p => GetFileSize(stat(p))
  }

  /** getFileContainsText: the collected paths, duplicates kept, in ascending size order, paths
      of equal size in the order they were collected. */
  function GetFileContainsText(acc: seq<Path>, stat: Path -> Option<nat>): (r: seq<Path>)
    ensures multiset(r) == multiset(acc)
    ensures SortedBy(r, SizeKey(stat))
    ensures SameTies(r, acc, SizeKey(stat))
  {
    Sort(acc, SizeKey(stat))
  }

  /** A path whose size cannot be read counts as empty: nothing before it in the returned list
      has a positive size. */
  lemma UnsizedSortsFirst(acc: seq<Path>, stat: Path -> Option<nat>, i: nat, j: nat)
    requires i < j < |GetFileContainsText(acc, stat)|
    requires stat(GetFileContainsText(acc, stat)[j]).None?
    ensures var s := stat(GetFileContainsText(acc, stat)[i]); s.None? || s.value == 0
  {
    var r := GetFileContainsText(acc, stat);
    assert SizeKey(stat)(r[i]) <= SizeKey(stat)(r[j]);
  }

  /** Asking for the list a second time returns the same order. */
  lemma GetFileContainsTextIdempotent(acc: seq<Path>, stat: Path -> Option<nat>)
    ensures GetFileContainsText(GetFileContainsText(acc, stat), stat) == GetFileContainsText(acc, stat)
  {
    SortIdempotent(acc, SizeKey(stat));
  }

  /** Any list that is sorted by size and keeps collection order among equal sizes is the one
      getFileContainsText returns, whichever stable algorithm List.sort uses. */
  lemma GetFileContainsTextIsTheStableOrder(acc: seq<Path>, stat: Path -> Option<nat>, other: seq<Path>)
    requires SortedBy(other, SizeKey(stat))
    requires SameTies(other, acc, SizeKey(stat))
    ensures other == GetFileContainsText(acc, stat)
  {
    var r := GetFileContainsText(acc, stat);
    StableSortedUnique(other, r, SizeKey(stat));
  }
}
