/** The filesystem as the search sees it. Every answer the Java code gets from the operating
    system or a library (does the file exist, can it be read, what are its first bytes, does a
    read fail) is a field here, fixed for the duration of one search. */
module FileSystem {
  import opened Results

  type Path = string

  newtype Byte = x: int | 0 <= x < 256

  /** A character stream read line by line. `fault == Some(k)` means the k-th readLine call
      (counting from 0, the call after the last line being the one that would return null)
      throws IOException; for a zip entry, a failing getInputStream is `Some(0)`.
      `closeFails` means closing the reader throws IOException. */
  datatype Stream = Stream(text: string, fault: Option<nat>, closeFails: bool)

  /** A zip entry in central-directory order. */
  datatype ZipEntry = ZipEntry(name: string, isDirectory: bool, data: Stream)

  /** How a file reads as a zip container. `opens` is false when ZipFile cannot open it.
      `extractedMatches` stands for the paths that re-walking the extracted directory entries
      appends to the visitor's list; the extraction itself is not modelled. */
  datatype ZipArchive = ZipArchive(opens: bool, entries: seq<ZipEntry>, extractedMatches: seq<Path>)

  /** A non-directory entry met by the walk.
      regular:  Files.isRegularFile
      present, readable: File.exists and File.canRead
      length:   File.length (0 for a missing file)
      leading:  the bytes at the start of the file; fewer than four make readInt hit end of file
      data:     the decoded text as FileReader delivers it
      zip:      the same file read through ZipFile */
  datatype FileInfo = FileInfo(
    path: Path,
    regular: bool,
    present: bool,
    readable: bool,
    length: nat,
    leading: seq<Byte>,
    data: Stream,
    zip: ZipArchive)

  /** A tree as Files.walkFileTree enumerates it: children in directory-stream order.
      An `Inaccessible` entry is one whose attributes cannot be read; a directory that is not
      `listable` cannot be opened. */
  datatype Node =
    | Entry(file: FileInfo)
    | Directory(path: Path, listable: bool, children: seq<Node>)
    | Inaccessible(path: Path)
}
