/** The two line scanners of FileTextRecognitionVisitor: containsTextInFile (a stream of lines
    and anyMatch) and containsTextInZippedFile (a readLine loop with an early break). */
module Scanner {
  import opened Results
  import opened FileSystem
  import opened LineReader

  /** FileNotFound: FileReader could not open the file (FileNotFoundException, rethrown as
      RuntimeException). ReadFailed: reading a line failed inside the lines() stream, which
      surfaces as UncheckedIOException. Both escape the scanner. */
  datatype ScanError = FileNotFound | ReadFailed

  /** Line k is read before the faulty readLine call. */
  predicate BeforeFault(k: nat, fault: Option<nat>) {
    fault.None? || k < fault.value
  }

  /** Some line read before the fault contains the query: the scan stops there with a hit. */
  predicate FoundBeforeFault(ls: seq<string>, q: string, fault: Option<nat>) {
    exists k :: 0 <= k < |ls| && BeforeFault(k, fault) && Contains(ls[k], q)
  }

  /** Reading gets as far as the faulty call (the last call is the one that meets end of stream). */
  predicate FaultReached(ls: seq<string>, fault: Option<nat>) {
    fault.Some? && fault.value <= |ls|
  }

  /** FileReader opens the file. As visitFile calls it, only on regular files, that is the case
      exactly when the file exists and may be read. */
  predicate CanOpen(f: FileInfo) {
    f.regular && f.present && f.readable
  }

  /** containsTextInFile. A missing or unreadable file and a failing read are errors that
      escape; a failing close after a completed scan is caught and gives false. */
  function ContainsTextInFile(f: FileInfo, q: string): (r: Result<bool, ScanError>)
    ensures r == Failure(FileNotFound) <==> !CanOpen(f)
    ensures r == Success(true) ==> SomeLineContains(Lines(f.data.text), q)
    ensures CanOpen(f) && f.data.fault.None? && !f.data.closeFails ==>
              r == Success(SomeLineContains(Lines(f.data.text), q))
    ensures |f.data.text| == 0 ==> r != Success(true)
    ensures r == Failure(ReadFailed) ==>
              FaultReached(Lines(f.data.text), f.data.fault) && !FoundBeforeFault(Lines(f.data.text), q, f.data.fault)
    ensures CanOpen(f) && FoundBeforeFault(Lines(f.data.text), q, f.data.fault) && !f.data.closeFails ==>
              r == Success(true)
  {
    if !CanOpen(f) then Failure(FileNotFound)
    else
      var ls := Lines(f.data.text);
      if FoundBeforeFault(ls, q, f.data.fault) then Success(!f.data.closeFails)
      else if FaultReached(ls, f.data.fault) then Failure(ReadFailed)
      else Success(false)
  }

  /** containsTextInZippedFile as a value: every IOException is caught and the flag, false
      unless a line matched before the failure, is returned. */
  function ZippedEntryContains(s: Stream, q: string): (b: bool)
    ensures b ==> SomeLineContains(Lines(s.text), q)
    ensures s.fault.None? ==> (b <==> SomeLineContains(Lines(s.text), q))
    ensures s.fault == Some(0) ==> !b
    ensures |s.text| == 0 ==> !b
  {
    FoundBeforeFault(Lines(s.text), q, s.fault)
  }

  /** containsTextInZippedFile as the loop the source runs: read lines until one contains the
      query (set the flag, break), the stream ends, or a read throws. */
  method ScanZippedEntry(s: Stream, q: string) returns (flag: bool)
    ensures flag <==> FoundBeforeFault(Lines(s.text), q, s.fault)
    ensures flag == ZippedEntryContains(s, q)
    ensures s.fault.None? ==> (flag <==> SomeLineContains(Lines(s.text), q))
  {
    var ls := Lines(s.text);
    flag := false;
    var i := 0;
    while i <= |ls|
      invariant 0 <= i <= |ls|
      invariant !flag
      invariant forall k :: 0 <= k < i ==> !Contains(ls[k], q)
      invariant s.fault.Some? ==> i <= s.fault.value
      decreases |ls| - i
    {
      if s.fault == Some(i) {
        // readLine throws; the catch block leaves the flag as it is
        break;
      }
      if i == |ls| {
        // readLine returns null
        break;
      }
      if Contains(ls[i], q) {
        flag := true;
        break;
      }
      i := i + 1;
    }
  }

  /** On a stream that never fails, the two scanners agree. */
  lemma ScannersAgree(f: FileInfo, q: string)
    requires CanOpen(f) && f.data.fault.None? && !f.data.closeFails
    ensures ContainsTextInFile(f, q) == Success(ZippedEntryContains(f.data, q))
  {
  }

  /** Where they differ: a read failure before any hit is an error for the file scanner and
      plain false for the zip scanner, and a failing close turns the file scanner's hit into
      false while the zip scanner keeps it. */
  lemma ScannersDisagreeOnFaults(f: FileInfo, q: string)
    requires CanOpen(f)
    ensures !FoundBeforeFault(Lines(f.data.text), q, f.data.fault) &&
            FaultReached(Lines(f.data.text), f.data.fault) ==>
              ContainsTextInFile(f, q) == Failure(ReadFailed) && !ZippedEntryContains(f.data, q)
    ensures FoundBeforeFault(Lines(f.data.text), q, f.data.fault) && f.data.closeFails ==>
              ContainsTextInFile(f, q) == Success(false) && ZippedEntryContains(f.data, q)
  {
  }
}
