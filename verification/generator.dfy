/** FileGenerator.generateFiles: writes files 1..numFiles into a directory, alternating two
    fixed bodies, each followed by a version line. */
module Generator {
  import Decimal
  import opened LineReader

  const ShortBody: string := "demo"
  const LongBody: string := "This is a sample file for testing. Lorem ipsum"
  const VersionLine: string := "Version: 1.0.0"

  /** ".txt" for even indices, ".xml" for odd ones. */
  function Extension(i: int): (e: string)
    ensures |e| == 4
  {
    if i % 2 == 0 then ".txt" else ".xml"
  }

  function FileName(i: int): string {
    "file" + Decimal.ValueOf(i) + Extension(i)
  }

  function FilePath(dir: string, i: int): string {
    dir + "/" + FileName(i)
  }

  function Body(i: int): string {
    if i % 2 == 0 then ShortBody else LongBody
  }

  /** The text of file i; `newline` is System.lineSeparator, which BufferedWriter.newLine writes. */
  function FileContent(i: int, newline: string): string {
    Body(i) + newline + VersionLine
  }

  datatype GeneratedFile = GeneratedFile(path: string, content: string)

  function Planned(dir: string, i: int, newline: string): GeneratedFile {
    GeneratedFile(FilePath(dir, i), FileContent(i, newline))
  }

  /** Files with different indices get different names. */
  lemma FileNamesDistinct(i: int, j: int)
    requires i != j
    ensures FileName(i) != FileName(j)
  {
    var a, b := FileName(i), FileName(j);
    if a == b {
      var di, dj := Decimal.ValueOf(i), Decimal.ValueOf(j);
      assert |di| == |dj|;
      assert a[4..4 + |di|] == di;
      assert b[4..4 + |dj|] == dj;
      Decimal.ValueOfInjective(i, j);
    }
  }

  /** The first n values of plan, in increasing index order starting at 1. */
  function Schedule<T>(plan: int -> T, n: int): seq<T>
    decreases n
  {
    if n <= 0 then [] else Schedule(plan, n - 1) + [plan(n)]
  }

  lemma {:induction false} ScheduleContents<T>(plan: int -> T, n: int)
    ensures |Schedule(plan, n)| == (if n < 0 then 0 else n)
    ensures forall k :: 0 <= k < |Schedule(plan, n)| ==> Schedule(plan, n)[k] == plan(k + 1)
    decreases n
  {
    if n > 0 {
      ScheduleContents(plan, n - 1);
    }
  }

  /** The files generateFiles means to write into dir, by index. */
  function PlanFor(dir: string, newline: string): int -> GeneratedFile {
    i => Planned(dir, i, newline)
  }

  /** The first n planned files are files 1..n in order, with pairwise distinct paths. */
  lemma ScheduledFiles(dir: string, newline: string, n: int)
    ensures |Schedule(PlanFor(dir, newline), n)| == (if n < 0 then 0 else n)
    ensures forall k :: 0 <= k < |Schedule(PlanFor(dir, newline), n)| ==>
              Schedule(PlanFor(dir, newline), n)[k] == Planned(dir, k + 1, newline)
    ensures forall a, b :: 0 <= a < b < |Schedule(PlanFor(dir, newline), n)| ==>
              Schedule(PlanFor(dir, newline), n)[a].path != Schedule(PlanFor(dir, newline), n)[b].path
  {
    ScheduleContents(PlanFor(dir, newline), n);
    DistinctPaths(dir, Schedule(PlanFor(dir, newline), n), newline);
  }

  /** Files 1..n of dir can all be written. */
  predicate WritableUpTo(dir: string, n: int, canWrite: string -> bool) {
    forall i :: 1 <= i <= n ==> canWrite(FilePath(dir, i))
  }

  /** The loop of generateFiles over any plan: writes plan(1), plan(2), ... in order and stops
      at the first file that cannot be written. The counter is a Java int, hence the bound. */
  method WriteInOrder(plan: int -> GeneratedFile, numFiles: int, canWrite: string -> bool)
    returns (written: seq<GeneratedFile>, ok: bool)
    requires numFiles < 0x7fff_ffff
    ensures ok <==> forall i :: 1 <= i <= numFiles ==> canWrite(plan(i).path)
    ensures written == Schedule(plan, |written|)
    ensures ok ==> |written| == (if numFiles < 0 then 0 else numFiles)
    ensures !ok ==> |written| < numFiles && !canWrite(plan(|written| + 1).path)
    ensures forall i :: 1 <= i <= |written| ==> canWrite(plan(i).path)
  {
    written := [];
    var i := 1;
    while i <= numFiles
      invariant 1 <= i && (i == 1 || i <= numFiles + 1)
      invariant written == Schedule(plan, i - 1) && |written| == i - 1
      invariant forall j :: 1 <= j < i ==> canWrite(plan(j).path)
    {
      var next := plan(i);
      if !canWrite(next.path) {
        return written, false;
      }
      written := written + [next];
      i := i + 1;
    }
    ok := true;
  }

  /** generateFiles. `canWrite(path)` says whether creating, writing and closing that file
      succeeds. The files are written in increasing index order; the first failure stops the
      loop and yields false, leaving the files already written in place. */
  method GenerateFiles(dir: string, numFiles: int, newline: string, canWrite: string -> bool)
    returns (written: seq<GeneratedFile>, ok: bool)
    requires numFiles < 0x7fff_ffff
    ensures ok <==> WritableUpTo(dir, numFiles, canWrite)
    ensures forall k :: 0 <= k < |written| ==> written[k] == Planned(dir, k + 1, newline)
    ensures forall a, b :: 0 <= a < b < |written| ==> written[a].path != written[b].path
    ensures ok ==> |written| == (if numFiles < 0 then 0 else numFiles)
    ensures !ok ==> |written| < numFiles && !canWrite(FilePath(dir, |written| + 1))
    ensures WritableUpTo(dir, |written|, canWrite)
    ensures numFiles <= 0 ==> ok && written == []
  {
    var plan := PlanFor(dir, newline);
    written, ok := WriteInOrder(plan, numFiles, canWrite);
    ScheduledFiles(dir, newline, |written|);
    assert forall i :: plan(i).path == FilePath(dir, i);
  }

  lemma DistinctPaths(dir: string, written: seq<GeneratedFile>, newline: string)
    requires forall k :: 0 <= k < |written| ==> written[k] == Planned(dir, k + 1, newline)
    ensures forall a, b :: 0 <= a < b < |written| ==> written[a].path != written[b].path
  {
    forall a, b | 0 <= a < b < |written|
      ensures written[a].path != written[b].path
    {
      FileNamesDistinct(a + 1, b + 1);
      var pa, pb := written[a].path, written[b].path;
      var pre := dir + "/";
      assert pa[|pre|..] == FileName(a + 1);
      assert pb[|pre|..] == FileName(b + 1);
    }
  }

  lemma BreakFreeConcat(a: string, b: string)
    requires BreakFree(a) && BreakFree(b)
    ensures BreakFree(a + b)
  {
    forall i | 0 <= i < |a + b|
      ensures !IsBreak((a + b)[i])
    {
      if i >= |a| {
        assert (a + b)[i] == b[i - |a|];
      }
    }
  }

  lemma TextsBreakFree()
    ensures BreakFree(ShortBody) && BreakFree(LongBody) && BreakFree(VersionLine)
  {
    var a, b := "This is a sample ", "file for testing. Lorem ipsum";
    assert BreakFree(a);
    assert BreakFree(b);
    BreakFreeConcat(a, b);
  }

  /** Two break-free lines joined by any of the three terminators read back as those two lines. */
  lemma TwoLines(a: string, newline: string, b: string)
    requires BreakFree(a) && BreakFree(b) && |b| > 0
    requires newline == "\n" || newline == "\r\n" || newline == "\r"
    ensures Lines(a + newline + b) == [a, b]
  {
    var s := a + newline + b;
    assert s[..|a|] == a;
    FirstBreakAt(s, |a|);
    assert TerminatorLength(s, |a|) == |newline|;
    assert s[|a| + |newline|..] == b;
    NoBreakAt(b);
  }

  /** Read back with any of the three line terminators, a generated file is two lines:
      its body and the version line. */
  lemma GeneratedFileLines(i: int, newline: string)
    requires newline == "\n" || newline == "\r\n" || newline == "\r"
    ensures Lines(FileContent(i, newline)) == [Body(i), VersionLine]
  {
    TextsBreakFree();
    TwoLines(Body(i), newline, VersionLine);
  }

  /** Every even-numbered file has a line containing "demo". */
  lemma EvenFilesContainDemo(i: int, newline: string)
    requires i % 2 == 0
    requires newline == "\n" || newline == "\r\n" || newline == "\r"
    ensures SomeLineContains(Lines(FileContent(i, newline)), ShortBody)
  {
    GeneratedFileLines(i, newline);
    assert ContainsAt(ShortBody, ShortBody, 0);
    assert Lines(FileContent(i, newline))[0] == ShortBody;
  }
}
