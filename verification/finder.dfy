/** TextFinder.findText: validate the query, walk the tree with a fresh visitor, return the
    visitor's sorted list. The walk is Files.walkFileTree driving a SimpleFileVisitor:
    depth first, children in enumeration order, and an entry that cannot be reached
    (visitFileFailed, whose default rethrows) aborts the whole walk. */
module Finder {
  import opened Results
  import opened FileSystem
  import opened LineReader
  import opened Scanner
  import opened StableSort
  import opened Visitor

  /** InvalidText: IllegalArgumentException for a null or empty query.
      WalkFailed: an IOException from walkFileTree, rethrown as RuntimeException.
      ScanFailed: a RuntimeException escaping visitFile from the file scanner. */
  datatype SearchError =
    | InvalidText
    | WalkFailed(path: Path)
    | ScanFailed(path: Path, cause: ScanError)

  /** What the walk does at one entry, in walk order. */
  datatype Event = Visit(file: FileInfo) | Fail(path: Path)

  /** The entries of a tree in the order walkFileTree reaches them. An unreachable entry ends
      its subtree: an unlistable directory's children are never enumerated. */
  function Events(n: Node): seq<Event>
    decreases n
  {
    match n
    case Entry(f) => [Visit(f)]
    case Inaccessible(p) => [Fail(p)]
    case Directory(p, listable, children) => if listable then EventsAll(children) else [Fail(p)]
  }

  function EventsAll(ns: seq<Node>): seq<Event>
    decreases ns
  {
    if ns == [] then [] else Events(ns[0]) + EventsAll(ns[1..])
  }

  /** One step of the walk on the visitor's list. */
  function Step(ev: Event, acc: seq<Path>, q: string): Result<seq<Path>, SearchError>
  {
    match ev
    case Fail(p) => Failure(WalkFailed(p))
    case Visit(f) =>
      match VisitFile(f, acc, q)
      case Failure(e) => Failure(ScanFailed(f.path, e))
      case Success(v) => Success(v.0)
  }

  /** The depth-first fold of visitFile over the walk's entries; the first failure ends it. */
  function Fold(evs: seq<Event>, acc: seq<Path>, q: string): Result<seq<Path>, SearchError>
  {
    if evs == [] then Success(acc)
    else
      match Step(evs[0], acc, q)
      case Failure(e) => Failure(e)
      case Success(acc') => Fold(evs[1..], acc', q)
  }

  /** walkFileTree as a recursive descent over the tree. */
  function Walk(n: Node, acc: seq<Path>, q: string): Result<seq<Path>, SearchError>
    decreases n
  {
    match n
    case Entry(f) => Step(Visit(f), acc, q)
    case Inaccessible(p) => Failure(WalkFailed(p))
    case Directory(p, listable, children) =>
      if listable then WalkAll(children, acc, q) else Failure(WalkFailed(p))
  }

  function WalkAll(ns: seq<Node>, acc: seq<Path>, q: string): Result<seq<Path>, SearchError>
    decreases ns
  {
    if ns == [] then Success(acc)
    else
      match Walk(ns[0], acc, q)
      case Failure(e) => Failure(e)
      case Success(acc') => WalkAll(ns[1..], acc', q)
  }

  /** Folding over a concatenation folds over the first part, then over the second. */
  lemma {:induction false} FoldAppend(a: seq<Event>, b: seq<Event>, acc: seq<Path>, q: string)
    ensures Fold(a + b, acc, q) ==
              match Fold(a, acc, q)
              case Failure(e) => Failure(e)
              case Success(x) => Fold(b, x, q)
    decreases |a|
  {
    if a != [] {
      assert (a + b)[1..] == a[1..] + b;
      match Step(a[0], acc, q)
      case Failure(e) =>
      case Success(x) => FoldAppend(a[1..], b, x, q);
    } else {
      assert a + b == b;
    }
  }

  /** The recursive walk is the depth-first fold of visitFile over the tree's entries. */
  lemma {:induction false} WalkIsFold(n: Node, acc: seq<Path>, q: string)
    ensures Walk(n, acc, q) == Fold(Events(n), acc, q)
    decreases n
  {
    match n
    case Entry(f) =>
    case Inaccessible(p) =>
    case Directory(p, listable, children) =>
      if listable {
        WalkAllIsFold(children, acc, q);
      }
  }

  lemma {:induction false} WalkAllIsFold(ns: seq<Node>, acc: seq<Path>, q: string)
    ensures WalkAll(ns, acc, q) == Fold(EventsAll(ns), acc, q)
    decreases ns
  {
    if ns != [] {
      WalkIsFold(ns[0], acc, q);
      FoldAppend(Events(ns[0]), EventsAll(ns[1..]), acc, q);
      match Walk(ns[0], acc, q)
      case Failure(e) =>
      case Success(x) => WalkAllIsFold(ns[1..], x, q);
    }
  }

  /** The step at this entry does not throw. */
  predicate StepOk(ev: Event, q: string) {
    ev.Visit? && VisitFile(ev.file, [], q).Success?
  }

  /** The walk meets no unreachable entry and no scan that throws. */
  predicate Clean(evs: seq<Event>, q: string) {
    forall k :: 0 <= k < |evs| ==> StepOk(evs[k], q)
  }

  lemma CleanCons(evs: seq<Event>, q: string)
    requires evs != []
    ensures Clean(evs, q) <==> StepOk(evs[0], q) && Clean(evs[1..], q)
  {
    if StepOk(evs[0], q) && Clean(evs[1..], q) {
      forall k | 0 <= k < |evs|
        ensures StepOk(evs[k], q)
      {
        if k > 0 {
          assert evs[k] == evs[1..][k - 1];
        }
      }
    }
    if Clean(evs, q) {
      forall k | 0 <= k < |evs[1..]|
        ensures StepOk(evs[1..][k], q)
      {
        assert evs[1..][k] == evs[k + 1];
      }
    }
  }

  /** The head entry's contribution to the matching paths. */
  function Own(ev: Event, q: string): seq<Path> {
    if ev.Visit? && Matches(ev.file, q) then [ev.file.path] else []
  }

  /** A step succeeds independently of the list it extends, and appends the file's path
      exactly when the file matches. */
  lemma StepShape(ev: Event, acc: seq<Path>, q: string)
    ensures Step(ev, acc, q).Success? <==> StepOk(ev, q)
    ensures StepOk(ev, q) ==>
              Step(ev, acc, q) == Success(acc + Own(ev, q))
  {
    assert acc + [] == acc;
  }

  /** The paths of the visited files that match, in walk order. */
  function MatchPaths(evs: seq<Event>, q: string): seq<Path>
  {
    if evs == [] then [] else Own(evs[0], q) + MatchPaths(evs[1..], q)
  }

  /** The matching paths are exactly the paths of the visited files that match. */
  lemma {:induction false} MatchPathsMembers(evs: seq<Event>, q: string)
    ensures forall p :: p in MatchPaths(evs, q) ==> exists f :: Visit(f) in evs && f.path == p && Matches(f, q)
    ensures forall f :: Visit(f) in evs && Matches(f, q) ==> f.path in MatchPaths(evs, q)
  {
    if evs != [] {
      MatchPathsMembers(evs[1..], q);
      assert evs == [evs[0]] + evs[1..];
    }
  }

  /** The fold succeeds exactly on a clean walk, whatever the list held before. */
  lemma {:induction false} FoldSucceedsIffClean(evs: seq<Event>, acc: seq<Path>, q: string)
    ensures Fold(evs, acc, q).Success? <==> Clean(evs, q)
    decreases |evs|
  {
    if evs != [] {
      CleanCons(evs, q);
      StepShape(evs[0], acc, q);
      match Step(evs[0], acc, q)
      case Failure(e) =>
      case Success(x) => FoldSucceedsIffClean(evs[1..], x, q);
    }
  }

  lemma FoldCons(evs: seq<Event>, acc: seq<Path>, q: string, x: seq<Path>)
    requires evs != [] && Step(evs[0], acc, q) == Success(x)
    ensures Fold(evs, acc, q) == Fold(evs[1..], x, q)
  {
  }

  lemma MatchPathsCons(evs: seq<Event>, q: string)
    requires evs != []
    ensures MatchPaths(evs, q) == Own(evs[0], q) + MatchPaths(evs[1..], q)
  {
  }

  /** On a clean walk the first step appends the head's contribution and the rest stays clean. */
  lemma CleanHead(evs: seq<Event>, acc: seq<Path>, q: string)
    requires evs != [] && Clean(evs, q)
    ensures Step(evs[0], acc, q) == Success(acc + Own(evs[0], q))
    ensures Clean(evs[1..], q)
  {
    CleanCons(evs, q);
    StepShape(evs[0], acc, q);
  }

  /** On a clean walk the fold appends the matching files' paths in walk order. */
  lemma {:induction false} FoldAppendsMatches(evs: seq<Event>, acc: seq<Path>, q: string)
    requires Clean(evs, q)
    ensures Fold(evs, acc, q) == Success(acc + MatchPaths(evs, q))
    decreases |evs|
  {
    if evs == [] {
      assert acc + [] == acc;
    } else {
      var own := Own(evs[0], q);
      var x := acc + own;
      CleanHead(evs, acc, q);
      FoldCons(evs, acc, q, x);
      FoldAppendsMatches(evs[1..], x, q);
      MatchPathsCons(evs, q);
      AppendAssoc(acc, own, MatchPaths(evs[1..], q));
    }
  }

  /** findText. */
  function FindText(query: Option<string>, root: Node, stat: Path -> Option<nat>): (r: Result<seq<Path>, SearchError>)
    ensures query.None? || query.value == [] ==> r == Failure(InvalidText)
    ensures query.Some? && query.value != [] && (root.Inaccessible? || (root.Directory? && !root.listable)) ==>
              r == Failure(WalkFailed(root.path))
    ensures r.Success? ==> SortedBy(r.value, SizeKey(stat))
  {
    if query.None? || |query.value| == 0 then Failure(InvalidText)
    else
      match Walk(root, [], query.value)
      case Failure(e) => Failure(e)
      case Success(found) => Success(GetFileContainsText(found, stat))
  }

  /** For a valid query, findText succeeds exactly when the walk is clean, and then returns
      getFileContainsText of the matching files' paths in walk order. */
  lemma FindTextIsSortedFold(q: string, root: Node, stat: Path -> Option<nat>)
    requires |q| > 0
    ensures FindText(Some(q), root, stat).Success? <==> Clean(Events(root), q)
    ensures Clean(Events(root), q) ==>
              FindText(Some(q), root, stat) == Success(GetFileContainsText(MatchPaths(Events(root), q), stat))
  {
    WalkIsFold(root, [], q);
    FoldSucceedsIffClean(Events(root), [], q);
    if Clean(Events(root), q) {
      FoldAppendsMatches(Events(root), [], q);
    }
    assert [] + MatchPaths(Events(root), q) == MatchPaths(Events(root), q);
  }

  /** On a clean walk, a visited valid regular file with a matching line and a reader that
      closes cleanly is one visitFile adds. */
  lemma CleanVisitMatches(evs: seq<Event>, q: string, f: FileInfo)
    requires Clean(evs, q) && Visit(f) in evs
    requires f.regular && f.readable && f.present && !f.data.closeFails
    requires SomeLineContains(Lines(f.data.text), q)
    ensures Matches(f, q)
  {
    var k :| 0 <= k < |evs| && evs[k] == Visit(f);
    assert StepOk(evs[k], q);
    ScannedFileMatches(f, q);
  }

  /** Soundness and completeness: every returned path belongs to a readable regular file of
      the tree with a line containing the query, every such file is returned, and each is
      returned as often as the walk reaches it. */
  lemma FindTextSoundAndComplete(q: string, root: Node, stat: Path -> Option<nat>, r: seq<Path>)
    requires FindText(Some(q), root, stat) == Success(r)
    ensures forall p :: p in r ==>
              exists f :: Visit(f) in Events(root) && f.path == p && f.regular && f.readable &&
                           f.present && SomeLineContains(Lines(f.data.text), q)
    ensures forall f :: Visit(f) in Events(root) && Matches(f, q) ==> f.path in r
    ensures forall f ::
              Visit(f) in Events(root) && f.regular && f.readable && f.present && !f.data.closeFails &&
              SomeLineContains(Lines(f.data.text), q)
              ==> f.path in r
    ensures multiset(r) == multiset(MatchPaths(Events(root), q))
  {
    FindTextIsSortedFold(q, root, stat);
    var evs := Events(root);
    var m := MatchPaths(evs, q);
    MatchPathsMembers(evs, q);
    assert multiset(r) == multiset(m);
    forall p | p in r
      ensures exists f :: Visit(f) in evs && f.path == p && f.regular && f.readable &&
                          f.present && SomeLineContains(Lines(f.data.text), q)
    {
      assert p in multiset(m);
      assert p in m;
      var f :| Visit(f) in evs && f.path == p && Matches(f, q);
      MatchHasLine(f, q);
    }
    forall f | Visit(f) in Events(root) && Matches(f, q)
      ensures f.path in r
    {
      assert f.path in multiset(r);
    }
    forall f | Visit(f) in evs && f.regular && f.readable && f.present &&
               !f.data.closeFails && SomeLineContains(Lines(f.data.text), q)
      ensures f.path in r
    {
      CleanVisitMatches(evs, q, f);
      assert f.path in multiset(r);
    }
  }
}
