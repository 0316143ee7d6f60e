/** Text as a line reader sees it: BufferedReader.readLine (and BufferedReader.lines, which is
    built on it) ends a line at '\n', at '\r', or at the pair "\r\n", drops the terminator,
    and yields a last unterminated line only when it is non-empty. Also String.contains. */
module LineReader {

  predicate IsBreak(c: char) {
    c == '\n' || c == '\r'
  }

  predicate BreakFree(s: string) {
    forall i :: 0 <= i < |s| ==> !IsBreak(s[i])
  }

  /** The index of the first line-break character, or |s| when there is none. */
  function FirstBreak(s: string): (i: nat)
    ensures i <= |s|
    ensures BreakFree(s[..i])
    ensures i < |s| ==> IsBreak(s[i])
  {
    if |s| == 0 then 0
    else if IsBreak(s[0]) then 0
    else
      var j := FirstBreak(s[1..]);
      assert s[..1 + j] == [s[0]] + s[1..][..j];
      1 + j
  }

  /** The first break is at i exactly when no break precedes i and s[i] is one. */
  lemma FirstBreakAt(s: string, i: nat)
    requires i < |s| && IsBreak(s[i])
    requires BreakFree(s[..i])
    ensures FirstBreak(s) == i
  {
  }

  lemma NoBreakAt(s: string)
    requires BreakFree(s)
    ensures FirstBreak(s) == |s|
  {
  }

  /** The length of the terminator that starts at i: two for "\r\n", otherwise one. */
  function TerminatorLength(s: string, i: nat): (n: nat)
    requires i < |s| && IsBreak(s[i])
    ensures 1 <= n <= 2 && i + n <= |s|
    ensures n == 2 ==> s[i + 1] == '\n'
  {
    if s[i] == '\r' && i + 1 < |s| && s[i + 1] == '\n' then 2 else 1
  }

  /** The lines a line reader returns for the text s, in order. */
  function Lines(s: string): (ls: seq<string>)
    ensures forall k :: 0 <= k < |ls| ==> BreakFree(ls[k])
    ensures |ls| == 0 <==> |s| == 0
    decreases |s|
  {
    if |s| == 0 then []
    else
      var i := FirstBreak(s);
      if i == |s| then [s]
      else [s[..i]] + Lines(s[i + TerminatorLength(s, i)..])
  }

  /** The lines written one after another, each followed by "\n". */
  function Terminated(ls: seq<string>): string
  {
    if ls == [] then "" else ls[0] + "\n" + Terminated(ls[1..])
  }

  /** Splitting undoes writing: the reader returns exactly the lines that were written. */
  lemma {:induction false} LinesOfTerminated(ls: seq<string>)
    requires forall k :: 0 <= k < |ls| ==> BreakFree(ls[k])
    ensures Lines(Terminated(ls)) == ls
  {
    if ls != [] {
      var rest := Terminated(ls[1..]);
      var s := Terminated(ls);
      var n := |ls[0]|;
      assert s == ls[0] + ("\n" + rest);
      assert s[..n] == ls[0];
      assert s[n] == '\n';
      FirstBreakAt(s, n);
      assert TerminatorLength(s, n) == 1;
      assert s[n + 1..] == rest;
      assert Lines(s) == [ls[0]] + Lines(rest);
      LinesOfTerminated(ls[1..]);
      assert ls == [ls[0]] + ls[1..];
    }
  }

  /** The query occurs in s starting at position p. */
  predicate ContainsAt(s: string, q: string, p: int) {
    0 <= p <= |s| - |q| && s[p..p + |q|] == q
  }

  /** String.contains: the query occurs somewhere in s (the empty query occurs everywhere). */
  predicate Contains(s: string, q: string) {
    exists p | 0 <= p <= |s| - |q| :: ContainsAt(s, q, p)
  }

  /** Some line contains the query. */
  predicate SomeLineContains(ls: seq<string>, q: string) {
    exists k :: 0 <= k < |ls| && Contains(ls[k], q)
  }

  /** An occurrence inside the slice s[a..b] is an occurrence in s, shifted by a. */
  lemma ContainsInSlice(s: string, a: nat, b: nat, q: string, p: int)
    requires a <= b <= |s|
    requires ContainsAt(s[a..b], q, p)
    ensures ContainsAt(s, q, p + a)
  {
    forall j | 0 <= j < |q|
      ensures s[p + a..p + a + |q|][j] == q[j]
    {
      assert s[a..b][p..p + |q|][j] == s[a..b][p + j] == s[a + p + j];
    }
  }

  /** An occurrence in s that lies within [a, b) is an occurrence in s[a..b]. */
  lemma ContainsOfSlice(s: string, a: nat, b: nat, q: string, p: int)
    requires a <= p && p + |q| <= b <= |s|
    requires ContainsAt(s, q, p)
    ensures ContainsAt(s[a..b], q, p - a)
  {
    forall j | 0 <= j < |q|
      ensures s[a..b][p - a..p - a + |q|][j] == q[j]
    {
      assert s[p..p + |q|][j] == s[p + j];
    }
  }

  /** An occurrence of a break-free query never covers a break character. */
  lemma OccurrenceAvoidsBreak(s: string, q: string, p: int, j: int)
    requires BreakFree(q)
    requires ContainsAt(s, q, p)
    requires p <= j < p + |q|
    ensures !IsBreak(s[j])
  {
    assert s[j] == s[p..p + |q|][j - p] == q[j - p];
  }

  /** Cutting the text at a terminator neither creates nor destroys occurrences of a
      non-empty, break-free query. */
  lemma ContainsAroundTerminator(s: string, i: nat, t: nat, q: string)
    requires |q| > 0 && BreakFree(q)
    requires i < |s| && IsBreak(s[i]) && 1 <= t <= 2 && i + t <= |s|
    requires t == 2 ==> IsBreak(s[i + 1])
    ensures Contains(s, q) <==> Contains(s[..i], q) || Contains(s[i + t..], q)
  {
    if Contains(s[..i], q) {
      var p :| 0 <= p <= i - |q| && ContainsAt(s[..i], q, p);
      assert s[0..i] == s[..i];
      ContainsInSlice(s, 0, i, q, p);
    }
    if Contains(s[i + t..], q) {
      var p :| 0 <= p <= |s| - (i + t) - |q| && ContainsAt(s[i + t..], q, p);
      assert s[i + t..|s|] == s[i + t..];
      ContainsInSlice(s, i + t, |s|, q, p);
    }
    if Contains(s, q) {
      var p :| 0 <= p <= |s| - |q| && ContainsAt(s, q, p);
      if p + |q| <= i {
        ContainsOfSlice(s, 0, i, q, p);
        assert s[0..i] == s[..i];
      } else if p >= i + t {
        ContainsOfSlice(s, i + t, |s|, q, p);
        assert s[i + t..|s|] == s[i + t..];
      } else if p <= i {
        OccurrenceAvoidsBreak(s, q, p, i);
      } else {
        OccurrenceAvoidsBreak(s, q, p, p);
      }
    }
  }

  lemma SomeLineContainsCons(l: string, ls: seq<string>, q: string)
    ensures SomeLineContains([l] + ls, q) <==> Contains(l, q) || SomeLineContains(ls, q)
  {
    var all := [l] + ls;
    assert all[0] == l;
    if SomeLineContains(ls, q) {
      var k :| 0 <= k < |ls| && Contains(ls[k], q);
      assert all[k + 1] == ls[k];
    }
    if SomeLineContains(all, q) {
      var k :| 0 <= k < |all| && Contains(all[k], q);
      if k > 0 {
        assert all[k] == ls[k - 1];
      }
    }
  }

  /** For a non-empty query without line breaks, scanning line by line finds the query
      exactly when it occurs anywhere in the text. */
  lemma {:induction false} LineScanIsTextSearch(s: string, q: string)
    requires |q| > 0 && BreakFree(q)
    ensures SomeLineContains(Lines(s), q) <==> Contains(s, q)
    decreases |s|
  {
    if |s| == 0 {
      assert !Contains(s, q);
    } else {
      var i := FirstBreak(s);
      if i == |s| {
        SomeLineContainsCons(s, [], q);
      } else {
        var t := TerminatorLength(s, i);
        var head, rest := s[..i], s[i + t..];
        assert Lines(s) == [head] + Lines(rest);
        SomeLineContainsCons(head, Lines(rest), q);
        LineScanIsTextSearch(rest, q);
        ContainsAroundTerminator(s, i, t, q);
      }
    }
  }
}
