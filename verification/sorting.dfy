/** Stable sorting by an integer key, the behaviour List.sort promises for a comparator such as
    Comparator.comparingLong: ascending keys, and elements with equal keys keep their order. */
module StableSort {

  /** Keys never decrease along s. */
  predicate SortedBy<T>(s: seq<T>, key: T -> int) {
    forall i, j :: 0 <= i < j < |s| ==> key(s[i]) <= key(s[j])
  }

  /** The elements of s whose key is k, in their order in s. */
  function WithKey<T>(s: seq<T>, key: T -> int, k: int): seq<T>
  {
    if s == [] then []
    else (if key(s[0]) == k then [s[0]] else []) + WithKey(s[1..], key, k)
  }

  /** a and b list the elements of every key in the same order: the stability relation. */
  ghost predicate SameTies<T>(a: seq<T>, b: seq<T>, key: T -> int) {
    forall k :: WithKey(a, key, k) == WithKey(b, key, k)
  }

  /** x as a one-element sequence when its key is k, otherwise nothing. */
  function Tie<T>(x: T, key: T -> int, k: int): seq<T> {
    if key(x) == k then [x] else []
  }

  lemma WithKeyCons<T>(x: T, s: seq<T>, key: T -> int, k: int)
    ensures WithKey([x] + s, key, k) == Tie(x, key, k) + WithKey(s, key, k)
  {
    assert ([x] + s)[1..] == s;
  }

  /** Prepending an element no larger than every element keeps a sequence sorted. */
  lemma SortedCons<T>(y: T, s: seq<T>, key: T -> int)
    requires SortedBy(s, key)
    requires forall z :: z in s ==> key(y) <= key(z)
    ensures SortedBy([y] + s, key)
  {
    var r := [y] + s;
    forall i, j | 0 <= i < j < |r|
      ensures key(r[i]) <= key(r[j])
    {
      assert r[j] == s[j - 1];
      if i > 0 {
        assert r[i] == s[i - 1];
      }
    }
  }

  /** Every element of a sorted s has a key at least that of its head. */
  lemma HeadIsLeast<T>(s: seq<T>, key: T -> int)
    requires SortedBy(s, key) && s != []
    ensures forall z :: z in s ==> key(s[0]) <= key(z)
  {
    forall z | z in s
      ensures key(s[0]) <= key(z)
    {
      var i :| 0 <= i < |s| && s[i] == z;
    }
  }

  /** Putting y in front of a sorted rest that holds y's tail and a larger x keeps order. */
  lemma InsertedBehind<T>(x: T, s: seq<T>, rest: seq<T>, key: T -> int)
    requires s != [] && SortedBy(s, key) && SortedBy(rest, key)
    requires key(s[0]) < key(x)
    requires multiset(rest) == multiset(s[1..]) + multiset{x}
    ensures SortedBy([s[0]] + rest, key)
  {
    HeadIsLeast(s, key);
    forall z | z in rest
      ensures key(s[0]) <= key(z)
    {
      assert z in multiset(rest);
      if z != x {
        assert z in multiset(s[1..]);
        assert z in s[1..];
      }
    }
    SortedCons(s[0], rest, key);
  }

  /** Places x before the first element whose key is not smaller than its own. */
  function Insert<T>(x: T, s: seq<T>, key: T -> int): (r: seq<T>)
    ensures multiset(r) == multiset(s) + multiset{x}
    ensures SortedBy(s, key) ==> SortedBy(r, key)
  {
    if s == [] || key(x) <= key(s[0]) then
      assert SortedBy(s, key) ==> SortedBy([x] + s, key) by {
        if SortedBy(s, key) && s != [] {
          HeadIsLeast(s, key);
          SortedCons(x, s, key);
        }
      }
      [x] + s
    else
      var rest := Insert(x, s[1..], key);
      assert s == [s[0]] + s[1..];
      assert SortedBy(s, key) ==> SortedBy([s[0]] + rest, key) by {
        if SortedBy(s, key) {
          InsertedBehind(x, s, rest, key);
        }
      }
      [s[0]] + rest
  }

  /** Elements with different keys can trade places in front of a key's subsequence. */
  lemma TiesCommute<T>(x: T, y: T, key: T -> int, k: int, w: seq<T>)
    requires key(x) != key(y)
    ensures Tie(y, key, k) + (Tie(x, key, k) + w) == Tie(x, key, k) + (Tie(y, key, k) + w)
  {
    if key(x) == k {
      assert Tie(y, key, k) == [];
    } else {
      assert Tie(x, key, k) == [];
    }
  }

  /** Inserting x puts it ahead of every element that shares its key, and leaves the order
      within every other key alone. */
  lemma {:induction false} InsertTies<T>(x: T, s: seq<T>, key: T -> int, k: int)
    ensures WithKey(Insert(x, s, key), key, k) == Tie(x, key, k) + WithKey(s, key, k)
  {
    if s == [] || key(x) <= key(s[0]) {
      WithKeyCons(x, s, key, k);
    } else {
      var rest := Insert(x, s[1..], key);
      assert Insert(x, s, key) == [s[0]] + rest;
      calc {
        WithKey(Insert(x, s, key), key, k);
        { WithKeyCons(s[0], rest, key, k); }
        Tie(s[0], key, k) + WithKey(rest, key, k);
        { InsertTies(x, s[1..], key, k); }
        Tie(s[0], key, k) + (Tie(x, key, k) + WithKey(s[1..], key, k));
        { TiesCommute(x, s[0], key, k, WithKey(s[1..], key, k)); }
        Tie(x, key, k) + (Tie(s[0], key, k) + WithKey(s[1..], key, k));
        { WithKeyCons(s[0], s[1..], key, k); assert [s[0]] + s[1..] == s; }
        Tie(x, key, k) + WithKey(s, key, k);
      }
    }
  }

  lemma AppendAssoc<T>(a: seq<T>, b: seq<T>, c: seq<T>)
    ensures (a + b) + c == a + (b + c)
  {
  }

  /** Insertion sort: each element, taken from the back, is inserted into the sorted rest. */
  function Sort<T>(s: seq<T>, key: T -> int): (r: seq<T>)
    ensures multiset(r) == multiset(s)
    ensures SortedBy(r, key)
    ensures SameTies(r, s, key)
  {
    if s == [] then []
    else
      var rest := Sort(s[1..], key);
      assert s == [s[0]] + s[1..];
      assert forall k :: WithKey(Insert(s[0], rest, key), key, k) == WithKey(s, key, k) by {
        forall k
          ensures WithKey(Insert(s[0], rest, key), key, k) == WithKey(s, key, k)
        {
          InsertTies(s[0], rest, key, k);
          WithKeyCons(s[0], s[1..], key, k);
        }
      }
      Insert(s[0], rest, key)
  }

  lemma WithKeyMembers<T>(s: seq<T>, key: T -> int, k: int, x: T)
    ensures x in WithKey(s, key, k) <==> x in s && key(x) == k
  {
    if s != [] {
      WithKeyMembers(s[1..], key, k, x);
      assert s == [s[0]] + s[1..];
    }
  }

  /** Two sequences that are both sorted and agree on the order within every key are equal:
      the result of a stable sort does not depend on which stable algorithm produced it. */
  lemma {:induction false} StableSortedUnique<T>(a: seq<T>, b: seq<T>, key: T -> int)
    requires SortedBy(a, key) && SortedBy(b, key)
    requires SameTies(a, b, key)
    ensures a == b
    decreases |a|
  {
    if a != [] {
      WithKeyMembers(a, key, key(a[0]), a[0]);
      WithKeyMembers(b, key, key(a[0]), a[0]);
    }
    if b != [] {
      WithKeyMembers(b, key, key(b[0]), b[0]);
      WithKeyMembers(a, key, key(b[0]), b[0]);
    }
    if a != [] && b != [] {
      var ka, kb := key(a[0]), key(b[0]);
      var j :| 0 <= j < |b| && b[j] == a[0];
      assert kb <= ka;
      var i :| 0 <= i < |a| && a[i] == b[0];
      assert ka <= kb;
      assert WithKey(a, key, ka)[0] == a[0];
      assert WithKey(b, key, ka)[0] == b[0];
      assert a[0] == b[0];
      forall k
        ensures WithKey(a[1..], key, k) == WithKey(b[1..], key, k)
      {
        var pre := if ka == k then [a[0]] else [];
        assert WithKey(a, key, k) == pre + WithKey(a[1..], key, k);
        assert WithKey(b, key, k) == pre + WithKey(b[1..], key, k);
        assert WithKey(a[1..], key, k) == WithKey(a, key, k)[|pre|..];
        assert WithKey(b[1..], key, k) == WithKey(b, key, k)[|pre|..];
      }
      StableSortedUnique(a[1..], b[1..], key);
      assert a == [a[0]] + a[1..];
      assert b == [b[0]] + b[1..];
    }
  }

  /** Sorting an already sorted result changes nothing. */
  lemma SortIdempotent<T>(s: seq<T>, key: T -> int)
    ensures Sort(Sort(s, key), key) == Sort(s, key)
  {
    var r := Sort(s, key);
    var rr := Sort(r, key);
    forall k
      ensures WithKey(rr, key, k) == WithKey(r, key, k)
    {
    }
    StableSortedUnique(rr, r, key);
  }
}
