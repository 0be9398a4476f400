/**
 * `contents.sort(key=lambda z: len(z.path))` in `save_to_folder`: Python's
 * list sort is stable, so the result is the unique ordering by path length
 * that keeps entries of equal length in their original order. It is
 * specified here by a stable insertion sort on values, and carried out in
 * place on an array.
 */
module LengthSort {
  import opened Model
  import opened Sequences

  /** The sort key: the length of the entry's path. */
  function Key(c: Content): nat
  {
    |c.path|
  }

  /** Path lengths never decrease along `s`. */
  predicate Sorted(s: seq<Content>)
  {
    forall i, j :: 0 <= i < j < |s| ==> Key(s[i]) <= Key(s[j])
  }

  /** The entries of `s` whose path has length `n`, in their order in `s`. */
  function Filter(s: seq<Content>, n: nat): seq<Content>
  {
    if s == [] then []
    else Filter(s[..|s| - 1], n) + (if Key(s[|s| - 1]) == n then [s[|s| - 1]] else [])
  }

  /**
   * Places `x` after every entry whose key is at most its own, scanning
   * from the right: only entries with a strictly larger key move past it.
   */
  function Insert(s: seq<Content>, x: Content): seq<Content>
  {
    if s == [] then [x]
    else if Key(s[|s| - 1]) <= Key(x) then s + [x]
    else Insert(s[..|s| - 1], x) + [s[|s| - 1]]
  }

  /** The stable sort by key: each entry in turn is inserted into the sorted prefix. */
  function SortByLen(s: seq<Content>): seq<Content>
  {
    if s == [] then [] else Insert(SortByLen(s[..|s| - 1]), s[|s| - 1])
  }

  // ---------------------------------------------------------------------
  // Filter
  // ---------------------------------------------------------------------

  lemma {:induction false} FilterAppend(a: seq<Content>, b: seq<Content>, n: nat)
    ensures Filter(a + b, n) == Filter(a, n) + Filter(b, n)
    decreases |b|
  {
    if b == [] {
      assert a + b == a;
    } else {
      assert (a + b)[..|a + b| - 1] == a + b[..|b| - 1];
      FilterAppend(a, b[..|b| - 1], n);
    }
  }

  /** The group of key `n` of a list with one more entry. */
  lemma FilterSnoc(s: seq<Content>, x: Content, n: nat)
    ensures Filter(s + [x], n) == Filter(s, n) + (if Key(x) == n then [x] else [])
  {
    assert (s + [x])[..|s|] == s;
  }

  /** Every entry kept by `Filter(s, n)` comes from `s` and has key `n`. */
  lemma {:induction false} FilterMembers(s: seq<Content>, n: nat)
    ensures forall y :: y in Filter(s, n) ==> y in s && Key(y) == n
  {
    if s != [] {
      FilterMembers(s[..|s| - 1], n);
    }
  }

  /** Every entry of `s` with key `n` is kept by `Filter(s, n)`. */
  lemma {:induction false} FilterKeeps(s: seq<Content>, n: nat, i: nat)
    requires i < |s| && Key(s[i]) == n
    ensures s[i] in Filter(s, n)
  {
    if i < |s| - 1 {
      FilterKeeps(s[..|s| - 1], n, i);
    }
  }

  /** A nonempty list has a nonempty group for the key of its first entry. */
  lemma FilterNonEmpty(s: seq<Content>)
    requires s != []
    ensures Filter(s, Key(s[0])) != []
  {
    FilterKeeps(s, Key(s[0]), 0);
  }

  // ---------------------------------------------------------------------
  // Insert
  // ---------------------------------------------------------------------

  lemma {:induction false} InsertMultiset(s: seq<Content>, x: Content)
    ensures multiset(Insert(s, x)) == multiset(s) + multiset{x}
  {
    if s != [] && Key(s[|s| - 1]) > Key(x) {
      InsertMultiset(s[..|s| - 1], x);
      assert s == s[..|s| - 1] + [s[|s| - 1]];
    }
  }

  lemma {:induction false} InsertSorted(s: seq<Content>, x: Content)
    requires Sorted(s)
    ensures Sorted(Insert(s, x))
  {
    if s != [] && Key(s[|s| - 1]) > Key(x) {
      var init := s[..|s| - 1];
      var last := s[|s| - 1];
      InsertSorted(init, x);
      InsertMultiset(init, x);
      var r := Insert(init, x);
      forall i | 0 <= i < |r| ensures Key(r[i]) <= Key(last) {
        assert r[i] in multiset(r);
        if r[i] != x {
          assert r[i] in multiset(init);
          var k :| 0 <= k < |init| && init[k] == r[i];
          assert s[k] == r[i];
        }
      }
    }
  }

  /** Inserting `x` adds it at the end of its own key's group and changes no other group. */
  lemma {:induction false} InsertFilter(s: seq<Content>, x: Content, n: nat)
    ensures Filter(Insert(s, x), n) == Filter(s, n) + (if Key(x) == n then [x] else [])
  {
    if s == [] {
      FilterSnoc(s, x, n);
      assert Insert(s, x) == s + [x];
    } else if Key(s[|s| - 1]) <= Key(x) {
      FilterSnoc(s, x, n);
    } else {
      var init, last := s[..|s| - 1], s[|s| - 1];
      InsertFilter(init, x, n);
      FilterSnoc(Insert(init, x), last, n);
      LastSplit(s);
      FilterSnoc(init, last, n);
    }
  }

  // ---------------------------------------------------------------------
  // SortByLen
  // ---------------------------------------------------------------------

  /** The result is ordered by path length. */
  lemma {:induction false} SortByLenSorted(s: seq<Content>)
    ensures Sorted(SortByLen(s))
  {
    if s != [] {
      SortByLenSorted(s[..|s| - 1]);
      InsertSorted(SortByLen(s[..|s| - 1]), s[|s| - 1]);
    }
  }

  /** The result holds the same entries, each as often as before. */
  lemma {:induction false} SortByLenPermutation(s: seq<Content>)
    ensures multiset(SortByLen(s)) == multiset(s)
  {
    if s != [] {
      var init, last := s[..|s| - 1], s[|s| - 1];
      calc {
        multiset(SortByLen(s));
        multiset(Insert(SortByLen(init), last));
        { InsertMultiset(SortByLen(init), last); }
        multiset(SortByLen(init)) + multiset{last};
        { SortByLenPermutation(init); }
        multiset(init) + multiset{last};
        { MultisetSnoc(s); }
        multiset(s);
      }
    }
  }

  /** Stability: entries of equal path length keep their original relative order. */
  lemma {:induction false} SortByLenStable(s: seq<Content>, n: nat)
    ensures Filter(SortByLen(s), n) == Filter(s, n)
  {
    if s != [] {
      SortByLenStable(s[..|s| - 1], n);
      InsertFilter(SortByLen(s[..|s| - 1]), s[|s| - 1], n);
    }
  }

  /** The last entry of a nonempty sorted list has the largest key. */
  lemma LastIsMax(s: seq<Content>, y: Content)
    requires Sorted(s) && y in s
    ensures Key(y) <= Key(s[|s| - 1])
  {
    var k :| 0 <= k < |s| && s[k] == y;
  }

  /**
   * Two sorted lists that agree on every key's group are equal: a stable
   * sort by path length has exactly one possible result.
   */
  lemma {:induction false} SortedUnique(a: seq<Content>, b: seq<Content>)
    requires Sorted(a) && Sorted(b)
    requires forall n: nat :: Filter(a, n) == Filter(b, n)
    ensures a == b
    decreases |a| + |b|
  {
    if a == [] || b == [] {
      if a != [] {
        FilterNonEmpty(a);
      }
      if b != [] {
        FilterNonEmpty(b);
      }
      return;
    }
    var m, m' := Key(a[|a| - 1]), Key(b[|b| - 1]);
    if m < m' {
      FilterKeeps(b, m', |b| - 1);
      FilterMembers(a, m');
      LastIsMax(a, b[|b| - 1]);
    } else if m' < m {
      FilterKeeps(a, m, |a| - 1);
      FilterMembers(b, m);
      LastIsMax(b, a[|a| - 1]);
    } else {
      var a', b' := a[..|a| - 1], b[..|b| - 1];
      LastSplit(a);
      LastSplit(b);
      SameLast(a', a[|a| - 1], b', b[|b| - 1]);
      SortedInit(a);
      SortedInit(b);
      SortedUnique(a', b');
    }
  }

  /**
   * Two lists that agree on every key's group and end with entries of the
   * same key end with the same entry, and agree on every group without it.
   */
  lemma SameLast(a: seq<Content>, x: Content, b: seq<Content>, y: Content)
    requires Key(x) == Key(y)
    requires forall n: nat :: Filter(a + [x], n) == Filter(b + [y], n)
    ensures x == y
    ensures forall n: nat :: Filter(a, n) == Filter(b, n)
  {
    forall n: nat ensures Filter(a, n) == Filter(b, n) {
      SameLastGroup(a, x, b, y, n);
    }
    SameLastGroup(a, x, b, y, Key(x));
  }

  /** `SameLast` for the group of one key. */
  lemma SameLastGroup(a: seq<Content>, x: Content, b: seq<Content>, y: Content, n: nat)
    requires Key(x) == Key(y)
    requires Filter(a + [x], n) == Filter(b + [y], n)
    ensures Filter(a, n) == Filter(b, n)
    ensures n == Key(x) ==> x == y
  {
    FilterSnoc(a, x, n);
    FilterSnoc(b, y, n);
    if n == Key(x) {
      SnocInjective(Filter(a, n), x, Filter(b, n), y);
    } else {
      assert Filter(a, n) + [] == Filter(a, n);
      assert Filter(b, n) + [] == Filter(b, n);
    }
  }

  lemma SnocInjective(s: seq<Content>, x: Content, t: seq<Content>, y: Content)
    requires s + [x] == t + [y]
    ensures s == t && x == y
  {
    assert (s + [x])[..|s|] == s;
    assert (t + [y])[..|t|] == t;
    assert (s + [x])[|s|] == x;
  }

  lemma SortedInit(s: seq<Content>)
    requires s != [] && Sorted(s)
    ensures Sorted(s[..|s| - 1])
  {
  }

  /**
   * `SortByLen(s)` is the only ordering of `s` by path length that keeps
   * equal-length entries in their original order, so it is what a stable
   * sort such as Python's `list.sort` produces.
   */
  lemma SortByLenUnique(s: seq<Content>, t: seq<Content>)
    requires Sorted(t)
    requires forall n: nat :: Filter(t, n) == Filter(s, n)
    ensures t == SortByLen(s)
  {
    SortByLenSorted(s);
    forall n: nat ensures Filter(t, n) == Filter(SortByLen(s), n) {
      SortByLenStable(s, n);
    }
    SortedUnique(t, SortByLen(s));
  }

  // ---------------------------------------------------------------------
  // In place
  // ---------------------------------------------------------------------

  /** Moving past one entry with a larger key: the scan of `Insert` one step to the left. */
  lemma InsertShift(s: seq<Content>, j: nat, x: Content)
    requires 0 < j <= |s| && Key(s[j - 1]) > Key(x)
    requires Insert(s, x) == Insert(s[..j], x) + s[j..]
    ensures Insert(s, x) == Insert(s[..j - 1], x) + s[j - 1..]
  {
    assert s[..j][..j - 1] == s[..j - 1];
    assert s[j - 1..] == [s[j - 1]] + s[j..];
  }

  /** Swapping `x` with the entry on its left, in sequence terms. */
  lemma SwapStep(s: seq<Content>, sorted: seq<Content>, j: nat, x: Content, rest: seq<Content>)
    requires 0 < j <= |sorted| && s == sorted[..j] + [x] + sorted[j..] + rest
    ensures s[j - 1] == sorted[j - 1] && s[j] == x
    ensures s[j - 1 := x][j := s[j - 1]] == sorted[..j - 1] + [x] + sorted[j - 1..] + rest
  {
    assert sorted[..j] == sorted[..j - 1] + [sorted[j - 1]];
    assert sorted[j - 1..] == [sorted[j - 1]] + sorted[j..];
  }

  /**
   * One step of the insertion sort: the entry at index `i` moves left past
   * every entry of the prefix with a strictly longer path.
   */
  method InsertAt(a: array<Content>, i: nat)
    requires i < a.Length
    modifies a
    ensures a[..i + 1] == Insert(old(a[..i]), old(a[i]))
    ensures a[i + 1..] == old(a[i + 1..])
  {
    ghost var sorted := a[..i];
    ghost var rest := a[i + 1..];
    var x := a[i];
    assert sorted[..i] == sorted && sorted[i..] == [];
    assert a[..] == sorted[..i] + [x] + sorted[i..] + rest;
    var j := i;
    while j > 0 && Key(a[j - 1]) > Key(x)
      invariant 0 <= j <= i
      invariant a[..] == sorted[..j] + [x] + sorted[j..] + rest
      invariant Insert(sorted, x) == Insert(sorted[..j], x) + sorted[j..]
      decreases j
    {
      SwapStep(a[..], sorted, j, x, rest);
      InsertShift(sorted, j, x);
      a[j - 1], a[j] := a[j], a[j - 1];
      j := j - 1;
    }
    InsertAtDone(a[..], sorted, x, rest, j);
  }

  /** When the scan stops, `x` sits where `Insert` puts it. */
  lemma InsertAtDone(s: seq<Content>, sorted: seq<Content>, x: Content, rest: seq<Content>, j: nat)
    requires j <= |sorted| && s == sorted[..j] + [x] + sorted[j..] + rest
    requires Insert(sorted, x) == Insert(sorted[..j], x) + sorted[j..]
    requires j == 0 || Key(s[j - 1]) <= Key(x)
    ensures s[..|sorted| + 1] == Insert(sorted, x)
    ensures s[|sorted| + 1..] == rest
  {
    assert Insert(sorted[..j], x) == sorted[..j] + [x] by {
      if j > 0 {
        assert s[j - 1] == sorted[j - 1];
        assert sorted[..j][..j - 1] == sorted[..j - 1];
      }
    }
  }

  /**
   * `contents.sort(key=len(path))` on an array: every entry in turn is
   * inserted into the sorted prefix before it.
   */
  method SortInPlace(a: array<Content>)
    modifies a
    ensures a[..] == SortByLen(old(a[..]))
  {
    ghost var pre := a[..];
    for i := 0 to a.Length
      invariant a[..i] == SortByLen(pre[..i])
      invariant a[i..] == pre[i..]
    {
      SuffixStep(a[..], pre, i);
      InsertAt(a, i);
      SortByLenPrefix(pre, i);
    }
    assert pre[..a.Length] == pre;
  }

  /** Two lists that agree from `i` on agree at `i` and from `i + 1` on. */
  lemma SuffixStep(s: seq<Content>, t: seq<Content>, i: nat)
    requires i < |s| && i < |t| && s[i..] == t[i..]
    ensures s[i] == t[i] && s[i + 1..] == t[i + 1..]
  {
    assert s[i] == s[i..][0] && t[i] == t[i..][0];
    assert s[i + 1..] == s[i..][1..] && t[i + 1..] == t[i..][1..];
  }

  /** Sorting one more entry of a list inserts it into the sorted prefix. */
  lemma SortByLenPrefix(s: seq<Content>, i: nat)
    requires i < |s|
    ensures SortByLen(s[..i + 1]) == Insert(SortByLen(s[..i]), s[i])
  {
    assert s[..i + 1][..i] == s[..i];
  }
}
