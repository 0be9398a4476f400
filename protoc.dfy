/**
 * The argument list `main` hands to `grpc_tools.protoc`: the paths of the
 * FILE entries of the walk, with `og_path` removed from their front and
 * slashes stripped, sorted as Python sorts strings and joined with single
 * spaces.
 */
module Protoc {
  import opened Wrappers
  import opened Paths
  import opened Model
  import opened Urls
  import opened TreeWalk
  import opened Sequences

  /** Python's `a <= b` on strings: code point by code point, a prefix first. */
  predicate StrLe(a: string, b: string)
  {
    a == [] || (b != [] && (a[0] < b[0] || (a[0] == b[0] && StrLe(a[1..], b[1..]))))
  }

  lemma {:induction false} StrLeTotal(a: string, b: string)
    ensures StrLe(a, b) || StrLe(b, a)
  {
    if a != [] && b != [] && a[0] == b[0] {
      StrLeTotal(a[1..], b[1..]);
    }
  }

  lemma {:induction false} StrLeReflexive(a: string)
    ensures StrLe(a, a)
  {
    if a != [] {
      StrLeReflexive(a[1..]);
    }
  }

  lemma {:induction false} StrLeAntisymmetric(a: string, b: string)
    requires StrLe(a, b) && StrLe(b, a)
    ensures a == b
  {
    if a != [] && b != [] {
      StrLeAntisymmetric(a[1..], b[1..]);
      assert a == [a[0]] + a[1..] && b == [b[0]] + b[1..];
    }
  }

  lemma {:induction false} StrLeTransitive(a: string, b: string, c: string)
    requires StrLe(a, b) && StrLe(b, c)
    ensures StrLe(a, c)
  {
    if a != [] && b != [] && c != [] && a[0] == b[0] == c[0] {
      StrLeTransitive(a[1..], b[1..], c[1..]);
    }
  }

  /** Ascending in Python's string order. */
  predicate SortedStrings(xs: seq<string>)
  {
    forall i, j :: 0 <= i < j < |xs| ==> StrLe(xs[i], xs[j])
  }

  /** Places `x` before the first element it does not exceed. */
  function InsertString(xs: seq<string>, x: string): seq<string>
  {
    if xs == [] then [x]
    else if StrLe(x, xs[0]) then [x] + xs
    else [xs[0]] + InsertString(xs[1..], x)
  }

  /** `sorted(xs)`. */
  function SortStrings(xs: seq<string>): seq<string>
  {
    if xs == [] then [] else InsertString(SortStrings(xs[1..]), xs[0])
  }

  lemma {:induction false} InsertStringMultiset(xs: seq<string>, x: string)
    ensures multiset(InsertString(xs, x)) == multiset(xs) + multiset{x}
  {
    if xs != [] && !StrLe(x, xs[0]) {
      InsertStringMultiset(xs[1..], x);
      assert xs == [xs[0]] + xs[1..];
    }
  }

  /** An element at most every element of an ascending list can go in front of it. */
  lemma ConsSorted(h: string, t: seq<string>)
    requires SortedStrings(t)
    requires forall k :: 0 <= k < |t| ==> StrLe(h, t[k])
    ensures SortedStrings([h] + t)
  {
    var r := [h] + t;
    forall i, j | 0 <= i < j < |r| ensures StrLe(r[i], r[j]) {
      if i > 0 {
        assert r[i] == t[i - 1];
      }
      assert r[j] == t[j - 1];
    }
  }

  /** The head of an ascending list is at most each of its elements. */
  lemma HeadIsLeast(xs: seq<string>, x: string)
    requires xs != [] && SortedStrings(xs) && StrLe(x, xs[0])
    ensures forall k :: 0 <= k < |xs| ==> StrLe(x, xs[k])
  {
    forall k | 0 < k < |xs| ensures StrLe(x, xs[k]) {
      StrLeTransitive(x, xs[0], xs[k]);
    }
  }

  /** A lower bound of a list and of `x` bounds every element of the list with `x` inserted. */
  lemma InsertStringBound(xs: seq<string>, x: string, h: string)
    requires forall k :: 0 <= k < |xs| ==> StrLe(h, xs[k])
    requires StrLe(h, x)
    ensures forall k :: 0 <= k < |InsertString(xs, x)| ==> StrLe(h, InsertString(xs, x)[k])
  {
    var ins := InsertString(xs, x);
    InsertStringMultiset(xs, x);
    forall k | 0 <= k < |ins| ensures StrLe(h, ins[k]) {
      assert ins[k] in multiset(ins);
      if ins[k] != x {
        assert ins[k] in multiset(xs);
        var m :| 0 <= m < |xs| && xs[m] == ins[k];
      }
    }
  }

  lemma {:induction false} InsertStringSorted(xs: seq<string>, x: string)
    requires SortedStrings(xs)
    ensures SortedStrings(InsertString(xs, x))
  {
    if xs == [] {
    } else if StrLe(x, xs[0]) {
      HeadIsLeast(xs, x);
      ConsSorted(x, xs);
    } else {
      var tail := xs[1..];
      SortedTail(xs);
      InsertStringSorted(tail, x);
      StrLeTotal(x, xs[0]);
      StrLeReflexive(xs[0]);
      HeadIsLeast(xs, xs[0]);
      assert forall k :: 0 <= k < |tail| ==> tail[k] == xs[k + 1];
      InsertStringBound(tail, x, xs[0]);
      ConsSorted(xs[0], InsertString(tail, x));
    }
  }

  /** `sorted` returns its input in ascending order. */
  lemma {:induction false} SortStringsSorted(xs: seq<string>)
    ensures SortedStrings(SortStrings(xs))
  {
    if xs != [] {
      SortStringsSorted(xs[1..]);
      InsertStringSorted(SortStrings(xs[1..]), xs[0]);
    }
  }

  /** `sorted` keeps every string, each as often as before. */
  lemma {:induction false} SortStringsPermutation(xs: seq<string>)
    ensures multiset(SortStrings(xs)) == multiset(xs)
  {
    if xs != [] {
      SortStringsPermutation(xs[1..]);
      InsertStringMultiset(SortStrings(xs[1..]), xs[0]);
      assert xs == [xs[0]] + xs[1..];
    }
  }

  /** Two ascending orderings of the same strings are the same list. */
  lemma {:induction false} SortedStringsUnique(a: seq<string>, b: seq<string>)
    requires SortedStrings(a) && SortedStrings(b) && multiset(a) == multiset(b)
    ensures a == b
    decreases |a|
  {
    if a == [] {
      assert |multiset(b)| == 0;
    } else {
      assert b != [] by {
        assert a[0] in multiset(b);
      }
      SameHead(a, b);
      MultisetTail(a);
      MultisetTail(b);
      SortedTail(a);
      SortedTail(b);
      SortedStringsUnique(a[1..], b[1..]);
      ConsTail(a);
      ConsTail(b);
    }
  }

  /** Two nonempty ascending orderings of the same strings start alike. */
  lemma SameHead(a: seq<string>, b: seq<string>)
    requires a != [] && b != []
    requires SortedStrings(a) && SortedStrings(b) && multiset(a) == multiset(b)
    ensures a[0] == b[0]
  {
    assert a[0] in multiset(b);
    var i :| 0 <= i < |b| && b[i] == a[0];
    assert b[0] in multiset(a);
    var j :| 0 <= j < |a| && a[j] == b[0];
    if a[0] != b[0] {
      assert StrLe(b[0], b[i]) && StrLe(a[0], a[j]);
      StrLeAntisymmetric(a[0], b[0]);
    }
  }

  /** The tail of an ascending list is ascending. */
  lemma SortedTail(a: seq<string>)
    requires a != [] && SortedStrings(a)
    ensures SortedStrings(a[1..])
  {
    forall i, j | 0 <= i < j < |a[1..]| ensures StrLe(a[1..][i], a[1..][j]) {
      assert a[1..][i] == a[i + 1] && a[1..][j] == a[j + 1];
    }
  }

  /** The argument of one entry: `left_remove(path, og_path).strip("/")`. */
  function Argument(c: Content, og: string): (r: string)
    ensures SlashFree(r)
  {
    Strip(LeftRemove(c.path, og))
  }

  /** `map(argument, filter(is FILE, cs))`. */
  function FileArguments(cs: seq<Content>, og: string): seq<string>
  {
    if cs == [] then []
    else FileArguments(cs[..|cs| - 1], og) + (if cs[|cs| - 1].kind == File then [Argument(cs[|cs| - 1], og)] else [])
  }

  /** `" ".join(xs)`. */
  function JoinSpace(xs: seq<string>): string
  {
    if xs == [] then ""
    else if |xs| == 1 then xs[0]
    else JoinSpace(xs[..|xs| - 1]) + " " + xs[|xs| - 1]
  }

  /**
   * The pieces between single spaces, always at least one, as Python's
   * `s.split(" ")` gives them. generate.py does not split the list itself:
   * the shell that runs the protoc command splits it at runs of blanks and
   * drops empty words, so this is the inverse of the join only, and says
   * nothing about an empty argument.
   */
  function SplitSpace(s: string): (r: seq<string>)
    ensures |r| >= 1
  {
    if s == [] then [""]
    else
      var init := SplitSpace(s[..|s| - 1]);
      if s[|s| - 1] == ' ' then init + [""]
      else init[..|init| - 1] + [init[|init| - 1] + [s[|s| - 1]]]
  }

  /** The protoc argument list of `main`. */
  function ProtocPaths(cs: seq<Content>, og: string): string
  {
    JoinSpace(SortStrings(FileArguments(cs, og)))
  }

  /** Every FILE entry's argument is listed. */
  lemma {:induction false} FileArgumentsHas(cs: seq<Content>, og: string, k: nat)
    requires k < |cs| && cs[k].kind == File
    ensures Argument(cs[k], og) in FileArguments(cs, og)
  {
    if k < |cs| - 1 {
      FileArgumentsHas(cs[..|cs| - 1], og, k);
    }
  }

  /** Every listed path is the argument of some FILE entry. */
  lemma {:induction false} FileArgumentsFrom(cs: seq<Content>, og: string, p: string) returns (k: nat)
    requires p in FileArguments(cs, og)
    ensures k < |cs| && cs[k].kind == File && Argument(cs[k], og) == p
  {
    var init := cs[..|cs| - 1];
    if p in FileArguments(init, og) {
      k := FileArgumentsFrom(init, og, p);
    } else {
      k := |cs| - 1;
    }
  }

  /** A path is listed exactly when some FILE entry gives it; DIR entries give none. */
  lemma FileArgumentsMembers(cs: seq<Content>, og: string, p: string)
    ensures p in FileArguments(cs, og) <==>
            exists k :: 0 <= k < |cs| && cs[k].kind == File && Argument(cs[k], og) == p
  {
    if p in FileArguments(cs, og) {
      var k := FileArgumentsFrom(cs, og, p);
    }
    if exists k :: 0 <= k < |cs| && cs[k].kind == File && Argument(cs[k], og) == p {
      var k :| 0 <= k < |cs| && cs[k].kind == File && Argument(cs[k], og) == p;
      FileArgumentsHas(cs, og, k);
    }
  }

  /** The positions of the FILE entries of `cs`. */
  function FileIndices(cs: seq<Content>): set<nat>
  {
    set k: nat | k < |cs| && cs[k].kind == File
  }

  lemma FileIndicesSnoc(cs: seq<Content>)
    requires cs != []
    ensures FileIndices(cs) == FileIndices(cs[..|cs| - 1]) + (if cs[|cs| - 1].kind == File then {|cs| - 1} else {})
  {
    var init := cs[..|cs| - 1];
    forall k | k in FileIndices(cs) && k < |init| ensures k in FileIndices(init) {
      assert init[k] == cs[k];
    }
    forall k | k in FileIndices(init) ensures k in FileIndices(cs) {
      assert init[k] == cs[k];
    }
  }

  /** There is one argument per FILE entry. */
  lemma {:induction false} FileArgumentsCount(cs: seq<Content>, og: string)
    ensures |FileArguments(cs, og)| == |FileIndices(cs)|
  {
    if cs != [] {
      var init := cs[..|cs| - 1];
      FileArgumentsCount(init, og);
      FileIndicesSnoc(cs);
      assert |cs| - 1 !in FileIndices(init);
    }
  }

  lemma {:induction false} JoinSpaceNoSpace(xs: seq<string>)
    requires forall i :: 0 <= i < |xs| ==> ' ' !in xs[i]
    requires xs != []
    ensures SplitSpace(JoinSpace(xs)) == xs
    decreases |xs|
  {
    if |xs| == 1 {
      SplitNoSpace(xs[0]);
    } else {
      var init := xs[..|xs| - 1];
      var last := xs[|xs| - 1];
      JoinSpaceNoSpace(init);
      var j := JoinSpace(init);
      SplitTrailingSpace(j);
      SplitAppendWord(j + " ", last);
      SnocEmptyWord(init, last);
      LastSplit(xs);
    }
  }

  /** A trailing space opens a new, empty piece. */
  lemma SplitTrailingSpace(s: string)
    ensures SplitSpace(s + " ") == SplitSpace(s) + [""]
  {
    assert (s + " ")[..|s|] == s;
  }

  lemma SnocEmptyWord(init: seq<string>, w: string)
    ensures (init + [""])[..|init + [""]| - 1] + [(init + [""])[|init + [""]| - 1] + w] == init + [w]
  {
    assert (init + [""])[..|init|] == init;
    assert "" + w == w;
  }

  /** A string without spaces splits into itself. */
  lemma {:induction false} SplitNoSpace(w: string)
    requires ' ' !in w
    ensures SplitSpace(w) == [w]
  {
    if w != [] {
      var init := w[..|w| - 1];
      SplitNoSpace(init);
      assert init + [w[|w| - 1]] == w;
    }
  }

  /** Appending a word without spaces extends the last piece of the split. */
  lemma {:induction false} SplitAppendWord(s: string, w: string)
    requires ' ' !in w
    ensures SplitSpace(s + w) ==
            SplitSpace(s)[..|SplitSpace(s)| - 1] + [SplitSpace(s)[|SplitSpace(s)| - 1] + w]
    decreases |w|
  {
    if w == [] {
      assert s + w == s;
      assert SplitSpace(s)[|SplitSpace(s)| - 1] + w == SplitSpace(s)[|SplitSpace(s)| - 1];
      assert SplitSpace(s)[..|SplitSpace(s)| - 1] + [SplitSpace(s)[|SplitSpace(s)| - 1]] == SplitSpace(s);
    } else {
      var w', c := w[..|w| - 1], w[|w| - 1];
      assert ' ' !in w' && c != ' ';
      SplitAppendWord(s, w');
      var a := SplitSpace(s);
      var prev := SplitSpace(s + w');
      assert (s + w)[..|s + w| - 1] == s + w';
      assert (s + w)[|s + w| - 1] == c;
      assert SplitSpace(s + w) == prev[..|prev| - 1] + [prev[|prev| - 1] + [c]];
      assert prev[..|prev| - 1] == a[..|a| - 1];
      assert prev[|prev| - 1] + [c] == a[|a| - 1] + w' + [c];
      LastSplit(w);
      Assoc(a[|a| - 1], w', [c]);
    }
  }

  /**
   * The argument list names every FILE entry's argument and nothing else,
   * each as often as there are FILE entries giving it, in ascending order;
   * when there is at least one and none contains a space, splitting the
   * list at single spaces gives back exactly that sorted list. The shell
   * that receives the command drops empty words, so an empty argument
   * (a FILE entry whose path is `og_path` itself) reaches protoc as no
   * argument at all; this lemma does not cover that.
   */
  lemma ProtocPathsSpec(cs: seq<Content>, og: string)
    ensures SortedStrings(SortStrings(FileArguments(cs, og)))
    ensures multiset(SortStrings(FileArguments(cs, og))) == multiset(FileArguments(cs, og))
    ensures FileArguments(cs, og) != [] && (forall p :: p in FileArguments(cs, og) ==> ' ' !in p) ==>
              SplitSpace(ProtocPaths(cs, og)) == SortStrings(FileArguments(cs, og))
  {
    var xs := FileArguments(cs, og);
    SortStringsSorted(xs);
    SortStringsPermutation(xs);
    var ys := SortStrings(xs);
    if xs != [] && (forall p :: p in xs ==> ' ' !in p) {
      forall i | 0 <= i < |ys| ensures ' ' !in ys[i] {
        assert ys[i] in multiset(ys);
      }
      assert ys != [] by {
        assert xs[0] in multiset(xs);
      }
      JoinSpaceNoSpace(ys);
    }
  }

  /** Membership in the sorted argument list is membership in the unsorted one. */
  lemma SortedArgumentsMembers(xs: seq<string>, p: string)
    ensures p in SortStrings(xs) <==> p in xs
  {
    SortStringsPermutation(xs);
    assert p in SortStrings(xs) <==> p in multiset(SortStrings(xs));
  }

  /** Every argument comes from a file below the root. */
  lemma ArgumentFromTree(l: Listing, cdn: Cdn, ghr: GHRepo, og: string, p: string)
    requires Walk(l, cdn, ghr).Some?
    requires p in FileArguments(Walk(l, cdn, ghr).value, og)
    ensures exists q :: Content(q, File, None) in Entries(l) && Strip(LeftRemove(q, og)) == p
  {
    var r := Walk(l, cdn, ghr).value;
    var k := FileArgumentsFrom(r, og, p);
    WalkFiles(l, cdn, ghr, r[k].path);
    assert Content(r[k].path, File, None) in Entries(l);
  }

  /** Every file below the root gives an argument. */
  lemma TreeGivesArgument(l: Listing, cdn: Cdn, ghr: GHRepo, og: string, q: string)
    requires Walk(l, cdn, ghr).Some?
    requires Content(q, File, None) in Entries(l)
    ensures Strip(LeftRemove(q, og)) in FileArguments(Walk(l, cdn, ghr).value, og)
  {
    var r := Walk(l, cdn, ghr).value;
    WalkFiles(l, cdn, ghr, q);
    var k :| 0 <= k < |r| && r[k].kind == File && r[k].path == q;
    FileArgumentsHas(r, og, k);
  }

  /**
   * On the result of the walk, the argument list names exactly the files
   * below the root directory, each relocated against `og_path`.
   */
  lemma ProtocCoversTree(l: Listing, cdn: Cdn, ghr: GHRepo, og: string, p: string)
    requires Walk(l, cdn, ghr).Some?
    ensures p in SortStrings(FileArguments(Walk(l, cdn, ghr).value, og)) <==>
            exists q :: Content(q, File, None) in Entries(l) && Strip(LeftRemove(q, og)) == p
  {
    var xs := FileArguments(Walk(l, cdn, ghr).value, og);
    SortedArgumentsMembers(xs, p);
    if p in xs {
      ArgumentFromTree(l, cdn, ghr, og, p);
    }
    if exists q :: Content(q, File, None) in Entries(l) && Strip(LeftRemove(q, og)) == p {
      var q :| Content(q, File, None) in Entries(l) && Strip(LeftRemove(q, og)) == p;
      TreeGivesArgument(l, cdn, ghr, og, q);
    }
  }
}
