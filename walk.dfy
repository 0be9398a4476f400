/**
 * What `get_content` computes, as functions over the remote tree: the
 * listing of the root, the flattened results of every sub-directory in
 * listing order, and then one download for every FILE entry of that
 * extended list (sub-results included, so their files are fetched again).
 * Any failed listing or download makes the whole walk fail.
 */
module TreeWalk {
  import opened Wrappers
  import opened Model
  import opened Urls

  /**
   * The raw-content service: the body of whatever answer the address gets,
   * error statuses included, or `None` when the request fails in transport.
   */
  type Cdn = string -> Option<Bytes>

  /** `download_content`: a FILE record carrying the bytes served for `path`. */
  function DownloadContent(cdn: Cdn, ghr: GHRepo, path: string): (r: Option<Content>)
    ensures r.Some? <==> cdn(DownloadUrl(ghr, path)).Some?
    ensures r.Some? ==> r.value.path == path && r.value.kind == File && r.value.content.Some?
    ensures r.Some? ==> r.value.content == cdn(DownloadUrl(ghr, path))
  {
    match cdn(DownloadUrl(ghr, path))
    case None => None
    case Some(b) => Some(Content(path, File, Some(b)))
  }

  /**
   * `GHContent.get_content` on a value: a FILE entry receives the bytes
   * downloaded for its own path; a DIR entry is left exactly as it is.
   */
  function Resolve(c: Content, cdn: Cdn, ghr: GHRepo): (r: Option<Content>)
    ensures c.kind == Dir ==> r == Some(c)
    ensures c.kind == File ==> (r.Some? <==> cdn(DownloadUrl(ghr, c.path)).Some?)
    ensures r.Some? ==> r.value.path == c.path && r.value.kind == c.kind
    ensures r.Some? && c.kind == File ==> r.value.content == cdn(DownloadUrl(ghr, c.path))
  {
    if c.kind == File then
      match DownloadContent(cdn, ghr, c.path)
      case None => None
      case Some(d) => Some(c.(content := d.content))
    else Some(c)
  }

  /**
   * The state in which the walk hands an entry over: a DIR entry carries
   * no content, a FILE entry carries the bytes served for its own path.
   */
  predicate Resolved(c: Content, cdn: Cdn, ghr: GHRepo)
  {
    if c.kind == Dir then c.content.None?
    else c.content.Some? && c.content == cdn(DownloadUrl(ghr, c.path))
  }

  /**
   * The second `gather`: every entry of `xs` resolved, in order; it fails
   * when any single download fails.
   */
  function FetchAll(xs: seq<Content>, cdn: Cdn, ghr: GHRepo): (r: Option<seq<Content>>)
    ensures r.Some? <==> forall i :: 0 <= i < |xs| ==> Resolve(xs[i], cdn, ghr).Some?
    ensures r.Some? ==> |r.value| == |xs|
    ensures r.Some? ==> forall i :: 0 <= i < |xs| ==> Resolve(xs[i], cdn, ghr) == Some(r.value[i])
  {
    if xs == [] then Some([])
    else
      match FetchAll(xs[..|xs| - 1], cdn, ghr)
      case None => None
      case Some(ys) =>
        match Resolve(xs[|xs| - 1], cdn, ghr)
        case None => None
        case Some(y) => Some(ys + [y])
  }

  /** The entries of a listing as `validate_python` builds them: path and kind, no content yet. */
  function Describe(es: seq<Remote>): seq<Content>
  {
    seq(|es|, i requires 0 <= i < |es| => Content(es[i].path, KindOf(es[i]), None))
  }

  /** `get_content` for a directory whose listing request returns `l`. */
  function Walk(l: Listing, cdn: Cdn, ghr: GHRepo): Option<seq<Content>>
    decreases l
  {
    match l
    case Unlisted => None
    case Listed(es) =>
      match WalkDirs(es, cdn, ghr)
      case None => None
      case Some(subs) => FetchAll(Describe(es) + subs, cdn, ghr)
  }

  /**
   * The first `gather` and the `extend` loop: the walks of the DIR entries
   * of `es`, concatenated in listing order.
   */
  function WalkDirs(es: seq<Remote>, cdn: Cdn, ghr: GHRepo): Option<seq<Content>>
    decreases es
  {
    if es == [] then Some([])
    else
      match WalkDirs(es[..|es| - 1], cdn, ghr)
      case None => None
      case Some(acc) =>
        var e := es[|es| - 1];
        if e.RemoteDir? then
          match Walk(e.listing, cdn, ghr)
          case None => None
          case Some(sub) => Some(acc + sub)
        else Some(acc)
  }

  // ---------------------------------------------------------------------
  // Reference definitions
  // ---------------------------------------------------------------------

  /** Every entry below a listing, in pre-order, as the listings describe it. */
  function Entries(l: Listing): seq<Content>
    decreases l
  {
    match l
    case Unlisted => []
    case Listed(es) => EntriesOf(es)
  }

  /** Every entry of `es` followed, for a directory, by everything below it. */
  function EntriesOf(es: seq<Remote>): seq<Content>
    decreases es
  {
    if es == [] then []
    else
      var e := es[|es| - 1];
      EntriesOf(es[..|es| - 1]) + [Content(e.path, KindOf(e), None)]
        + (if e.RemoteDir? then Entries(e.listing) else [])
  }

  /**
   * Every listing request under the root succeeds and every file under it
   * can be downloaded.
   */
  predicate Fetchable(l: Listing, cdn: Cdn, ghr: GHRepo)
    decreases l
  {
    l.Listed? && forall i :: 0 <= i < |l.entries| ==> EntryFetchable(l.entries[i], cdn, ghr)
  }

  predicate EntryFetchable(e: Remote, cdn: Cdn, ghr: GHRepo)
    decreases e
  {
    match e
    case RemoteFile(p) => cdn(DownloadUrl(ghr, p)).Some?
    case RemoteDir(_, l) => Fetchable(l, cdn, ghr)
  }

  /** The record of an entry without its content. */
  function Bare(xs: seq<Content>): (r: seq<Content>)
    ensures |r| == |xs|
  {
    seq(|xs|, i requires 0 <= i < |xs| => xs[i].(content := None))
  }

  /** No two records share a path. */
  predicate DistinctPaths(xs: seq<Content>)
  {
    forall i, j :: 0 <= i < j < |xs| ==> xs[i].path != xs[j].path
  }

  // ---------------------------------------------------------------------
  // Properties of the walk
  // ---------------------------------------------------------------------

  /** Resolving yields a resolved record, unless a DIR record already carried content. */
  lemma ResolveResolves(c: Content, d: Content, cdn: Cdn, ghr: GHRepo)
    requires Resolve(c, cdn, ghr) == Some(d)
    requires c.kind == Dir ==> c.content.None?
    ensures Resolved(d, cdn, ghr)
  {
  }

  /** A list every record of which is its own resolution is fetched unchanged. */
  lemma FetchAllFixed(xs: seq<Content>, cdn: Cdn, ghr: GHRepo)
    requires forall i :: 0 <= i < |xs| ==> Resolve(xs[i], cdn, ghr) == Some(xs[i])
    ensures FetchAll(xs, cdn, ghr) == Some(xs)
  {
    var r := FetchAll(xs, cdn, ghr);
    assert r.Some?;
    assert r.value == xs;
  }

  /**
   * Re-fetching is harmless: resolving a list a second time, as the
   * second `gather` does for the entries that came from sub-directories,
   * gives back the same list.
   */
  lemma RefetchIdempotent(xs: seq<Content>, ys: seq<Content>, cdn: Cdn, ghr: GHRepo)
    requires FetchAll(xs, cdn, ghr) == Some(ys)
    ensures FetchAll(ys, cdn, ghr) == Some(ys)
  {
    forall i | 0 <= i < |ys| ensures Resolve(ys[i], cdn, ghr) == Some(ys[i]) {
      ResolveTwice(xs[i], ys[i], cdn, ghr);
    }
    FetchAllFixed(ys, cdn, ghr);
  }

  /** Resolving a resolution changes nothing. */
  lemma ResolveTwice(c: Content, d: Content, cdn: Cdn, ghr: GHRepo)
    requires Resolve(c, cdn, ghr) == Some(d)
    ensures Resolve(d, cdn, ghr) == Some(d)
  {
  }

  /**
   * Fetching a list whose DIR records carry no content yields resolved
   * records only.
   */
  lemma FetchAllResolves(xs: seq<Content>, cdn: Cdn, ghr: GHRepo)
    requires FetchAll(xs, cdn, ghr).Some?
    requires forall i :: 0 <= i < |xs| && xs[i].kind == Dir ==> xs[i].content.None?
    ensures forall c :: c in FetchAll(xs, cdn, ghr).value ==> Resolved(c, cdn, ghr)
  {
    var r := FetchAll(xs, cdn, ghr).value;
    forall c | c in r ensures Resolved(c, cdn, ghr) {
      var i :| 0 <= i < |r| && r[i] == c;
      ResolveResolves(xs[i], c, cdn, ghr);
    }
  }

  /** The descriptors of a listing followed by resolved records: no DIR record carries content. */
  lemma DirsBare(es: seq<Remote>, subs: seq<Content>, cdn: Cdn, ghr: GHRepo)
    requires forall c :: c in subs ==> Resolved(c, cdn, ghr)
    ensures forall i :: 0 <= i < |Describe(es) + subs| && (Describe(es) + subs)[i].kind == Dir ==>
              (Describe(es) + subs)[i].content.None?
  {
    var xs := Describe(es) + subs;
    forall i | 0 <= i < |xs| && xs[i].kind == Dir ensures xs[i].content.None? {
      if i >= |es| {
        assert xs[i] == subs[i - |es|];
        assert Resolved(subs[i - |es|], cdn, ghr);
      }
    }
  }

  /**
   * Everything the walk returns is resolved: DIR entries carry no content,
   * FILE entries the bytes served for their own path.
   */
  lemma {:induction false} WalkResolved(l: Listing, cdn: Cdn, ghr: GHRepo)
    requires Walk(l, cdn, ghr).Some?
    ensures forall c :: c in Walk(l, cdn, ghr).value ==> Resolved(c, cdn, ghr)
    decreases l, 1
  {
    var es := l.entries;
    var subs := WalkDirs(es, cdn, ghr).value;
    WalkDirsResolved(es, cdn, ghr);
    DirsBare(es, subs, cdn, ghr);
    FetchAllResolves(Describe(es) + subs, cdn, ghr);
  }

  lemma {:induction false} WalkDirsResolved(es: seq<Remote>, cdn: Cdn, ghr: GHRepo)
    requires WalkDirs(es, cdn, ghr).Some?
    ensures forall c :: c in WalkDirs(es, cdn, ghr).value ==> Resolved(c, cdn, ghr)
    decreases es, 0
  {
    if es != [] {
      var e := es[|es| - 1];
      WalkDirsResolved(es[..|es| - 1], cdn, ghr);
      if e.RemoteDir? {
        WalkResolved(e.listing, cdn, ghr);
      }
    }
  }

  /**
   * The order of the result: the root listing in listing order (each entry
   * resolved), followed by the results of the sub-directories, which the
   * second round of downloads leaves unchanged.
   */
  lemma WalkOrder(es: seq<Remote>, cdn: Cdn, ghr: GHRepo)
    requires Walk(Listed(es), cdn, ghr).Some?
    ensures WalkDirs(es, cdn, ghr).Some? && FetchAll(Describe(es), cdn, ghr).Some?
    ensures Walk(Listed(es), cdn, ghr).value
         == FetchAll(Describe(es), cdn, ghr).value + WalkDirs(es, cdn, ghr).value
  {
    var subs := WalkDirs(es, cdn, ghr).value;
    var xs := Describe(es) + subs;
    var r := Walk(Listed(es), cdn, ghr).value;
    var top := FetchAll(Describe(es), cdn, ghr);
    WalkDirsResolved(es, cdn, ghr);
    assert top.Some? by {
      forall i | 0 <= i < |es| ensures Resolve(Describe(es)[i], cdn, ghr).Some? {
        assert xs[i] == Describe(es)[i];
      }
    }
    forall i | 0 <= i < |r| ensures r[i] == (top.value + subs)[i] {
      assert Resolve(xs[i], cdn, ghr) == Some(r[i]);
      if i >= |es| {
        assert xs[i] == subs[i - |es|];
        assert subs[i - |es|] in subs;
      } else {
        assert xs[i] == Describe(es)[i];
      }
    }
  }

  /** The walk succeeds exactly when every listing and every download under the root succeeds. */
  lemma {:induction false} WalkSucceeds(l: Listing, cdn: Cdn, ghr: GHRepo)
    ensures Walk(l, cdn, ghr).Some? <==> Fetchable(l, cdn, ghr)
    decreases l, 1
  {
    if l.Listed? {
      var es := l.entries;
      WalkDirsSucceeds(es, cdn, ghr);
      if WalkDirs(es, cdn, ghr).Some? {
        var subs := WalkDirs(es, cdn, ghr).value;
        var xs := Describe(es) + subs;
        WalkDirsResolved(es, cdn, ghr);
        if Fetchable(l, cdn, ghr) {
          forall i | 0 <= i < |xs| ensures Resolve(xs[i], cdn, ghr).Some? {
            if i < |es| {
              assert EntryFetchable(es[i], cdn, ghr);
            } else {
              assert xs[i] == subs[i - |es|];
              assert Resolved(subs[i - |es|], cdn, ghr);
            }
          }
        } else if Walk(l, cdn, ghr).Some? {
          forall i | 0 <= i < |es| ensures EntryFetchable(es[i], cdn, ghr) {
            assert xs[i] == Describe(es)[i];
            assert Resolve(xs[i], cdn, ghr).Some?;
          }
          assert false;
        }
      }
    }
  }

  lemma {:induction false} WalkDirsSucceeds(es: seq<Remote>, cdn: Cdn, ghr: GHRepo)
    ensures WalkDirs(es, cdn, ghr).Some? <==>
            forall i :: 0 <= i < |es| && es[i].RemoteDir? ==> Fetchable(es[i].listing, cdn, ghr)
    decreases es, 0
  {
    if es != [] {
      var e := es[|es| - 1];
      var init := es[..|es| - 1];
      WalkDirsSucceeds(init, cdn, ghr);
      if e.RemoteDir? {
        WalkSucceeds(e.listing, cdn, ghr);
      }
      assert forall i :: 0 <= i < |init| ==> init[i] == es[i];
    }
  }

  /** Describing a listing describes its last entry after the others. */
  lemma DescribeSnoc(es: seq<Remote>)
    requires es != []
    ensures Describe(es) == Describe(es[..|es| - 1])
                            + [Content(es[|es| - 1].path, KindOf(es[|es| - 1]), None)]
  {
  }

  lemma BareAppend(a: seq<Content>, b: seq<Content>)
    ensures Bare(a + b) == Bare(a) + Bare(b)
  {
  }

  /** The descriptors of `es` followed by everything below its directories, in some order. */
  lemma {:induction false} EntriesOfSplit(es: seq<Remote>, cdn: Cdn, ghr: GHRepo)
    requires WalkDirs(es, cdn, ghr).Some?
    ensures multiset(EntriesOf(es)) == multiset(Describe(es)) + multiset(Bare(WalkDirs(es, cdn, ghr).value))
    decreases es, 1
  {
    if es != [] {
      var e := es[|es| - 1];
      var d := Content(e.path, KindOf(e), None);
      var init := es[..|es| - 1];
      var acc := WalkDirs(init, cdn, ghr).value;
      var below := if e.RemoteDir? then Entries(e.listing) else [];
      calc {
        multiset(EntriesOf(es));
        multiset(EntriesOf(init) + [d] + below);
        multiset(EntriesOf(init)) + multiset{d} + multiset(below);
        { EntriesOfSplit(init, cdn, ghr); }
        multiset(Describe(init)) + multiset(Bare(acc)) + multiset{d} + multiset(below);
        { DescribeSnoc(es); }
        multiset(Describe(es)) + (multiset(Bare(acc)) + multiset(below));
        { WalkDirsBare(es, cdn, ghr); }
        multiset(Describe(es)) + multiset(Bare(WalkDirs(es, cdn, ghr).value));
      }
    }
  }

  /** The walks of a listing's directories, without content, are everything below them. */
  lemma {:induction false} WalkDirsBare(es: seq<Remote>, cdn: Cdn, ghr: GHRepo)
    requires es != [] && WalkDirs(es, cdn, ghr).Some?
    ensures multiset(Bare(WalkDirs(es, cdn, ghr).value))
         == multiset(Bare(WalkDirs(es[..|es| - 1], cdn, ghr).value))
            + multiset(if es[|es| - 1].RemoteDir? then Entries(es[|es| - 1].listing) else [])
    decreases es, 0
  {
    var e := es[|es| - 1];
    var acc := WalkDirs(es[..|es| - 1], cdn, ghr).value;
    if e.RemoteDir? {
      var sub := Walk(e.listing, cdn, ghr).value;
      WalkComplete(e.listing, cdn, ghr);
      assert WalkDirs(es, cdn, ghr).value == acc + sub;
      BareAppend(acc, sub);
    }
  }

  /**
   * Completeness: apart from content and order, the walk returns exactly
   * the entries below the root, each as often as the listings report it.
   */
  lemma {:induction false} WalkComplete(l: Listing, cdn: Cdn, ghr: GHRepo)
    requires Walk(l, cdn, ghr).Some?
    ensures multiset(Bare(Walk(l, cdn, ghr).value)) == multiset(Entries(l))
    decreases l, 1
  {
    var es := l.entries;
    var subs := WalkDirs(es, cdn, ghr).value;
    var xs := Describe(es) + subs;
    var r := Walk(l, cdn, ghr).value;
    EntriesOfSplit(es, cdn, ghr);
    BareFetched(xs, r, cdn, ghr);
    BareAppend(Describe(es), subs);
    BareDescribe(es);
  }

  /** Fetching changes no record apart from its content. */
  lemma BareFetched(xs: seq<Content>, ys: seq<Content>, cdn: Cdn, ghr: GHRepo)
    requires FetchAll(xs, cdn, ghr) == Some(ys)
    ensures Bare(ys) == Bare(xs)
  {
    forall i | 0 <= i < |ys| ensures Bare(ys)[i] == Bare(xs)[i] {
      assert Resolve(xs[i], cdn, ghr) == Some(ys[i]);
    }
  }

  /** The descriptors of a listing already carry no content. */
  lemma BareDescribe(es: seq<Remote>)
    ensures Bare(Describe(es)) == Describe(es)
  {
  }

  /** The FILE entries of the walk's result are exactly the files below the root. */
  lemma WalkFiles(l: Listing, cdn: Cdn, ghr: GHRepo, p: string)
    requires Walk(l, cdn, ghr).Some?
    ensures (exists i :: 0 <= i < |Walk(l, cdn, ghr).value|
                       && Walk(l, cdn, ghr).value[i].kind == File
                       && Walk(l, cdn, ghr).value[i].path == p)
            <==> Content(p, File, None) in Entries(l)
  {
    var r := Walk(l, cdn, ghr).value;
    WalkComplete(l, cdn, ghr);
    if exists i :: 0 <= i < |r| && r[i].kind == File && r[i].path == p {
      var i :| 0 <= i < |r| && r[i].kind == File && r[i].path == p;
      assert Bare(r)[i] == Content(p, File, None);
      assert Content(p, File, None) in multiset(Bare(r));
    }
    if Content(p, File, None) in Entries(l) {
      assert Content(p, File, None) in multiset(Bare(r));
      var i :| 0 <= i < |r| && Bare(r)[i] == Content(p, File, None);
    }
  }

  /** A sequence without repeated paths has no element twice. */
  lemma {:induction false} DistinctPathsCount(xs: seq<Content>, c: Content)
    requires DistinctPaths(xs)
    ensures multiset(xs)[c] <= 1
  {
    if xs != [] {
      var init := xs[..|xs| - 1];
      assert xs == init + [xs[|xs| - 1]];
      DistinctPathsCount(init, c);
    }
  }

  /** A record that occurs at two positions occurs twice in the multiset. */
  lemma TwiceCounted(xs: seq<Content>, i: nat, j: nat)
    requires i < j < |xs| && xs[i] == xs[j]
    ensures multiset(xs)[xs[i]] >= 2
  {
    assert xs == xs[..i] + [xs[i]] + xs[i + 1..j] + [xs[j]] + xs[j + 1..];
  }

  /**
   * Uniqueness: when the listings under the root never report the same
   * path twice, the walk's result has no repeated path either.
   */
  lemma WalkUnique(l: Listing, cdn: Cdn, ghr: GHRepo)
    requires Walk(l, cdn, ghr).Some?
    requires DistinctPaths(Entries(l))
    ensures DistinctPaths(Walk(l, cdn, ghr).value)
  {
    var r := Walk(l, cdn, ghr).value;
    var b := Bare(r);
    var es := Entries(l);
    WalkComplete(l, cdn, ghr);
    forall i, j | 0 <= i < j < |r| ensures r[i].path != r[j].path {
      if r[i].path == r[j].path {
        assert b[i] in multiset(es) && b[j] in multiset(es);
        if b[i] == b[j] {
          TwiceCounted(b, i, j);
          DistinctPathsCount(es, b[i]);
        }
      }
    }
  }
}
