/**
 * `get_content` as generate.py runs it: the listing becomes one
 * `GHContent` object per entry, every DIR entry is walked recursively, the
 * sub-results are appended to the list in order, and then every object of
 * the extended list fills in its own content. Each `gather` is run as the
 * in-order sequence of its tasks, which is the order in which it returns
 * their results.
 */
module Fetcher {
  import opened Wrappers
  import opened Model
  import opened Urls
  import opened TreeWalk
  import opened Sequences

  /** `GHContent`: a listing entry whose bytes are attached after the listing. */
  class GHContent {
    const path: string
    const kind: Kind
    var content: Option<Bytes>

    constructor (path: string, kind: Kind)
      ensures this.path == path && this.kind == kind && content == None
    {
      this.path := path;
      this.kind := kind;
      content := None;
    }

    /** The record this object currently holds. */
    function Value(): Content
      reads this
    {
      Content(path, kind, content)
    }

    /**
     * `GHContent.get_content`: a FILE entry stores the bytes downloaded
     * for its own path; a DIR entry is left alone. A failed download
     * leaves the entry as it was and reports the failure.
     */
    method GetContent(cdn: Cdn, ghr: GHRepo) returns (ok: bool)
      modifies this
      ensures ok <==> Resolve(old(Value()), cdn, ghr).Some?
      ensures ok ==> Resolve(old(Value()), cdn, ghr) == Some(Value())
      ensures !ok ==> content == old(content)
    {
      if kind == File {
        var d := DownloadContent(cdn, ghr, path);
        if d.None? {
          return false;
        }
        content := d.value.content;
      }
      return true;
    }
  }

  /** The records held by a list of objects. */
  ghost function Values(objs: seq<GHContent>): (vs: seq<Content>)
    reads objs
    ensures |vs| == |objs|
  {
    if objs == [] then [] else Values(objs[..|objs| - 1]) + [objs[|objs| - 1].Value()]
  }

  /** The `i`th record is the one the `i`th object holds. */
  lemma {:induction false} ValuesIndex(objs: seq<GHContent>)
    ensures forall i :: 0 <= i < |objs| ==> Values(objs)[i] == objs[i].Value()
  {
    if objs != [] {
      ValuesIndex(objs[..|objs| - 1]);
    }
  }

  /** No object occurs twice in the list. */
  predicate Distinct(objs: seq<GHContent>)
  {
    forall i, j :: 0 <= i < j < |objs| ==> objs[i] != objs[j]
  }

  /** The lists of `rs` one after the other. */
  function Flatten(rs: seq<seq<GHContent>>): seq<GHContent>
  {
    if rs == [] then [] else Flatten(rs[..|rs| - 1]) + rs[|rs| - 1]
  }

  lemma DistinctAppend(a: seq<GHContent>, b: seq<GHContent>)
    requires Distinct(a) && Distinct(b)
    requires forall o :: o in b ==> o !in a
    ensures Distinct(a + b)
  {
    forall i, j | 0 <= i < j < |a + b| ensures (a + b)[i] != (a + b)[j] {
      if i < |a| && j >= |a| {
        assert (a + b)[j] in b;
      }
    }
  }

  lemma ValuesAppend(a: seq<GHContent>, b: seq<GHContent>)
    ensures Values(a + b) == Values(a) + Values(b)
  {
    ValuesIndex(a);
    ValuesIndex(b);
    ValuesIndex(a + b);
  }

  /** Joining two lists of distinct objects that share none: still distinct, and the values join too. */
  lemma DisjointAppend(flat: seq<GHContent>, sub: seq<GHContent>)
    requires Distinct(flat) && Distinct(sub)
    requires forall o :: o in sub ==> o !in flat
    ensures Distinct(flat + sub)
    ensures Values(flat + sub) == Values(flat) + Values(sub)
  {
    DistinctAppend(flat, sub);
    ValuesAppend(flat, sub);
  }

  lemma FlattenSnoc(rs: seq<seq<GHContent>>, r: seq<GHContent>)
    ensures Flatten(rs + [r]) == Flatten(rs) + r
  {
    assert (rs + [r])[..|rs|] == rs;
  }

  /** A directory whose first entries cannot be walked cannot be walked at all. */
  lemma WalkDirsPrefixFails(es: seq<Remote>, i: nat, cdn: Cdn, ghr: GHRepo)
    requires i <= |es| && WalkDirs(es[..i], cdn, ghr).None?
    ensures WalkDirs(es, cdn, ghr).None?
  {
    WalkDirsSucceeds(es[..i], cdn, ghr);
    WalkDirsSucceeds(es, cdn, ghr);
    var k :| 0 <= k < i && es[..i][k].RemoteDir? && !Fetchable(es[..i][k].listing, cdn, ghr);
    assert es[k] == es[..i][k];
  }

  /** One more entry of the listing extends the walk of the DIR entries before it. */
  lemma WalkDirsStep(es: seq<Remote>, i: nat, cdn: Cdn, ghr: GHRepo)
    requires i < |es| && WalkDirs(es[..i], cdn, ghr).Some?
    ensures es[i].RemoteFile? ==> WalkDirs(es[..i + 1], cdn, ghr) == WalkDirs(es[..i], cdn, ghr)
    ensures es[i].RemoteDir? && Walk(es[i].listing, cdn, ghr).Some? ==>
              WalkDirs(es[..i + 1], cdn, ghr) ==
              Some(WalkDirs(es[..i], cdn, ghr).value + Walk(es[i].listing, cdn, ghr).value)
  {
    assert es[..i + 1][..i] == es[..i];
  }

  /** `validate_python` on a listing: one new object per entry, with path and kind and no content. */
  method NewEntries(es: seq<Remote>) returns (response: seq<GHContent>)
    ensures Values(response) == Describe(es)
    ensures |response| == |es| && forall k :: 0 <= k < |es| ==> response[k].kind == KindOf(es[k])
    ensures Distinct(response)
    ensures forall o :: o in response ==> fresh(o)
  {
    response := [];
    for i := 0 to |es|
      invariant |response| == i
      invariant forall o :: o in response ==> fresh(o)
      invariant Distinct(response)
      invariant forall k :: 0 <= k < i ==> response[k].Value() == Describe(es)[k]
    {
      var z := new GHContent(es[i].path, KindOf(es[i]));
      response := response + [z];
    }
    ValuesIndex(response);
  }

  /**
   * The first `gather` of `get_content`: one recursive walk per DIR entry
   * of the listing, in listing order.
   */
  method GatherDirs(es: seq<Remote>, response: seq<GHContent>, cdn: Cdn, ghr: GHRepo)
    returns (results: Option<seq<seq<GHContent>>>)
    requires |response| == |es| && forall k :: 0 <= k < |es| ==> response[k].kind == KindOf(es[k])
    decreases es
    ensures results.Some? <==> WalkDirs(es, cdn, ghr).Some?
    ensures results.Some? ==> Values(Flatten(results.value)) == WalkDirs(es, cdn, ghr).value
    ensures results.Some? ==> Distinct(Flatten(results.value))
    ensures results.Some? ==> forall o :: o in Flatten(results.value) ==> fresh(o)
  {
    var acc: seq<seq<GHContent>> := [];
    ghost var flat: seq<GHContent> := [];
    for i := 0 to |response|
      invariant flat == Flatten(acc)
      invariant WalkDirs(es[..i], cdn, ghr).Some?
      invariant Values(flat) == WalkDirs(es[..i], cdn, ghr).value
      invariant Distinct(flat)
      invariant forall o :: o in flat ==> fresh(o)
    {
      WalkDirsStep(es, i, cdn, ghr);
      if response[i].kind == Dir {
        ghost var walked := Values(flat);
        var sub := GetContent(es[i].listing, cdn, ghr);
        if sub.None? {
          WalkDirsPrefixFails(es, i + 1, cdn, ghr);
          return None;
        }
        assert Values(flat) == walked;
        GatherStep(es, i, cdn, ghr, acc, flat, sub.value);
        acc := acc + [sub.value];
        flat := flat + sub.value;
      }
    }
    assert es[..|es|] == es;
    return Some(acc);
  }

  /** The walked objects after one more DIR entry of the listing. */
  lemma GatherStep(es: seq<Remote>, i: nat, cdn: Cdn, ghr: GHRepo,
                   acc: seq<seq<GHContent>>, flat: seq<GHContent>, sub: seq<GHContent>)
    requires i < |es| && es[i].RemoteDir? && flat == Flatten(acc)
    requires WalkDirs(es[..i], cdn, ghr).Some? && Values(flat) == WalkDirs(es[..i], cdn, ghr).value
    requires Walk(es[i].listing, cdn, ghr).Some? && Values(sub) == Walk(es[i].listing, cdn, ghr).value
    requires Distinct(flat) && Distinct(sub) && forall o :: o in sub ==> o !in flat
    ensures flat + sub == Flatten(acc + [sub])
    ensures WalkDirs(es[..i + 1], cdn, ghr).Some? && Values(flat + sub) == WalkDirs(es[..i + 1], cdn, ghr).value
    ensures Distinct(flat + sub)
  {
    WalkDirsStep(es, i, cdn, ghr);
    DisjointAppend(flat, sub);
    FlattenSnoc(acc, sub);
  }

  /**
   * The second `gather` of `get_content`: every object of the list fills
   * in its own content; the list fails when any download fails.
   */
  method FetchContents(response: seq<GHContent>, cdn: Cdn, ghr: GHRepo) returns (ok: bool)
    requires Distinct(response)
    modifies set o | o in response
    ensures ok <==> FetchAll(old(Values(response)), cdn, ghr).Some?
    ensures ok ==> Values(response) == FetchAll(old(Values(response)), cdn, ghr).value
  {
    ghost var pre := Values(response);
    ValuesIndex(response);
    for i := 0 to |response|
      invariant forall k :: 0 <= k < i ==> Resolve(pre[k], cdn, ghr) == Some(response[k].Value())
      invariant forall k :: i <= k < |response| ==> response[k].Value() == pre[k]
    {
      ok := response[i].GetContent(cdn, ghr);
      if !ok {
        return false;
      }
    }
    ValuesIndex(response);
    return true;
  }

  /**
   * `get_content` for a directory whose listing request returns `l`: it
   * fails exactly when `Walk` fails, and otherwise returns fresh, pairwise
   * distinct objects holding the records `Walk` computes.
   */
  method GetContent(l: Listing, cdn: Cdn, ghr: GHRepo) returns (r: Option<seq<GHContent>>)
    decreases l
    ensures r.Some? <==> Walk(l, cdn, ghr).Some?
    ensures r.Some? ==> Values(r.value) == Walk(l, cdn, ghr).value
    ensures r.Some? ==> Distinct(r.value)
    ensures r.Some? ==> forall o :: o in r.value ==> fresh(o)
  {
    if l.Unlisted? {
      return None;
    }
    var es := l.entries;
    var response := NewEntries(es);
    var results := GatherDirs(es, response, cdn, ghr);
    if results.None? {
      WalkFetches(l, cdn, ghr);
      return None;
    }
    r := ExtendAndFetch(l, response, results.value, cdn, ghr);
  }

  /**
   * The end of `get_content`: `response.extend(z)` for every sub-result
   * `z`, in order, and then the second `gather` over the extended list.
   */
  method ExtendAndFetch(l: Listing, response: seq<GHContent>, results: seq<seq<GHContent>>, cdn: Cdn, ghr: GHRepo)
    returns (r: Option<seq<GHContent>>)
    requires l.Listed? && WalkDirs(l.entries, cdn, ghr).Some?
    requires Values(response) == Describe(l.entries)
    requires Values(Flatten(results)) == WalkDirs(l.entries, cdn, ghr).value
    requires Distinct(response) && Distinct(Flatten(results))
    requires forall o :: o in Flatten(results) ==> o !in response
    modifies set o | o in response + Flatten(results)
    ensures r.Some? <==> Walk(l, cdn, ghr).Some?
    ensures r.Some? ==> r.value == response + Flatten(results)
    ensures r.Some? ==> Values(r.value) == Walk(l, cdn, ghr).value
    ensures r.Some? ==> Distinct(r.value)
  {
    DisjointAppend(response, Flatten(results));
    WalkFetches(l, cdn, ghr);
    ghost var pre := Values(response + Flatten(results));
    assert Walk(l, cdn, ghr) == FetchAll(pre, cdn, ghr);
    var all := response;
    for i := 0 to |results|
      invariant all == response + Flatten(results[..i])
      invariant Values(response + Flatten(results)) == pre
      modifies {}
    {
      ExtendStep(response, results, i);
      all := all + results[i];
    }
    assert results[..|results|] == results;
    var ok := FetchContents(all, cdn, ghr);
    if !ok {
      return None;
    }
    return Some(all);
  }

  /** One more `extend` appends the next sub-result. */
  lemma ExtendStep(response: seq<GHContent>, rs: seq<seq<GHContent>>, i: nat)
    requires i < |rs|
    ensures response + Flatten(rs[..i]) + rs[i] == response + Flatten(rs[..i + 1])
  {
    assert rs[..i + 1] == rs[..i] + [rs[i]];
    FlattenSnoc(rs[..i], rs[i]);
    Assoc(response, Flatten(rs[..i]), rs[i]);
  }

  /** A listed directory is walked by fetching its descriptors followed by the walks below it. */
  lemma WalkFetches(l: Listing, cdn: Cdn, ghr: GHRepo)
    requires l.Listed?
    ensures WalkDirs(l.entries, cdn, ghr).None? ==> Walk(l, cdn, ghr).None?
    ensures WalkDirs(l.entries, cdn, ghr).Some? ==>
              Walk(l, cdn, ghr) == FetchAll(Describe(l.entries) + WalkDirs(l.entries, cdn, ghr).value, cdn, ghr)
  {
  }
}
