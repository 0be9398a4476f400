/**
 * The two request addresses generate.py builds: the GitHub contents
 * listing of a directory (optionally pinned to a commit through a `ref`
 * query parameter) and the jsDelivr address of a file's raw bytes.
 */
module Urls {
  import opened Wrappers
  import opened Paths

  /** `GHRepo`: the owner and the name of a GitHub repository. */
  datatype GHRepo = GHRepo(username: string, repo: string)

  const ListingBase: string := "https://api.github.com/repos/"
  const DownloadBase: string := "https://cdn.jsdelivr.net/gh/"

  /** The address of the listing of `path`, without any query part. */
  function ListingResource(ghr: GHRepo, path: string): string
  {
    ListingBase + ghr.username + "/" + ghr.repo + "/contents/" + Strip(path)
  }

  /**
   * The listing request of `get_content`: the path is slash-stripped and
   * `?ref=<hash>` is appended only when a commit hash is given.
   */
  function ListingUrl(ghr: GHRepo, path: string, commitHash: Option<string>): string
  {
    ListingResource(ghr, path) + (if commitHash.Some? then "?ref=" + commitHash.value else "")
  }

  /**
   * The request of `download_content`. The path is used as given and no
   * commit is named, so a commit hash pins only the listings, not the
   * downloaded files.
   */
  function DownloadUrl(ghr: GHRepo, path: string): string
  {
    DownloadBase + ghr.username + "/" + ghr.repo + "/" + path
  }

  /** Position of the first `c` in `s`, if any. */
  function FirstIndex(s: string, c: char): (k: Option<nat>)
    ensures k.None? <==> c !in s
    ensures k.Some? ==> k.value < |s| && s[k.value] == c && c !in s[..k.value]
  {
    if s == [] then None
    else if s[0] == c then Some(0)
    else
      match FirstIndex(s[1..], c)
      case None => None
      case Some(k) =>
        assert s[..k + 1] == [s[0]] + s[1..][..k];
        Some(k + 1)
  }

  /** The query string of a URL: what follows its first `?`, if it has one. */
  function Query(url: string): Option<string>
  {
    match FirstIndex(url, '?')
    case None => None
    case Some(k) => Some(url[k + 1..])
  }

  /** The URL up to, and without, its first `?`. */
  function Resource(url: string): string
  {
    match FirstIndex(url, '?')
    case None => url
    case Some(k) => url[..k]
  }

  /** The first `?` of `a + "?" + b` is the one after `a` when `a` has none. */
  lemma FirstIndexAfter(a: string, b: string)
    requires '?' !in a
    ensures FirstIndex(a + ("?" + b), '?') == Some(|a|)
  {
    assert (a + ("?" + b))[|a|] == '?';
    assert (a + ("?" + b))[..|a|] == a;
  }

  /** The `ref` suffix is a `?` followed by the query `ref=<hash>`. */
  lemma RefQuery(hash: string)
    ensures "?ref=" + hash == "?" + ("ref=" + hash)
  {
  }

  /** A URL without `?` has no query part. */
  lemma NoQuery(url: string)
    requires '?' !in url
    ensures Query(url) == None && Resource(url) == url
  {
  }

  /** Appending `?` and a query to a URL without `?` is read back as that query. */
  lemma WithQuery(res: string, q: string)
    requires '?' !in res
    ensures Query(res + ("?" + q)) == Some(q) && Resource(res + ("?" + q)) == res
  {
    FirstIndexAfter(res, q);
    var url := res + ("?" + q);
    assert url[|res| + 1..] == q;
    assert url[..|res|] == res;
  }

  /** The listing address of names without `?` contains no `?`. */
  lemma ResourceHasNoQuery(ghr: GHRepo, path: string)
    requires '?' !in ghr.username && '?' !in ghr.repo && '?' !in path
    ensures '?' !in ListingResource(ghr, path)
  {
    StripKeepsAbsent(path, '?');
    LiteralsHaveNoQuery();
  }

  lemma LiteralsHaveNoQuery()
    ensures '?' !in ListingBase && '?' !in "/" && '?' !in "/contents/"
  {
  }

  /**
   * Read back from the URL, the `ref` query parameter is present exactly
   * when a commit hash is given and carries that hash, and the rest of
   * the URL does not depend on the hash (provided no name contains `?`).
   */
  lemma ListingUrlQuery(ghr: GHRepo, path: string, commitHash: Option<string>)
    requires '?' !in ghr.username && '?' !in ghr.repo && '?' !in path
    ensures Query(ListingUrl(ghr, path, commitHash)) ==
            (if commitHash.Some? then Some("ref=" + commitHash.value) else None)
    ensures Resource(ListingUrl(ghr, path, commitHash)) == ListingResource(ghr, path)
  {
    var res := ListingResource(ghr, path);
    ResourceHasNoQuery(ghr, path);
    if commitHash.Some? {
      var q := "ref=" + commitHash.value;
      RefQuery(commitHash.value);
      WithQuery(res, q);
    } else {
      NoQuery(res);
      assert ListingUrl(ghr, path, commitHash) == res;
    }
  }

  /** Leading and trailing slashes of the path do not change the listing request. */
  lemma ListingUrlIgnoresSlashes(ghr: GHRepo, path: string, commitHash: Option<string>)
    ensures ListingUrl(ghr, path, commitHash) == ListingUrl(ghr, Strip(path), commitHash)
  {
    StripIdempotent(path);
  }

  /** Distinct file paths of one repository are downloaded from distinct addresses. */
  lemma DownloadUrlInjective(ghr: GHRepo, p: string, q: string)
    requires DownloadUrl(ghr, p) == DownloadUrl(ghr, q)
    ensures p == q
  {
    var pre := DownloadBase + ghr.username + "/" + ghr.repo + "/";
    assert DownloadUrl(ghr, p) == pre + p && DownloadUrl(ghr, q) == pre + q;
    assert p == DownloadUrl(ghr, p)[|pre|..];
  }
}
