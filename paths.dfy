/**
 * String and path helpers of generate.py: Python's `str.strip("/")`,
 * `left_remove`, POSIX `os.path.join` and the parent of a path as
 * `pathlib.Path(...).parent` computes it.
 */
module Paths {
  import opened Wrappers

  /** Every character of `s` is a slash. */
  predicate IsSlashes(s: string) {
    forall i :: 0 <= i < |s| ==> s[i] == '/'
  }

  /** `s` neither starts nor ends with a slash. */
  predicate SlashFree(s: string) {
    s == [] || (s[0] != '/' && s[|s| - 1] != '/')
  }

  /** Drops every leading slash. */
  function LStrip(s: string): (r: string)
    ensures |r| <= |s| && r == s[|s| - |r|..]
    ensures IsSlashes(s[..|s| - |r|])
    ensures r == [] || r[0] != '/'
  {
    if s != [] && s[0] == '/' then
      var r := LStrip(s[1..]);
      LStripStep(s, r);
      r
    else s
  }

  /** One more leading slash in front of a stripped suffix. */
  lemma LStripStep(s: string, r: string)
    requires s != [] && s[0] == '/' && |r| <= |s| - 1
    requires r == s[1..][|s| - 1 - |r|..] && IsSlashes(s[1..][..|s| - 1 - |r|])
    ensures r == s[|s| - |r|..] && IsSlashes(s[..|s| - |r|])
  {
    assert s[1..][..|s| - 1 - |r|] == s[1..|s| - |r|];
    assert s[1..][|s| - 1 - |r|..] == s[|s| - |r|..];
  }

  /** Drops every trailing slash. */
  function RStrip(s: string): (r: string)
    ensures r <= s
    ensures IsSlashes(s[|r|..])
    ensures r == [] || r[|r| - 1] != '/'
  {
    if s != [] && s[|s| - 1] == '/' then
      var r := RStrip(s[..|s| - 1]);
      assert s[|r|..] == s[..|s| - 1][|r|..] + ['/'];
      r
    else s
  }

  /**
   * Python's `s.strip("/")`: the longest slice of `s` that neither starts
   * nor ends with a slash, obtained by removing slashes at both ends only.
   */
  function Strip(s: string): (r: string)
    ensures SlashFree(r)
    ensures r <= LStrip(s) && IsSlashes(LStrip(s)[|r|..])
  {
    RStrip(LStrip(s))
  }

  /** A string that already has no slash at either end is left as it is. */
  lemma StripSlashFree(s: string)
    requires SlashFree(s)
    ensures Strip(s) == s
  {
    assert LStrip(s) == s;
  }

  /** Stripping twice is stripping once. */
  lemma StripIdempotent(s: string)
    ensures Strip(Strip(s)) == Strip(s)
  {
    StripSlashFree(Strip(s));
  }

  /** Stripping only removes slashes: `s` is slashes, then `Strip(s)`, then slashes. */
  lemma {:induction false} StripDecomposes(s: string)
    ensures exists i :: 0 <= i <= |s| - |Strip(s)| && s[i..i + |Strip(s)|] == Strip(s)
                         && IsSlashes(s[..i]) && IsSlashes(s[i + |Strip(s)|..])
  {
    var l := LStrip(s);
    var r := Strip(s);
    var i := |s| - |l|;
    SuffixPrefix(s, i, r);
    assert 0 <= i <= |s| - |r| && s[i..i + |r|] == r && IsSlashes(s[..i]) && IsSlashes(s[i + |r|..]);
  }

  /** A prefix `r` of the suffix of `s` from `i` on sits at `i` in `s`. */
  lemma SuffixPrefix(s: string, i: nat, r: string)
    requires i <= |s| && r <= s[i..]
    ensures i + |r| <= |s| && s[i..i + |r|] == r && s[i + |r|..] == s[i..][|r|..]
  {
  }

  /** One leading slash in front of a slash-free string is stripped away. */
  lemma StripLeadingSlash(t: string)
    requires SlashFree(t)
    ensures Strip("/" + t) == t
  {
    LStripSlash(t);
    StripSlashFree(t);
  }

  /** A leading slash is dropped by `LStrip` together with those after it. */
  lemma LStripSlash(t: string)
    ensures LStrip("/" + t) == LStrip(t)
  {
    assert ("/" + t)[1..] == t;
  }

  /** One trailing slash after a slash-free string is stripped away. */
  lemma StripTrailingSlash(t: string)
    requires SlashFree(t)
    ensures Strip(t + "/") == t
  {
    if t == [] {
      assert LStrip("/") == [];
    } else {
      assert (t + "/")[0] == t[0];
      assert LStrip(t + "/") == t + "/";
      assert (t + "/")[..|t|] == t;
      assert RStrip(t) == t;
    }
  }

  /** A character absent from `s` is absent from `Strip(s)`. */
  lemma StripKeepsAbsent(s: string, c: char)
    requires c !in s
    ensures c !in Strip(s)
  {
    StripDecomposes(s);
    var i :| 0 <= i <= |s| - |Strip(s)| && s[i..i + |Strip(s)|] == Strip(s);
  }

  /**
   * `left_remove(s, rem)`: removes `rem` from the front of `s` when `s`
   * starts with it, and otherwise gives `s` back unchanged.
   */
  function LeftRemove(s: string, rem: string): (r: string)
    ensures rem <= s ==> rem + r == s
    ensures !(rem <= s) ==> r == s
  {
    if rem <= s then s[|rem|..] else s
  }

  /** Exactly one copy of the prefix is removed, never more. */
  lemma LeftRemoveOnce(rem: string, t: string)
    ensures LeftRemove(rem + t, rem) == t
  {
    assert rem <= rem + t;
  }

  /** Removing the empty prefix is the identity. */
  lemma LeftRemoveEmpty(s: string)
    ensures LeftRemove(s, "") == s
  {
  }

  /** The separator `os.path.join` puts after `a`. */
  function Separator(a: string): string
  {
    if a == [] || a[|a| - 1] == '/' then "" else "/"
  }

  /**
   * POSIX `os.path.join(a, b)`: an absolute `b` replaces `a`; otherwise
   * `b` is appended, with a separating slash unless `a` is empty or
   * already ends with one.
   */
  function Join(a: string, b: string): (r: string)
  {
    if b != [] && b[0] == '/' then b else a + Separator(a) + b
  }

  /** Joining a slash-free component puts the separator between the two. */
  lemma JoinSeparated(a: string, b: string)
    requires SlashFree(b)
    ensures Join(a, b) == a + Separator(a) + b
  {
  }

  /** A path ending in a name other than a slash is followed by a separator. */
  lemma SeparatorAfter(a: string, b: string)
    requires b != [] && b[|b| - 1] != '/'
    ensures Separator(a + b) == "/"
  {
    assert (a + b)[|a + b| - 1] == b[|b| - 1];
  }

  /** Index of the last slash of `s`, if any. */
  function LastSlash(s: string): (k: Option<nat>)
    ensures k.None? ==> '/' !in s
    ensures k.Some? ==> k.value < |s| && s[k.value] == '/' && '/' !in s[k.value + 1..]
  {
    if s == [] then None
    else if s[|s| - 1] == '/' then Some(|s| - 1)
    else
      var k := LastSlash(s[..|s| - 1]);
      assert k.Some? ==> s[k.value + 1..] == s[..|s| - 1][k.value + 1..] + [s[|s| - 1]];
      k
  }

  /**
   * `pathlib.Path(p).parent` for a path without `.` components or doubled
   * inner slashes: trailing slashes are ignored, the last component is
   * dropped, a top-level relative name has parent "." and a top-level
   * absolute one has parent "/".
   */
  function Parent(p: string): string
  {
    var q := RStrip(p);
    match LastSlash(q)
    case None => if p != [] && p[0] == '/' then "/" else "."
    case Some(k) =>
      var h := RStrip(q[..k]);
      if h == [] then "/" else h
  }

  /** The parent of `dir/name` is `dir`: joining a plain name is undone by `Parent`. */
  lemma ParentOfJoin(dir: string, name: string)
    requires dir != [] && dir[|dir| - 1] != '/'
    requires name != [] && '/' !in name
    ensures Parent(Join(dir, name)) == dir
  {
    var p := Join(dir, name);
    assert p == dir + "/" + name;
    assert RStrip(p) == p;
    var k := LastSlash(p);
    assert p[|dir|] == '/';
    assert k.value == |dir|;
    assert p[..k.value] == dir;
  }
}
