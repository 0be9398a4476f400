/**
 * `save_to_folder`: the entries are sorted in place by path length, and
 * then, in that order, a copy of each entry is relocated below
 * `cwd/save_to` and every FILE entry gets its parent directory created and,
 * when it has content, its text written. The disk is a map from path to
 * text together with the set of directories created; UTF-8 decoding is a
 * partial function given as a parameter.
 */
module Materialize {
  import opened Wrappers
  import opened Paths
  import opened Model
  import LengthSort
  import opened Sequences

  /** Decoding of downloaded bytes as text; `None` is a decoding error. */
  type Decoder = Bytes -> Option<string>

  /** The three inputs that fix where entries land: `og_path`, `save_to` and the working directory. */
  datatype Dest = Dest(og: Option<string>, saveTo: string, cwd: string)

  /** The files written, by path, and the directories created. */
  datatype Disk = Disk(files: map<string, string>, dirs: set<string>)

  /** A run that completed, or one that stopped at a decoding error, with the disk it left. */
  datatype Outcome = Done(disk: Disk) | Failed(disk: Disk)

  /** The directory everything is saved below: `join(cwd, save_to.strip("/"))`. */
  function Root(dst: Dest): string
  {
    Join(dst.cwd, Strip(dst.saveTo))
  }

  /**
   * The path of an entry relative to the root: the stripped `og_path` is
   * removed from its front when given, and slashes at both ends are dropped.
   */
  function Relative(dst: Dest, path: string): (r: string)
    ensures SlashFree(r)
  {
    if dst.og.Some? then Strip(LeftRemove(path, Strip(dst.og.value))) else Strip(path)
  }

  /** Where an entry with this path is saved. */
  function Target(dst: Dest, path: string): string
  {
    Join(Root(dst), Relative(dst, path))
  }

  /** Where entries are saved, as a function of their path. */
  type Placement = string -> string

  /** The placement `save_to_folder` uses for `dst`. */
  function PlacementOf(dst: Dest): Placement
  {
    p => Target(dst, p)
  }

  /**
   * The relocated path is the root, a separator, and the relative path,
   * which neither starts nor ends with a slash.
   */
  lemma TargetShape(dst: Dest, path: string)
    ensures Target(dst, path) == Root(dst) + Separator(Root(dst)) + Relative(dst, path)
    ensures SlashFree(Relative(dst, path))
  {
    var root, rel := Root(dst), Relative(dst, path);
    JoinSeparated(root, rel);
  }

  /** Below the stripped `og_path`, an entry keeps the rest of its path. */
  lemma RelativeUnderOg(dst: Dest, rest: string)
    requires dst.og.Some?
    ensures Relative(dst, Strip(dst.og.value) + rest) == Strip(rest)
  {
    LeftRemoveOnce(Strip(dst.og.value), rest);
  }

  /** A path that does not start with the stripped `og_path` is only slash-stripped. */
  lemma RelativeOutsideOg(dst: Dest, path: string)
    requires dst.og.None? || !(Strip(dst.og.value) <= path)
    ensures Relative(dst, path) == Strip(path)
  {
  }

  /** Slashes around `og_path` and `save_to` do not change where entries land. */
  lemma TargetIgnoresSlashes(og: string, saveTo: string, cwd: string, path: string)
    ensures Target(Dest(Some(og), saveTo, cwd), path) == Target(Dest(Some(Strip(og)), Strip(saveTo), cwd), path)
  {
    StripIdempotent(og);
    StripIdempotent(saveTo);
  }

  /** The entry writes a file: a FILE entry that has content. */
  predicate Writes(c: Content)
  {
    c.kind == File && c.content.Some?
  }

  /** The entry writes the file at `p`. */
  predicate WritesTo(at: Placement, c: Content, p: string)
  {
    Writes(c) && at(c.path) == p
  }

  /**
   * One iteration of the loop: a DIR entry does nothing; a FILE entry
   * creates the parent of its target, and, when it has content, opens the
   * target for writing, which empties it, and writes the decoded text. A
   * decoding error stops the run with the emptied file left behind.
   */
  function Step(d: Disk, at: Placement, decode: Decoder, c: Content): Outcome
  {
    StepAt(d, at(c.path), decode, c)
  }

  /** `Step` for an entry whose relocated path is `t`. */
  function StepAt(d: Disk, t: string, decode: Decoder, c: Content): Outcome
  {
    if c.kind == Dir then Done(d)
    else
      var d1 := d.(dirs := d.dirs + {Parent(t)});
      match c.content
      case None => Done(d1)
      case Some(b) =>
        match decode(b)
        case None => Failed(d1.(files := d1.files[t := ""]))
        case Some(text) => Done(d1.(files := d1.files[t := text]))
  }

  /** The loop over `cs` in order, stopping at the first decoding error. */
  function SaveAll(d: Disk, at: Placement, decode: Decoder, cs: seq<Content>): Outcome
  {
    if cs == [] then Done(d)
    else
      match SaveAll(d, at, decode, cs[..|cs| - 1])
      case Failed(d') => Failed(d')
      case Done(d') => Step(d', at, decode, cs[|cs| - 1])
  }

  /** `save_to_folder` on values: the length sort, then the loop. */
  function SaveToFolderSpec(d: Disk, dst: Dest, decode: Decoder, cs: seq<Content>): Outcome
  {
    SaveAll(d, PlacementOf(dst), decode, LengthSort.SortByLen(cs))
  }

  /** The text stored at `p`, if any. */
  function Lookup(m: map<string, string>, p: string): Option<string>
  {
    if p in m then Some(m[p]) else None
  }

  /** The last entry of `cs` that writes the file at `p`. */
  function LastWriter(at: Placement, cs: seq<Content>, p: string): (k: Option<nat>)
    ensures k.Some? ==> k.value < |cs| && WritesTo(at, cs[k.value], p)
    ensures k.Some? ==> forall j :: k.value < j < |cs| ==> !WritesTo(at, cs[j], p)
    ensures k.None? ==> forall j :: 0 <= j < |cs| ==> !WritesTo(at, cs[j], p)
  {
    if cs == [] then None
    else if WritesTo(at, cs[|cs| - 1], p) then Some(|cs| - 1)
    else LastWriter(at, cs[..|cs| - 1], p)
  }

  /** Every entry that writes a file can decode its content. */
  predicate AllDecode(decode: Decoder, cs: seq<Content>)
  {
    forall k :: 0 <= k < |cs| && Writes(cs[k]) ==> decode(cs[k].content.value).Some?
  }

  /** The parents of the targets of all FILE entries, with or without content. */
  function ParentsOf(at: Placement, cs: seq<Content>): set<string>
  {
    set k | 0 <= k < |cs| && cs[k].kind == File :: Parent(at(cs[k].path))
  }

  // ---------------------------------------------------------------------
  // Properties of the loop
  // ---------------------------------------------------------------------

  /** The run completes exactly when every entry that writes a file decodes. */
  lemma {:induction false} SaveAllSucceeds(d: Disk, at: Placement, decode: Decoder, cs: seq<Content>)
    ensures SaveAll(d, at, decode, cs).Done? <==> AllDecode(decode, cs)
  {
    if cs != [] {
      var init := cs[..|cs| - 1];
      SaveAllSucceeds(d, at, decode, init);
      assert AllDecode(decode, cs) <==>
               (AllDecode(decode, init) && (Writes(cs[|cs| - 1]) ==> decode(cs[|cs| - 1].content.value).Some?)) by {
        if AllDecode(decode, init) && (Writes(cs[|cs| - 1]) ==> decode(cs[|cs| - 1].content.value).Some?) {
          forall k | 0 <= k < |cs| && Writes(cs[k]) ensures decode(cs[k].content.value).Some? {
            if k < |cs| - 1 {
              assert cs[k] == init[k];
            }
          }
        }
        if AllDecode(decode, cs) {
          forall k | 0 <= k < |init| && Writes(init[k]) ensures decode(init[k].content.value).Some? {
            assert init[k] == cs[k];
          }
        }
      }
    }
  }

  /**
   * Last writer wins, nothing else changes: after a completed run the
   * text at `p` is the decoded content of the last entry that writes `p`,
   * or what was there before when no entry writes `p`.
   */
  lemma {:induction false} SaveAllFiles(d: Disk, at: Placement, decode: Decoder, cs: seq<Content>, p: string)
    requires SaveAll(d, at, decode, cs).Done?
    ensures Lookup(SaveAll(d, at, decode, cs).disk.files, p) ==
            match LastWriter(at, cs, p)
            case Some(k) => decode(cs[k].content.value)
            case None => Lookup(d.files, p)
  {
    if cs != [] {
      var init := cs[..|cs| - 1];
      SaveAllFiles(d, at, decode, init, p);
    }
  }

  /**
   * The directories created are the parents of the targets of exactly the
   * FILE entries, including those without content; DIR entries create none.
   */
  lemma {:induction false} SaveAllDirs(d: Disk, at: Placement, decode: Decoder, cs: seq<Content>)
    requires SaveAll(d, at, decode, cs).Done?
    ensures SaveAll(d, at, decode, cs).disk.dirs == d.dirs + ParentsOf(at, cs)
  {
    if cs != [] {
      var init, last := cs[..|cs| - 1], cs[|cs| - 1];
      SaveAllDirs(d, at, decode, init);
      ParentsOfSnoc(at, cs);
      StepDirs(SaveAll(d, at, decode, init).disk, at(last.path), decode, last);
    }
  }

  /** One step adds the parent of a FILE entry's target to the directories, and nothing else. */
  lemma StepDirs(d: Disk, t: string, decode: Decoder, c: Content)
    ensures StepAt(d, t, decode, c).disk.dirs == d.dirs + (if c.kind == File then {Parent(t)} else {})
  {
  }

  /** The parents contributed by one more entry. */
  lemma ParentsOfSnoc(at: Placement, cs: seq<Content>)
    requires cs != []
    ensures ParentsOf(at, cs) == ParentsOf(at, cs[..|cs| - 1]) +
              (if cs[|cs| - 1].kind == File then {Parent(at(cs[|cs| - 1].path))} else {})
  {
    var init := cs[..|cs| - 1];
    var last := cs[|cs| - 1];
    forall q | q in ParentsOf(at, cs)
      ensures q in ParentsOf(at, init) + (if last.kind == File then {Parent(at(last.path))} else {})
    {
      var k :| 0 <= k < |cs| && cs[k].kind == File && q == Parent(at(cs[k].path));
      if k < |init| {
        assert cs[k] == init[k];
      }
    }
    forall q | q in ParentsOf(at, init) ensures q in ParentsOf(at, cs) {
      var k :| 0 <= k < |init| && init[k].kind == File && q == Parent(at(init[k].path));
      assert cs[k] == init[k];
    }
  }

  /**
   * A decoding error at entry `f` ends the run there: the entries after it
   * are never looked at, and the file it was writing is left empty.
   */
  lemma {:induction false} SaveAllStopsAtFailure(d: Disk, at: Placement, decode: Decoder, cs: seq<Content>, f: nat)
    requires f < |cs| && Writes(cs[f]) && decode(cs[f].content.value).None?
    requires SaveAll(d, at, decode, cs[..f]).Done?
    ensures SaveAll(d, at, decode, cs).Failed?
    ensures SaveAll(d, at, decode, cs) == SaveAll(d, at, decode, cs[..f + 1])
    ensures SaveAll(d, at, decode, cs).disk.files ==
            SaveAll(d, at, decode, cs[..f]).disk.files[at(cs[f].path) := ""]
    decreases |cs|
  {
    if |cs| == f + 1 {
      assert cs[..f + 1] == cs;
      assert cs[..|cs| - 1] == cs[..f];
    } else {
      var init := cs[..|cs| - 1];
      assert init[..f] == cs[..f] && init[..f + 1] == cs[..f + 1];
      SaveAllStopsAtFailure(d, at, decode, init, f);
    }
  }

  /** Once the loop has failed, the later entries change nothing. */
  lemma {:induction false} SaveAllFailedStays(d: Disk, at: Placement, decode: Decoder, cs: seq<Content>, n: nat)
    requires n <= |cs| && SaveAll(d, at, decode, cs[..n]).Failed?
    ensures SaveAll(d, at, decode, cs) == SaveAll(d, at, decode, cs[..n])
    decreases |cs|
  {
    if n == |cs| {
      assert cs[..n] == cs;
    } else {
      var init := cs[..|cs| - 1];
      assert init[..n] == cs[..n];
      SaveAllFailedStays(d, at, decode, init, n);
    }
  }

  /** Writing again what a completed run wrote changes nothing. */
  lemma SaveAllIdempotent(d: Disk, at: Placement, decode: Decoder, cs: seq<Content>)
    requires SaveAll(d, at, decode, cs).Done?
    ensures SaveAll(SaveAll(d, at, decode, cs).disk, at, decode, cs) == SaveAll(d, at, decode, cs)
  {
    var e := SaveAll(d, at, decode, cs).disk;
    SaveAllSucceeds(d, at, decode, cs);
    SaveAllSucceeds(e, at, decode, cs);
    var e2 := SaveAll(e, at, decode, cs).disk;
    SaveAllDirs(d, at, decode, cs);
    SaveAllDirs(e, at, decode, cs);
    forall p ensures Lookup(e2.files, p) == Lookup(e.files, p) {
      SaveAllFiles(d, at, decode, cs, p);
      SaveAllFiles(e, at, decode, cs, p);
    }
    assert e2.files == e.files by {
      forall p | p in e.files ensures p in e2.files && e2.files[p] == e.files[p] {
        assert Lookup(e2.files, p) == Lookup(e.files, p);
      }
      forall p | p in e2.files ensures p in e.files {
        assert Lookup(e2.files, p) == Lookup(e.files, p);
      }
    }
  }

  // ---------------------------------------------------------------------
  // Order of the entries
  // ---------------------------------------------------------------------

  /** Entries of `cs` that write the same file are the same entry. */
  predicate SoleWriters(at: Placement, cs: seq<Content>)
  {
    forall c1, c2 :: c1 in cs && c2 in cs && Writes(c1) && Writes(c2) && at(c1.path) == at(c2.path) ==> c1 == c2
  }

  /**
   * A completed run does not depend on the order of the entries when no
   * two different entries write the same file: any reordering completes
   * too, and leaves the same disk.
   */
  lemma SaveAllReorder(d: Disk, at: Placement, decode: Decoder, cs: seq<Content>, cs': seq<Content>)
    requires multiset(cs) == multiset(cs') && SoleWriters(at, cs)
    requires SaveAll(d, at, decode, cs).Done?
    ensures SaveAll(d, at, decode, cs') == SaveAll(d, at, decode, cs)
  {
    SaveAllSucceeds(d, at, decode, cs);
    forall k | 0 <= k < |cs'| && Writes(cs'[k]) ensures decode(cs'[k].content.value).Some? {
      SameMembers(cs', cs, cs'[k]);
      var i :| 0 <= i < |cs| && cs[i] == cs'[k];
    }
    SaveAllSucceeds(d, at, decode, cs');
    var e, e' := SaveAll(d, at, decode, cs).disk, SaveAll(d, at, decode, cs').disk;
    SaveAllDirs(d, at, decode, cs);
    SaveAllDirs(d, at, decode, cs');
    ParentsOfSub(at, cs, cs');
    ParentsOfSub(at, cs', cs);
    forall p ensures Lookup(e'.files, p) == Lookup(e.files, p) {
      SaveAllFiles(d, at, decode, cs, p);
      SaveAllFiles(d, at, decode, cs', p);
      SameLastWriter(at, cs, cs', p);
    }
    assert e'.files == e.files by {
      forall p | p in e.files ensures p in e'.files && e'.files[p] == e.files[p] {
        assert Lookup(e'.files, p) == Lookup(e.files, p);
      }
      forall p | p in e'.files ensures p in e.files {
        assert Lookup(e'.files, p) == Lookup(e.files, p);
      }
    }
  }

  /** Lists with the same elements have the same members. */
  lemma SameMembers(a: seq<Content>, b: seq<Content>, c: Content)
    requires multiset(a) == multiset(b) && c in a
    ensures c in b
  {
    assert c in multiset(a);
  }

  /** The parents created by a list are created by any list holding all its entries. */
  lemma ParentsOfSub(at: Placement, a: seq<Content>, b: seq<Content>)
    requires multiset(a) == multiset(b)
    ensures ParentsOf(at, a) <= ParentsOf(at, b)
  {
    forall x | x in ParentsOf(at, a) ensures x in ParentsOf(at, b) {
      var k :| 0 <= k < |a| && a[k].kind == File && Parent(at(a[k].path)) == x;
      SameMembers(a, b, a[k]);
      var j :| 0 <= j < |b| && b[j] == a[k];
    }
  }

  /** Reordering sole writers keeps the entry that last writes each file. */
  lemma SameLastWriter(at: Placement, cs: seq<Content>, cs': seq<Content>, p: string)
    requires multiset(cs) == multiset(cs') && SoleWriters(at, cs)
    ensures LastWriter(at, cs, p).Some? <==> LastWriter(at, cs', p).Some?
    ensures LastWriter(at, cs, p).Some? ==> cs[LastWriter(at, cs, p).value] == cs'[LastWriter(at, cs', p).value]
  {
    match LastWriter(at, cs, p)
    case Some(k) =>
      SameMembers(cs, cs', cs[k]);
      var j :| 0 <= j < |cs'| && cs'[j] == cs[k];
      var k' := LastWriter(at, cs', p).value;
      SameMembers(cs', cs, cs'[k']);
    case None =>
      if LastWriter(at, cs', p).Some? {
        var k' := LastWriter(at, cs', p).value;
        SameMembers(cs', cs, cs'[k']);
      }
  }

  /**
   * `save_to_folder` does not depend on the order of its input when no two
   * different entries are saved to the same file: a run that completes on
   * one order completes on every other, with the same disk.
   */
  lemma SaveToFolderReorder(d: Disk, dst: Dest, decode: Decoder, cs: seq<Content>, cs': seq<Content>)
    requires multiset(cs) == multiset(cs') && SoleWriters(PlacementOf(dst), cs)
    requires SaveToFolderSpec(d, dst, decode, cs).Done?
    ensures SaveToFolderSpec(d, dst, decode, cs') == SaveToFolderSpec(d, dst, decode, cs)
  {
    var at := PlacementOf(dst);
    var s, s' := LengthSort.SortByLen(cs), LengthSort.SortByLen(cs');
    LengthSort.SortByLenPermutation(cs);
    LengthSort.SortByLenPermutation(cs');
    forall c1, c2 | c1 in s && c2 in s && Writes(c1) && Writes(c2) && at(c1.path) == at(c2.path)
      ensures c1 == c2
    {
      SameMembers(s, cs, c1);
      SameMembers(s, cs, c2);
    }
    SaveAllReorder(d, at, decode, s, s');
  }

  /**
   * Without that condition the order matters: two entries with paths of
   * the same length that are saved to the same file with different texts
   * keep their input order through the stable sort, and the later one
   * wins. (With no `og_path`, "/x" and "x/" are such a pair: see `SlashedTwins`.)
   */
  lemma SaveToFolderOrderMatters(d: Disk, dst: Dest, decode: Decoder, a: Content, b: Content)
    requires Writes(a) && Writes(b) && |a.path| == |b.path|
    requires Target(dst, a.path) == Target(dst, b.path)
    requires decode(a.content.value).Some? && decode(b.content.value).Some?
    requires decode(a.content.value) != decode(b.content.value)
    ensures SaveToFolderSpec(d, dst, decode, [a, b]).Done?
    ensures SaveToFolderSpec(d, dst, decode, [b, a]).Done?
    ensures SaveToFolderSpec(d, dst, decode, [a, b]) != SaveToFolderSpec(d, dst, decode, [b, a])
  {
    KeepOrder(a, b);
    KeepOrder(b, a);
    SaveAllOrderMatters(d, PlacementOf(dst), decode, a, b);
  }

  /** Of two entries saved to the same file, the later one's text is left there. */
  lemma SaveAllOrderMatters(d: Disk, at: Placement, decode: Decoder, a: Content, b: Content)
    requires Writes(a) && Writes(b) && at(a.path) == at(b.path)
    requires decode(a.content.value).Some? && decode(b.content.value).Some?
    requires decode(a.content.value) != decode(b.content.value)
    ensures SaveAll(d, at, decode, [a, b]).Done? && SaveAll(d, at, decode, [b, a]).Done?
    ensures SaveAll(d, at, decode, [a, b]) != SaveAll(d, at, decode, [b, a])
  {
    var t := at(a.path);
    SavePair(d, at, decode, a, b);
    SavePair(d, at, decode, b, a);
    assert SaveAll(d, at, decode, [a, b]).disk.files[t] != SaveAll(d, at, decode, [b, a]).disk.files[t];
  }

  /** Saving two entries written to the same file leaves the second one's text. */
  lemma SavePair(d: Disk, at: Placement, decode: Decoder, a: Content, b: Content)
    requires Writes(a) && Writes(b) && at(a.path) == at(b.path)
    requires decode(a.content.value).Some? && decode(b.content.value).Some?
    ensures SaveAll(d, at, decode, [a, b]).Done?
    ensures at(a.path) in SaveAll(d, at, decode, [a, b]).disk.files
    ensures SaveAll(d, at, decode, [a, b]).disk.files[at(a.path)] == decode(b.content.value).value
  {
    assert [a, b][..1] == [a];
    assert [a][..0] == [];
    var d1 := Step(d, at, decode, a).disk;
    assert SaveAll(d, at, decode, [a]) == Done(d1);
    assert SaveAll(d, at, decode, [a, b]) == Step(d1, at, decode, b);
  }

  /** The stable sort keeps two entries of equal path length in order. */
  lemma KeepOrder(a: Content, b: Content)
    requires |a.path| == |b.path|
    ensures LengthSort.SortByLen([a, b]) == [a, b]
  {
    assert [a, b][..1] == [a];
    assert [a][..0] == [];
    assert LengthSort.SortByLen([a]) == [a];
    assert LengthSort.SortByLen([a, b]) == LengthSort.Insert([a], b);
    assert [a] + [b] == [a, b];
  }

  /**
   * With no `og_path`, a name with a slash in front and the same name with
   * a slash behind ("/x" and "x/") are saved to the same file.
   */
  lemma SlashedTwins(saveTo: string, cwd: string, name: string)
    requires SlashFree(name)
    ensures Target(Dest(None, saveTo, cwd), "/" + name) == Target(Dest(None, saveTo, cwd), name + "/")
  {
    StripLeadingSlash(name);
    StripTrailingSlash(name);
  }

  /**
   * The layout `save_to_folder` produces below `og_path`: every file
   * "<og_path>/<rest>" lands in "<cwd>/<save_to>/<rest>", when the names
   * have no slash at either end and `cwd` does not end with one.
   */
  lemma Layout(og: string, saveTo: string, cwd: string, rest: string)
    requires SlashFree(og) && saveTo != [] && SlashFree(saveTo) && SlashFree(rest)
    requires cwd != [] && cwd[|cwd| - 1] != '/'
    ensures Target(Dest(Some(og), saveTo, cwd), og + "/" + rest) == cwd + "/" + saveTo + "/" + rest
  {
    var dst := Dest(Some(og), saveTo, cwd);
    LayoutRoot(dst);
    LayoutRelative(dst, rest);
    TargetFrom(dst, og + "/" + rest, cwd + "/" + saveTo, rest);
  }

  /** A destination assembled from a root that takes a separator and a relative path. */
  lemma TargetFrom(dst: Dest, path: string, root: string, rel: string)
    requires Root(dst) == root && Separator(root) == "/" && Relative(dst, path) == rel
    ensures Target(dst, path) == root + "/" + rel
  {
    TargetShape(dst, path);
  }

  /** Below `og_path`, "<og_path>/<rest>" is "<rest>". */
  lemma LayoutRelative(dst: Dest, rest: string)
    requires dst.og.Some? && SlashFree(dst.og.value) && SlashFree(rest)
    ensures Relative(dst, dst.og.value + "/" + rest) == rest
  {
    StripSlashFree(dst.og.value);
    Assoc(dst.og.value, "/", rest);
    RelativeUnderOg(dst, "/" + rest);
    StripLeadingSlash(rest);
  }

  /** The root is "<cwd>/<save_to>", and a separator follows it. */
  lemma LayoutRoot(dst: Dest)
    requires dst.saveTo != [] && SlashFree(dst.saveTo)
    requires dst.cwd != [] && dst.cwd[|dst.cwd| - 1] != '/'
    ensures Root(dst) == dst.cwd + "/" + dst.saveTo
    ensures Separator(Root(dst)) == "/"
  {
    StripSlashFree(dst.saveTo);
    JoinSeparated(dst.cwd, dst.saveTo);
    SeparatorAfter(dst.cwd + "/", dst.saveTo);
  }

  /**
   * The layout `main` produces for chirpstack: with `og_path` "api/proto"
   * and `save_to` "chirpstack", every file "api/proto/<rest>" lands in
   * "<cwd>/chirpstack/<rest>".
   */
  lemma ChirpstackLayout(cwd: string, rest: string)
    requires cwd != [] && cwd[|cwd| - 1] != '/'
    requires SlashFree(rest)
    ensures Target(Dest(Some("api/proto"), "chirpstack", cwd), "api/proto" + "/" + rest)
            == cwd + "/" + "chirpstack" + "/" + rest
  {
    Layout("api/proto", "chirpstack", cwd, rest);
  }

  /** The loop over one more entry is one more `Step`. */
  lemma SaveAllSnoc(d: Disk, at: Placement, decode: Decoder, cs: seq<Content>, i: nat)
    requires i < |cs| && SaveAll(d, at, decode, cs[..i]).Done?
    ensures SaveAll(d, at, decode, cs[..i + 1]) == Step(SaveAll(d, at, decode, cs[..i]).disk, at, decode, cs[i])
  {
    assert cs[..i + 1][..i] == cs[..i];
  }

  /**
   * The path computed in one iteration of `save_to_folder`, where `og` is
   * `og_path` as stripped by the earlier iterations, is the placement of
   * the entry.
   */
  lemma PlacementStep(dst: Dest, og: Option<string>, path: string)
    requires og.Some? <==> dst.og.Some?
    requires og.Some? ==> og.value == Strip(dst.og.value)
    ensures Join(Join(dst.cwd, Strip(dst.saveTo)), Strip(if og.Some? then LeftRemove(path, og.value) else path))
            == PlacementOf(dst)(path)
  {
  }

  /** `og_path` once stripped. */
  function StripOg(og: Option<string>): Option<string>
  {
    if og.Some? then Some(Strip(og.value)) else None
  }

  /**
   * The path computation of one iteration of `save_to_folder`: `og_path`
   * is stripped again (and kept stripped for the next iteration), removed
   * from the front of the entry's path, and the rest is joined below
   * `cwd/save_to`. The result is the entry's placement.
   */
  method Relocate(og: Option<string>, ghost ogPath: Option<string>, saveTo: string, cwd: string, path: string)
    returns (og': Option<string>, target: string)
    requires og == ogPath || og == StripOg(ogPath)
    ensures og' == StripOg(ogPath)
    ensures target == PlacementOf(Dest(ogPath, saveTo, cwd))(path)
  {
    if ogPath.Some? {
      StripIdempotent(ogPath.value);
    }
    og' := og;
    var p := path;
    if og'.Some? {
      og' := Some(Strip(og'.value));
      p := LeftRemove(p, og'.value);
    }
    target := Join(Join(cwd, Strip(saveTo)), Strip(p));
    PlacementStep(Dest(ogPath, saveTo, cwd), og', path);
  }

  // ---------------------------------------------------------------------
  // The file system
  // ---------------------------------------------------------------------

  /** The part of the file system `save_to_folder` touches. */
  class FileSystem {
    var files: map<string, string>
    var dirs: set<string>

    constructor (d: Disk)
      ensures files == d.files && dirs == d.dirs
    {
      files := d.files;
      dirs := d.dirs;
    }

    function State(): Disk
      reads this
    {
      Disk(files, dirs)
    }

    /** `makedirs(p, exist_ok=True)`. */
    method MakeDirs(p: string)
      modifies this
      ensures dirs == old(dirs) + {p} && files == old(files)
    {
      dirs := dirs + {p};
    }

    /**
     * `open(p, "w+")` followed by `write(b.decode("utf-8"))`: the file is
     * emptied when it is opened, before the bytes are decoded.
     */
    method WriteText(p: string, b: Bytes, decode: Decoder) returns (ok: bool)
      modifies this
      ensures ok <==> decode(b).Some?
      ensures files == old(files)[p := if ok then decode(b).value else ""]
      ensures dirs == old(dirs)
    {
      files := files[p := ""];
      var text := decode(b);
      if text.None? {
        return false;
      }
      files := files[p := text.value];
      return true;
    }

    /**
     * The file system part of one iteration, for an entry relocated to `t`:
     * a FILE entry creates the parent of `t` and writes its content there
     * when it has some; `ok` is false when that content could not be decoded.
     */
    method SaveEntry(t: string, c: Content, decode: Decoder) returns (ok: bool)
      modifies this
      ensures StepAt(old(State()), t, decode, c) == (if ok then Done(State()) else Failed(State()))
    {
      ok := true;
      if c.kind == File {
        MakeDirs(Parent(t));
        if c.content.Some? {
          ok := WriteText(t, c.content.value, decode);
        }
      }
    }

    /**
     * The loop of `save_to_folder` over the already sorted entries `cs`:
     * the file system ends as `SaveAll` says, and `ok` is false when a
     * decoding error stopped the loop.
     */
    method SaveSorted(ogPath: Option<string>, saveTo: string, cwd: string, cs: seq<Content>, decode: Decoder)
      returns (ok: bool)
      modifies this
      ensures SaveAll(old(State()), PlacementOf(Dest(ogPath, saveTo, cwd)), decode, cs) ==
              (if ok then Done(State()) else Failed(State()))
    {
      ghost var d0 := State();
      ghost var at := PlacementOf(Dest(ogPath, saveTo, cwd));
      var og := ogPath;
      for i := 0 to |cs|
        invariant SaveAll(d0, at, decode, cs[..i]) == Done(State())
        invariant og == ogPath || og == StripOg(ogPath)
      {
        SaveAllSnoc(d0, at, decode, cs, i);
        var t;
        og, t := Relocate(og, ogPath, saveTo, cwd, cs[i].path);
        ok := SaveEntry(t, cs[i], decode);
        if !ok {
          SaveAllFailedStays(d0, at, decode, cs, i + 1);
          return;
        }
      }
      assert cs[..|cs|] == cs;
      return true;
    }

    /**
     * `save_to_folder(og_path, save_to, contents)` run in `cwd`: the array
     * ends up sorted by path length with its entries themselves unchanged,
     * and the file system holds what `SaveToFolderSpec` computes; `ok` is
     * false when a decoding error stopped the run.
     */
    method SaveToFolder(ogPath: Option<string>, saveTo: string, cwd: string, contents: array<Content>, decode: Decoder)
      returns (ok: bool)
      modifies this, contents
      ensures contents[..] == LengthSort.SortByLen(old(contents[..]))
      ensures ok <==> SaveToFolderSpec(old(State()), Dest(ogPath, saveTo, cwd), decode, old(contents[..])).Done?
      ensures State() == SaveToFolderSpec(old(State()), Dest(ogPath, saveTo, cwd), decode, old(contents[..])).disk
    {
      LengthSort.SortInPlace(contents);
      ok := SaveSorted(ogPath, saveTo, cwd, contents[..], decode);
    }
  }
}
