# chirpstack-api generate.py: a verified model

`generate.py` fetches the protocol buffer definitions of the ChirpStack API and of two
repositories it depends on (googleapis and protobuf). It lays them out on disk and builds
the argument list for `grpc_tools.protoc`. This project models the logic at the heart of
that script and proves properties of the model. The modelled parts are:

- **Request addresses** (`Urls`). These are the GitHub contents-listing address of a directory
  and the jsDelivr address of a file's raw bytes.
- **The recursive walk of `get_content`.** This comes in two parts:
  - `TreeWalk` specifies the walk as functions over an abstract remote tree (`Model.Remote`).
    A listing request either returns the entries of a directory or fails.
  - `Fetcher` is the imperative version. It has a `GHContent` class whose `GetContent`
    method sets its own `content` field, and a recursive `GetContent` method. That method
    builds fresh `GHContent` objects, extends the response with the sub-results in listing
    order, and then fetches every entry of the extended list.
- **Path handling** (`Paths`). This covers `str.strip("/")`, `left_remove`,
  `os.path.join` and `pathlib.Path.parent` on POSIX paths.
- **`save_to_folder`.** This also comes in two parts:
  - `LengthSort` holds the stable sort by path length, both as a function and in place on
    an array.
  - `Materialize` covers where each entry is relocated and the effect of the loop on an
    abstract file system. The file system is a map from path to text plus a set of
    created directories. A `FileSystem` class holds that state and the methods update it.
- **The protoc argument list** (`Protoc`). This is the expression `" ".join(sorted(map(...,
  filter(...))))` in `main`.

The network is a function from address to bytes. It gives the body of whatever answer
the address gets, error statuses included, and `None` only when the request fails in
transport.
UTF-8 decoding is a parameter that may fail. The working directory is a parameter.
Each `gather` is modelled as running its tasks one after another in list order. This is
the order in which `gather` returns its results.

The commit hash goes only into the listing request (`?ref=`, generate.py:55-58).
`download_content` (generate.py:32-36) builds its jsDelivr address without naming any
commit, so a commit hash pins only the listings, not the downloaded files. `Urls.DownloadUrl`
therefore takes no commit hash.

## Model

| member | source | states |
|---|---|---|
| Paths.LStrip | generate.py:54 | the result is a suffix of the input; only slashes were removed in front of it, and it does not start with a slash |
| Paths.RStrip | generate.py:54 | the result is a prefix of the input; only slashes follow it, and it does not end with a slash |
| Paths.Strip | generate.py:54 | `strip("/")` leaves no slash at either end, and keeps a prefix of the left-stripped string followed only by slashes |
| Paths.StripSlashFree | generate.py:54 | stripping a path that has no slash at either end changes nothing |
| Paths.StripIdempotent | generate.py:102 | stripping twice is the same as stripping once (`og_path` is re-stripped on every iteration) |
| Paths.StripDecomposes | generate.py:105 | the input is slashes, then the stripped result, then slashes |
| Paths.StripLeadingSlash | generate.py:105 | a leading slash before an otherwise clean path is dropped |
| Paths.StripKeepsAbsent | generate.py:54 | stripping introduces no character that was not already there |
| Paths.LeftRemove | generate.py:90-93 | if `rem` is a prefix of `s` then `rem + r == s`, otherwise `r == s` |
| Paths.LeftRemoveOnce | generate.py:90-93 | the prefix is removed exactly once, even when the rest starts with it again |
| Paths.LeftRemoveEmpty | generate.py:90-93 | removing the empty prefix is the identity |
| Paths.JoinSeparated | generate.py:105 | joining a relative component gives the base, one separator unless the base already ends with a slash, and the component |
| Paths.Join | generate.py:105 | POSIX `os.path.join` of two components; `Paths.JoinSeparated` states the shape for a slash-free component |
| Paths.SeparatorAfter | generate.py:105 | a path ending in a character other than a slash is followed by a separator when joined |
| Paths.StripTrailingSlash | generate.py:105 | a trailing slash after an otherwise clean path is dropped, so `name/` and `/name` strip to the same `name` |
| Paths.Parent | generate.py:108 | `pathlib.Path(p).parent` on normalised paths; `Paths.ParentOfJoin` shows it undoes joining a plain name |
| Paths.LastSlash | generate.py:108 | finds the last slash of a path, or reports that there is none |
| Paths.ParentOfJoin | generate.py:108 | the parent of `join(dir, name)` is `dir` for a plain file name |
| Urls.ListingResource | generate.py:54-58 | the contents address of the slash-stripped path; `Urls.ResourceHasNoQuery` and `Urls.ListingUrlIgnoresSlashes` state its properties |
| Urls.ListingUrl | generate.py:54-58 | the listing request; `Urls.ListingUrlQuery` shows it carries `ref=<hash>` exactly when a hash is given, and `Urls.ListingUrlIgnoresSlashes` that surrounding slashes do not matter |
| Urls.DownloadUrl | generate.py:32-36 | the download address: the jsDelivr base, owner, repository and the path as given, with no commit; `Urls.DownloadUrlInjective` shows different paths get different addresses |
| Urls.FirstIndex | generate.py:55-58 | a parse-back helper through which `Urls.ListingUrlQuery` states the round-trip of the query; it finds the first occurrence of a character, and `None` exactly when it is absent |
| Urls.NoQuery | generate.py:58 | parse-back helper for `Urls.ListingUrlQuery`: an address without `?` has no query part |
| Urls.WithQuery | generate.py:58 | parse-back helper for `Urls.ListingUrlQuery`: an address built as resource `?` query splits back into that resource and that query |
| Urls.ResourceHasNoQuery | generate.py:58 | the listing address has no `?` before any ref is added, when owner, repository and path have none |
| Urls.ListingUrlQuery | generate.py:54-58 | the listing address carries the query `ref=<hash>` exactly when a commit hash is given, and its resource part is always the contents address of the stripped path |
| Urls.ListingUrlIgnoresSlashes | generate.py:54 | slashes around the requested path do not change the listing address |
| Urls.DownloadUrlInjective | generate.py:32-36 | different file paths in one repository are downloaded from different addresses |
| TreeWalk.DownloadContent | generate.py:32-36 | a download succeeds exactly when the CDN answers; it then gives a FILE record for the same path whose content is exactly the bytes served at the jsDelivr address of that path |
| TreeWalk.Resolve | generate.py:44-48 | a DIR entry is left untouched; a FILE entry keeps its path and kind and gets exactly the bytes served for its own path, failing exactly when that download fails |
| TreeWalk.FetchAll | generate.py:81-85 | the second gather succeeds exactly when every entry resolves, keeps the length, and puts the resolution of entry i at position i |
| TreeWalk.ResolveTwice | generate.py:44-48 | resolving an already resolved entry changes nothing |
| TreeWalk.RefetchIdempotent | generate.py:83 | fetching an already fetched list again gives the same list, so re-fetching the sub-results is harmless |
| TreeWalk.ResolveResolves | generate.py:44-48 | a resolved entry is in its final state: a DIR has no content and a FILE has its own download |
| TreeWalk.FetchAllResolves | generate.py:81-85 | after the second gather every entry is in its final state |
| TreeWalk.Describe | generate.py:60 | the record `validate_python` builds for each listed entry: its path and kind, and no content; `Fetcher.NewEntries` builds objects holding exactly these values |
| TreeWalk.Walk | generate.py:51-87 | `get_content` on values; `TreeWalk.WalkOrder`, `TreeWalk.WalkSucceeds`, `TreeWalk.WalkComplete`, `TreeWalk.WalkFiles`, `TreeWalk.WalkResolved` and `TreeWalk.WalkUnique` state its properties |
| TreeWalk.WalkDirs | generate.py:64-79 | the first gather and the `extend` loop; `TreeWalk.WalkDirsSucceeds`, `TreeWalk.WalkDirsResolved` and `TreeWalk.EntriesOfSplit` state its properties |
| TreeWalk.WalkResolved | generate.py:51-87 | every DIR entry of the result has no content, and every FILE entry has the bytes of its own path |
| TreeWalk.WalkDirsResolved | generate.py:64-79 | the same holds for the concatenated sub-results |
| TreeWalk.WalkOrder | generate.py:60-87 | the result is the fetched root listing followed by the sub-results of the DIR entries, in listing order |
| TreeWalk.WalkSucceeds | generate.py:51-87 | the walk succeeds exactly when every listing below the root is available and every file below it downloads |
| TreeWalk.WalkDirsSucceeds | generate.py:64-79 | the sub-walks succeed exactly when every DIR entry's subtree can be fetched |
| TreeWalk.EntriesOfSplit | generate.py:64-79 | the entries below a listing are its own entries together with those the sub-walks return |
| TreeWalk.WalkComplete | generate.py:51-87 | with contents removed, the result holds exactly the entries of the tree below the root, each as often as it occurs there |
| TreeWalk.BareFetched | generate.py:81-85 | fetching changes no entry's path or kind |
| TreeWalk.WalkFiles | generate.py:51-87 | a path is a FILE entry of the result exactly when it is a file below the root |
| TreeWalk.WalkUnique | generate.py:51-87 | when the tree's listed paths are distinct, the result has no two entries with the same path |
| Fetcher.GHContent.constructor | generate.py:39-42 | a new entry has the listed path and kind and no content |
| Fetcher.GHContent.GetContent | generate.py:44-48 | the object ends as `Resolve` says, succeeding exactly when `Resolve` does; when the download fails the content is left as it was |
| Fetcher.NewEntries | generate.py:60 | builds one fresh, distinct object per listed entry, with the path and kind of that entry and no content |
| Fetcher.GatherDirs | generate.py:62-79 | the sub-walks of the DIR entries succeed exactly when `WalkDirs` does; their results are fresh, distinct objects whose values are `WalkDirs` |
| Fetcher.FetchContents | generate.py:81-85 | the objects end holding `FetchAll` of their old values, succeeding exactly when it does |
| Fetcher.ExtendAndFetch | generate.py:78-87 | the response is extended by the sub-results in order, then fetched; the returned list is that extended list, and its values are `Walk` |
| Fetcher.GetContent | generate.py:51-87 | the imperative walk succeeds exactly when `Walk` does; it returns fresh, distinct objects whose values are exactly `Walk` of the listing |
| LengthSort.Key | generate.py:97 | the sort key `len(z.path)`; `LengthSort.SortByLenSorted` and `LengthSort.SortByLenStable` state the sort by it |
| LengthSort.Insert | generate.py:97 | inserts one entry after every entry of at most its length; `LengthSort.InsertMultiset`, `LengthSort.InsertSorted` and `LengthSort.InsertFilter` state its properties |
| LengthSort.SortByLen | generate.py:97 | `sorted(..., key=len(path))` on values; `LengthSort.SortByLenSorted`, `LengthSort.SortByLenPermutation`, `LengthSort.SortByLenStable` and `LengthSort.SortByLenUnique` state its properties |
| LengthSort.FilterAppend | generate.py:97 | the entries of one length in a concatenation are those of each part, in order |
| LengthSort.InsertMultiset | generate.py:97 | inserting adds exactly the inserted entry |
| LengthSort.InsertSorted | generate.py:97 | inserting into a list sorted by path length keeps it sorted |
| LengthSort.InsertFilter | generate.py:97 | an inserted entry goes after all entries of its own length |
| LengthSort.SortByLenSorted | generate.py:97 | the sorted list is non-decreasing in path length |
| LengthSort.SortByLenPermutation | generate.py:97 | the sorted list is a permutation of the input |
| LengthSort.SortByLenStable | generate.py:97 | entries of equal path length keep their relative order |
| LengthSort.SortedUnique | generate.py:97 | two lists sorted by length with the same entries of every length, in the same order, are equal |
| LengthSort.SortByLenUnique | generate.py:97 | any sorted list that has the input's entries of every length in their input order is exactly `SortByLen`, so every stable sort by `len(path)` (Python's included) gives this result |
| LengthSort.InsertAt | generate.py:97 | moves the entry at index i into its place among the sorted first i entries, and leaves the rest of the array untouched |
| LengthSort.SortInPlace | generate.py:97 | sorts the array in place; its contents become `SortByLen` of the old contents |
| Materialize.Root | generate.py:105 | the directory everything is saved below, `join(cwd, save_to.strip("/"))`; `Materialize.LayoutRoot` gives its form for a clean `save_to` |
| Materialize.Target | generate.py:101-105 | the destination of an entry; `Materialize.TargetShape`, `Materialize.RelativeUnderOg`, `Materialize.RelativeOutsideOg`, `Materialize.TargetIgnoresSlashes` and `Materialize.Layout` state its properties |
| Materialize.Relative | generate.py:101-105 | the relocated relative path never starts or ends with a slash |
| Materialize.TargetShape | generate.py:105 | the destination is the root `join(cwd, save_to.strip("/"))`, a separator, and the slash-free relative path |
| Materialize.RelativeUnderOg | generate.py:101-105 | an entry under `og_path` is saved under the rest of its path, slash-stripped |
| Materialize.RelativeOutsideOg | generate.py:101-105 | without `og_path`, or for an entry not under it, only the slash stripping applies |
| Materialize.TargetIgnoresSlashes | generate.py:102-105 | slashes around `og_path` and `save_to` do not change the destination |
| Materialize.Layout | generate.py:101-105 | for any slash-free `og_path` and non-empty slash-free `save_to`, and any working directory not ending in a slash, `<og_path>/<rest>` is saved as `<cwd>/<save_to>/<rest>` |
| Materialize.LayoutRelative | generate.py:101-105 | below `og_path`, `<og_path>/<rest>` is relocated to `<rest>` |
| Materialize.LayoutRoot | generate.py:105 | for a clean `save_to` the root is `<cwd>/<save_to>`, and a separator follows it |
| Materialize.ChirpstackLayout | generate.py:120-130 | with `og_path = "api/proto"` and `save_to = "chirpstack"`, for every working directory not ending in a slash, every `api/proto/<rest>` is saved as `<cwd>/chirpstack/<rest>` |
| Materialize.SlashedTwins | generate.py:101-105 | without `og_path`, the paths `/<name>` and `<name>/` are saved to the same file |
| Materialize.StepAt | generate.py:107-111 | one iteration on values; `Materialize.SaveAllDirs`, `Materialize.SaveAllFiles` and `Materialize.SaveAllStopsAtFailure` state what the iterations do together |
| Materialize.SaveAll | generate.py:98-111 | the loop over the entries in order, stopping at the first decoding error; `Materialize.SaveAllSucceeds`, `Materialize.SaveAllFiles`, `Materialize.SaveAllDirs`, `Materialize.SaveAllFailedStays` and `Materialize.SaveAllIdempotent` state its properties |
| Materialize.SaveToFolderSpec | generate.py:96-111 | `save_to_folder` on values, the length sort followed by the loop; `Materialize.SaveToFolderReorder` and `Materialize.SaveToFolderOrderMatters` state how it depends on the input order |
| Materialize.LastWriter | generate.py:107-111 | finds the last entry that writes a given path, or reports that none does |
| Materialize.SaveAllSucceeds | generate.py:107-111 | the loop completes exactly when every FILE entry with content decodes |
| Materialize.SaveAllFiles | generate.py:107-111 | last writer wins and nothing else changes: a path holds the decoded content of the last FILE entry with content relocated there, or what it held before when no entry writes it |
| Materialize.SaveAllDirs | generate.py:107-108 | the directories created are exactly the parents of the destinations of the FILE entries, including those without content; DIR entries create none |
| Materialize.SaveAllStopsAtFailure | generate.py:110-111 | the first entry that fails to decode stops the run; its file is left empty, because `open(..., "w+")` truncates before the decode |
| Materialize.SaveAllFailedStays | generate.py:98-111 | once the loop has failed, later entries change nothing |
| Materialize.SaveAllIdempotent | generate.py:96-111 | saving the same entries again onto the result of a completed run changes nothing |
| Materialize.SaveAllReorder | generate.py:98-111 | when the loop completes and no two different FILE entries with content are saved to the same file, any permutation of the entries gives the same disk |
| Materialize.SameLastWriter | generate.py:107-111 | under that condition, a permutation has a last writer of a path exactly when the original does, and it is the same entry |
| Materialize.SaveToFolderReorder | generate.py:96-111 | under the same condition `save_to_folder` gives the same disk for every order of its input |
| Materialize.SaveAllOrderMatters | generate.py:107-111 | two FILE entries saved to the same file with different decoded texts leave different disks in the two orders |
| Materialize.KeepOrder | generate.py:97 | two entries of equal path length stay in their order after the length sort |
| Materialize.SaveToFolderOrderMatters | generate.py:97-111 | two equal-length entries saved to the same file with different texts make `save_to_folder` depend on the order of its input |
| Materialize.Relocate | generate.py:101-105 | one iteration's re-stripped `og_path` and the destination it computes, which is the placement of the entry |
| Materialize.FileSystem.MakeDirs | generate.py:108 | adds the directory and changes no file |
| Materialize.FileSystem.WriteText | generate.py:110-111 | the file is truncated, then holds the decoded text; on a decoding error it stays empty and the call fails |
| Materialize.FileSystem.SaveEntry | generate.py:107-111 | one iteration changes the file system as `StepAt` says |
| Materialize.FileSystem.SaveSorted | generate.py:98-111 | the loop leaves the file system as `SaveAll` says, and reports failure exactly when it stopped at a decoding error |
| Materialize.FileSystem.SaveToFolder | generate.py:96-111 | the list ends up as its stable sort by path length, with the entries themselves unchanged, and the file system ends up as `SaveToFolderSpec` of the sorted list |
| Protoc.StrLe | generate.py:177 | Python's `<=` on strings, the order `sorted` uses: code point by code point, a proper prefix first; `Protoc.StrLeTotal`, `Protoc.StrLeAntisymmetric` and `Protoc.StrLeTransitive` show it is a total order |
| Protoc.StrLeTotal | generate.py:177 | the string order used by `sorted` is total |
| Protoc.StrLeAntisymmetric | generate.py:177 | the string order is antisymmetric |
| Protoc.StrLeTransitive | generate.py:177 | the string order is transitive |
| Protoc.InsertStringSorted | generate.py:177 | inserting into a sorted list of strings keeps it sorted |
| Protoc.SortStringsSorted | generate.py:177 | `sorted` gives an ascending list |
| Protoc.SortStringsPermutation | generate.py:177 | `sorted` gives a permutation of its input |
| Protoc.SortedStringsUnique | generate.py:177 | two ascending lists with the same elements are equal, so the sorted result does not depend on the sorting algorithm |
| Protoc.SortStrings | generate.py:177 | `sorted` on strings; `Protoc.SortStringsSorted`, `Protoc.SortStringsPermutation` and `Protoc.SortedStringsUnique` state its properties |
| Protoc.FileArguments | generate.py:179-181 | the arguments of the FILE entries in order; `Protoc.FileArgumentsMembers` and `Protoc.FileArgumentsCount` state its properties |
| Protoc.JoinSpace | generate.py:175 | `" ".join`; `Protoc.JoinSpaceNoSpace` shows splitting at single spaces undoes it for space-free words |
| Protoc.ProtocPaths | generate.py:175-186 | the protoc argument string; `Protoc.ProtocPathsSpec` and `Protoc.ProtocCoversTree` state its properties |
| Protoc.Argument | generate.py:180 | each argument is `left_remove(path, og_path)` with no slash at either end |
| Protoc.FileArgumentsMembers | generate.py:179-181 | a string is listed exactly when some FILE entry gives it; DIR entries give nothing |
| Protoc.FileArgumentsCount | generate.py:179-181 | there is exactly one argument per FILE entry |
| Protoc.SplitSpace | generate.py:175 | splitting at single spaces always gives at least one piece |
| Protoc.JoinSpaceNoSpace | generate.py:175 | joining space-free words with single spaces and splitting again gives the words back |
| Protoc.ProtocPathsSpec | generate.py:175-186 | the argument list is the ascending permutation of the FILE arguments; when they are space-free and not empty, splitting the joined string gives that list back |
| Protoc.SortedArgumentsMembers | generate.py:177 | sorting neither adds nor drops a path |
| Protoc.ProtocCoversTree | generate.py:122-186 | after a successful walk, a path is in the protoc list exactly when it comes from some file below the root, with `og_path` removed and slashes stripped |

## Left out

- HTTP: the aiohttp session and requests are replaced by two inputs. One is the remote tree, whose listings are given directly. The other is a function from address to bytes. `Urls.ListingUrl` builds the listing address, but the walk takes the listing's answer as given instead of looking it up by address.
- Concurrency: `create_task`, `gather` and `run` are modelled as in-order sequential execution, which matches the order in which `gather` returns results. Interleavings do not change the result because each task writes only to its own objects.
- Errors: a listing fails (`Unlisted`) when its request fails in transport or its answer is not a list of entries, as `validate_python` (generate.py:60) then raises; an error status from the contents service gives such an answer. The code never checks the HTTP status of a download, so the body of an error answer (a 404 page, say) is saved as the file; the model follows it, and only a transport failure fails a download. A decoding error is a `Failed` outcome that ends the loop. The model does not distinguish exception types. A failed download inside a gather is treated as failing the whole walk. The other tasks of that gather, which may already have run, are not modelled.
- Pydantic validation (`TypeAdapter.validate_python`, `Field` alias) is not modelled. Listings are assumed well-formed, and the `name`, `size` and `sha` fields of `GHContent` are left out. The conversion of `GHContent` objects into `Content` values before `save_to_folder` is a projection to values.
- Order of `save_to_folder`: `Materialize.SaveToFolderReorder` holds only when no two different FILE entries with content are saved to the same file. Otherwise the order of the listing matters: without `og_path`, the equal-length paths `/x` and `x/` (with `save_to = "out"` and working directory `/w`) are both saved to `/w/out/x`, and the later one wins (`Materialize.SlashedTwins`, `Materialize.SaveToFolderOrderMatters`). Two undecodable entries of equal length likewise stop the run at different files depending on the order.
- Protoc.SplitSpace: models Python's `str.split(" ")`, not the shell's splitting of the unquoted argument string at runs of blanks. An argument that is empty (a FILE whose path is `og_path` itself) or holds a space is not covered by `Protoc.ProtocPathsSpec`.
- UTF-8 decoding is an arbitrary partial function passed as a parameter.
- The file system is a map from path to text plus a set of created directories. `makedirs` records only the parent itself, not its ancestors. Conflicts between files and directories, permissions and I/O errors are not modelled. `getcwd` is a parameter.
- Path normalisation by `pathlib` (collapsing `.` and doubled slashes in `Path(...).parent`) is not modelled. `Paths.Parent` cuts at the last slash, which agrees with `pathlib` on the normalised paths `save_to_folder` builds.
- Materialize.FileSystem.SaveToFolder: `deepcopy` is implicit because `Content` is a value type; object identity of the list elements is not modelled.
- LengthSort.SortInPlace: Python's Timsort is replaced by insertion sort. `LengthSort.SortByLenUnique` shows that every stable sort by path length gives the same list.
- Strings are sequences of Unicode scalar values, so Python strings holding lone surrogates are not modelled. Otherwise the code-point order of `sorted` is modelled exactly.
- `main`: the hard-coded repository names and file lists, `rmdir`/`rmtree`/`makedirs` of the output directory, the `protoc` subprocess and argparse are orchestration glue. They are not modelled beyond the chirpstack layout example and the argument-list expression.
- Downloads of the googleapis and protobuf files in `main` are `TreeWalk.DownloadContent` calls followed by `save_to_folder` without `og_path`. They are covered by those members, not modelled separately.
