/**
 * The records of generate.py and the remote repository they are read from.
 */
module Model {
  import opened Wrappers

  /** A byte of downloaded content. */
  newtype Byte = b: int | 0 <= b < 256

  type Bytes = seq<Byte>

  /** `Typ`: the two kinds of entry a contents listing reports. */
  datatype Kind = Dir | File

  /**
   * `Content`: one entry of the remote repository, with its raw bytes once
   * they have been downloaded. A deep copy of a `Content` is just the value.
   */
  datatype Content = Content(path: string, kind: Kind, content: Option<Bytes>)

  /**
   * The remote repository as the contents listings describe it: a file, or
   * a directory together with what the listing request for it returns.
   */
  datatype Remote = RemoteFile(path: string) | RemoteDir(path: string, listing: Listing)

  /**
   * The answer to one listing request: the entries, or a request that
   * failed in transport or whose answer is not a list of entries (an
   * error status from the contents service gives such an answer).
   */
  datatype Listing = Listed(entries: seq<Remote>) | Unlisted

  /** The kind under which a listing reports `e`. */
  function KindOf(e: Remote): Kind
  {
    if e.RemoteDir? then Dir else File
  }
}
