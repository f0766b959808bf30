/** The abstract file system the classification pass works on: a directory
    is a map from entry names to entries, and listing order is supplied by
    the caller as a sequence, since the operating system defines it. */
module FileSystem {

  import opened Sequences

  type Bytes = seq<bv8>

  /** What `os.path.isfile` / `os.path.isdir` distinguish. A subfolder is
      described by the regular files in it. */
  datatype Entry =
    | File(data: Bytes)
    | Folder(files: map<string, Bytes>)
    | Other

  /** A path the pass is given: a directory, or anything else (missing,
      a regular file, ...). */
  datatype Place = Directory(entries: map<string, Entry>) | NotADirectory

  /** `order` is what `os.listdir` may report for a directory with these
      entries: each name exactly once, in some order. */
  ghost predicate IsListing(order: seq<string>, entries: map<string, Entry>)
  {
    Distinct(order) && (forall n :: n in order <==> n in entries)
  }

  predicate IsRegularFile(entries: map<string, Entry>, name: string)
  {
    name in entries && entries[name].File?
  }

  predicate IsSubfolder(entries: map<string, Entry>, name: string)
  {
    name in entries && entries[name].Folder?
  }
}
