/**
 A file system reduced to what the output builders touch: a map from a
 path to the text a file holds, the one I/O error a read can raise, and the
 truncating write that `open(path, "w")` followed by writes and a close
 amounts to.
 */
module Files {

  /** Each present path maps to the file's text as a text-mode read sees it. */
  type FileSystem = map<string, string>

  /** The read error the merge can meet: a source log that is not there. */
  datatype IOError = NotFound(path: string)

  /** How an operation ended; on failure it names the path that was missing. */
  datatype Status = Done | Failed(error: IOError)

  /** Opening `path` for writing and writing `content`: the entry is replaced
      (created if absent), whatever it held before, and no other entry changes. */
  function Write(fs: FileSystem, path: string, content: string): (fs': FileSystem)
    ensures path in fs' && fs'[path] == content
    ensures fs'.Keys == fs.Keys + {path}
    ensures forall p :: p in fs && p != path ==> fs'[p] == fs[p]
  {
    fs[path := content]
  }

  /** A second write to the same path discards the first one entirely:
      writing truncates, it never appends. */
  lemma WriteOverwrites(fs: FileSystem, path: string, first: string, second: string)
    ensures Write(Write(fs, path, first), path, second) == Write(fs, path, second)
  {
  }
}
