/**
 * The document tree as the handler sees it through `os.path.exists`,
 * `os.path.isdir`, `os.path.isfile`, `os.listdir` and `open(..., 'rb')`:
 * a map from the path strings the handler passes to the operating system to
 * what lies there.  Symbolic links, `.` and `..` are resolved by the
 * operating system, so they are folded into the map's keys.
 */
module FileSystem {
  import opened Wrappers

  datatype Node =
    | Dir(listing: Option<set<string>>)       // None: os.listdir raises OSError
    | File(content: seq<bv8>, readable: bool) // readable: open(path, 'rb') succeeds
    | Other                                    // exists, but is neither (device, socket, ...)

  type Tree = map<string, Node>

  /** `os.path.exists(p)`. */
  predicate Exists(fs: Tree, p: string) { p in fs }

  /** `os.path.isdir(p)`. */
  predicate IsDir(fs: Tree, p: string) { p in fs && fs[p].Dir? }

  /** `os.path.isfile(p)`. */
  predicate IsFile(fs: Tree, p: string) { p in fs && fs[p].File? }

  /** `open(p, 'rb')` succeeds: only readable regular files can be opened
      and read; a directory raises `IsADirectoryError`. */
  predicate Opens(fs: Tree, p: string) { IsFile(fs, p) && fs[p].readable }
}
