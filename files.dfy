/** The part of the file system the clip extractors touch, seen as a map
    from path to contents. Only the operations the extractors call are
    modelled: `os.path.exists`, `os.remove`, `os.rename`, and the encoder
    writing its output file. */
module Files {

  type Path = string
  type Bytes = seq<bv8>

  class FileSystem {
    var files: map<Path, Bytes>

    constructor (initial: map<Path, Bytes>)
      ensures files == initial
    {
      files := initial;
    }

    /** `os.path.exists(p)`. */
    predicate Exists(p: Path)
      reads this
    {
      p in files
    }

    /** `os.remove(p)` on an existing file. */
    method Remove(p: Path)
      requires p in files
      modifies this
      ensures files == old(files) - {p}
    {
      files := files - {p};
    }

    /** `os.rename(src, dst)` on POSIX: `dst` is replaced if present. */
    method Rename(src: Path, dst: Path)
      requires src in files
      modifies this
      ensures files == (old(files) - {src})[dst := old(files)[src]]
    {
      files := (files - {src})[dst := files[src]];
    }

    /** A tool writing `data` to `p`, creating or overwriting it. */
    method Write(p: Path, data: Bytes)
      modifies this
      ensures files == old(files)[p := data]
    {
      files := files[p := data];
    }
  }

  /** Maps `m1` and `m2` say the same about path `p`. */
  ghost predicate AgreeAt(m1: map<Path, Bytes>, m2: map<Path, Bytes>, p: Path) {
    (p in m1 <==> p in m2) && (p in m1 ==> m1[p] == m2[p])
  }
}
