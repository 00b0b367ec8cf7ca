/**
  An abstract directory tree: the set of directories and the set of files,
  each file named by its directory and its name. Paths are lists of segments
  under a common root; the empty path is the root, which always exists.
 */
module FileSystem {

  type Path = seq<string>

  datatype FileRef = FileRef(dir: Path, name: string)

  datatype FS = FS(dirs: set<Path>, files: set<FileRef>)

  /** `Path.name` of a directory path. */
  function Name(p: Path): string {
    if p == [] then "" else p[|p| - 1]
  }

  /** `q` is `p` or one of its parent directories. */
  predicate IsAncestor(q: Path, p: Path) {
    |q| <= |p| && q == p[..|q|]
  }

  /** `p` lies strictly below `base`. */
  predicate Under(base: Path, p: Path) {
    |p| > |base| && p[..|base|] == base
  }

  /** `(d / name).exists()`: a file or a directory of that name. */
  predicate Exists(fs: FS, d: Path, name: string) {
    FileRef(d, name) in fs.files || d + [name] in fs.dirs
  }

  /** `os.makedirs(p, exist_ok=True)`: `p` and every missing ancestor now exist. */
  function MakeDirs(fs: FS, p: Path): (r: FS)
    ensures r.files == fs.files
    ensures forall q :: q in r.dirs <==> q in fs.dirs || IsAncestor(q, p)
  {
    FS(fs.dirs + set i | 0 <= i <= |p| :: p[..i], fs.files)
  }

  /** Creating an existing directory is a no-op, never an error. */
  lemma MakeDirsIdempotent(fs: FS, p: Path)
    ensures MakeDirs(MakeDirs(fs, p), p) == MakeDirs(fs, p)
  {
  }
}
