/**
 * The local filesystem as the download worker sees it through pathlib:
 * `mkdir(parents=True, exist_ok=True)`, `is_file()` and `write_bytes()`.
 * Paths are `PosixPath.Path` values; a path with no components (".", "/",
 * "//") is a directory that always exists.  Permissions, free space and
 * links are not modelled.
 */
module Storage {
  import opened Wrappers
  import PosixPath
  import Base64

  type Path = PosixPath.Path
  type Bytes = seq<Base64.byte>

  /** The contents of the filesystem: regular files and directories. */
  datatype FsState = FsState(files: map<Path, Bytes>, dirs: set<Path>)

  /** A path is never both a file and a directory, and a bare root is always a directory. */
  predicate Consistent(st: FsState)
  {
    forall p :: p in st.files ==> p !in st.dirs && p.parts != []
  }

  predicate IsDir(st: FsState, p: Path)
  {
    p.parts == [] || p in st.dirs
  }

  predicate IsFile(st: FsState, p: Path)
  {
    p in st.files
  }

  /** The path made of the first `n` components of `p`. */
  function Prefix(p: Path, n: nat): Path
    requires n <= |p.parts|
  {
    PosixPath.Path(p.root, p.parts[..n])
  }

  /** `p` and every ancestor of it, the root excluded. */
  function Ancestry(p: Path): (s: set<Path>)
    ensures forall q :: q in s <==> exists n :: 1 <= n <= |p.parts| && q == Prefix(p, n)
  {
    set n | 1 <= n <= |p.parts| :: Prefix(p, n)
  }

  /**
   * `p.mkdir(parents=True, exist_ok=True)`: creates `p` and the missing
   * ancestors; raises (None) when `p` or an ancestor is a regular file.
   */
  function MkdirResult(st: FsState, p: Path): (r: Option<FsState>)
    ensures r.None? <==> exists q :: q in Ancestry(p) && q in st.files
    ensures r.Some? ==> r.value.files == st.files && r.value.dirs == st.dirs + Ancestry(p)
    ensures r.Some? ==> IsDir(r.value, p)
  {
    if exists q :: q in Ancestry(p) && q in st.files then None
    else
      assert p.parts == [] || p == Prefix(p, |p.parts|);
      Some(FsState(st.files, st.dirs + Ancestry(p)))
  }

  /**
   * `p.write_bytes(data)`: replaces the contents of `p` when its parent is a
   * directory and `p` is not one; otherwise the error is caught by the
   * caller and nothing changes.
   */
  function WriteResult(st: FsState, p: Path, data: Bytes): (r: FsState)
    ensures r.dirs == st.dirs
    ensures Writable(st, p) ==> r.files == st.files[p := data]
    ensures !Writable(st, p) ==> r == st
  {
    if Writable(st, p) then FsState(st.files[p := data], st.dirs) else st
  }

  predicate Writable(st: FsState, p: Path)
  {
    !IsDir(st, p) && IsDir(st, PosixPath.Parent(p))
  }

  /** Creating directories keeps the filesystem consistent. */
  lemma MakeDirsConsistent(st: FsState, p: Path)
    requires Consistent(st)
    ensures MkdirResult(st, p).Some? ==> Consistent(MkdirResult(st, p).value)
  {
  }

  /** Writing keeps the filesystem consistent. */
  lemma WriteBytesConsistent(st: FsState, p: Path, data: Bytes)
    requires Consistent(st)
    ensures Consistent(WriteResult(st, p, data))
  {
  }

  /** Creating directories that already exist changes nothing. */
  lemma MakeDirsIdempotent(st: FsState, p: Path)
    requires MkdirResult(st, p).Some?
    ensures MkdirResult(MkdirResult(st, p).value, p) == MkdirResult(st, p)
  {
    var st1 := MkdirResult(st, p).value;
    assert st1.dirs + Ancestry(p) == st1.dirs;
  }

  /** The filesystem the worker writes to, updated in place. */
  class FileSystem {
    var files: map<Path, Bytes>
    var dirs: set<Path>

    function State(): FsState
      reads this
    {
      FsState(files, dirs)
    }

    ghost predicate Valid()
      reads this
    {
      Consistent(State())
    }

    constructor ()
      ensures Valid() && files == map[] && dirs == {}
    {
      files := map[];
      dirs := {};
    }

    /** `mkdir(parents=True, exist_ok=True)`; `ok` is false where pathlib raises. */
    method MakeDirs(p: Path) returns (ok: bool)
      requires Valid()
      modifies this
      ensures Valid()
      ensures ok <==> MkdirResult(old(State()), p).Some?
      ensures ok ==> State() == MkdirResult(old(State()), p).value
      ensures !ok ==> State() == old(State())
    {
      var r := MkdirResult(State(), p);
      MakeDirsConsistent(State(), p);
      if r.Some? {
        files, dirs := r.value.files, r.value.dirs;
        ok := true;
      } else {
        ok := false;
      }
    }

    method IsFile(p: Path) returns (b: bool)
      ensures b <==> p in files
    {
      b := p in files;
    }

    /** `write_bytes`; `ok` is false where the write raises (and the caller logs it). */
    method WriteBytes(p: Path, data: Bytes) returns (ok: bool)
      requires Valid()
      modifies this
      ensures Valid()
      ensures ok <==> Writable(old(State()), p)
      ensures State() == WriteResult(old(State()), p, data)
    {
      ok := Writable(State(), p);
      if ok {
        files := files[p := data];
      }
    }
  }
}
