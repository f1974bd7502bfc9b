/**
 * An abstract local filesystem, as far as the main process uses it: which paths exist, what
 * the files hold, which paths fail when touched (with the error message the failure carries)
 * and the formatted creation time `stat` yields for a path.
 */
module FileSystem {
  import opened Wrappers
  import opened GraphData

  type Path = string

  /** What a file holds: raw bytes (a video), a saved project's JSON text, or a player page. */
  datatype Content =
    | Bytes(bytes: seq<bv8>)
    | ProjectJson(text: string)
    | PlayerPage(document: PlayerDocument)

  datatype Fs = Fs(
    files: map<Path, Content>,
    dirs: set<Path>,
    faults: map<Path, string>,
    birthTimes: map<Path, string>)

  /** Message of the error a file operation on a directory raises. */
  const DirectoryError: string := "EISDIR: illegal operation on a directory"

  /** Message of the error an operation raises when a proper ancestor of its path is a regular file. */
  const NotDirectoryError: string := "ENOTDIR: not a directory"

  /** Message of the error `mkdirSync` raises for the empty path. */
  const NoEntryError: string := "ENOENT: no such file or directory"

  /** `fs.existsSync(p)`: the empty path never exists. */
  predicate Exists(fs: Fs, p: Path) {
    p != [] && (p in fs.files || p in fs.dirs)
  }

  /** `path.join(dir, name)` for a plain file or directory name: one separator between the two. */
  function Join(dir: Path, name: Path): (p: Path)
    ensures |p| >= |dir| + |name| && p[..|dir|] == dir
  {
    if dir == [] then name
    else if dir[|dir| - 1] == '/' then dir + name
    else dir + "/" + name
  }

  /** The joined path ends with the name. */
  lemma JoinEndsWithName(dir: Path, name: Path)
    ensures var p := Join(dir, name); |p| >= |name| && p[|p| - |name|..] == name
  {
  }

  /** `dir` is a prefix of `p`. */
  predicate Under(p: Path, dir: Path) {
    |dir| <= |p| && p[..|dir|] == dir
  }

  /**
   * `p` is the directory `dir` or lies below it: `dir` is a prefix of `p` that ends at a
   * separator boundary, so `/a/out/x` is inside `/a/out` and `/a/outtakes/x` is not. The empty
   * directory, Node's working directory, holds the relative paths.
   */
  predicate Inside(p: Path, dir: Path) {
    && Under(p, dir)
    && if dir == [] then p == [] || p[0] != '/'
       else |p| == |dir| || dir[|dir| - 1] == '/' || p[|dir|] == '/'
  }

  /** A sibling whose name merely starts with the directory's name is not inside it. */
  lemma SiblingNotInside()
    ensures Under("/a/outtakes/x.mp4", "/a/out") && !Inside("/a/outtakes/x.mp4", "/a/out")
    ensures Inside("/a/out/videos/x.mp4", "/a/out") && Inside("/a/out", "/a/out")
  {
  }

  /** A relative name joined to a directory lies inside it. */
  lemma JoinInside(dir: Path, name: Path)
    requires name == [] || name[0] != '/'
    ensures Inside(Join(dir, name), dir)
  {
    var p := Join(dir, name);
    if dir != [] && dir[|dir| - 1] != '/' && |p| > |dir| {
      assert p == dir + "/" + name;
      assert p[|dir|] == '/';
    }
  }

  /** Containment is transitive. */
  lemma InsideTransitive(p: Path, d1: Path, d2: Path)
    requires Inside(p, d1) && Inside(d1, d2)
    ensures Inside(p, d2)
  {
    assert p[..|d1|][..|d2|] == p[..|d2|];
    if d2 == [] {
      if d1 != [] {
        assert p[0] == d1[0];
      }
    } else if |p| > |d2| && d2[|d2| - 1] != '/' {
      if |d1| == |d2| {
        assert d1 == d2;
      } else {
        assert p[|d2|] == d1[|d2|];
      }
    }
  }

  /** Some proper ancestor of `p` is a regular file, so nothing can be created or opened at `p`. */
  predicate FileAbove(fs: Fs, p: Path) {
    exists q :: q in fs.files && Under(p, q + "/")
  }

  /** For a name without separators, the ancestors of `path.join(dir, name)` are those of `dir` and `dir` itself. */
  lemma JoinAncestors(dir: Path, name: Path, q: Path)
    requires '/' !in name
    ensures Under(Join(dir, name), q + "/") <==>
      Under(dir, q + "/") || (q == dir && dir != [] && dir[|dir| - 1] != '/')
  {
    var p := Join(dir, name);
    if Under(p, q + "/") {
      assert p[|q|] == (q + "/")[|q|] == '/';
      if |q| < |dir| {
        assert (q + "/") == p[..|q| + 1] == dir[..|q| + 1];
      }
    }
    if Under(dir, q + "/") {
      assert p[..|q| + 1] == dir[..|q| + 1];
    }
    if q == dir && dir != [] && dir[|dir| - 1] != '/' {
      assert p == dir + "/" + name;
      assert p[..|q| + 1] == dir + "/";
    }
  }

  /**
   * `fs.mkdirSync(p, {recursive: true})` for a path that does not exist yet: it fails for the
   * empty path (ENOENT) and when the path faults or lies below a regular file.
   */
  function MakeDir(fs: Fs, p: Path): (r: Result<Fs>)
    ensures r.Success? <==> p != [] && p !in fs.faults && !FileAbove(fs, p)
    ensures p == [] ==> r == Failure(NoEntryError)
    ensures r.Failure? && p != [] && p !in fs.faults ==> r.error == NotDirectoryError
    ensures r.Success? ==> Exists(r.value, p) && r.value.files == fs.files
  {
    if p == [] then Failure(NoEntryError)
    else if p in fs.faults then Failure(fs.faults[p])
    else if FileAbove(fs, p) then Failure(NotDirectoryError)
    else Success(fs.(dirs := fs.dirs + {p}))
  }

  /** `fs.copyFileSync(src, dst)`: the destination ends up holding what the source holds. */
  function CopyFile(fs: Fs, src: Path, dst: Path): (r: Result<Fs>)
    ensures r.Success? <==>
      src !in fs.faults && dst !in fs.faults && src in fs.files && !FileAbove(fs, dst) && dst !in fs.dirs
    ensures r.Failure? && src !in fs.faults && dst !in fs.faults && src in fs.files && FileAbove(fs, dst) ==>
      r.error == NotDirectoryError
    ensures r.Success? ==> r.value.files == fs.files[dst := fs.files[src]] && r.value.dirs == fs.dirs
  {
    if src in fs.faults then Failure(fs.faults[src])
    else if dst in fs.faults then Failure(fs.faults[dst])
    else if src !in fs.files then Failure(DirectoryError)
    else if FileAbove(fs, dst) then Failure(NotDirectoryError)
    else if dst in fs.dirs then Failure(DirectoryError)
    else Success(fs.(files := fs.files[dst := fs.files[src]]))
  }

  /** `fs.writeFileSync(p, content)`: creates or overwrites the file at `p`. */
  function WriteFile(fs: Fs, p: Path, content: Content): (r: Result<Fs>)
    ensures r.Success? <==> p !in fs.faults && !FileAbove(fs, p) && p !in fs.dirs
    ensures r.Failure? && p !in fs.faults && FileAbove(fs, p) ==> r.error == NotDirectoryError
    ensures r.Success? ==> r.value.files == fs.files[p := content] && r.value.dirs == fs.dirs
  {
    if p in fs.faults then Failure(fs.faults[p])
    else if FileAbove(fs, p) then Failure(NotDirectoryError)
    else if p in fs.dirs then Failure(DirectoryError)
    else Success(fs.(files := fs.files[p := content]))
  }

  /**
   * The creation time `fs.statSync(p).birthtime` formatted for display, or None when
   * `stat` throws for `p`.
   */
  function BirthTime(fs: Fs, p: Path): Option<string> {
    if p in fs.birthTimes then Some(fs.birthTimes[p]) else None
  }
}
