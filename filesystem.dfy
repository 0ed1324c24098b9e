/** The part of the filesystem the crawler touches: which directories exist, and
    which files exist with what contents. Paths are `/`-separated strings relative
    to the working directory. */
module FileSystem {
  import opened Text
  import opened Naming
  import opened Download

  datatype Disk = Disk(dirs: set<string>, files: map<string, Bytes>)

  /** `os.path.exists(path)`: a directory or a file is there. */
  predicate Exists(d: Disk, path: string)
  {
    path in d.dirs || path in d.files
  }

  /** The directories `os.makedirs(path)` creates: `path` itself and every prefix
      that ends just before one of its `/`. */
  function Ancestry(path: string): (r: set<string>)
    ensures path in r
    ensures forall a :: a in r ==> InTree(path, a)
    ensures forall i :: 0 < i < |path| && path[i] == '/' ==> path[..i] in r
  {
    {path} + set i | 0 < i < |path| && path[i] == '/' :: path[..i]
  }

  /** `make_dir(path)`: when nothing exists at `path`, the directory is created
      together with its missing ancestors; otherwise nothing changes. */
  function DirMade(d: Disk, path: string): (r: Disk)
    ensures r.files == d.files
    ensures d.dirs <= r.dirs
    ensures Exists(r, path)
    ensures Exists(d, path) ==> r == d
    ensures forall x :: x in r.dirs - d.dirs ==> InTree(path, x)
    ensures !Exists(d, path) ==> path in r.dirs
    ensures !Exists(d, path) ==> forall i :: 0 < i < |path| && path[i] == '/' ==> path[..i] in r.dirs
  {
    if Exists(d, path) then d else d.(dirs := d.dirs + Ancestry(path))
  }

  /** Making a directory twice is making it once. */
  lemma DirMadeIdempotent(d: Disk, path: string)
    ensures DirMade(DirMade(d, path), path) == DirMade(d, path)
  {
    assert Exists(DirMade(d, path), path);
  }

  /** `shutil.rmtree(dir)`: the directory and everything below it disappear. */
  function TreeRemoved(d: Disk, dir: string): (r: Disk)
    ensures forall p :: p in r.files <==> p in d.files && !InTree(p, dir)
    ensures forall p :: p in r.files ==> r.files[p] == d.files[p]
    ensures forall x :: x in r.dirs <==> x in d.dirs && !InTree(x, dir)
  {
    Disk(set x | x in d.dirs && !InTree(x, dir),
         map p | p in d.files && !InTree(p, dir) :: d.files[p])
  }

  /** `p` lies in none of the trees of `dirs`. */
  predicate Cleared(p: string, dirs: seq<string>)
  {
    forall i :: 0 <= i < |dirs| ==> !InTree(p, dirs[i])
  }

  lemma ClearedSnoc(dirs: seq<string>)
    requires |dirs| > 0
    ensures forall p :: Cleared(p, dirs) <==> Cleared(p, dirs[..|dirs| - 1]) && !InTree(p, dirs[|dirs| - 1])
  {
    var init := dirs[..|dirs| - 1];
    assert forall i :: 0 <= i < |init| ==> init[i] == dirs[i];
  }

  /** Removing the trees of several directories, one after another: what is
      left is exactly what lies in none of them. */
  function TreesRemoved(d: Disk, dirs: seq<string>): (r: Disk)
    ensures forall p :: p in r.files <==> p in d.files && Cleared(p, dirs)
    ensures forall p :: p in r.files ==> r.files[p] == d.files[p]
    ensures forall x :: x in r.dirs <==> x in d.dirs && Cleared(x, dirs)
  {
    if |dirs| == 0 then d
    else
      ClearedSnoc(dirs);
      TreeRemoved(TreesRemoved(d, dirs[..|dirs| - 1]), dirs[|dirs| - 1])
  }

  /** Removing one more tree after the others. */
  lemma TreesRemovedSnoc(d: Disk, dirs: seq<string>, dir: string)
    ensures TreesRemoved(d, dirs + [dir]) == TreeRemoved(TreesRemoved(d, dirs), dir)
  {
    assert (dirs + [dir])[..|dirs|] == dirs;
  }

  /** `p` is an entry directly inside `dir`: `dir + "/" + name` for a non-empty
      `name` without `/`. */
  predicate ChildOf(p: string, dir: string)
  {
    |p| > |dir| + 1 && p[..|dir|] == dir && p[|dir|] == '/' && '/' !in p[|dir| + 1..]
  }

  /** `all_dirs(dir)`: the directories directly inside `dir`. */
  function SubDirs(d: Disk, dir: string): set<string>
  {
    set x | x in d.dirs && ChildOf(x, dir)
  }

  /** `len(all_files(dir))`: the number of files directly inside `dir`. */
  function FileCount(d: Disk, dir: string): nat
  {
    |set p | p in d.files && ChildOf(p, dir)|
  }

  /** A keyword's directory is listed under the download directory exactly when
      the keyword is non-empty and holds no `/`. */
  lemma KeywordDirIsChild(downloadPath: string, keyword: string)
    ensures ChildOf(KeywordDir(downloadPath, keyword), downloadPath) <==> keyword != "" && '/' !in keyword
  {
    var k := KeywordDir(downloadPath, keyword);
    assert k[..|downloadPath|] == downloadPath && k[|downloadPath|] == '/';
    assert k[|downloadPath| + 1..] == keyword;
  }

  /** An image file lies directly inside its keyword's directory, so it is counted
      by the imbalance check. */
  lemma ImagePathIsChild(downloadPath: string, keyword: string, siteName: string, index: nat, ext: string)
    requires '/' !in siteName && '/' !in ext
    ensures ChildOf(ImagePath(downloadPath, keyword, siteName, index, ext), KeywordDir(downloadPath, keyword))
  {
    var dir := KeywordDir(downloadPath, keyword);
    var name := FileName(siteName, index, ext);
    FileNameHasNoSlash(siteName, index, ext);
    var p := ImagePath(downloadPath, keyword, siteName, index, ext);
    assert p == dir + "/" + name;
    assert p[..|dir|] == dir && p[|dir|] == '/' && p[|dir| + 1..] == name;
  }

  /** Sibling directories have disjoint trees: removing one keeps everything in
      the other. */
  lemma SiblingTreesDisjoint(root: string, a: string, b: string, p: string)
    requires ChildOf(a, root) && ChildOf(b, root) && a != b
    requires InTree(p, b)
    ensures !InTree(p, a)
  {
    assert b[..|root|] == root && a[..|root|] == root;
  }
}
