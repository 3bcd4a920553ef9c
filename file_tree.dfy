/** The slice of `java.io.File` the translators use: directory listings,
    existence checks, reading and writing whole files. A path is the sequence
    of its segments, so `File(root, "de/title.txt")` is `root + ["de", "title.txt"]`. */
module FileTrees {
  import opened Ordering
  import opened Text

  type Path = seq<string>

  /** A snapshot of the file system. `dirs` lists the directories in the order a
      listing returns them; `order` lists the regular files in the order a walk
      visits them; `files` holds each regular file's content. */
  datatype Tree<C> = Tree(dirs: seq<Path>, files: map<Path, C>, order: seq<Path>) {

    predicate Valid() {
      && Distinct(dirs)
      && Distinct(order)
      && (forall i | 0 <= i < |order| :: order[i] in files)
      && (forall p | p in files :: p in order)
    }

    /** `File.exists()`. */
    predicate Exists(p: Path) {
      p in dirs || p in files
    }

    /** `File.writeText` (or an XML transform into the file): the file now has
        content `c`; a new file joins the walk order at its end. */
    function Write(p: Path, c: C): (t: Tree<C>)
      requires Valid()
      ensures t.Valid()
      ensures t.dirs == dirs && t.files == files[p := c]
    {
      Tree(dirs, files[p := c], if p in files then order else order + [p])
    }
  }

  /** The names of the sub-directories of `p`, in listing order: `p.listFiles()`
      filtered by `isDirectory`, mapped to `name`. */
  function SubdirNames(dirs: seq<Path>, p: Path): (names: seq<string>)
    ensures forall n :: n in names <==> p + [n] in dirs
    ensures Distinct(dirs) ==> Distinct(names)
  {
    if dirs == [] then []
    else
      var rest := SubdirNames(dirs[1..], p);
      var d := dirs[0];
      assert forall n :: p + [n] in dirs <==> p + [n] == d || p + [n] in dirs[1..];
      if |d| == |p| + 1 && d[..|p|] == p then
        assert d == p + [d[|p|]];
        [d[|p|]] + rest
      else rest
  }

  /** A regular file whose extension is `txt`. */
  predicate IsTxt(f: Path) {
    |f| > 0 && Extension(f[|f| - 1]) == "txt"
  }

  /** `dir.walkTopDown().filter { it.isFile && it.extension == "txt" }`: the
      `.txt` files at any depth under `dir`, in walk order. */
  function TxtFilesUnder(order: seq<Path>, dir: Path): (r: seq<Path>)
    ensures forall f :: f in r <==> f in order && |dir| < |f| && f[..|dir|] == dir && IsTxt(f)
    ensures Distinct(order) ==> Distinct(r)
  {
    if order == [] then []
    else
      var rest := TxtFilesUnder(order[1..], dir);
      var f := order[0];
      if |dir| < |f| && f[..|dir|] == dir && IsTxt(f) then
        assert Distinct(order) ==> f !in order[1..];
        [f] + rest
      else rest
  }

  /** The file system the translators work on. */
  class FileSystem<C> {
    var dirs: seq<Path>
    var files: map<Path, C>
    var order: seq<Path>

    function State(): Tree<C>
      reads this
    {
      Tree(dirs, files, order)
    }

    constructor (t: Tree<C>)
      ensures State() == t
    {
      dirs, files, order := t.dirs, t.files, t.order;
    }

    /** Write `c` to `p`, replacing any previous content. */
    method WriteFile(p: Path, c: C)
      requires State().Valid()
      modifies this
      ensures State() == old(State()).Write(p, c)
    {
      if p !in files {
        order := order + [p];
      }
      files := files[p := c];
    }
  }
}
