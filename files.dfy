/**
 * game_backuper/file.py: the File record, recursive enumeration of a directory tree, new_file
 * and copy_file, over a model of the filesystem.
 *
 * Path syntax is abstract (PathOps). A directory that is enumerated is a Node tree, the listing
 * os.listdir would give, in its order. The mutable filesystem that backup and restore change is a Disk: the
 * regular files with their contents and the set of directories.
 */
module Files {
  import opened Wrappers
  import opened Crypto

  type Path = string

  /** os.path as used by the program: join, relpath, isabs, dirname(abspath(.)), basename, and
      `inside(q, p)`: q lies strictly below directory p (what a recursive removal of p reaches). */
  datatype PathOps = PathOps(
    join: (Path, string) -> Path,
    relpath: (Path, Path) -> Path,
    isabs: Path -> bool,
    parent: Path -> Path,
    basename: Path -> string,
    inside: (Path, Path) -> bool)

  /** The law the program relies on: a relative name joined onto a base and taken relative to
      that base again is the name. */
  ghost predicate Lawful(ops: PathOps)
  {
    forall b: Path, x: Path :: !ops.isabs(x) ==> ops.relpath(ops.join(b, x), b) == x
  }

  /** The File record as db.py uses it: the five fields file.py declares (id, file, size,
      program, hash) and the `type` that db.py reads, here `fileType`. Paired with db.py, the
      declared five-field record would make get_file and add_file fail;
      Database.Db.GetFileAsWritten and AddFileAsWritten model that pairing. `hash` is the base85
      SHA-512 digest. */
  datatype File = File(id: Option<int>, file: string, size: int, program: string, hash: string,
                       fileType: Option<int>)

  /** A directory tree as os.listdir and os.path.isfile/isdir see it. */
  datatype Node = RegularFile(data: seq<byte>) | Directory(entries: seq<DirEntry>) | Special
  datatype DirEntry = DirEntry(name: string, node: Node)

  /** listdirs skips names starting with '.'. */
  predicate IsHidden(name: string)
  {
    |name| > 0 && name[0] == '.'
  }

  /** listdirs over the entries of directory n from index i on: regular files are joined onto
      loc, directories are expanded in place, hidden names and other kinds are dropped. */
  function WalkFrom(ops: PathOps, loc: Path, n: Node, i: nat): seq<Path>
    requires n.Directory? && i <= |n.entries|
    decreases n, |n.entries| - i
  {
    if i == |n.entries| then []
    else
      var e := n.entries[i];
      assert e.node < n;
      EntryListing(ops, loc, e, n) + WalkFrom(ops, loc, n, i + 1)
  }

  /** What one entry of a directory contributes to listdirs. */
  function EntryListing(ops: PathOps, loc: Path, e: DirEntry, n: Node): seq<Path>
    requires e.node < n
    decreases n, 0
  {
    if IsHidden(e.name) then []
    else match e.node
      case RegularFile(_) => [ops.join(loc, e.name)]
      case Directory(_) => WalkFrom(ops, ops.join(loc, e.name), e.node, 0)
      case Special => []
  }

  lemma ConcatAssoc(a: seq<Path>, b: seq<Path>, c: seq<Path>)
    ensures (a + b) + c == a + (b + c)
  {
  }

  /** The node reached from n by following entry indices. */
  function AtIndex(n: Node, ip: seq<nat>): Option<Node>
    decreases |ip|
  {
    if ip == [] then Some(n)
    else if n.Directory? && ip[0] < |n.entries| then AtIndex(n.entries[ip[0]].node, ip[1..])
    else None
  }

  /** The names along an index path. */
  function NamesAlong(n: Node, ip: seq<nat>): seq<string>
    decreases |ip|
  {
    if ip != [] && n.Directory? && ip[0] < |n.entries|
    then [n.entries[ip[0]].name] + NamesAlong(n.entries[ip[0]].node, ip[1..])
    else []
  }

  /** ip leads from n to a regular file through names none of which is hidden. */
  predicate VisibleFile(n: Node, ip: seq<nat>)
    decreases |ip|
  {
    if ip == [] then n.RegularFile?
    else n.Directory? && ip[0] < |n.entries| && !IsHidden(n.entries[ip[0]].name)
         && VisibleFile(n.entries[ip[0]].node, ip[1..])
  }

  /** loc joined with each name in turn. */
  function JoinAll(ops: PathOps, loc: Path, names: seq<string>): Path
    decreases |names|
  {
    if names == [] then loc else JoinAll(ops, ops.join(loc, names[0]), names[1..])
  }

  /** Every path listdirs returns is loc joined with the names leading to a regular file, none
      of them hidden, found at or after entry i. */
  lemma {:induction false} WalkSound(ops: PathOps, loc: Path, n: Node, i: nat, p: Path)
    requires n.Directory? && i <= |n.entries|
    requires p in WalkFrom(ops, loc, n, i)
    ensures exists ip: seq<nat> :: |ip| >= 1 && ip[0] >= i && VisibleFile(n, ip)
                                   && p == JoinAll(ops, loc, NamesAlong(n, ip))
    decreases n, |n.entries| - i
  {
    var e := n.entries[i];
    if p in WalkFrom(ops, loc, n, i + 1) {
      WalkSound(ops, loc, n, i + 1, p);
    } else {
      assert p in EntryListing(ops, loc, e, n);
      assert !IsHidden(e.name);
      match e.node
      case RegularFile(_) =>
        var ip: seq<nat> := [i];
        assert ip[1..] == [];
        assert VisibleFile(n, ip);
        assert NamesAlong(n, ip) == [e.name];
        assert p == JoinAll(ops, loc, NamesAlong(n, ip));
      case Directory(_) =>
        WalkSound(ops, ops.join(loc, e.name), e.node, 0, p);
        var sub: seq<nat> :| |sub| >= 1 && sub[0] >= 0 && VisibleFile(e.node, sub)
                             && p == JoinAll(ops, ops.join(loc, e.name), NamesAlong(e.node, sub));
        var ip: seq<nat> := [i] + sub;
        assert ip[1..] == sub;
        assert VisibleFile(n, ip);
        assert NamesAlong(n, ip) == [e.name] + NamesAlong(e.node, sub);
        assert p == JoinAll(ops, loc, NamesAlong(n, ip));
    }
  }

  /** Conversely, every regular file reachable through non-hidden names at or after entry i is
      listed, joined onto loc by the names that lead to it. */
  lemma {:induction false} WalkComplete(ops: PathOps, loc: Path, n: Node, i: nat, ip: seq<nat>)
    requires n.Directory? && i <= |n.entries|
    requires |ip| >= 1 && ip[0] >= i && VisibleFile(n, ip)
    ensures JoinAll(ops, loc, NamesAlong(n, ip)) in WalkFrom(ops, loc, n, i)
    decreases n, |n.entries| - i
  {
    var e := n.entries[i];
    if ip[0] > i {
      WalkComplete(ops, loc, n, i + 1, ip);
    } else {
      var sub := ip[1..];
      assert !IsHidden(e.name) && VisibleFile(e.node, sub);
      assert NamesAlong(n, ip) == [e.name] + NamesAlong(e.node, sub);
      if sub == [] {
        assert e.node.RegularFile?;
        assert JoinAll(ops, loc, NamesAlong(n, ip)) == ops.join(loc, e.name);
      } else {
        assert e.node.Directory?;
        WalkComplete(ops, ops.join(loc, e.name), e.node, 0, sub);
      }
      assert JoinAll(ops, loc, NamesAlong(n, ip)) in EntryListing(ops, loc, e, n);
    }
  }

  /** listdirs(loc), on a directory: walk the listing in order, keep regular files, recurse into
      directories, skip hidden names. */
  method ListDirs(ops: PathOps, loc: Path, n: Node) returns (r: seq<Path>)
    requires n.Directory?
    ensures r == WalkFrom(ops, loc, n, 0)
    decreases n, 1
  {
    r := [];
    var i := 0;
    while i < |n.entries|
      invariant 0 <= i <= |n.entries|
      invariant r + WalkFrom(ops, loc, n, i) == WalkFrom(ops, loc, n, 0)
      decreases |n.entries| - i
    {
      var e := n.entries[i];
      assert e.node < n;
      var add: seq<Path> := [];
      if !IsHidden(e.name) {
        var p := ops.join(loc, e.name);
        if e.node.RegularFile? {
          add := [p];
        } else if e.node.Directory? {
          add := ListDirs(ops, p, e.node);
        }
      }
      assert add == EntryListing(ops, loc, e, n);
      assert WalkFrom(ops, loc, n, i) == add + WalkFrom(ops, loc, n, i + 1);
      ConcatAssoc(r, add, WalkFrom(ops, loc, n, i + 1));
      r := r + add;
      i := i + 1;
    }
    assert WalkFrom(ops, loc, n, i) == [];
  }

  /** What listdirs(loc) yields for the node t found at loc (None: nothing is there). */
  function Listing(ops: PathOps, loc: Path, t: Option<Node>): Result<seq<Path>>
  {
    if t.None? then Err(FileNotFoundError(loc))
    else if !t.value.Directory? then Err(NotADirectoryError(loc))
    else Ok(WalkFrom(ops, loc, t.value, 0))
  }

  /** listdirs(loc) where loc is looked up first: os.listdir raises for a missing path or a
      path that is not a directory. */
  method ListDirsAt(ops: PathOps, loc: Path, t: Option<Node>) returns (r: Result<seq<Path>>)
    ensures t.None? ==> r == Err(FileNotFoundError(loc))
    ensures t.Some? && !t.value.Directory? ==> r == Err(NotADirectoryError(loc))
    ensures t.Some? && t.value.Directory? ==> r == Ok(WalkFrom(ops, loc, t.value, 0))
    ensures r == Listing(ops, loc, t)
  {
    if t.None? {
      return Err(FileNotFoundError(loc));
    }
    if !t.value.Directory? {
      return Err(NotADirectoryError(loc));
    }
    var l := ListDirs(ops, loc, t.value);
    return Ok(l);
  }

  /** What opening or removing q as a regular file raises when it is not one. */
  function NotAFileError(dirs: set<Path>, q: Path): (e: Error)
    ensures q in dirs ==> e == IsADirectoryError(q)
    ensures q !in dirs ==> e == FileNotFoundError(q)
  {
    if q in dirs then IsADirectoryError(q) else FileNotFoundError(q)
  }

  /** What open(q, 'wb') raises, if anything: the parent must be a directory and q must not be one. */
  function WriteOpenError(ops: PathOps, files: map<Path, seq<byte>>, dirs: set<Path>, q: Path): (r: Option<Error>)
    ensures r.None? <==> ops.parent(q) in dirs && q !in dirs
    ensures ops.parent(q) !in dirs && ops.parent(q) !in files ==> r == Some(FileNotFoundError(q))
    ensures ops.parent(q) in files && ops.parent(q) !in dirs ==> r == Some(NotADirectoryError(q))
    ensures ops.parent(q) in dirs && q in dirs ==> r == Some(IsADirectoryError(q))
  {
    if ops.parent(q) !in dirs then
      Some(if ops.parent(q) in files then NotADirectoryError(q) else FileNotFoundError(q))
    else if q in dirs then Some(IsADirectoryError(q))
    else None
  }

  /** The filesystem that backup and restore read and change. */
  class Disk {
    /** Regular files and their contents. */
    var files: map<Path, seq<byte>>
    /** Directories. */
    var dirs: set<Path>

    constructor (f: map<Path, seq<byte>>, d: set<Path>)
      ensures files == f && dirs == d
    {
      files, dirs := f, d;
    }

    /** No path is both a regular file and a directory. */
    ghost predicate Wellformed()
      reads this
    {
      files.Keys !! dirs
    }

    /** os.path.exists */
    predicate Exists(p: Path)
      reads this
    {
      p in files || p in dirs
    }

    /** new_file(loc, name, prog): None when loc does not exist, otherwise a record with no id,
        the file's size and the digest of its contents. Opening a directory fails. */
    function NewFile(digest: seq<byte> -> string, loc: Path, name: string, prog: string): (r: Result<Option<File>>)
      reads this
      ensures r == Ok(None) <==> !Exists(loc)
      ensures r.Err? <==> loc in dirs && loc !in files
      ensures r.Ok? && r.value.Some? ==>
        loc in files && r.value.value == File(None, name, |files[loc]|, prog, digest(files[loc]), None)
    {
      if loc in files then Ok(Some(File(None, name, |files[loc]|, prog, digest(files[loc]), None)))
      else if loc in dirs then Err(IsADirectoryError(loc))
      else Ok(None)
    }

    /** Where copy2(loc, dest) writes: into dest when dest is a directory, else dest itself. */
    function CopyTarget(ops: PathOps, loc: Path, dest: Path): Path
      reads this
    {
      if dest in dirs then ops.join(dest, ops.basename(loc)) else dest
    }

    /** The directory copy_file creates for dest: its parent, when nothing exists there. */
    function ParentMade(ops: PathOps, dest: Path): set<Path>
      reads this
    {
      if Exists(ops.parent(dest)) then {} else {ops.parent(dest)}
    }

    /** copy_file(loc, dest): create dirname(abspath(dest)) if nothing exists there, then copy2,
        which refuses a target that is the source itself, opens loc, then opens the target 'wb'.
        The parent stays created whatever copy2 raises. */
    method CopyFile(ops: PathOps, loc: Path, dest: Path) returns (r: Result<Path>)
      modifies this
      ensures dirs == old(dirs) + old(ParentMade(ops, dest))
      ensures var target := CopyTarget(ops, loc, dest);
        && ((loc in old(files) || loc in dirs) && target == loc ==> r == Err(SameFileError(loc)) && files == old(files))
        && (loc !in old(files) && (target == loc ==> loc !in dirs) ==>
              r == Err(NotAFileError(dirs, loc)) && files == old(files))
        && (loc in old(files) && target != loc && WriteOpenError(ops, old(files), dirs, target).Some? ==>
              r == Err(WriteOpenError(ops, old(files), dirs, target).value) && files == old(files))
        && (loc in old(files) && target != loc && WriteOpenError(ops, old(files), dirs, target).None? ==>
              r == Ok(target) && files == old(files)[target := old(files)[loc]])
      ensures r.Ok? ==> loc in old(files) && r.value in files && files[r.value] == old(files)[loc]
      ensures r.Err? ==> files == old(files)
      ensures old(Wellformed()) ==> Wellformed()
    {
      var d := ops.parent(dest);
      if d !in files && d !in dirs {
        dirs := dirs + {d};
      }
      var target := CopyTarget(ops, loc, dest);
      if target == loc && (loc in files || loc in dirs) {
        return Err(SameFileError(loc));
      }
      if loc !in files {
        return Err(NotAFileError(dirs, loc));
      }
      var e := WriteOpenError(ops, files, dirs, target);
      if e.Some? {
        return Err(e.value);
      }
      files := files[target := files[loc]];
      return Ok(target);
    }

    /** os.mkdir(p): fails if p exists, or with NotADirectoryError or FileNotFoundError when its
        parent is a regular file or missing. */
    method Mkdir(ops: PathOps, p: Path) returns (r: Outcome)
      modifies this`dirs
      ensures old(Exists(p)) ==> r == Fail(FileExistsError(p)) && dirs == old(dirs)
      ensures !old(Exists(p)) && ops.parent(p) !in old(dirs) ==>
        r == Fail(if ops.parent(p) in files then NotADirectoryError(p) else FileNotFoundError(p))
        && dirs == old(dirs)
      ensures !old(Exists(p)) && ops.parent(p) in old(dirs) ==> r == Pass && dirs == old(dirs) + {p}
      ensures old(Wellformed()) ==> Wellformed()
    {
      if p in files || p in dirs {
        return Fail(FileExistsError(p));
      }
      if ops.parent(p) !in dirs {
        return Fail(if ops.parent(p) in files then NotADirectoryError(p) else FileNotFoundError(p));
      }
      dirs := dirs + {p};
      return Pass;
    }

    /** os.remove(p): regular files only. */
    method Remove(p: Path) returns (r: Outcome)
      modifies this`files
      ensures p in old(files) ==> r == Pass && files == old(files) - {p}
      ensures p !in old(files) ==> r == Fail(NotAFileError(dirs, p)) && files == old(files)
      ensures old(Wellformed()) ==> Wellformed()
    {
      if p in files {
        files := files - {p};
        return Pass;
      }
      return Fail(NotAFileError(dirs, p));
    }

    /** Recursive removal of directory p and everything inside it. */
    method RemoveDirs(ops: PathOps, p: Path) returns (r: Outcome)
      modifies this
      ensures p !in old(dirs) ==> r.Fail? && files == old(files) && dirs == old(dirs)
      ensures p in old(dirs) ==>
        && r == Pass
        && files == (map q | q in old(files) && !ops.inside(q, p) :: old(files)[q])
        && dirs == (set q | q in old(dirs) && q != p && !ops.inside(q, p))
      ensures old(Wellformed()) ==> Wellformed()
    {
      if p !in dirs {
        return Fail(NotADirectoryError(p));
      }
      files := map q | q in files && !ops.inside(q, p) :: files[q];
      dirs := set q | q in dirs && q != p && !ops.inside(q, p);
      return Pass;
    }

    /** open(p, 'wb').write(data) with every chunk written: p holds exactly data afterwards.
        When the open fails nothing changes. */
    method WriteFile(ops: PathOps, p: Path, data: seq<byte>) returns (r: Outcome)
      modifies this`files
      ensures WriteOpenError(ops, old(files), dirs, p).Some? ==>
        r == Fail(WriteOpenError(ops, old(files), dirs, p).value) && files == old(files)
      ensures WriteOpenError(ops, old(files), dirs, p).None? ==> r == Pass && files == old(files)[p := data]
      ensures old(Wellformed()) ==> Wellformed()
    {
      var e := WriteOpenError(ops, files, dirs, p);
      if e.Some? {
        return Fail(e.value);
      }
      files := files[p := data];
      return Pass;
    }
  }
}
