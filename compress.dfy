/**
 * game_backuper/compress.py: the compression method and configuration, and the file
 * handling around compress/decompress: the output is src/dest plus the method's extension, and
 * after compressing, the variants of dest with the other suffixes are removed.
 *
 * bzip2 itself is the pair of parameters `pack`/`unpack`. Of the size report only its division by
 * the original size is kept: an empty original raises ZeroDivisionError after the output is
 * written.
 */
module Compress {
  import opened Wrappers
  import opened Crypto
  import opened Files
  import opened Config
  import opened Strings

  datatype Method = Bzip2

  datatype CompressConfig = CompressConfig(kind: Method, level: int, ext: string, chunkSize: nat)

  const Bz2Ext := ".bz2"
  const ChunkSize: nat := 1048576

  /** CompressMethod.from_str: 'bzip2' in any letter case; None for other strings; a value that
      is not a string raises TypeError. */
  function FromStr(v: Yaml): (r: Result<Option<Method>>)
    ensures !v.YStr? ==> r == Err(TypeError("Must be str."))
    ensures v.YStr? ==> r.Ok? && (r.value == Some(Bzip2) <==>
      |v.s| == 5 && forall i :: 0 <= i < 5 ==> LowerChar(v.s[i]) == "bzip2"[i])
  {
    if !v.YStr? then Err(TypeError("Must be str."))
    else
      var t := Lower(v.s);
      assert t == "bzip2" <==> |v.s| == 5 && forall i :: 0 <= i < 5 ==> t[i] == "bzip2"[i];
      if t == "bzip2" then Ok(Some(Bzip2)) else Ok(None)
  }

  /** A level argument the bzip2 branch accepts: an int (bool included, as in Python) in 1..9. */
  function LevelOf(level: Yaml): (r: Option<int>)
    ensures r.Some? ==> 1 <= r.value <= 9
    ensures level.YInt? ==> (r.Some? <==> 1 <= level.i <= 9) && (r.Some? ==> r.value == level.i)
    ensures level.YBool? ==> r == (if level.b then Some(1) else None)
    ensures !level.YInt? && !level.YBool? ==> r.None?
  {
    match level
    case YInt(i) => if 1 <= i <= 9 then Some(i) else None
    case YBool(b) => if b then Some(1) else None
    case _ => None
  }

  /** CompressConfig.__init__; YNull stands for an absent level. */
  function NewConfig(methodName: Yaml, level: Yaml, haveBz2: bool): (r: Result<CompressConfig>)
    ensures !methodName.YStr? ==> r == Err(TypeError("Must be str."))
    ensures r.Ok? ==> r.value.kind == Bzip2 && r.value.ext == Bz2Ext && r.value.chunkSize == ChunkSize
    ensures r.Ok? ==> haveBz2 && 1 <= r.value.level <= 9
    ensures FromStr(methodName) == Ok(None) ==> r == Err(ValueError("Unknown compress method."))
    ensures FromStr(methodName) == Ok(Some(Bzip2)) && !haveBz2 ==> r == Err(NotImplementedError("bzip2 not supported."))
    ensures FromStr(methodName) == Ok(Some(Bzip2)) && haveBz2 ==>
      && (level.YNull? ==> r.Ok? && r.value.level == 9)
      && (!level.YNull? ==> (r.Ok? <==> LevelOf(level).Some?))
      && (!level.YNull? && r.Ok? ==> r.value.level == LevelOf(level).value)
      && (r.Err? ==> r == Err(ValueError("bzip2: compress_level should be 1-9.")))
  {
    match FromStr(methodName)
    case Err(e) => Err(e)
    case Ok(m) =>
      if m.None? then Err(ValueError("Unknown compress method."))
      else if !haveBz2 then Err(NotImplementedError("bzip2 not supported."))
      else if level.YNull? then Ok(CompressConfig(Bzip2, 9, Bz2Ext, ChunkSize))
      else match LevelOf(level)
        case Some(l) => Ok(CompressConfig(Bzip2, l, Bz2Ext, ChunkSize))
        case None => Err(ValueError("bzip2: compress_level should be 1-9."))
  }

  /** supported_exts */
  function Supported(haveBz2: bool): seq<string>
  {
    if haveBz2 then [Bz2Ext] else []
  }

  /** `exts = [''] + supported_exts; exts.remove(c.ext)`: the suffixes compress cleans up. */
  function StaleSuffixes(ext: string, haveBz2: bool): (r: Result<seq<string>>)
    ensures r.Ok? <==> ext in [""] + Supported(haveBz2)
    ensures r.Ok? ==> multiset(r.value) == multiset([""] + Supported(haveBz2)) - multiset{ext}
  {
    var exts := [""] + Supported(haveBz2);
    if ext !in exts then Err(ValueError("list.remove(x): x not in list"))
    else if exts[0] == ext then Ok(exts[1..])
    else
      assert exts == [exts[0]] + exts[1..] && haveBz2;
      Ok([exts[0]])
  }

  /** With bzip2 available and active, only the plain dest is stale. */
  lemma StaleForBz2()
    ensures StaleSuffixes(Bz2Ext, true) == Ok([""])
  {
  }

  /** A configuration's own suffix is never stale. */
  lemma ActiveNotStale(c: CompressConfig, haveBz2: bool)
    requires c.ext == Bz2Ext && StaleSuffixes(c.ext, haveBz2).Ok?
    ensures c.ext !in StaleSuffixes(c.ext, haveBz2).value
  {
    var exts := [""] + Supported(haveBz2);
    assert haveBz2 && exts == ["", Bz2Ext];
  }

  /** Removing the regular files among `paths`. */
  function WithoutFiles(files: map<Path, seq<byte>>, paths: set<Path>): (r: map<Path, seq<byte>>)
    ensures r.Keys == files.Keys - paths
    ensures forall q :: q in r ==> r[q] == files[q]
  {
    map q | q in files && q !in paths :: files[q]
  }

  function Suffixed(dest: Path, exts: seq<string>): set<Path>
  {
    set e | e in exts :: dest + e
  }

  /** What a call did: its outcome, and the regular files it left, on success or failure. */
  datatype Effect = Effect(r: Outcome, files: map<Path, seq<byte>>)

  /** compress(src, dest, c): remove an existing dest+ext, open src, write dest+ext, report the
      sizes (which divides by the size of src), then remove the stale variants of dest. Each
      failure keeps what was done before it. */
  function CompressFiles(ops: PathOps, files: map<Path, seq<byte>>, dirs: set<Path>, src: Path, dest: Path,
                         c: CompressConfig, stale: seq<string>, pack: seq<byte> -> seq<byte>): Effect
  {
    var fn := dest + c.ext;
    if fn in dirs && fn !in files then Effect(Fail(IsADirectoryError(fn)), files)
    else
      var cleared := files - {fn};
      if src !in cleared then Effect(Fail(NotAFileError(dirs, src)), cleared)
      else if WriteOpenError(ops, cleared, dirs, fn).Some? then Effect(Fail(WriteOpenError(ops, cleared, dirs, fn).value), cleared)
      else
        var written := cleared[fn := pack(cleared[src])];
        if |cleared[src]| == 0 then Effect(Fail(DivisionByZero), written)
        else Effect(Pass, WithoutFiles(written, Suffixed(dest, stale)))
  }

  /** decompress(src, dest, c): remove an existing dest, open src+ext, write dest, then report the
      sizes (which divides by the size of what was written). */
  function DecompressFiles(ops: PathOps, files: map<Path, seq<byte>>, dirs: set<Path>, src: Path, dest: Path,
                           c: CompressConfig, unpack: seq<byte> -> seq<byte>): Effect
  {
    var fn := src + c.ext;
    if dest in dirs && dest !in files then Effect(Fail(IsADirectoryError(dest)), files)
    else
      var cleared := files - {dest};
      if fn !in cleared then Effect(Fail(NotAFileError(dirs, fn)), cleared)
      else if WriteOpenError(ops, cleared, dirs, dest).Some? then Effect(Fail(WriteOpenError(ops, cleared, dirs, dest).value), cleared)
      else
        var written := cleared[dest := unpack(cleared[fn])];
        Effect(if |unpack(cleared[fn])| == 0 then Fail(DivisionByZero) else Pass, written)
  }

  lemma SuffixDistinct(dest: Path, e1: string, e2: string)
    requires dest + e1 == dest + e2
    ensures e1 == e2
  {
    assert e1 == (dest + e1)[|dest|..];
    assert e2 == (dest + e2)[|dest|..];
  }

  /** After a successful compress, dest plus the extension holds the packed source, which was not
      empty, no variant of dest with a stale suffix is left as a regular file, and every other
      file is kept. */
  lemma CompressResult(ops: PathOps, files: map<Path, seq<byte>>, dirs: set<Path>, src: Path, dest: Path,
                       c: CompressConfig, stale: seq<string>, pack: seq<byte> -> seq<byte>)
    requires c.ext !in stale
    requires CompressFiles(ops, files, dirs, src, dest, c, stale, pack).r.Pass?
    ensures var out := CompressFiles(ops, files, dirs, src, dest, c, stale, pack).files;
      && src in files && |files[src]| > 0
      && dest + c.ext in out && out[dest + c.ext] == pack(files[src])
      && (forall e :: e in stale ==> dest + e !in out)
      && (forall q :: q in files && q != dest + c.ext && q !in Suffixed(dest, stale) ==> q in out && out[q] == files[q])
  {
    if dest + c.ext in Suffixed(dest, stale) {
      var e :| e in stale && dest + e == dest + c.ext;
      SuffixDistinct(dest, e, c.ext);
    }
  }

  /** An empty source makes the size report divide by zero once dest plus the extension is
      written, so the stale variants of dest are all still there. */
  lemma CompressEmptySource(ops: PathOps, files: map<Path, seq<byte>>, dirs: set<Path>, src: Path, dest: Path,
                            c: CompressConfig, stale: seq<string>, pack: seq<byte> -> seq<byte>)
    requires src in files && files[src] == [] && src != dest + c.ext
    requires dest + c.ext !in dirs && ops.parent(dest + c.ext) in dirs
    ensures var out := CompressFiles(ops, files, dirs, src, dest, c, stale, pack);
      && out.r == Fail(DivisionByZero)
      && out.files == (files - {dest + c.ext})[dest + c.ext := pack([])]
      && forall e :: e in stale && dest + e in files ==> dest + e in out.files
  {
  }

  /** Decompressing what compress wrote gives back the source, wherever it can be written. */
  lemma RoundTrip(ops: PathOps, files: map<Path, seq<byte>>, dirs: set<Path>, src: Path, dest: Path, out: Path,
                  c: CompressConfig, stale: seq<string>,
                  pack: seq<byte> -> seq<byte>, unpack: seq<byte> -> seq<byte>)
    requires forall x :: unpack(pack(x)) == x
    requires c.ext !in stale && out != dest + c.ext
    requires CompressFiles(ops, files, dirs, src, dest, c, stale, pack).r.Pass?
    requires WriteOpenError(ops, CompressFiles(ops, files, dirs, src, dest, c, stale, pack).files - {out}, dirs, out).None?
    ensures var back := DecompressFiles(ops, CompressFiles(ops, files, dirs, src, dest, c, stale, pack).files, dirs, dest, out, c, unpack);
      back.r == Pass && out in back.files && back.files[out] == files[src]
  {
    CompressResult(ops, files, dirs, src, dest, c, stale, pack);
  }

  /** The read loop of compress/decompress: chunks of at most cs bytes until an empty read. */
  method CopyChunks(data: seq<byte>, cs: nat) returns (written: seq<byte>)
    requires cs > 0
    ensures written == data
  {
    written := [];
    var pos := 0;
    var a := data[pos..pos + Min(cs, |data| - pos)];
    pos := pos + |a|;
    while a != []
      invariant 0 <= pos <= |data|
      invariant written + a == data[..pos]
      invariant a == [] ==> pos == |data|
      decreases |data| - pos + |a|
    {
      written := written + a;
      a := data[pos..pos + Min(cs, |data| - pos)];
      pos := pos + |a|;
    }
    assert pos == |data|;
  }

  /** compress(src, dest, c, name, prog) on a disk. */
  method CompressFile(disk: Disk, ops: PathOps, src: Path, dest: Path, c: CompressConfig, haveBz2: bool,
                      pack: seq<byte> -> seq<byte>) returns (r: Outcome)
    requires c.chunkSize > 0
    modifies disk`files
    ensures StaleSuffixes(c.ext, haveBz2).Err? ==> r.Fail? && disk.files == old(disk.files)
    ensures StaleSuffixes(c.ext, haveBz2).Ok? ==>
      var spec := CompressFiles(ops, old(disk.files), disk.dirs, src, dest, c, StaleSuffixes(c.ext, haveBz2).value, pack);
      r == spec.r && disk.files == spec.files
  {
    var exts := StaleSuffixes(c.ext, haveBz2);
    if exts.Err? {
      return Fail(exts.error);
    }
    var fn := dest + c.ext;
    ghost var cleared := old(disk.files) - {fn};
    if disk.Exists(fn) {
      r := disk.Remove(fn);
      if r.Fail? {
        return r;
      }
    }
    assert disk.files == cleared;
    if src !in disk.files {
      return Fail(NotAFileError(disk.dirs, src));
    }
    var data := CopyChunks(disk.files[src], c.chunkSize);
    r := disk.WriteFile(ops, fn, pack(data));
    if r.Fail? {
      return r;
    }
    assert disk.files == cleared[fn := pack(cleared[src])];
    if |disk.files[src]| == 0 {
      return Fail(DivisionByZero);
    }
    RemoveStale(disk, dest, exts.value);
    return Pass;
  }

  /** The closing loop of compress: remove each dest + suffix that is a regular file. */
  method RemoveStale(disk: Disk, dest: Path, exts: seq<string>)
    modifies disk`files
    ensures disk.files == WithoutFiles(old(disk.files), Suffixed(dest, exts))
  {
    var k := 0;
    while k < |exts|
      invariant 0 <= k <= |exts|
      invariant disk.files == WithoutFiles(old(disk.files), Suffixed(dest, exts[..k]))
      decreases |exts| - k
    {
      var f := dest + exts[k];
      assert Suffixed(dest, exts[..k + 1]) == Suffixed(dest, exts[..k]) + {f} by {
        assert exts[..k + 1] == exts[..k] + [exts[k]];
      }
      if f in disk.files {
        var _ := disk.Remove(f);
      }
      k := k + 1;
    }
    assert exts[..k] == exts;
  }

  /** decompress(src, dest, c, name, prog) on a disk. */
  method DecompressFile(disk: Disk, ops: PathOps, src: Path, dest: Path, c: CompressConfig,
                        unpack: seq<byte> -> seq<byte>) returns (r: Outcome)
    requires c.chunkSize > 0
    modifies disk`files
    ensures var spec := DecompressFiles(ops, old(disk.files), disk.dirs, src, dest, c, unpack);
      r == spec.r && disk.files == spec.files
  {
    var fn := src + c.ext;
    if disk.Exists(dest) {
      r := disk.Remove(dest);
      if r.Fail? {
        return r;
      }
    }
    if fn !in disk.files {
      return Fail(NotAFileError(disk.dirs, fn));
    }
    var data := CopyChunks(unpack(disk.files[fn]), c.chunkSize);
    r := disk.WriteFile(ops, dest, data);
    if r.Fail? {
      return r;
    }
    if |data| == 0 {
      return Fail(DivisionByZero);
    }
  }
}
