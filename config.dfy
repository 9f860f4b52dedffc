/**
 * game_backuper/config.py: the configuration document, one Program per entry of `programs`,
 * and the expansion of a program's file rules into (name, full path) entries.
 *
 * The document is a YAML value; dictionary keys that are not strings are left out, since the
 * code only looks up string keys. Python's `in` and `[]` are modelled on it as the code uses
 * them, including the TypeError on a value that is not a container.
 */
module Config {
  import opened Wrappers
  import opened Crypto
  import opened Files

  datatype Yaml =
    | YNull
    | YBool(b: bool)
    | YInt(i: int)
    | YStr(s: string)
    | YList(items: seq<Yaml>)
    | YDict(m: map<string, Yaml>)

  /** The name of the Python type a YAML value loads as. */
  function TypeName(y: Yaml): string
  {
    match y
    case YNull => "NoneType"
    case YBool(_) => "bool"
    case YInt(_) => "int"
    case YStr(_) => "str"
    case YList(_) => "list"
    case YDict(_) => "dict"
  }

  /** What a program's `files` yields, and the two kinds BackupTask tells apart: a plain file
      (name, full path) and a leveldb store (full path, optional domain list). */
  datatype Entry =
    | NormalFile(name: string, fullPath: Path)
    | Leveldb(fullPath: Path, domains: Option<seq<seq<byte>>>)

  predicate IsSubstring(k: string, s: string)
    decreases |s|
  {
    |k| <= |s| && (s[..|k|] == k || (|s| > 0 && IsSubstring(k, s[1..])))
  }

  /** `key in container` */
  function Contains(container: Yaml, key: string): (r: Result<bool>)
    ensures container.YDict? ==> r == Ok(key in container.m)
    ensures container.YList? ==> r == Ok(YStr(key) in container.items)
    ensures !container.YDict? && !container.YList? && !container.YStr? ==> r.Err? && r.error.TypeError?
  {
    match container
    case YDict(m) => Ok(key in m)
    case YList(items) => Ok(YStr(key) in items)
    case YStr(s) => Ok(IsSubstring(key, s))
    case _ => Err(TypeError("argument is not iterable"))
  }

  /** `container[key]` with a string key */
  function Subscript(container: Yaml, key: string): (r: Result<Yaml>)
    ensures r.Ok? <==> container.YDict? && key in container.m
    ensures r.Ok? ==> r.value == container.m[key]
  {
    match container
    case YDict(m) => if key in m then Ok(m[key]) else Err(KeyError(key))
    case _ => Err(TypeError("indices must be integers"))
  }

  /** The `name` and `base` properties: the value when it is a non-empty string, else None. */
  function StrField(data: Yaml, key: string): (r: Result<Option<string>>)
    ensures data.YDict? ==>
      r == Ok(if key in data.m && data.m[key].YStr? && |data.m[key].s| > 0 then Some(data.m[key].s) else None)
    ensures r.Ok? && r.value.Some? ==> |r.value.value| > 0
    ensures !data.YDict? && !data.YList? && !data.YStr? ==> r.Err? && r.error.TypeError?
  {
    match Contains(data, key)
    case Err(e) => Err(e)
    case Ok(present) =>
      if !present then Ok(None)
      else match Subscript(data, key)
        case Err(e) => Err(e)
        case Ok(v) => if v.YStr? && |v.s| > 0 then Ok(Some(v.s)) else Ok(None)
  }

  const FilesMsg := "Files is needed and should be a list."

  /** The rule list under 'files', or the error `files` raises first. */
  function FilesList(data: Yaml): (r: Result<seq<Yaml>>)
    ensures data.YDict? ==>
      (r.Ok? <==> "files" in data.m && data.m["files"].YList?)
    ensures data.YDict? && r.Err? ==> r == Err(ValueError(FilesMsg))
    ensures r.Ok? ==> data.YDict? && r.value == data.m["files"].items
  {
    match Contains(data, "files")
    case Err(e) => Err(e)
    case Ok(present) =>
      if !present then Err(ValueError(FilesMsg))
      else match Subscript(data, "files")
        case Err(e) => Err(e)
        case Ok(v) => if v.YList? then Ok(v.items) else Err(ValueError(FilesMsg))
  }

  /** The entries of one listdirs result, named relative to the base. */
  function Relative(ops: PathOps, b: Path, ll: seq<Path>): (r: seq<Entry>)
    ensures |r| == |ll|
    ensures forall k :: 0 <= k < |ll| ==> r[k] == NormalFile(ops.relpath(ll[k], b), ll[k])
  {
    seq(|ll|, k requires 0 <= k < |ll| => NormalFile(ops.relpath(ll[k], b), ll[k]))
  }

  /** One rule of `files`, with `b = self.base` already evaluated: a string names one file; a
      dict of type 'path' lists a directory; anything else yields nothing. `tree` gives the
      node found at a path. */
  function ExpandRule(ops: PathOps, tree: Path -> Option<Node>, base: Result<Option<string>>, item: Yaml)
    : Result<seq<Entry>>
  {
    match base
    case Err(e) => Err(e)
    case Ok(b) =>
      match item
      case YStr(i) =>
        if b.None? then Err(TypeError(FirstNoneMsg))
        else Ok([NormalFile(i, ops.join(b.value, i))])
      case YDict(m) =>
        if "type" !in m then Err(KeyError("type"))
        else if m["type"] != YStr("path") then Ok([])
        else if "path" !in m then Err(KeyError("path"))
        else if b.None? then Err(TypeError(FirstNoneMsg))
        else if !m["path"].YStr? then Err(TypeError(JoinArgMsg(TypeName(m["path"]))))
        else
          var bp := ops.join(b.value, m["path"].s);
          (match Listing(ops, bp, tree(bp))
           case Err(e) => Err(e)
           case Ok(ll) => Ok(Relative(ops, b.value, ll)))
      case _ => Ok([])
  }

  /** The body of the rule loop of `files` for one rule, given the evaluated base. */
  method ExpandOne(ops: PathOps, tree: Path -> Option<Node>, b: Result<Option<string>>, i: Yaml)
    returns (r: Result<seq<Entry>>)
    ensures r == ExpandRule(ops, tree, b, i)
  {
    if b.Err? {
      return Err(b.error);
    }
    if i.YStr? {
      if b.value.None? {
        return Err(TypeError(FirstNoneMsg));
      }
      return Ok([NormalFile(i.s, ops.join(b.value.value, i.s))]);
    }
    if !i.YDict? {
      return Ok([]);
    }
    if "type" !in i.m {
      return Err(KeyError("type"));
    }
    if i.m["type"] != YStr("path") {
      return Ok([]);
    }
    if "path" !in i.m {
      return Err(KeyError("path"));
    }
    if b.value.None? {
      return Err(TypeError(FirstNoneMsg));
    }
    if !i.m["path"].YStr? {
      return Err(TypeError(JoinArgMsg(TypeName(i.m["path"]))));
    }
    var base := b.value.value;
    var bp := ops.join(base, i.m["path"].s);
    var ll := ListDirsAt(ops, bp, tree(bp));
    if ll.Err? {
      return Err(ll.error);
    }
    var out: seq<Entry> := [];
    var j := 0;
    while j < |ll.value|
      invariant 0 <= j <= |ll.value|
      invariant out == Relative(ops, base, ll.value[..j])
      decreases |ll.value| - j
    {
      assert Relative(ops, base, ll.value[..j + 1])
             == Relative(ops, base, ll.value[..j]) + [NormalFile(ops.relpath(ll.value[j], base), ll.value[j])];
      out := out + [NormalFile(ops.relpath(ll.value[j], base), ll.value[j])];
      j := j + 1;
    }
    assert ll.value[..j] == ll.value;
    return Ok(out);
  }

  /** Each rule's own result, in list order, with the base evaluated for each rule. */
  function Steps(ops: PathOps, tree: Path -> Option<Node>, data: Yaml, items: seq<Yaml>)
    : (r: seq<Result<seq<Entry>>>)
    ensures |r| == |items|
    ensures forall k :: 0 <= k < |items| ==> r[k] == ExpandRule(ops, tree, StrField(data, "base"), items[k])
  {
    seq(|items|, k requires 0 <= k < |items| => ExpandRule(ops, tree, StrField(data, "base"), items[k]))
  }

  /** The results joined in order; the first error ends it. */
  function Flatten(rs: seq<Result<seq<Entry>>>): Result<seq<Entry>>
    decreases |rs|
  {
    if rs == [] then Ok([])
    else
      match Flatten(rs[..|rs| - 1])
      case Err(e) => Err(e)
      case Ok(xs) =>
        (match rs[|rs| - 1]
         case Err(e) => Err(e)
         case Ok(ys) => Ok(xs + ys))
  }

  /** The loop of `files`: each rule's entries, in order; the first error ends it. */
  function ExpandRules(ops: PathOps, tree: Path -> Option<Node>, data: Yaml, items: seq<Yaml>)
    : Result<seq<Entry>>
  {
    Flatten(Steps(ops, tree, data, items))
  }

  lemma StepsPrefix(ops: PathOps, tree: Path -> Option<Node>, data: Yaml, items: seq<Yaml>, k: nat)
    requires k <= |items|
    ensures Steps(ops, tree, data, items[..k]) == Steps(ops, tree, data, items)[..k]
  {
  }

  lemma StepsAppend(ops: PathOps, tree: Path -> Option<Node>, data: Yaml, xs: seq<Yaml>, ys: seq<Yaml>)
    ensures Steps(ops, tree, data, xs + ys) == Steps(ops, tree, data, xs) + Steps(ops, tree, data, ys)
  {
  }

  lemma {:induction false} FlattenErrPrefix(rs: seq<Result<seq<Entry>>>, k: nat)
    requires k <= |rs| && Flatten(rs[..k]).Err?
    ensures Flatten(rs) == Flatten(rs[..k])
    decreases |rs| - k
  {
    if k < |rs| {
      assert rs[..|rs| - 1][..k] == rs[..k];
      FlattenErrPrefix(rs[..|rs| - 1], k);
    } else {
      assert rs[..k] == rs;
    }
  }

  lemma {:induction false} FlattenAppend(a: seq<Result<seq<Entry>>>, b: seq<Result<seq<Entry>>>)
    requires Flatten(a).Ok? && Flatten(b).Ok?
    ensures Flatten(a + b) == Ok(Flatten(a).value + Flatten(b).value)
    decreases |b|
  {
    if b == [] {
      assert a + b == a;
      assert Flatten(a).value + [] == Flatten(a).value;
    } else {
      var init := b[..|b| - 1];
      assert (a + b)[..|a + b| - 1] == a + init;
      assert (a + b)[|a + b| - 1] == b[|b| - 1];
      FlattenAppend(a, init);
      var e := Flatten(a).value;
      var i := Flatten(init).value;
      assert (e + i) + b[|b| - 1].value == e + (i + b[|b| - 1].value);
    }
  }

  /** One more rule: its entries follow, or its error ends the expansion. */
  lemma ExpandRulesStep(ops: PathOps, tree: Path -> Option<Node>, data: Yaml, items: seq<Yaml>, k: nat)
    requires k < |items| && ExpandRules(ops, tree, data, items[..k]).Ok?
    ensures var step := ExpandRule(ops, tree, StrField(data, "base"), items[k]);
      ExpandRules(ops, tree, data, items[..k + 1])
      == if step.Err? then Err(step.error) else Ok(ExpandRules(ops, tree, data, items[..k]).value + step.value)
  {
    var rs := Steps(ops, tree, data, items[..k + 1]);
    assert rs[..k] == Steps(ops, tree, data, items[..k]);
  }

  /** Once a prefix of the rules fails, the whole expansion fails the same way. */
  lemma ExpandRulesErrPrefix(ops: PathOps, tree: Path -> Option<Node>, data: Yaml,
                             items: seq<Yaml>, k: nat)
    requires k <= |items|
    requires ExpandRules(ops, tree, data, items[..k]).Err?
    ensures ExpandRules(ops, tree, data, items) == ExpandRules(ops, tree, data, items[..k])
  {
    StepsPrefix(ops, tree, data, items, k);
    FlattenErrPrefix(Steps(ops, tree, data, items), k);
  }

  /** Rules expand independently and in list order: the expansion of xs + ys is that of xs
      followed by that of ys. */
  lemma ExpandRulesAppend(ops: PathOps, tree: Path -> Option<Node>, data: Yaml,
                          xs: seq<Yaml>, ys: seq<Yaml>)
    requires ExpandRules(ops, tree, data, xs).Ok? && ExpandRules(ops, tree, data, ys).Ok?
    ensures ExpandRules(ops, tree, data, xs + ys)
            == Ok(ExpandRules(ops, tree, data, xs).value + ExpandRules(ops, tree, data, ys).value)
  {
    StepsAppend(ops, tree, data, xs, ys);
    FlattenAppend(Steps(ops, tree, data, xs), Steps(ops, tree, data, ys));
  }

  /** The entries a list of plain string rules names: each file, joined onto the base. */
  function StringEntries(ops: PathOps, b: string, items: seq<Yaml>): (r: seq<Entry>)
    requires forall k :: 0 <= k < |items| ==> items[k].YStr?
    ensures |r| == |items|
    ensures forall k :: 0 <= k < |items| ==> r[k] == NormalFile(items[k].s, ops.join(b, items[k].s))
  {
    seq(|items|, k requires 0 <= k < |items| => NormalFile(items[k].s, ops.join(b, items[k].s)))
  }

  /** A list of plain string rules names exactly those files, in order. */
  lemma {:induction false} ExpandStrings(ops: PathOps, tree: Path -> Option<Node>, data: Yaml,
                                         items: seq<Yaml>, b: string)
    requires StrField(data, "base") == Ok(Some(b))
    requires forall k :: 0 <= k < |items| ==> items[k].YStr?
    ensures ExpandRules(ops, tree, data, items) == Ok(StringEntries(ops, b, items))
    decreases |items|
  {
    if items != [] {
      var init := items[..|items| - 1];
      ExpandStrings(ops, tree, data, init, b);
      ExpandRulesStep(ops, tree, data, items, |items| - 1);
      assert items[..|items| - 1 + 1] == items;
      var last := items[|items| - 1];
      assert StringEntries(ops, b, items) == StringEntries(ops, b, init) + [NormalFile(last.s, ops.join(b, last.s))];
      assert ExpandRule(ops, tree, StrField(data, "base"), last) == Ok([NormalFile(last.s, ops.join(b, last.s))]);
    } else {
      assert Steps(ops, tree, data, items) == [];
      assert Flatten([]) == Ok([]);
    }
  }

  /** With the path law, every entry is named by its full path relative to the base: a string
      rule names a relative path, a 'path' rule names what listdirs found relative to base. */
  lemma {:induction false} EntriesRelative(ops: PathOps, tree: Path -> Option<Node>, data: Yaml,
                                           items: seq<Yaml>, b: string)
    requires Lawful(ops)
    requires StrField(data, "base") == Ok(Some(b))
    requires forall k :: 0 <= k < |items| && items[k].YStr? ==> !ops.isabs(items[k].s)
    requires ExpandRules(ops, tree, data, items).Ok?
    ensures forall e :: e in ExpandRules(ops, tree, data, items).value ==>
      e.NormalFile? && e.name == ops.relpath(e.fullPath, b)
    decreases |items|
  {
    if items != [] {
      var init := items[..|items| - 1];
      ExpandRulesAppendLast(ops, tree, data, items);
      EntriesRelative(ops, tree, data, init, b);
      var last := items[|items| - 1];
      var ys := ExpandRule(ops, tree, Ok(Some(b)), last).value;
      forall e | e in ys
        ensures e.NormalFile? && e.name == ops.relpath(e.fullPath, b)
      {
        if last.YStr? {
          assert e == NormalFile(last.s, ops.join(b, last.s));
        }
      }
    }
  }

  /** The unfolding of ExpandRules at its last rule, when it succeeds. */
  lemma ExpandRulesAppendLast(ops: PathOps, tree: Path -> Option<Node>, data: Yaml, items: seq<Yaml>)
    requires items != [] && ExpandRules(ops, tree, data, items).Ok?
    ensures ExpandRules(ops, tree, data, items[..|items| - 1]).Ok?
    ensures ExpandRule(ops, tree, StrField(data, "base"), items[|items| - 1]).Ok?
    ensures ExpandRules(ops, tree, data, items).value
            == ExpandRules(ops, tree, data, items[..|items| - 1]).value
               + ExpandRule(ops, tree, StrField(data, "base"), items[|items| - 1]).value
  {
    StepsPrefix(ops, tree, data, items, |items| - 1);
  }

  /** What `files` returns, given the cache it finds. */
  function FilesOf(ops: PathOps, tree: Path -> Option<Node>, data: Yaml, cache: Option<seq<Entry>>)
    : Result<seq<Entry>>
  {
    match FilesList(data)
    case Err(e) => Err(e)
    case Ok(items) => if cache.Some? then Ok(cache.value) else ExpandRules(ops, tree, data, items)
  }

  /** What `check` returns, given the cache it finds. */
  function CheckOf(ops: PathOps, tree: Path -> Option<Node>, data: Yaml, cache: Option<seq<Entry>>)
    : Result<bool>
  {
    match StrField(data, "name")
    case Err(e) => Err(e)
    case Ok(n) =>
      if n.None? then Ok(false)
      else match StrField(data, "base")
        case Err(e) => Err(e)
        case Ok(b) =>
          if b.None? then Ok(false)
          else match FilesOf(ops, tree, data, cache)
            case Err(e) => Err(e)
            case Ok(_) => Ok(true)
  }

  /** check() is False exactly when name or base is missing; otherwise it is True once the rules
      expand, and it raises what `files` raises. */
  lemma CheckMeaning(ops: PathOps, tree: Path -> Option<Node>, data: Yaml, cache: Option<seq<Entry>>)
    requires StrField(data, "name").Ok? && StrField(data, "base").Ok?
    ensures CheckOf(ops, tree, data, cache) == Ok(false) <==>
      StrField(data, "name").value.None? || StrField(data, "base").value.None?
    ensures CheckOf(ops, tree, data, cache) == Ok(true) <==>
      StrField(data, "name").value.Some? && StrField(data, "base").value.Some?
      && FilesOf(ops, tree, data, cache).Ok?
  {
  }

  class Program {
    const data: Yaml
    /** _files */
    var cache: Option<seq<Entry>>

    constructor (d: Yaml)
      ensures data == d && cache.None?
    {
      data := d;
      cache := None;
    }

    /** The `name` property. */
    function Name(): Result<Option<string>>
    {
      StrField(data, "name")
    }

    /** The `base` property. */
    function Base(): Result<Option<string>>
    {
      StrField(data, "base")
    }

    /** clear_cache() */
    method ClearCache()
      modifies this`cache
      ensures cache.None?
    {
      cache := None;
    }

    /** The `files` property, as written: the cache is assigned a copy of the still-empty
        result list before the rules are expanded, so it holds [] afterwards. */
    method Files(ops: PathOps, tree: Path -> Option<Node>) returns (r: Result<seq<Entry>>)
      modifies this`cache
      ensures r == FilesOf(ops, tree, data, old(cache))
      ensures FilesList(data).Ok? && old(cache).None? ==> cache == Some([])
      ensures FilesList(data).Err? || old(cache).Some? ==> cache == old(cache)
    {
      var fl := FilesList(data);
      if fl.Err? {
        return Err(fl.error);
      }
      if cache.Some? {
        return Ok(cache.value);
      }
      var out: seq<Entry> := [];
      cache := Some(out);
      r := Expand(ops, tree, fl.value);
    }

    /** The `files` property as evidently intended: the expanded list is what gets cached. */
    method FilesMemo(ops: PathOps, tree: Path -> Option<Node>) returns (r: Result<seq<Entry>>)
      modifies this`cache
      ensures r == FilesOf(ops, tree, data, old(cache))
      ensures FilesList(data).Ok? && old(cache).None? && r.Ok? ==> cache == Some(r.value)
      ensures FilesList(data).Err? || old(cache).Some? || r.Err? ==> cache == old(cache)
    {
      var fl := FilesList(data);
      if fl.Err? {
        return Err(fl.error);
      }
      if cache.Some? {
        return Ok(cache.value);
      }
      r := Expand(ops, tree, fl.value);
      if r.Ok? {
        cache := Some(r.value);
      }
    }

    /** The rule loop of `files`: evaluate the base for each rule, then expand it. */
    method Expand(ops: PathOps, tree: Path -> Option<Node>, items: seq<Yaml>) returns (r: Result<seq<Entry>>)
      ensures r == ExpandRules(ops, tree, data, items)
    {
      var out: seq<Entry> := [];
      var k := 0;
      while k < |items|
        invariant 0 <= k <= |items|
        invariant ExpandRules(ops, tree, data, items[..k]) == Ok(out)
        decreases |items| - k
      {
        var b := Base();
        var entries := ExpandOne(ops, tree, b, items[k]);
        ExpandRulesStep(ops, tree, data, items, k);
        if entries.Err? {
          ExpandRulesErrPrefix(ops, tree, data, items, k + 1);
          return Err(entries.error);
        }
        out := out + entries.value;
        k := k + 1;
      }
      assert items[..k] == items;
      return Ok(out);
    }

    /** check(): False when name or base is missing, else evaluate `files` and return True. */
    method Check(ops: PathOps, tree: Path -> Option<Node>) returns (r: Result<bool>)
      modifies this`cache
      ensures r == CheckOf(ops, tree, data, old(cache))
    {
      var n := Name();
      if n.Err? {
        return Err(n.error);
      }
      if n.value.None? {
        return Ok(false);
      }
      var b := Base();
      if b.Err? {
        return Err(b.error);
      }
      if b.value.None? {
        return Ok(false);
      }
      var f := Files(ops, tree);
      if f.Err? {
        return Err(f.error);
      }
      return Ok(true);
    }
  }

  /** As written, a second `files` after a successful first one returns the cached []. */
  lemma SecondFilesCallEmpty(ops: PathOps, tree: Path -> Option<Node>, data: Yaml)
    requires FilesList(data).Ok?
    ensures FilesOf(ops, tree, data, Some([])) == Ok([])
  {
  }

  /** One program whose first `files` lists a file and whose second, as written, lists none. */
  lemma FilesCacheCounterexample(ops: PathOps, tree: Path -> Option<Node>)
    ensures var data := YDict(map["name" := YStr("g"), "base" := YStr("b"), "files" := YList([YStr("s")])]);
      && FilesOf(ops, tree, data, None) == Ok([NormalFile("s", ops.join("b", "s"))])
      && FilesOf(ops, tree, data, Some([])) == Ok([])
  {
    var data := YDict(map["name" := YStr("g"), "base" := YStr("b"), "files" := YList([YStr("s")])]);
    assert FilesList(data) == Ok([YStr("s")]);
    var items := [YStr("s")];
    assert StrField(data, "base") == Ok(Some("b"));
    ExpandStrings(ops, tree, data, items, "b");
    assert StringEntries(ops, "b", items) == [NormalFile("s", ops.join("b", "s"))];
  }

  /** With the intended cache, a second `files` returns what the first did. */
  lemma MemoSecondCallSame(ops: PathOps, tree: Path -> Option<Node>, data: Yaml)
    requires FilesList(data).Ok? && FilesOf(ops, tree, data, None).Ok?
    ensures FilesOf(ops, tree, data, Some(FilesOf(ops, tree, data, None).value)) == FilesOf(ops, tree, data, None)
  {
  }

  /** The class-level `progs` list of Config, shared by every Config object. */
  class ProgramList {
    var items: seq<Program>

    constructor ()
      ensures items == []
    {
      items := [];
    }
  }

  class Conf {
    /** dest */
    const dest: string
    /** progs: the shared class-level list */
    const progs: ProgramList

    constructor (d: string, p: ProgramList)
      ensures dest == d && progs == p
    {
      dest, progs := d, p;
    }
  }

  /** The checks of Config.__init__ before the program loop, in order. */
  function DocumentCheck(doc: Yaml): (r: Result<(string, seq<Yaml>)>)
    ensures doc.YNull? ==> r == Err(ValueError("Can not load config file."))
    ensures !doc.YNull? && !doc.YDict? ==> r == Err(ValueError("Config file error."))
    ensures doc.YDict? && ("dest" !in doc.m || !doc.m["dest"].YStr?) ==>
      r == Err(ValueError("Config file don't have dest or dest is not str."))
    ensures doc.YDict? && "dest" in doc.m && doc.m["dest"].YStr? && "programs" !in doc.m ==>
      r == Err(ValueError("No programs found."))
    ensures doc.YDict? && "dest" in doc.m && doc.m["dest"].YStr? && "programs" in doc.m && !doc.m["programs"].YList? ==>
      r == Err(ValueError("programs should be list."))
    ensures r.Ok? <==> doc.YDict? && "dest" in doc.m && doc.m["dest"].YStr? && "programs" in doc.m && doc.m["programs"].YList?
    ensures r.Ok? ==> r.value == (doc.m["dest"].s, doc.m["programs"].items)
  {
    if doc.YNull? then Err(ValueError("Can not load config file."))
    else if !doc.YDict? then Err(ValueError("Config file error."))
    else if "dest" !in doc.m || !doc.m["dest"].YStr? then Err(ValueError("Config file don't have dest or dest is not str."))
    else if "programs" !in doc.m then Err(ValueError("No programs found."))
    else if !doc.m["programs"].YList? then Err(ValueError("programs should be list."))
    else Ok((doc.m["dest"].s, doc.m["programs"].items))
  }

  /** Every program entry passes check() on a fresh Program. */
  predicate AllPass(ops: PathOps, tree: Path -> Option<Node>, ps: seq<Yaml>)
    decreases |ps|
  {
    ps == [] || (AllPass(ops, tree, ps[..|ps| - 1]) && CheckOf(ops, tree, ps[|ps| - 1], None) == Ok(true))
  }

  /** Every program of a list that passes as a whole passes check(). */
  lemma {:induction false} AllPassEach(ops: PathOps, tree: Path -> Option<Node>, ps: seq<Yaml>, k: nat)
    requires AllPass(ops, tree, ps) && k < |ps|
    ensures CheckOf(ops, tree, ps[k], None) == Ok(true)
    decreases |ps|
  {
    if k < |ps| - 1 {
      assert ps[..|ps| - 1][k] == ps[k];
      AllPassEach(ops, tree, ps[..|ps| - 1], k);
    }
  }

  /** Config.__init__ on a loaded document: validate it, then make a Program per entry and
      append it to the shared list, failing at the first one whose check() is False or raises.
      Programs appended before the failure stay in the shared list. */
  method LoadConfig(doc: Yaml, shared: ProgramList, ops: PathOps, tree: Path -> Option<Node>)
    returns (r: Result<Conf>)
    modifies shared
    ensures DocumentCheck(doc).Err? ==> r == Err(DocumentCheck(doc).error) && shared.items == old(shared.items)
    ensures DocumentCheck(doc).Ok? ==> (r.Ok? <==> AllPass(ops, tree, DocumentCheck(doc).value.1))
    ensures r.Err? ==> old(shared.items) <= shared.items
    ensures r.Ok? ==>
      var ps := DocumentCheck(doc).value.1;
      && r.value.dest == DocumentCheck(doc).value.0 && r.value.progs == shared
      && |shared.items| == |old(shared.items)| + |ps|
      && shared.items[..|old(shared.items)|] == old(shared.items)
      && forall k :: 0 <= k < |ps| ==> shared.items[|old(shared.items)| + k].data == ps[k]
  {
    var checked := DocumentCheck(doc);
    if checked.Err? {
      return Err(checked.error);
    }
    var (dest, ps) := checked.value;
    var o := AddPrograms(ps, shared, ops, tree);
    if o.Fail? {
      return Err(o.error);
    }
    var conf := new Conf(dest, shared);
    return Ok(conf);
  }

  /** The program loop of Config.__init__: a Program per entry, appended to the shared list
      once its check() is True; the first entry that fails ends the loop. */
  method AddPrograms(ps: seq<Yaml>, shared: ProgramList, ops: PathOps, tree: Path -> Option<Node>)
    returns (r: Outcome)
    modifies shared
    ensures r.Pass? <==> AllPass(ops, tree, ps)
    ensures old(shared.items) <= shared.items
    ensures r.Pass? ==>
      && |shared.items| == |old(shared.items)| + |ps|
      && forall k :: 0 <= k < |ps| ==> shared.items[|old(shared.items)| + k].data == ps[k]
  {
    var k := 0;
    while k < |ps|
      invariant 0 <= k <= |ps|
      invariant AllPass(ops, tree, ps[..k])
      invariant |shared.items| == |old(shared.items)| + k
      invariant old(shared.items) <= shared.items
      invariant forall j :: 0 <= j < k ==> shared.items[|old(shared.items)| + j].data == ps[j]
      decreases |ps| - k
    {
      var p := new Program(ps[k]);
      var c := p.Check(ops, tree);
      if c.Err? || !c.value {
        assert !AllPass(ops, tree, ps) by {
          if AllPass(ops, tree, ps) {
            AllPassEach(ops, tree, ps, k);
          }
        }
        if c.Err? {
          return Fail(c.error);
        }
        return Fail(ValueError("Config error: program information error"));
      }
      assert ps[..k + 1][..k] == ps[..k];
      shared.items := shared.items + [p];
      k := k + 1;
    }
    assert ps[..k] == ps;
    return Pass;
  }
}
