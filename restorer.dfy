/**
 * game_backuper/restorer.py: RestoreTask.run. For every file the database records for the
 * program, find the rule it came from; for a path rule, derive where the file goes, claim that
 * path, and copy the backup there unless an equal file is already in place. Every listed path
 * no record claimed is removed afterwards.
 *
 * ConfigPath, Program.get_config and list_all_paths are not part of this model: the rule of a
 * name is the parameter `ruleOf`, and the listed paths are the parameter `listed`.
 */
module Restore {
  import opened Wrappers
  import opened Crypto
  import opened Files
  import opened Database
  import opened Config

  /** What get_config returns: a path rule (ConfigPath, with its optional name) or another rule. */
  datatype Rule = PathRule(name: Option<string>, path: string) | OtherRule

  const TypeMsg := "Type dismatched."
  /** What `f.type` raises when get_file found no record. */
  const NoneTypeMsg := "'NoneType' object has no attribute 'type'"

  /** `r.name if r.name else r.path` */
  function RuleName(rule: Rule): string
    requires rule.PathRule?
  {
    if rule.name.Some? && rule.name.value != [] then rule.name.value else rule.path
  }

  predicate StartsWithDot(s: string)
  {
    |s| > 0 && s[0] == '.'
  }

  /** The directory a path rule restores into: its path, joined onto the base unless absolute. */
  function RuleRoot(ops: PathOps, base: Option<string>, rule: Rule): Path
    requires rule.PathRule? && (ops.isabs(rule.path) || base.Some?)
  {
    if ops.isabs(rule.path) then rule.path else ops.join(base.value, rule.path)
  }

  /** Where a recorded file fn of a path rule is restored: under the rule's root, at the place fn
      has relative to the rule's name; at the root itself when that relative path starts with
      '.' (fn is the name, or lies outside it). A relative rule path needs a base. */
  function Target(ops: PathOps, base: Option<string>, rule: Rule, fn: string): (r: Result<Path>)
    requires rule.PathRule?
    ensures r.Err? <==> !ops.isabs(rule.path) && base.None?
    ensures r.Ok? && StartsWithDot(ops.relpath(fn, RuleName(rule))) ==> r.value == RuleRoot(ops, base, rule)
    ensures Lawful(ops) && r.Ok? && !StartsWithDot(ops.relpath(fn, RuleName(rule)))
            && !ops.isabs(ops.relpath(fn, RuleName(rule))) ==>
      ops.relpath(r.value, RuleRoot(ops, base, rule)) == ops.relpath(fn, RuleName(rule))
  {
    var tmp := ops.relpath(fn, RuleName(rule));
    if !ops.isabs(rule.path) && base.None? then Err(TypeError(FirstNoneMsg))
    else
      var root := if ops.isabs(rule.path) then rule.path else ops.join(base.value, rule.path);
      Ok(if StartsWithDot(tmp) then root else ops.join(root, tmp))
  }

  /** A file stored under the rule's name comes back to the same relative place under the
      rule's root. */
  lemma TargetOfStored(ops: PathOps, base: Option<string>, rule: Rule, x: string)
    requires Lawful(ops) && rule.PathRule?
    requires !ops.isabs(x) && !StartsWithDot(x)
    requires ops.isabs(rule.path) || base.Some?
    ensures Target(ops, base, rule, ops.join(RuleName(rule), x)) == Ok(ops.join(RuleRoot(ops, base, rule), x))
  {
  }

  /** Where x first occurs in pl. */
  function FirstIndex(pl: seq<Path>, x: Path): (i: nat)
    requires x in pl
    ensures i < |pl| && pl[i] == x && x !in pl[..i]
    decreases |pl|
  {
    assert pl == [pl[0]] + pl[1..];
    if pl[0] == x then 0
    else
      var j := FirstIndex(pl[1..], x);
      assert pl[..j + 1] == [pl[0]] + pl[1..][..j];
      j + 1
  }

  lemma FirstIndexShift(pl: seq<Path>, x: Path)
    requires pl != [] && pl[0] != x
    ensures x in pl[1..] ==>
      var j := FirstIndex(pl[1..], x);
      && FirstIndex(pl, x) == j + 1
      && pl[..j + 1] == [pl[0]] + pl[1..][..j]
      && pl[j + 2..] == pl[1..][j + 1..]
  {
    assert pl == [pl[0]] + pl[1..];
  }

  /** `pl.remove(x)` when x is in pl: the first occurrence goes, and the paths before and after
      it stay in order. */
  function RemoveFirst(pl: seq<Path>, x: Path): (r: seq<Path>)
    ensures x !in pl ==> r == pl
    ensures x in pl ==> |r| == |pl| - 1
    ensures multiset(r) == multiset(pl) - multiset{x}
    decreases |pl|
  {
    if pl == [] then []
    else
      assert pl == [pl[0]] + pl[1..];
      if pl[0] == x then pl[1..]
      else
        [pl[0]] + RemoveFirst(pl[1..], x)
  }

  /** remove takes out the first occurrence and nothing else: the paths before it and after it
      stay, in order. */
  lemma {:induction false} RemoveFirstIsFirst(pl: seq<Path>, x: Path)
    requires x in pl
    ensures RemoveFirst(pl, x) == pl[..FirstIndex(pl, x)] + pl[FirstIndex(pl, x) + 1..]
    decreases |pl|
  {
    assert pl == [pl[0]] + pl[1..];
    if pl[0] != x {
      FirstIndexShift(pl, x);
      RemoveFirstIsFirst(pl[1..], x);
    }
  }

  /** The listed paths left after the claims, in order. */
  function Unclaimed(pl: seq<Path>, claims: seq<Path>): seq<Path>
    decreases |claims|
  {
    if claims == [] then pl
    else RemoveFirst(Unclaimed(pl, claims[..|claims| - 1]), claims[|claims| - 1])
  }

  /** What is left is the listed paths minus the claimed ones, counted with multiplicity. */
  lemma {:induction false} UnclaimedCounts(pl: seq<Path>, claims: seq<Path>)
    ensures multiset(Unclaimed(pl, claims)) == multiset(pl) - multiset(claims)
    decreases |claims|
  {
    if claims != [] {
      var init := claims[..|claims| - 1];
      var x := claims[|claims| - 1];
      var u := Unclaimed(pl, init);
      assert multiset(claims) == multiset(init) + multiset{x} by {
        assert claims == init + [x];
      }
      calc {
        multiset(Unclaimed(pl, claims));
        multiset(RemoveFirst(u, x));
        multiset(u) - multiset{x};
        { UnclaimedCounts(pl, init); }
        (multiset(pl) - multiset(init)) - multiset{x};
        { MinusMinus(multiset(pl), multiset(init), x); }
        multiset(pl) - (multiset(init) + multiset{x});
      }
    }
  }

  lemma MinusMinus(a: multiset<Path>, b: multiset<Path>, x: Path)
    ensures (a - b) - multiset{x} == a - (b + multiset{x})
  {
    forall y
      ensures ((a - b) - multiset{x})[y] == (a - (b + multiset{x}))[y]
    {
    }
  }

  /** A listed path that nobody claims is still there to be removed. */
  lemma UnclaimedKeeps(pl: seq<Path>, claims: seq<Path>, q: Path)
    requires q in pl && q !in claims
    ensures q in Unclaimed(pl, claims)
  {
    UnclaimedCounts(pl, claims);
    assert multiset(claims)[q] == 0;
    assert multiset(Unclaimed(pl, claims))[q] == multiset(pl)[q];
  }

  /** Only listed paths are left. */
  lemma UnclaimedListed(pl: seq<Path>, claims: seq<Path>, q: Path)
    requires q in Unclaimed(pl, claims)
    ensures q in pl
  {
    UnclaimedCounts(pl, claims);
    assert multiset(Unclaimed(pl, claims))[q] > 0;
  }

  /** The path one record claims: its target when its rule is a path rule, else none. */
  function ClaimOf(ops: PathOps, base: Option<string>, rule: Rule, fn: string): Option<Path>
  {
    if rule.PathRule? && Target(ops, base, rule, fn).Ok? then Some(Target(ops, base, rule, fn).value) else None
  }

  /** The claims of the records in order. */
  function Claims(ops: PathOps, base: Option<string>, ruleOf: string -> Rule, li: seq<string>): (r: seq<Path>)
    ensures |r| <= |li|
    decreases |li|
  {
    if li == [] then []
    else
      var fn := li[|li| - 1];
      Claims(ops, base, ruleOf, li[..|li| - 1])
      + (match ClaimOf(ops, base, ruleOf(fn), fn) case Some(d) => [d] case None => [])
  }

  lemma ClaimsStep(ops: PathOps, base: Option<string>, ruleOf: string -> Rule, li: seq<string>, k: nat)
    requires k < |li|
    ensures Claims(ops, base, ruleOf, li[..k + 1])
            == Claims(ops, base, ruleOf, li[..k])
               + (match ClaimOf(ops, base, ruleOf(li[k]), li[k]) case Some(d) => [d] case None => [])
  {
    assert li[..k + 1][..k] == li[..k];
  }

  lemma UnclaimedStep(pl: seq<Path>, claims: seq<Path>, d: Path)
    ensures Unclaimed(pl, claims + [d]) == RemoveFirst(Unclaimed(pl, claims), d)
  {
    assert (claims + [d])[..|claims|] == claims;
  }

  /** The body of the record loop: check the record, claim its target, then copy the backup
      there unless an equal file is already in place. Returns the path claimed, if any. */
  method RestoreOne(db: Db, disk: Disk, ops: PathOps, digest: seq<byte> -> string, dest: Path,
                    prog: string, base: Option<string>, fn: string, rule: Rule)
    returns (r: Result<Option<Path>>)
    modifies disk
    ensures old(disk.dirs) <= disk.dirs && old(disk.files).Keys <= disk.files.Keys
    ensures old(disk.Wellformed()) ==> disk.Wellformed()
    ensures r.Ok? ==> r.value == ClaimOf(ops, base, rule, fn)
    ensures r.Ok? && r.value.Some? ==> disk.Exists(r.value.value)
    ensures r.Ok? && r.value.Some? ==> r.value.value in old(disk.files) || r.value.value !in old(disk.dirs)
    ensures rule.OtherRule? && FilesTable in db.tables && FiletypeTable in db.tables ==> r == Ok(None)
    ensures rule.PathRule? && FilesTable in db.tables && FiletypeTable in db.tables
            && FirstMatch(db.files, prog, fn).Some?
            && AsFile(db.files[FirstMatch(db.files, prog, fn).value], db.filetype).fileType.Some? ==>
      r == Err(ValueError(TypeMsg))
    ensures rule.PathRule? && Target(ops, base, rule, fn).Err? ==> r.Err?
    ensures r.Err? || rule.OtherRule? ==> disk.files == old(disk.files)
    ensures rule.OtherRule? ==> disk.dirs == old(disk.dirs)
    ensures r.Ok? && r.value.Some? ==> FirstMatch(db.files, prog, fn).Some?
    ensures r.Ok? && r.value.Some? ==>
      var d := r.value.value;
      var row := db.files[FirstMatch(db.files, prog, fn).value];
      var src := ops.join(ops.join(dest, prog), fn);
      var tf := old(disk.NewFile(digest, d, RuleName(rule), prog));
      if tf.Ok? && tf.value.Some? && tf.value.value.size == row.size && tf.value.value.hash == row.hash then
        disk.files == old(disk.files) && disk.dirs == old(disk.dirs)
      else
        && disk.dirs == old(disk.dirs) + old(disk.ParentMade(ops, d))
        && src in old(disk.files)
        && disk.files == old(disk.files)[disk.CopyTarget(ops, src, d) := old(disk.files)[src]]
  {
    var f := db.GetFile(prog, fn);
    if f.Err? {
      return Err(f.error);
    }
    if !rule.PathRule? {
      return Ok(None);
    }
    if f.value.None? {
      return Err(AttributeError(NoneTypeMsg));
    }
    var rec := f.value.value;
    if rec.fileType.Some? {
      return Err(ValueError(TypeMsg));
    }
    var nam := RuleName(rule);
    var src := ops.join(ops.join(dest, prog), fn);
    var tmp := ops.relpath(fn, nam);
    var target: Path;
    if ops.isabs(rule.path) {
      target := rule.path;
    } else {
      if base.None? {
        return Err(TypeError(FirstNoneMsg));
      }
      target := ops.join(base.value, rule.path);
    }
    if !StartsWithDot(tmp) {
      target := ops.join(target, tmp);
    }
    if disk.Exists(target) {
      var tf := disk.NewFile(digest, target, nam, prog);
      if tf.Err? {
        return Err(tf.error);
      }
      if tf.value.Some? && tf.value.value.size == rec.size && tf.value.value.hash == rec.hash {
        return Ok(Some(target));
      }
    }
    var c := disk.CopyFile(ops, src, target);
    if c.Err? {
      return Err(c.error);
    }
    return Ok(Some(target));
  }

  /** The body of the record loop as written, over the five-field File: get_file raises on
      every recorded name, and a path rule with no record raises on `f.type`; only a name with
      no record and another kind of rule gets through, touching nothing. */
  method RestoreOneAsWritten(db: Db, prog: string, fn: string, rule: Rule) returns (r: Result<Option<Path>>)
    ensures FilesTable in db.tables && FiletypeTable in db.tables && FirstMatch(db.files, prog, fn).Some? ==>
      r == Err(TypeError(FieldCountMsg))
    ensures FilesTable in db.tables && FiletypeTable in db.tables && FirstMatch(db.files, prog, fn).None?
            && rule.PathRule? ==>
      r == Err(AttributeError(NoneTypeMsg))
    ensures r.Ok? ==> r == Ok(None) && rule.OtherRule? && FirstMatch(db.files, prog, fn).None?
  {
    var f := db.GetFileAsWritten(prog, fn);
    if f.Err? {
      return Err(f.error);
    }
    if !rule.PathRule? {
      return Ok(None);
    }
    return Err(AttributeError(NoneTypeMsg));
  }

  /** The record loop as written: over the names get_file_list returns, it succeeds only when
      there are none, so a program with a record cannot be restored. */
  method RestoreAllAsWritten(db: Db, ruleOf: string -> Rule, prog: string, li: seq<string>, listed: seq<Path>)
    returns (r: Result<seq<Path>>)
    ensures r.Ok? ==> r.value == listed
    ensures r.Ok? ==> forall k :: 0 <= k < |li| ==> ruleOf(li[k]).OtherRule? && FirstMatch(db.files, prog, li[k]).None?
    ensures |li| > 0 && li[0] in NamesOf(db.files, prog) && FilesTable in db.tables && FiletypeTable in db.tables ==>
      r == Err(TypeError(FieldCountMsg))
    ensures (forall k :: 0 <= k < |li| ==> li[k] in NamesOf(db.files, prog)) && r.Ok? ==> li == []
  {
    if |li| > 0 && li[0] in NamesOf(db.files, prog) {
      ListedIsFound(db.files, prog, li[0]);
    }
    var k := 0;
    while k < |li|
      invariant 0 <= k <= |li|
      invariant forall j :: 0 <= j < k ==> ruleOf(li[j]).OtherRule? && FirstMatch(db.files, prog, li[j]).None?
      decreases |li| - k
    {
      var one := RestoreOneAsWritten(db, prog, li[k], ruleOf(li[k]));
      if one.Err? {
        return Err(one.error);
      }
      k := k + 1;
    }
    return Ok(listed);
  }

  /** The closing loop: each listed path is removed, as a file or a directory tree. */
  method Cleanup(disk: Disk, ops: PathOps, pl: seq<Path>)
    modifies disk
    ensures forall q :: q in pl ==> q !in disk.files
    ensures forall q :: q in pl && q in disk.dirs ==> q in old(disk.files)
    ensures disk.files.Keys <= old(disk.files).Keys && disk.dirs <= old(disk.dirs)
    ensures forall q :: q in old(disk.files) && q !in pl && (forall d :: d in pl ==> !ops.inside(q, d)) ==>
      q in disk.files && disk.files[q] == old(disk.files)[q]
    ensures forall q :: q in old(disk.dirs) && q !in pl && (forall d :: d in pl ==> !ops.inside(q, d)) ==>
      q in disk.dirs
    ensures old(disk.Wellformed()) ==> disk.Wellformed() && forall q :: q in pl ==> q !in disk.dirs
  {
    var k := 0;
    while k < |pl|
      invariant 0 <= k <= |pl|
      invariant forall j :: 0 <= j < k ==> pl[j] !in disk.files
      invariant forall j :: 0 <= j < k && pl[j] in disk.dirs ==> pl[j] in old(disk.files)
      invariant disk.files.Keys <= old(disk.files).Keys && disk.dirs <= old(disk.dirs)
      invariant forall q :: q in old(disk.files) && q !in pl && (forall d :: d in pl ==> !ops.inside(q, d)) ==>
        q in disk.files && disk.files[q] == old(disk.files)[q]
      invariant forall q :: q in old(disk.dirs) && q !in pl && (forall d :: d in pl ==> !ops.inside(q, d)) ==>
        q in disk.dirs
      invariant old(disk.Wellformed()) ==> disk.Wellformed()
      decreases |pl| - k
    {
      var i := pl[k];
      if i in disk.files {
        var _ := disk.Remove(i);
      } else if i in disk.dirs {
        var _ := disk.RemoveDirs(ops, i);
      }
      k := k + 1;
    }
  }

  /** RestoreOne as the record loop relies on it: the path it claims, which then exists, and a
      disk that only grows. */
  method RestoreStep(db: Db, disk: Disk, ops: PathOps, digest: seq<byte> -> string, dest: Path,
                     prog: string, base: Option<string>, fn: string, rule: Rule)
    returns (r: Result<Option<Path>>)
    modifies disk
    ensures old(disk.dirs) <= disk.dirs && old(disk.files).Keys <= disk.files.Keys
    ensures old(disk.Wellformed()) ==> disk.Wellformed()
    ensures r.Ok? ==> r.value == ClaimOf(ops, base, rule, fn)
    ensures r.Ok? && r.value.Some? ==> r.value.value in disk.files || r.value.value in disk.dirs
  {
    r := RestoreOne(db, disk, ops, digest, dest, prog, base, fn, rule);
  }

  /** The record loop of RestoreTask.run; the first failure ends it. */
  method RestoreAll(db: Db, disk: Disk, ops: PathOps, digest: seq<byte> -> string, ruleOf: string -> Rule,
                    dest: Path, prog: string, base: Option<string>, li: seq<string>, listed: seq<Path>)
    returns (r: Result<seq<Path>>, ghost claimed: seq<Path>)
    modifies disk
    ensures old(disk.files).Keys <= disk.files.Keys && old(disk.dirs) <= disk.dirs
    ensures old(disk.Wellformed()) ==> disk.Wellformed()
    ensures r.Ok? ==> claimed == Claims(ops, base, ruleOf, li) && r.value == Unclaimed(listed, claimed)
    ensures forall d :: d in claimed ==> d in disk.files || d in disk.dirs
  {
    claimed := [];
    var pl := listed;
    var k := 0;
    while k < |li|
      invariant 0 <= k <= |li|
      invariant claimed == Claims(ops, base, ruleOf, li[..k])
      invariant pl == Unclaimed(listed, claimed)
      invariant old(disk.files).Keys <= disk.files.Keys && old(disk.dirs) <= disk.dirs
      invariant old(disk.Wellformed()) ==> disk.Wellformed()
      invariant forall d :: d in claimed ==> d in disk.files || d in disk.dirs
      decreases |li| - k
    {
      var fn := li[k];
      var one := RestoreStep(db, disk, ops, digest, dest, prog, base, fn, ruleOf(fn));
      if one.Err? {
        return Err(one.error), claimed;
      }
      ClaimsStep(ops, base, ruleOf, li, k);
      if one.value.Some? {
        var d := one.value.value;
        pl := RemoveFirst(pl, d);
        UnclaimedStep(listed, claimed, d);
        claimed := claimed + [d];
      }
      k := k + 1;
    }
    assert li[..k] == li;
    return Ok(pl), claimed;
  }

  /** RestoreTask.run. With no name, get_file_list matches no record, so only its table check and the
      removal run. */
  method RunRestore(p: Program, db: Db, disk: Disk, ops: PathOps, digest: seq<byte> -> string,
                    ruleOf: string -> Rule, dest: Path, listed: seq<Path>)
    returns (r: Outcome, ghost claimed: seq<Path>)
    modifies disk
    ensures r.Pass? ==> p.Base().Ok? && p.Name().Ok? && FilesTable in db.tables
    ensures r.Pass? ==>
      var li := if p.Name().value.Some? then NamesOf(db.files, p.Name().value.value) else [];
      claimed == Claims(ops, p.Base().value, ruleOf, li)
    ensures old(disk.Wellformed()) ==> disk.Wellformed()
    ensures r.Pass? ==> forall q :: q in Unclaimed(listed, claimed) ==> q !in disk.files
    ensures r.Pass? && old(disk.Wellformed()) ==> forall q :: q in Unclaimed(listed, claimed) ==> q !in disk.dirs
    ensures r.Pass? ==>
      forall d :: (d in claimed && d !in Unclaimed(listed, claimed)
                   && forall u :: u in Unclaimed(listed, claimed) ==> !ops.inside(d, u)) ==>
        d in disk.files || d in disk.dirs
    ensures r.Pass? ==> forall q :: q in old(disk.files) && q !in listed && (forall d :: d in listed ==> !ops.inside(q, d)) ==>
      q in disk.files
    ensures r.Pass? ==> forall q :: q in old(disk.dirs) && q !in listed && (forall d :: d in listed ==> !ops.inside(q, d)) ==>
      q in disk.dirs
  {
    claimed := [];
    var b := p.Base();
    if b.Err? {
      return Fail(b.error), claimed;
    }
    var n := p.Name();
    if n.Err? {
      return Fail(n.error), claimed;
    }
    var li: seq<string> := [];
    if n.value.Some? {
      var got := db.GetFileList(n.value.value);
      if got.Err? {
        return Fail(got.error), claimed;
      }
      li := got.value;
    } else if FilesTable !in db.tables {
      // get_file_list(None) still runs its SELECT, which matches no row (program=NULL) but
      // fails on a missing table; Config.__init__ rejects a program without a name anyway
      return Fail(OperationalError("no such table: files")), claimed;
    }
    var prog := if n.value.Some? then n.value.value else "";
    var left;
    left, claimed := RestoreAll(db, disk, ops, digest, ruleOf, dest, prog, b.value, li, listed);
    if left.Err? {
      return Fail(left.error), claimed;
    }
    ghost var mid := disk.files;
    Cleanup(disk, ops, left.value);
    forall q | (q in old(disk.files) || q in old(disk.dirs)) && q !in listed && (forall d :: d in listed ==> !ops.inside(q, d))
      ensures q in old(disk.files) ==> q in disk.files
      ensures q in old(disk.dirs) ==> q in disk.dirs
    {
      if q in left.value {
        UnclaimedListed(listed, claimed, q);
      }
      forall d | d in left.value
        ensures !ops.inside(q, d)
      {
        UnclaimedListed(listed, claimed, d);
      }
    }
    return Pass, claimed;
  }
}
