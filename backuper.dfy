/**
 * game_backuper/backuper.py: BackupTask.run, the per-program sync loop, and Backuper.run, which
 * validates the requested program names and starts one task per program.
 *
 * One entry of a program's files is handled by a decision on what the database records for
 * the name and what the source file looks like now: skip it, copy it and update the record,
 * or copy it and insert a record. Decide/Apply/PassRows state that decision on rows; SyncOne
 * and Sync do it on a Db and a Disk and are proved against them.
 */
module Backup {
  import opened Wrappers
  import opened Crypto
  import opened Files
  import opened Database
  import opened Config

  const LeveldbMsg := "Leveldb is not supported."

  datatype Action =
    | Skip
    | Replace(id: int, size: int, hash: string)
    | Insert(f: File)

  /** The row get_file finds for (prog, name). */
  function Recorded(rows: seq<FileRow>, prog: string, name: string): (r: Option<FileRow>)
    ensures r.None? <==> FirstMatch(rows, prog, name).None?
    ensures r.Some? ==> r.value == rows[FirstMatch(rows, prog, name).value]
  {
    match FirstMatch(rows, prog, name)
    case None => None
    case Some(k) => Some(rows[k])
  }

  /** The decision of BackupTask.run for one plain file: nothing when the source is missing or
      has no fingerprint, nothing when the record has the same size and hash, else copy and
      update that record, or copy and insert the fingerprint when there is no record. */
  function Decide(srcExists: bool, ori: Option<FileRow>, nf: Option<File>): Action
  {
    if !srcExists || nf.None? then Skip
    else if ori.Some? then
      if ori.value.size == nf.value.size && ori.value.hash == nf.value.hash then Skip
      else Replace(ori.value.id, nf.value.size, nf.value.hash)
    else Insert(nf.value)
  }

  /** The database effect of a decision: set_file, add_file (a new row with the next id), or none. */
  function Apply(rows: seq<FileRow>, a: Action): seq<FileRow>
  {
    match a
    case Skip => rows
    case Replace(id, size, hash) => SetSizeHash(rows, id, size, hash)
    case Insert(f) => rows + [FileRow(NextId(rows), f.file, f.size, f.program, f.hash)]
  }

  /** What the run saw of one entry's source: whether it exists, and new_file's fingerprint. */
  datatype Seen = Seen(srcExists: bool, nf: Option<File>)

  /** The files table after the sync loop, given what it saw of each entry. */
  function PassRows(rows: seq<FileRow>, prog: string, entries: seq<Entry>, obs: seq<Seen>): seq<FileRow>
    requires |obs| == |entries|
    decreases |entries|
  {
    if entries == [] then rows
    else
      var n := |entries| - 1;
      var before := PassRows(rows, prog, entries[..n], obs[..n]);
      var e := entries[n];
      if e.Leveldb? then before
      else Apply(before, Decide(obs[n].srcExists, Recorded(before, prog, e.name), obs[n].nf))
  }

  /** A fingerprint is only seen for a plain file, and carries that file's name and program. */
  predicate Consistent(prog: string, entries: seq<Entry>, obs: seq<Seen>)
    requires |obs| == |entries|
  {
    forall k :: 0 <= k < |obs| && obs[k].nf.Some? ==>
      entries[k].NormalFile? && obs[k].nf.value.file == entries[k].name && obs[k].nf.value.program == prog
  }

  predicate DistinctNames(entries: seq<Entry>)
  {
    forall i, j :: 0 <= i < j < |entries| && entries[i].NormalFile? && entries[j].NormalFile? ==>
      entries[i].name != entries[j].name
  }

  /** Nothing left to do for this entry. */
  predicate Synced(rows: seq<FileRow>, prog: string, e: Entry, o: Seen)
  {
    e.Leveldb? || Decide(o.srcExists, Recorded(rows, prog, e.name), o.nf) == Skip
  }

  lemma AppendIncreasing(rows: seq<FileRow>, row: FileRow)
    requires IdsIncreasing(rows) && row.id == NextId(rows)
    ensures IdsIncreasing(rows + [row])
  {
    NextIdFresh(rows);
    var all := rows + [row];
    forall i, j | 0 <= i < j < |all|
      ensures all[i].id < all[j].id
    {
      if j == |rows| {
        assert all[i] == rows[i];
      } else {
        assert all[i] == rows[i] && all[j] == rows[j];
      }
    }
  }

  lemma ApplyIncreasing(rows: seq<FileRow>, a: Action)
    requires IdsIncreasing(rows)
    ensures IdsIncreasing(Apply(rows, a))
  {
    if a.Insert? {
      AppendIncreasing(rows, FileRow(NextId(rows), a.f.file, a.f.size, a.f.program, a.f.hash));
    }
  }

  lemma {:induction false} PassIncreasing(rows: seq<FileRow>, prog: string, entries: seq<Entry>, obs: seq<Seen>)
    requires IdsIncreasing(rows) && |obs| == |entries|
    ensures IdsIncreasing(PassRows(rows, prog, entries, obs))
    decreases |entries|
  {
    if entries != [] {
      var n := |entries| - 1;
      PassIncreasing(rows, prog, entries[..n], obs[..n]);
      var before := PassRows(rows, prog, entries[..n], obs[..n]);
      if entries[n].NormalFile? {
        ApplyIncreasing(before, Decide(obs[n].srcExists, Recorded(before, prog, entries[n].name), obs[n].nf));
      }
    }
  }

  /** Rows that agree on program and file have the same first match. */
  lemma FirstMatchSameKeys(rows: seq<FileRow>, rows': seq<FileRow>, prog: string, name: string)
    requires |rows| == |rows'|
    requires forall i :: 0 <= i < |rows| ==> rows[i].file == rows'[i].file && rows[i].program == rows'[i].program
    ensures FirstMatch(rows', prog, name) == FirstMatch(rows, prog, name)
  {
    var a := FirstMatch(rows, prog, name);
    var b := FirstMatch(rows', prog, name);
    if a.Some? && b.Some? {
      assert !(a.value < b.value) && !(b.value < a.value);
    } else if a.Some? {
      assert Matches(rows'[a.value], prog, name);
    } else if b.Some? {
      assert Matches(rows[b.value], prog, name);
    }
  }

  /** Appending a row for another name does not change what get_file finds for this one. */
  lemma FirstMatchAppendOther(rows: seq<FileRow>, row: FileRow, prog: string, name: string)
    requires !Matches(row, prog, name)
    ensures FirstMatch(rows + [row], prog, name) == FirstMatch(rows, prog, name)
  {
    var all := rows + [row];
    var a := FirstMatch(rows, prog, name);
    var b := FirstMatch(all, prog, name);
    if a.Some? {
      assert Matches(all[a.value], prog, name);
      if b.Some? {
        assert all[b.value] == rows[b.value];
        assert !(a.value < b.value) && !(b.value < a.value);
      }
    }
  }

  /** Appending the first row for this name makes it the one get_file finds. */
  lemma FirstMatchAppendNew(rows: seq<FileRow>, row: FileRow, prog: string, name: string)
    requires Matches(row, prog, name) && FirstMatch(rows, prog, name).None?
    ensures FirstMatch(rows + [row], prog, name) == Some(|rows|)
  {
    var all := rows + [row];
    assert Matches(all[|rows|], prog, name);
  }

  /** Handling one entry does not change what get_file finds for another name. */
  lemma StepKeepsOthers(rows: seq<FileRow>, prog: string, name: string, other: string, o: Seen)
    requires IdsIncreasing(rows) && name != other
    requires o.nf.Some? ==> o.nf.value.file == other && o.nf.value.program == prog
    ensures Recorded(Apply(rows, Decide(o.srcExists, Recorded(rows, prog, other), o.nf)), prog, name)
            == Recorded(rows, prog, name)
  {
    var a := Decide(o.srcExists, Recorded(rows, prog, other), o.nf);
    var after := Apply(rows, a);
    match a {
      case Skip =>
      case Replace(id, size, hash) =>
        FirstMatchSameKeys(rows, after, prog, name);
        var k2 := FirstMatch(rows, prog, other).value;
        assert rows[k2].id == id;
        var m := FirstMatch(rows, prog, name);
        if m.Some? {
          assert m.value != k2 by {
            assert rows[m.value].file == name && rows[k2].file == other;
          }
          assert rows[m.value].id != id by {
            if m.value < k2 {
              assert rows[m.value].id < rows[k2].id;
            } else {
              assert rows[k2].id < rows[m.value].id;
            }
          }
        }
      case Insert(f) =>
        FirstMatchAppendOther(rows, FileRow(NextId(rows), f.file, f.size, f.program, f.hash), prog, name);
        var m := FirstMatch(rows, prog, name);
        if m.Some? {
          assert after[m.value] == rows[m.value];
        }
    }
  }

  /** Handling one entry leaves it synced: the record it finds next time has the seen size and hash. */
  lemma StepSyncs(rows: seq<FileRow>, prog: string, name: string, o: Seen)
    requires IdsIncreasing(rows)
    requires o.nf.Some? ==> o.nf.value.file == name && o.nf.value.program == prog
    ensures Decide(o.srcExists, Recorded(Apply(rows, Decide(o.srcExists, Recorded(rows, prog, name), o.nf)), prog, name), o.nf)
            == Skip
  {
    var a := Decide(o.srcExists, Recorded(rows, prog, name), o.nf);
    var after := Apply(rows, a);
    match a {
      case Skip =>
      case Replace(id, size, hash) =>
        FirstMatchSameKeys(rows, after, prog, name);
        var k := FirstMatch(rows, prog, name).value;
        assert rows[k].id == id;
        assert after[k] == FileRow(id, rows[k].file, size, rows[k].program, hash);
      case Insert(f) =>
        var row := FileRow(NextId(rows), f.file, f.size, f.program, f.hash);
        FirstMatchAppendNew(rows, row, prog, name);
        assert after[|rows|] == row;
    }
  }

  /** After one pass every plain entry is synced, provided names are distinct. */
  lemma {:induction false} PassSyncs(rows: seq<FileRow>, prog: string, entries: seq<Entry>, obs: seq<Seen>)
    requires IdsIncreasing(rows) && |obs| == |entries|
    requires Consistent(prog, entries, obs) && DistinctNames(entries)
    ensures forall k :: 0 <= k < |entries| ==> Synced(PassRows(rows, prog, entries, obs), prog, entries[k], obs[k])
    decreases |entries|
  {
    if entries != [] {
      var n := |entries| - 1;
      var es, os := entries[..n], obs[..n];
      assert Consistent(prog, es, os) by {
        forall k | 0 <= k < n && os[k].nf.Some?
          ensures es[k].NormalFile? && os[k].nf.value.file == es[k].name && os[k].nf.value.program == prog
        {
          assert es[k] == entries[k] && os[k] == obs[k];
        }
      }
      assert DistinctNames(es) by {
        forall i, j | 0 <= i < j < |es| && es[i].NormalFile? && es[j].NormalFile?
          ensures es[i].name != es[j].name
        {
          assert es[i] == entries[i] && es[j] == entries[j];
        }
      }
      PassSyncs(rows, prog, es, os);
      PassIncreasing(rows, prog, es, os);
      var before := PassRows(rows, prog, es, os);
      var after := PassRows(rows, prog, entries, obs);
      forall k | 0 <= k < |entries|
        ensures Synced(after, prog, entries[k], obs[k])
      {
        if entries[n].NormalFile? {
          if k == n {
            StepSyncs(before, prog, entries[n].name, obs[n]);
          } else {
            assert es[k] == entries[k] && os[k] == obs[k];
            if entries[k].NormalFile? {
              StepKeepsOthers(before, prog, entries[k].name, entries[n].name, obs[n]);
            }
          }
        } else if k < n {
          assert es[k] == entries[k] && os[k] == obs[k];
        }
      }
    }
  }

  /** A pass over synced rows changes nothing. */
  lemma {:induction false} SyncedFixed(rows: seq<FileRow>, prog: string, entries: seq<Entry>, obs: seq<Seen>)
    requires |obs| == |entries|
    requires forall k :: 0 <= k < |entries| ==> Synced(rows, prog, entries[k], obs[k])
    ensures PassRows(rows, prog, entries, obs) == rows
    decreases |entries|
  {
    if entries != [] {
      var n := |entries| - 1;
      forall k | 0 <= k < n
        ensures Synced(rows, prog, entries[..n][k], obs[..n][k])
      {
        assert entries[..n][k] == entries[k] && obs[..n][k] == obs[k];
      }
      SyncedFixed(rows, prog, entries[..n], obs[..n]);
      assert Synced(rows, prog, entries[n], obs[n]);
      assert PassRows(rows, prog, entries[..n], obs[..n]) == rows;
    }
  }

  /** A second run over unchanged sources copies nothing and writes nothing: every plain entry
      is skipped, and the files table is left as the first run left it. */
  lemma SecondPassNoWrites(rows: seq<FileRow>, prog: string, entries: seq<Entry>, obs: seq<Seen>)
    requires IdsIncreasing(rows) && |obs| == |entries|
    requires Consistent(prog, entries, obs) && DistinctNames(entries)
    ensures forall k :: 0 <= k < |entries| && entries[k].NormalFile? ==>
      Decide(obs[k].srcExists, Recorded(PassRows(rows, prog, entries, obs), prog, entries[k].name), obs[k].nf) == Skip
    ensures PassRows(PassRows(rows, prog, entries, obs), prog, entries, obs) == PassRows(rows, prog, entries, obs)
  {
    PassSyncs(rows, prog, entries, obs);
    SyncedFixed(PassRows(rows, prog, entries, obs), prog, entries, obs);
  }

  /** new_file's fingerprint as the decision sees it; opening a directory fails the step instead. */
  function Observe(disk: Disk, digest: seq<byte> -> string, src: Path, name: string, prog: string): Option<File>
    reads disk
  {
    match disk.NewFile(digest, src, name, prog)
    case Ok(v) => v
    case Err(_) => None
  }

  /** One iteration of the loop of BackupTask.run. */
  method SyncOne(db: Db, disk: Disk, ops: PathOps, digest: seq<byte> -> string, haveLeveldb: bool,
                 prog: string, bp: Path, e: Entry) returns (r: Outcome, ghost seen: Seen)
    requires db.Valid()
    modifies db`files, db`filetype, disk
    ensures db.Valid()
    ensures old(disk.dirs) <= disk.dirs && old(disk.files).Keys <= disk.files.Keys
    ensures e.Leveldb? ==> r == (if haveLeveldb then Pass else Fail(ValueError(LeveldbMsg))) && seen == Seen(false, None)
    ensures e.NormalFile? ==>
      seen == Seen(old(disk.Exists(e.fullPath)), old(Observe(disk, digest, e.fullPath, e.name, prog)))
    ensures seen.nf.Some? ==> seen.nf.value.file == e.name && seen.nf.value.program == prog
    ensures var a := if e.Leveldb? then Skip else Decide(seen.srcExists, Recorded(old(db.files), prog, e.name), seen.nf);
      && (e.Leveldb? || a == Skip ==>
            db.files == old(db.files) && db.filetype == old(db.filetype)
            && disk.files == old(disk.files) && disk.dirs == old(disk.dirs))
      && (r.Fail? ==> db.files == old(db.files) && db.filetype == old(db.filetype))
      && (r.Pass? ==> db.files == Apply(old(db.files), a) && db.filetype == old(db.filetype))
      && (r.Pass? && e.NormalFile? && a != Skip ==>
            var de := ops.join(bp, e.name);
            && disk.dirs == old(disk.dirs) + old(disk.ParentMade(ops, de))
            && disk.files == old(disk.files)[disk.CopyTarget(ops, e.fullPath, de) := old(disk.files)[e.fullPath]])
  {
    if e.Leveldb? {
      seen := Seen(false, None);
      if !haveLeveldb {
        return Fail(ValueError(LeveldbMsg)), seen;
      }
      // the entry listing is only printed
      return Pass, seen;
    }
    var src := e.fullPath;
    seen := Seen(disk.Exists(src), Observe(disk, digest, src, e.name, prog));
    if !disk.Exists(src) {
      return Pass, seen;
    }
    var ori := db.GetFile(prog, e.name);
    if ori.Err? {
      return Fail(ori.error), seen;
    }
    var nf := disk.NewFile(digest, src, e.name, prog);
    if nf.Err? {
      return Fail(nf.error), seen;
    }
    if nf.value.None? {
      return Pass, seen;
    }
    var f := nf.value.value;
    var de := ops.join(bp, e.name);
    if ori.value.Some? {
      var o := ori.value.value;
      if o.size == f.size && o.hash == f.hash {
        return Pass, seen;
      }
      var c := disk.CopyFile(ops, src, de);
      if c.Err? {
        return Fail(c.error), seen;
      }
      r := db.SetFile(o.id.value, f.size, f.hash);
    } else {
      var c := disk.CopyFile(ops, src, de);
      if c.Err? {
        return Fail(c.error), seen;
      }
      r := db.AddFile(f);
    }
  }

  /** The loop of BackupTask.run over the program's entries; the first failure ends it. */
  method Sync(db: Db, disk: Disk, ops: PathOps, digest: seq<byte> -> string, haveLeveldb: bool,
              prog: string, bp: Path, entries: seq<Entry>) returns (r: Outcome, ghost obs: seq<Seen>)
    requires db.Valid()
    modifies db`files, db`filetype, disk
    ensures db.Valid()
    ensures old(disk.dirs) <= disk.dirs && old(disk.files).Keys <= disk.files.Keys
    ensures r.Pass? ==>
      && |obs| == |entries| && Consistent(prog, entries, obs)
      && db.files == PassRows(old(db.files), prog, entries, obs)
      && db.filetype == old(db.filetype)
    ensures r.Pass? ==> haveLeveldb || forall k :: 0 <= k < |entries| ==> entries[k].NormalFile?
  {
    obs := [];
    var k := 0;
    while k < |entries|
      invariant 0 <= k <= |entries| && |obs| == k
      invariant db.Valid()
      invariant Consistent(prog, entries[..k], obs)
      invariant db.files == PassRows(old(db.files), prog, entries[..k], obs)
      invariant db.filetype == old(db.filetype)
      invariant old(disk.dirs) <= disk.dirs && old(disk.files).Keys <= disk.files.Keys
      invariant haveLeveldb || forall j :: 0 <= j < k ==> entries[j].NormalFile?
      decreases |entries| - k
    {
      ghost var before := db.files;
      var step;
      ghost var seen;
      step, seen := SyncOne(db, disk, ops, digest, haveLeveldb, prog, bp, entries[k]);
      if step.Fail? {
        return step, obs;
      }
      assert entries[..k + 1][..k] == entries[..k];
      assert (obs + [seen])[..k] == obs;
      obs := obs + [seen];
      k := k + 1;
      assert forall j :: 0 <= j < k ==> entries[..k][j] == entries[j];
    }
    assert entries[..k] == entries;
    return Pass, obs;
  }

  /** One iteration of the loop as written, over the five-field File: get_file raises on a
      recorded name and add_file raises after its insert, so an existing plain file always
      fails its BackupTask, and a step that passes has written nothing. */
  method SyncOneAsWritten(db: Db, disk: Disk, ops: PathOps, digest: seq<byte> -> string, haveLeveldb: bool,
                          prog: string, bp: Path, e: Entry) returns (r: Outcome)
    requires db.Valid()
    modifies db`files, disk
    ensures db.Valid()
    ensures e.Leveldb? ==> r == (if haveLeveldb then Pass else Fail(ValueError(LeveldbMsg)))
    ensures e.NormalFile? && old(Observe(disk, digest, e.fullPath, e.name, prog)).Some? ==> r.Fail?
    ensures e.NormalFile? && old(disk.Exists(e.fullPath)) && FilesTable in db.tables && FiletypeTable in db.tables
            && Recorded(old(db.files), prog, e.name).Some? ==>
      r == Fail(TypeError(FieldCountMsg))
    ensures r.Pass? ==> db.files == old(db.files) && unchanged(disk)
  {
    if e.Leveldb? {
      if !haveLeveldb {
        return Fail(ValueError(LeveldbMsg));
      }
      return Pass;
    }
    var src := e.fullPath;
    if !disk.Exists(src) {
      return Pass;
    }
    var ori := db.GetFileAsWritten(prog, e.name);
    if ori.Err? {
      return Fail(ori.error);
    }
    var nf := disk.NewFile(digest, src, e.name, prog);
    if nf.Err? {
      return Fail(nf.error);
    }
    if nf.value.None? {
      return Pass;
    }
    var f := nf.value.value;
    var c := disk.CopyFile(ops, src, ops.join(bp, e.name));
    if c.Err? {
      return Fail(c.error);
    }
    r := db.AddFileAsWritten(f);
  }

  /** The loop as written: it passes only when no plain entry is an existing file, and then it
      has recorded and copied nothing; in particular a first entry that is an existing file
      fails the BackupTask. */
  method SyncAsWritten(db: Db, disk: Disk, ops: PathOps, digest: seq<byte> -> string, haveLeveldb: bool,
                       prog: string, bp: Path, entries: seq<Entry>) returns (r: Outcome)
    requires db.Valid()
    modifies db`files, disk
    ensures db.Valid()
    ensures r.Pass? ==> db.files == old(db.files) && unchanged(disk)
    ensures r.Pass? ==> forall k :: 0 <= k < |entries| && entries[k].NormalFile? ==>
      old(Observe(disk, digest, entries[k].fullPath, entries[k].name, prog)).None?
    ensures |entries| > 0 && entries[0].NormalFile?
            && old(Observe(disk, digest, entries[0].fullPath, entries[0].name, prog)).Some? ==>
      r.Fail?
  {
    var k := 0;
    while k < |entries|
      invariant 0 <= k <= |entries|
      invariant db.Valid()
      invariant db.files == old(db.files) && unchanged(disk)
      invariant forall j :: 0 <= j < k && entries[j].NormalFile? ==>
        Observe(disk, digest, entries[j].fullPath, entries[j].name, prog).None?
      decreases |entries| - k
    {
      var step := SyncOneAsWritten(db, disk, ops, digest, haveLeveldb, prog, bp, entries[k]);
      if step.Fail? {
        return step;
      }
      k := k + 1;
    }
    return Pass;
  }

  /** BackupTask.run: clear the program's cache, make dest/name if it is missing, then sync
      every entry of `files`. A missing name makes the join fail. */
  method RunTask(p: Program, db: Db, disk: Disk, ops: PathOps, tree: Path -> Option<Node>,
                 digest: seq<byte> -> string, haveLeveldb: bool, dest: Path)
    returns (r: Outcome, ghost obs: seq<Seen>)
    requires db.Valid()
    modifies p`cache, db`files, db`filetype, disk
    ensures db.Valid()
    ensures r.Pass? ==>
      && p.Name().Ok? && p.Name().value.Some?
      && FilesOf(ops, tree, p.data, None).Ok?
      && var entries := FilesOf(ops, tree, p.data, None).value;
      && |obs| == |entries| && Consistent(p.Name().value.value, entries, obs)
      && db.files == PassRows(old(db.files), p.Name().value.value, entries, obs)
      && disk.Exists(ops.join(dest, p.Name().value.value))
  {
    obs := [];
    p.ClearCache();
    var name := p.Name();
    if name.Err? {
      return Fail(name.error), obs;
    }
    if name.value.None? {
      return Fail(TypeError(JoinArgMsg("NoneType"))), obs;
    }
    var prog := name.value.value;
    var bp := ops.join(dest, prog);
    if !disk.Exists(bp) {
      var m := disk.Mkdir(ops, bp);
      if m.Fail? {
        return m, obs;
      }
    }
    var entries := p.FilesMemo(ops, tree);
    if entries.Err? {
      return Fail(entries.error), obs;
    }
    r, obs := Sync(db, disk, ops, digest, haveLeveldb, prog, bp, entries.value);
  }

  /** What a backup task leaves in the files table when it succeeds: one sync pass over the
      program's entries, with what it saw of each. */
  ghost predicate TaskEffect(p: Program, ops: PathOps, tree: Path -> Option<Node>, before: seq<FileRow>,
                             after: seq<FileRow>, out: Outcome, obs: seq<Seen>)
  {
    out.Pass? ==>
      && p.Name().Ok? && p.Name().value.Some?
      && FilesOf(ops, tree, p.data, None).Ok?
      && var entries := FilesOf(ops, tree, p.data, None).value;
      && |obs| == |entries| && Consistent(p.Name().value.value, entries, obs)
      && after == PassRows(before, p.Name().value.value, entries, obs)
  }

  /** Backup tasks ran one after another: task k took the files table from hist[k] to hist[k + 1]
      with outcome outs[k]. */
  ghost predicate TaskChain(ops: PathOps, tree: Path -> Option<Node>, ran: seq<Program>, hist: seq<seq<FileRow>>,
                            outs: seq<Outcome>, obss: seq<seq<Seen>>)
    decreases |ran|
  {
    && |hist| == |ran| + 1 && |outs| == |ran| && |obss| == |ran|
    && (|ran| > 0 ==>
          var n := |ran| - 1;
          && TaskChain(ops, tree, ran[..n], hist[..n + 1], outs[..n], obss[..n])
          && TaskEffect(ran[n], ops, tree, hist[n], hist[n + 1], outs[n], obss[n]))
  }

  lemma ChainExtend(ops: PathOps, tree: Path -> Option<Node>, ran: seq<Program>, hist: seq<seq<FileRow>>,
                    outs: seq<Outcome>, obss: seq<seq<Seen>>, p: Program, after: seq<FileRow>, out: Outcome,
                    obs: seq<Seen>)
    requires TaskChain(ops, tree, ran, hist, outs, obss)
    requires TaskEffect(p, ops, tree, hist[|ran|], after, out, obs)
    ensures TaskChain(ops, tree, ran + [p], hist + [after], outs + [out], obss + [obs])
  {
    var n := |ran|;
    assert (ran + [p])[..n] == ran && (hist + [after])[..n + 1] == hist;
    assert (outs + [out])[..n] == outs && (obss + [obs])[..n] == obss;
  }

  /** progs_name: the name of each configured program, in order. */
  function ProgNames(progs: seq<Program>): (r: seq<Option<string>>)
    ensures |r| == |progs|
    ensures forall k :: 0 <= k < |progs| ==> r[k] == (if progs[k].Name().Ok? then progs[k].Name().value else None)
  {
    seq(|progs|, k requires 0 <= k < |progs| => if progs[k].Name().Ok? then progs[k].Name().value else None)
  }

  function IndexOf(xs: seq<Option<string>>, x: Option<string>): (k: nat)
    requires x in xs
    ensures k < |xs| && xs[k] == x && forall j :: 0 <= j < k ==> xs[j] != x
  {
    if xs[0] == x then 0 else 1 + IndexOf(xs[1..], x)
  }

  /** The programs run selects: all of them, or each requested name's first program in order. */
  function Selected(progs: seq<Program>, names: Option<seq<string>>): (r: seq<Program>)
    requires names.Some? ==> forall n :: n in names.value ==> Some(n) in ProgNames(progs)
    ensures forall q :: q in r ==> q in progs
    ensures names.Some? ==>
      |r| == |names.value| && forall k :: 0 <= k < |r| ==> r[k].Name() == Ok(Some(names.value[k]))
  {
    if names.None? then progs
    else seq(|names.value|, k requires 0 <= k < |names.value| => progs[IndexOf(ProgNames(progs), Some(names.value[k]))])
  }

  /** The first requested name that no program has. */
  function FirstUnknown(progs: seq<Program>, names: seq<string>): (r: Option<string>)
    ensures r.None? <==> forall n :: n in names ==> Some(n) in ProgNames(progs)
    ensures r.Some? ==> r.value in names && Some(r.value) !in ProgNames(progs)
  {
    if names == [] then None
    else if Some(names[0]) !in ProgNames(progs) then Some(names[0])
    else FirstUnknown(progs, names[1..])
  }

  const NotFoundPrefix := "Can not find \""
  const NotFoundSuffix := "\" in config file."

  /** Backuper.run: with a name list, every name is checked before any task starts; then one
      backup task per selected program (only for the backup action), and the result is 0.
      Tasks run to completion one after another; a task's failure ends that task only. */
  method RunAll(progs: seq<Program>, names: Option<seq<string>>, backup: bool, db: Db, disk: Disk,
                ops: PathOps, tree: Path -> Option<Node>, digest: seq<byte> -> string,
                haveLeveldb: bool, dest: Path)
    returns (r: Result<int>, ghost ran: seq<Program>, ghost hist: seq<seq<FileRow>>,
             ghost outs: seq<Outcome>, ghost obss: seq<seq<Seen>>)
    requires db.Valid()
    modifies progs, db`files, db`filetype, disk
    ensures db.Valid()
    ensures names.Some? && FirstUnknown(progs, names.value).Some? ==>
      && r == Err(ValueError(NotFoundPrefix + FirstUnknown(progs, names.value).value + NotFoundSuffix))
      && ran == []
      && db.files == old(db.files) && db.filetype == old(db.filetype)
      && disk.files == old(disk.files) && disk.dirs == old(disk.dirs)
    ensures names.None? || FirstUnknown(progs, names.value).None? ==>
      r == Ok(0) && ran == (if backup then Selected(progs, names) else [])
    ensures !backup ==>
      db.files == old(db.files) && db.filetype == old(db.filetype) && unchanged(disk)
    ensures TaskChain(ops, tree, ran, hist, outs, obss) && hist[0] == old(db.files) && hist[|ran|] == db.files
  {
    hist, outs, obss := [db.files], [], [];
    if names.Some? {
      var k := 0;
      while k < |names.value|
        invariant 0 <= k <= |names.value|
        invariant forall j :: 0 <= j < k ==> Some(names.value[j]) in ProgNames(progs)
        decreases |names.value| - k
      {
        if Some(names.value[k]) !in ProgNames(progs) {
          UnknownIsFirst(progs, names.value, k);
          return Err(ValueError(NotFoundPrefix + names.value[k] + NotFoundSuffix)), [], hist, outs, obss;
        }
        k := k + 1;
      }
    }
    ran, hist, outs, obss := RunTasks(Selected(progs, names), progs, backup, db, disk, ops, tree, digest, haveLeveldb, dest);
    return Ok(0), ran, hist, outs, obss;
  }

  /** The second loop of Backuper.run: each chosen program's task in turn, for the backup action. */
  method RunTasks(chosen: seq<Program>, progs: seq<Program>, backup: bool, db: Db, disk: Disk, ops: PathOps,
                  tree: Path -> Option<Node>, digest: seq<byte> -> string, haveLeveldb: bool, dest: Path)
    returns (ghost ran: seq<Program>, ghost hist: seq<seq<FileRow>>, ghost outs: seq<Outcome>,
             ghost obss: seq<seq<Seen>>)
    requires db.Valid()
    requires forall q :: q in chosen ==> q in progs
    modifies progs, db`files, db`filetype, disk
    ensures db.Valid()
    ensures ran == (if backup then chosen else [])
    ensures !backup ==>
      db.files == old(db.files) && db.filetype == old(db.filetype) && unchanged(disk)
    ensures TaskChain(ops, tree, ran, hist, outs, obss) && hist[0] == old(db.files) && hist[|ran|] == db.files
  {
    ran, hist, outs, obss := [], [db.files], [], [];
    var i := 0;
    while i < |chosen|
      invariant 0 <= i <= |chosen|
      invariant db.Valid()
      invariant ran == (if backup then chosen[..i] else [])
      invariant TaskChain(ops, tree, ran, hist, outs, obss) && hist[0] == old(db.files) && hist[|ran|] == db.files
      invariant !backup ==> db.files == old(db.files) && db.filetype == old(db.filetype) && unchanged(disk)
      decreases |chosen| - i
    {
      if backup {
        var out;
        ghost var obs;
        assert chosen[i] in chosen;
        out, obs := BackupStep(chosen[i], db, disk, ops, tree, digest, haveLeveldb, dest);
        ChainExtend(ops, tree, ran, hist, outs, obss, chosen[i], db.files, out, obs);
        ran, hist, outs, obss := ran + [chosen[i]], hist + [db.files], outs + [out], obss + [obs];
      }
      assert chosen[..i + 1] == chosen[..i] + [chosen[i]];
      i := i + 1;
    }
    assert chosen[..i] == chosen;
  }

  /** One backup task, as TaskEffect records it. */
  method BackupStep(p: Program, db: Db, disk: Disk, ops: PathOps, tree: Path -> Option<Node>,
                    digest: seq<byte> -> string, haveLeveldb: bool, dest: Path)
    returns (r: Outcome, ghost obs: seq<Seen>)
    requires db.Valid()
    modifies p`cache, db`files, db`filetype, disk
    ensures db.Valid()
    ensures TaskEffect(p, ops, tree, old(db.files), db.files, r, obs)
  {
    r, obs := RunTask(p, db, disk, ops, tree, digest, haveLeveldb, dest);
  }

  /** The first name the validation loop rejects is the first unknown name. */
  lemma {:induction false} UnknownIsFirst(progs: seq<Program>, names: seq<string>, k: nat)
    requires k < |names| && Some(names[k]) !in ProgNames(progs)
    requires forall j :: 0 <= j < k ==> Some(names[j]) in ProgNames(progs)
    ensures FirstUnknown(progs, names) == Some(names[k])
    decreases k
  {
    if k > 0 {
      UnknownIsFirst(progs, names[1..], k - 1);
    }
  }
}
