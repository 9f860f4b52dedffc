/**
 * game_backuper/db.py: the metadata store. Three SQLite tables:
 *   version  (id TEXT PRIMARY KEY, v1..v4 INT)   -- one row 'main' holds the schema version
 *   files    (id INTEGER PRIMARY KEY, file, size, program, hash)
 *   filetype (id INT PRIMARY KEY, type INT)      -- present only for records with a type
 * `files` is kept in rowid order, the order a table scan returns it; a new row takes
 * max(rowid) + 1. Every method is one atomic step (the lock in the source).
 */
module Database {
  import opened Wrappers
  import opened Files

  /** Db.VERSION */
  const VERSION: seq<int> := [1, 0, 0, 1]
  /** The version below which the filetype table is missing. */
  const FiletypeSince: seq<int> := [1, 0, 0, 1]
  /** The v1..v4 columns __write_version stores. */
  const VersionCols: seq<Option<int>> := [Some(1), Some(0), Some(0), Some(1)]

  const VersionTable := "version"
  const FilesTable := "files"
  const FiletypeTable := "filetype"

  /** What Python says when a six-column row is unpacked into the five-field File. */
  const FieldCountMsg := "File.__new__() takes 6 positional arguments but 7 were given"
  /** What Python says when add_file reads `type` of a five-field File. */
  const NoTypeMsg := "'File' object has no attribute 'type'"

  datatype FileRow = FileRow(id: int, file: string, size: int, program: string, hash: string)

  /** Everything the database holds. */
  datatype DbState = DbState(tables: set<string>, version: map<string, seq<Option<int>>>,
                             files: seq<FileRow>, filetype: map<int, int>)

  /** Python's `<` on lists of ints: lexicographic, a proper prefix is smaller. */
  function LexLess(a: seq<int>, b: seq<int>): bool
    decreases |a|
  {
    if b == [] then false
    else if a == [] then true
    else if a[0] != b[0] then a[0] < b[0]
    else LexLess(a[1..], b[1..])
  }

  /** `<` on lists is a strict total order: exactly one of a < b, a == b, b < a. */
  lemma {:induction false} LexTrichotomy(a: seq<int>, b: seq<int>)
    ensures LexLess(a, b) || a == b || LexLess(b, a)
    ensures !(LexLess(a, b) && LexLess(b, a))
    ensures !LexLess(a, a)
    decreases |a|
  {
    if a != [] && b != [] && a[0] == b[0] {
      LexTrichotomy(a[1..], b[1..]);
      if a[1..] == b[1..] {
        assert a == [a[0]] + a[1..] && b == [b[0]] + b[1..];
      }
    }
    if a != [] {
      LexTrichotomy(a[1..], a[1..]);
    }
  }

  /** `[k for k in row if isinstance(k, int)]`: the integer columns, NULLs dropped. */
  function IntColumns(cols: seq<Option<int>>): (r: seq<int>)
    ensures |r| <= |cols|
    ensures (forall i :: 0 <= i < |cols| ==> cols[i].Some?) ==>
      |r| == |cols| && forall i :: 0 <= i < |r| ==> r[i] == cols[i].value
    decreases |cols|
  {
    if cols == [] then []
    else (if cols[0].Some? then [cols[0].value] else []) + IntColumns(cols[1..])
  }

  /** __read_version against the table snapshot: None without a version table (as of the last
      refresh) or without a 'main' row. */
  function ReadVersionOf(exist: set<string>, version: map<string, seq<Option<int>>>): (r: Option<seq<int>>)
    ensures r.None? <==> VersionTable !in exist || "main" !in version
    ensures r.Some? ==> r.value == IntColumns(version["main"])
  {
    if VersionTable !in exist || "main" !in version then None
    else Some(IntColumns(version["main"]))
  }

  /** The row __write_version stores reads back as VERSION. */
  lemma VersionColsReadBack()
    ensures IntColumns(VersionCols) == VERSION
  {
    assert forall i :: 0 <= i < |VersionCols| ==> VersionCols[i].Some?;
  }

  /** __check_database on state s (the snapshot just refreshed): (table was usable, new state). */
  function CheckSpec(s: DbState): Result<(bool, DbState)>
  {
    var v := ReadVersionOf(s.tables, s.version);
    if v.None? then Ok((false, s))
    else if LexLess(v.value, VERSION) then
      if LexLess(v.value, FiletypeSince) && FiletypeTable in s.tables
      then Err(OperationalError("table filetype already exists"))
      else Ok((true, s.(tables := s.tables + (if LexLess(v.value, FiletypeSince) then {FiletypeTable} else {}),
                          version := s.version["main" := VersionCols])))
    else if LexLess(VERSION, v.value) then Err(ValueError("Database version is higher. Please update program."))
    else Ok((true, s))
  }

  /** __create_table with a fresh snapshot: every missing table is created; a new version table
      gets the 'main' row. */
  function CreateSpec(s: DbState): DbState
  {
    s.(tables := s.tables + {VersionTable, FilesTable, FiletypeTable},
       version := if VersionTable !in s.tables then map["main" := VersionCols] else s.version)
  }

  /** Lines 117-119 of Db.__init__: check the database, create the tables when it is unusable. */
  function OpenSpec(s: DbState): Result<DbState>
  {
    match CheckSpec(s)
    case Err(e) => Err(e)
    case Ok((ok, s')) => if ok then Ok(s') else Ok(CreateSpec(s))
  }

  /** A database with no tables gets all three, and the 'main' row reads VERSION. */
  lemma OpenEmpty(s: DbState)
    requires s.tables == {}
    ensures OpenSpec(s).Ok?
    ensures OpenSpec(s).value.tables == {VersionTable, FilesTable, FiletypeTable}
    ensures OpenSpec(s).value.files == s.files && OpenSpec(s).value.filetype == s.filetype
    ensures ReadVersionOf(OpenSpec(s).value.tables, OpenSpec(s).value.version) == Some(VERSION)
  {
    VersionColsReadBack();
  }

  /** A stored version above VERSION is refused and nothing changes. */
  lemma OpenRejectsNewer(s: DbState)
    requires ReadVersionOf(s.tables, s.version).Some?
    requires LexLess(VERSION, ReadVersionOf(s.tables, s.version).value)
    ensures OpenSpec(s) == Err(ValueError("Database version is higher. Please update program."))
  {
    LexTrichotomy(VERSION, ReadVersionOf(s.tables, s.version).value);
  }

  /** A stored version below VERSION gets the filetype table (when it is missing) and the 'main'
      row rewritten to VERSION; the files and filetype rows are untouched. */
  lemma OpenMigratesOlder(s: DbState)
    requires ReadVersionOf(s.tables, s.version).Some?
    requires LexLess(ReadVersionOf(s.tables, s.version).value, VERSION)
    requires FiletypeTable !in s.tables
    ensures OpenSpec(s).Ok?
    ensures OpenSpec(s).value == s.(tables := s.tables + {FiletypeTable},
                                    version := s.version["main" := VersionCols])
    ensures ReadVersionOf(OpenSpec(s).value.tables, OpenSpec(s).value.version) == Some(VERSION)
  {
    VersionColsReadBack();
  }

  /** After a successful open the version reads VERSION, unless the version table exists
      with no 'main' row: __create_table then skips it and the row is never written. */
  lemma OpenLeavesCurrentVersion(s: DbState)
    requires OpenSpec(s).Ok?
    ensures var t := OpenSpec(s).value;
      ReadVersionOf(t.tables, t.version) == Some(VERSION)
      || (VersionTable in s.tables && "main" !in s.version && t == CreateSpec(s)
          && ReadVersionOf(t.tables, t.version).None?)
  {
    VersionColsReadBack();
    var v := ReadVersionOf(s.tables, s.version);
    if v.Some? {
      LexTrichotomy(v.value, VERSION);
    }
  }

  /** Opening a database that is current changes nothing. */
  lemma OpenIdempotent(s: DbState)
    requires OpenSpec(s).Ok? && ReadVersionOf(OpenSpec(s).value.tables, OpenSpec(s).value.version) == Some(VERSION)
    ensures OpenSpec(OpenSpec(s).value) == OpenSpec(s)
  {
    LexTrichotomy(VERSION, VERSION);
  }

  /** ids strictly increase in scan order (rowid order). */
  ghost predicate IdsIncreasing(rows: seq<FileRow>)
  {
    forall i, j :: 0 <= i < j < |rows| ==> rows[i].id < rows[j].id
  }

  /** The rowid SQLite assigns to the next insert: one past the largest, 1 in an empty table. */
  function NextId(rows: seq<FileRow>): int
  {
    if rows == [] then 1 else rows[|rows| - 1].id + 1
  }

  lemma NextIdFresh(rows: seq<FileRow>)
    requires IdsIncreasing(rows)
    ensures forall i :: 0 <= i < |rows| ==> rows[i].id < NextId(rows)
    ensures IdsIncreasing(rows + [FileRow(NextId(rows), "", 0, "", "")])
  {
  }

  predicate Matches(row: FileRow, prog: string, file: string)
  {
    row.program == prog && row.file == file
  }

  /** Index of the first row in scan order with this program and file. */
  function FirstMatch(rows: seq<FileRow>, prog: string, file: string): (k: Option<nat>)
    ensures k.None? <==> forall i :: 0 <= i < |rows| ==> !Matches(rows[i], prog, file)
    ensures k.Some? ==> k.value < |rows| && Matches(rows[k.value], prog, file)
                        && forall i :: 0 <= i < k.value ==> !Matches(rows[i], prog, file)
    decreases |rows|
  {
    if rows == [] then None
    else if Matches(rows[0], prog, file) then Some(0)
    else match FirstMatch(rows[1..], prog, file)
      case None => None
      case Some(j) => Some(j + 1)
  }

  /** A files row as get_file returns it: joined with its filetype row, if any. */
  function AsFile(row: FileRow, filetype: map<int, int>): File
  {
    File(Some(row.id), row.file, row.size, row.program, row.hash,
         if row.id in filetype then Some(filetype[row.id]) else None)
  }

  /** `SELECT file FROM files WHERE program=?`, in scan order. */
  function NamesOf(rows: seq<FileRow>, prog: string): (r: seq<string>)
    ensures |r| <= |rows|
    decreases |rows|
  {
    if rows == [] then []
    else NamesOf(rows[..|rows| - 1], prog)
         + (if rows[|rows| - 1].program == prog then [rows[|rows| - 1].file] else [])
  }

  /** get_file_list names exactly the files of that program. */
  lemma {:induction false} NamesOfMembers(rows: seq<FileRow>, prog: string, x: string)
    ensures x in NamesOf(rows, prog) <==>
      exists i :: 0 <= i < |rows| && rows[i].program == prog && rows[i].file == x
    decreases |rows|
  {
    if rows != [] {
      var init := rows[..|rows| - 1];
      NamesOfMembers(init, prog, x);
      if x in NamesOf(init, prog) {
        var i :| 0 <= i < |init| && init[i].program == prog && init[i].file == x;
        assert rows[i] == init[i];
      }
      if exists i :: 0 <= i < |rows| && rows[i].program == prog && rows[i].file == x {
        var i :| 0 <= i < |rows| && rows[i].program == prog && rows[i].file == x;
        if i < |init| {
          assert init[i] == rows[i];
        }
      }
    }
  }

  /** Every name get_file_list returns is found by get_file. */
  lemma ListedIsFound(rows: seq<FileRow>, prog: string, x: string)
    requires x in NamesOf(rows, prog)
    ensures FirstMatch(rows, prog, x).Some?
  {
    NamesOfMembers(rows, prog, x);
    var i :| 0 <= i < |rows| && rows[i].program == prog && rows[i].file == x;
    assert Matches(rows[i], prog, x);
  }

  /** `UPDATE files SET size=?, hash=? WHERE id=?`. */
  function SetSizeHash(rows: seq<FileRow>, id: int, size: int, hash: string): (r: seq<FileRow>)
    ensures |r| == |rows|
    ensures forall i :: 0 <= i < |rows| && rows[i].id != id ==> r[i] == rows[i]
    ensures forall i :: 0 <= i < |rows| && rows[i].id == id ==>
      r[i] == FileRow(id, rows[i].file, size, rows[i].program, hash)
  {
    seq(|rows|, i requires 0 <= i < |rows| =>
      if rows[i].id == id then rows[i].(size := size, hash := hash) else rows[i])
  }

  /** `DELETE FROM files WHERE id=?`; with a NULL id nothing matches. */
  function WithoutId(rows: seq<FileRow>, id: Option<int>): (r: seq<FileRow>)
    ensures forall x :: x in r <==> x in rows && Some(x.id) != id
    ensures |r| <= |rows|
    decreases |rows|
  {
    if rows == [] then []
    else WithoutId(rows[..|rows| - 1], id)
         + (if Some(rows[|rows| - 1].id) != id then [rows[|rows| - 1]] else [])
  }

  /** Deleting rows keeps the remaining rows in scan order. */
  lemma {:induction false} WithoutIdIncreasing(rows: seq<FileRow>, id: Option<int>)
    requires IdsIncreasing(rows)
    ensures IdsIncreasing(WithoutId(rows, id))
    decreases |rows|
  {
    if rows != [] {
      var init := rows[..|rows| - 1];
      assert IdsIncreasing(init);
      WithoutIdIncreasing(init, id);
      var w := WithoutId(init, id);
      forall k | 0 <= k < |w|
        ensures w[k].id < rows[|rows| - 1].id
      {
        assert w[k] in init;
      }
    }
  }

  /** The ids of the rows with that program and file. */
  function MatchIds(rows: seq<FileRow>, prog: string, file: string): (r: set<int>)
    ensures forall i :: 0 <= i < |rows| && Matches(rows[i], prog, file) ==> rows[i].id in r
    decreases |rows|
  {
    if rows == [] then {}
    else
      var init := rows[..|rows| - 1];
      InitIndex(rows);
      MatchIds(init, prog, file) + (if Matches(rows[|rows| - 1], prog, file) then {rows[|rows| - 1].id} else {})
  }

  /** MatchIds holds nothing but the ids of matching rows. */
  lemma {:induction false} MatchIdsOnly(rows: seq<FileRow>, prog: string, file: string, id: int)
    requires id in MatchIds(rows, prog, file)
    ensures exists i :: 0 <= i < |rows| && Matches(rows[i], prog, file) && rows[i].id == id
    decreases |rows|
  {
    var n := |rows| - 1;
    if !(Matches(rows[n], prog, file) && rows[n].id == id) {
      MatchIdsOnly(rows[..n], prog, file, id);
      var i :| 0 <= i < n && Matches(rows[..n][i], prog, file) && rows[..n][i].id == id;
      assert rows[i] == rows[..n][i];
    }
  }

  lemma InitIndex(rows: seq<FileRow>)
    requires rows != []
    ensures forall i :: 0 <= i < |rows| - 1 ==> rows[..|rows| - 1][i] == rows[i]
  {
  }

  /** The filetype rows add_file inserts: one for every row of that program and file, with the
      type; every other filetype row is kept. */
  function TagMatches(ft: map<int, int>, rows: seq<FileRow>, prog: string, file: string, t: int): (r: map<int, int>)
    ensures r.Keys == ft.Keys + MatchIds(rows, prog, file)
    ensures forall i :: 0 <= i < |rows| && Matches(rows[i], prog, file) ==> rows[i].id in r && r[rows[i].id] == t
    ensures forall id :: id in ft && id !in MatchIds(rows, prog, file) ==> r[id] == ft[id]
    decreases |rows|
  {
    if rows == [] then ft
    else
      var m := TagMatches(ft, rows[..|rows| - 1], prog, file, t);
      InitIndex(rows);
      if Matches(rows[|rows| - 1], prog, file) then m[rows[|rows| - 1].id := t] else m
  }

  /** Some row of that program and file already has a filetype row. */
  predicate TagConflict(ft: map<int, int>, rows: seq<FileRow>, prog: string, file: string)
  {
    exists i :: 0 <= i < |rows| && Matches(rows[i], prog, file) && rows[i].id in ft
  }

  /** How many rows the tag loop gets through before it meets a matching row that already has a
      filetype row: all of them when there is none. */
  function TagPrefix(ft: map<int, int>, rows: seq<FileRow>, prog: string, file: string): (n: nat)
    ensures n <= |rows|
    ensures !TagConflict(ft, rows[..n], prog, file)
    ensures n < |rows| ==> Matches(rows[n], prog, file) && rows[n].id in ft
    decreases |rows|
  {
    if rows == [] then 0
    else if Matches(rows[0], prog, file) && rows[0].id in ft then 0
    else
      var m := TagPrefix(ft, rows[1..], prog, file);
      assert rows[..m + 1] == [rows[0]] + rows[1..][..m];
      1 + m
  }

  /** The loop of add_file over `SELECT * FROM files WHERE program=? AND file=?`: insert a
      filetype row for each match, failing on an id that already has one. `written` is the
      filetype table afterwards: the rows inserted before the failing one stay. */
  method InsertTypes(ft0: map<int, int>, rows: seq<FileRow>, prog: string, file: string, t: int)
    returns (r: Result<map<int, int>>, written: map<int, int>)
    requires IdsIncreasing(rows)
    ensures r.Err? <==> TagConflict(ft0, rows, prog, file)
    ensures r.Err? ==> r.error.IntegrityError?
    ensures r.Ok? ==> r.value == written == TagMatches(ft0, rows, prog, file, t)
    ensures written == TagMatches(ft0, rows[..TagPrefix(ft0, rows, prog, file)], prog, file, t)
  {
    var ft := ft0;
    var k := 0;
    var n := TagPrefix(ft0, rows, prog, file);
    while k < |rows|
      invariant 0 <= k <= |rows|
      invariant ft == TagMatches(ft0, rows[..k], prog, file, t)
      invariant forall j :: 0 <= j < k && Matches(rows[j], prog, file) ==> rows[j].id !in ft0
      invariant forall id :: id in ft ==> id in ft0 || exists j :: 0 <= j < k && rows[j].id == id
      invariant k <= n
      decreases |rows| - k
    {
      assert rows[..k + 1][..k] == rows[..k];
      assert ft0.Keys <= ft.Keys;
      if Matches(rows[k], prog, file) {
        if rows[k].id in ft {
          assert TagConflict(ft0, rows, prog, file);
          assert k == n;
          return Err(IntegrityError("UNIQUE constraint failed: filetype.id")), ft;
        }
        ft := ft[rows[k].id := t];
      }
      assert k != n;
      k := k + 1;
    }
    assert rows[..k] == rows;
    return Ok(ft), ft;
  }

  /** remove_file's argument: an id, or a record whose id and type are used as they are. */
  datatype FileKey = ById(id: int) | ByRecord(f: File)

  class Db {
    /** Tables present (sqlite_master). */
    var tables: set<string>
    /** _exist_table: the table names as of the last refresh. */
    var existTable: set<string>
    /** version rows by id: the v1..v4 columns. */
    var version: map<string, seq<Option<int>>>
    /** files rows in rowid order. */
    var files: seq<FileRow>
    /** filetype rows: id -> type. */
    var filetype: map<int, int>

    function State(): DbState
      reads this
    {
      DbState(tables, version, files, filetype)
    }

    ghost predicate Valid()
      reads this
    {
      IdsIncreasing(files)
    }

    /** An existing database file, before Db.__init__ checks it. */
    constructor (s: DbState)
      requires IdsIncreasing(s.files)
      ensures Valid() && State() == s && existTable == {}
    {
      tables, version, files, filetype := s.tables, s.version, s.files, s.filetype;
      existTable := {};
    }

    /** __updateExistsTable */
    method UpdateExistsTable()
      modifies this`existTable
      ensures existTable == tables
    {
      existTable := tables;
    }

    /** __write_version: insert the 'main' row if __read_version finds none, else update it. */
    method WriteVersion() returns (r: Outcome)
      modifies this`version
      ensures VersionTable !in tables ==> r.Fail? && version == old(version)
      ensures VersionTable in tables && ReadVersionOf(existTable, old(version)).None? && "main" in old(version) ==>
        r.Fail? && r.error.IntegrityError? && version == old(version)
      ensures VersionTable in tables && (ReadVersionOf(existTable, old(version)).Some? || "main" !in old(version)) ==>
        r == Pass && version == old(version)["main" := VersionCols]
    {
      if VersionTable !in tables {
        return Fail(OperationalError("no such table: version"));
      }
      if ReadVersionOf(existTable, version).None? {
        if "main" in version {
          return Fail(IntegrityError("UNIQUE constraint failed: version.id"));
        }
        version := version["main" := VersionCols];
      } else {
        version := version["main" := VersionCols];
      }
      return Pass;
    }

    /** __check_database */
    method CheckDatabase() returns (r: Result<bool>)
      requires Valid()
      modifies this`existTable, this`tables, this`version
      ensures Valid() && existTable == old(tables)
      ensures CheckSpec(old(State())).Ok? ==>
        r == Ok(CheckSpec(old(State())).value.0) && State() == CheckSpec(old(State())).value.1
      ensures CheckSpec(old(State())).Err? ==>
        r == Err(CheckSpec(old(State())).error) && State() == old(State())
    {
      UpdateExistsTable();
      var v := ReadVersionOf(existTable, version);
      if v.None? {
        return Ok(false);
      }
      if LexLess(v.value, VERSION) {
        if LexLess(v.value, FiletypeSince) {
          if FiletypeTable in tables {
            return Err(OperationalError("table filetype already exists"));
          }
          tables := tables + {FiletypeTable};
        }
        var w := WriteVersion();
      }
      if LexLess(VERSION, v.value) {
        LexTrichotomy(VERSION, v.value);
        return Err(ValueError("Database version is higher. Please update program."));
      }
      return Ok(true);
    }

    /** __create_table: create each table the snapshot lacks; a new version table gets the
        'main' row through __write_version. */
    method CreateTable() returns (r: Outcome)
      requires existTable == tables
      modifies this`tables, this`version
      ensures r == Pass && State() == CreateSpec(old(State()))
    {
      if VersionTable !in existTable {
        tables := tables + {VersionTable};
        version := map[];
        var w := WriteVersion();
      }
      if FilesTable !in existTable {
        tables := tables + {FilesTable};
      }
      if FiletypeTable !in existTable {
        tables := tables + {FiletypeTable};
      }
      return Pass;
    }

    /** Lines 117-119 of Db.__init__. */
    method Open() returns (r: Outcome)
      requires Valid()
      modifies this`existTable, this`tables, this`version
      ensures Valid()
      ensures OpenSpec(old(State())).Ok? ==> r == Pass && State() == OpenSpec(old(State())).value
      ensures OpenSpec(old(State())).Err? ==> r == Fail(OpenSpec(old(State())).error) && State() == old(State())
    {
      var ok := CheckDatabase();
      if ok.Err? {
        return Fail(ok.error);
      }
      if !ok.value {
        r := CreateTable();
      }
      return Pass;
    }

    /** get_file(prog, file): the first row in scan order with that program and file, joined
        with its type, or None. */
    method GetFile(prog: string, file: string) returns (r: Result<Option<File>>)
      ensures FilesTable !in tables || FiletypeTable !in tables ==> r.Err?
      ensures FilesTable in tables && FiletypeTable in tables ==>
        r == Ok(match FirstMatch(files, prog, file)
                case None => None
                case Some(k) => Some(AsFile(files[k], filetype)))
    {
      if FilesTable !in tables || FiletypeTable !in tables {
        return Err(OperationalError("no such table"));
      }
      var k := 0;
      while k < |files|
        invariant 0 <= k <= |files|
        invariant forall j :: 0 <= j < k ==> !Matches(files[j], prog, file)
        decreases |files| - k
      {
        if Matches(files[k], prog, file) {
          return Ok(Some(AsFile(files[k], filetype)));
        }
        k := k + 1;
      }
      return Ok(None);
    }

    /** get_file as written: `File(*i)` passes the six columns of the joined row to the
        five-field namedtuple, so every match raises TypeError; only a miss returns. */
    method GetFileAsWritten(prog: string, file: string) returns (r: Result<Option<File>>)
      ensures FilesTable !in tables || FiletypeTable !in tables ==> r.Err?
      ensures FilesTable in tables && FiletypeTable in tables ==>
        r == (if FirstMatch(files, prog, file).None? then Ok(None) else Err(TypeError(FieldCountMsg)))
      ensures r.Ok? ==> r.value.None?
    {
      r := GetFile(prog, file);
      if r.Ok? && r.value.Some? {
        r := Err(TypeError(FieldCountMsg));
      }
    }

    /** get_file_list(prog): the names of that program's rows, in scan order. */
    method GetFileList(prog: string) returns (r: Result<seq<string>>)
      ensures FilesTable !in tables ==> r.Err?
      ensures FilesTable in tables ==> r == Ok(NamesOf(files, prog))
    {
      if FilesTable !in tables {
        return Err(OperationalError("no such table: files"));
      }
      var li: seq<string> := [];
      var k := 0;
      while k < |files|
        invariant 0 <= k <= |files|
        invariant li == NamesOf(files[..k], prog)
        decreases |files| - k
      {
        assert files[..k + 1][..k] == files[..k];
        if files[k].program == prog {
          li := li + [files[k].file];
        }
        k := k + 1;
      }
      assert files[..k] == files;
      return Ok(li);
    }

    /** add_file(f): insert a row with the next rowid, then, when f has a type, a filetype row
        for every row of that program and file (the new one included). A row that already has
        a filetype row makes the insert fail; nothing is rolled back, so the new files row and
        the filetype rows inserted before the failing one stay in the open transaction. */
    method AddFile(f: File) returns (r: Outcome)
      requires Valid()
      modifies this`files, this`filetype
      ensures Valid()
      ensures var newRows := old(files) + [FileRow(NextId(old(files)), f.file, f.size, f.program, f.hash)];
        && (r.Fail? <==>
              FilesTable !in tables
              || (f.fileType.Some? && (FiletypeTable !in tables
                                       || TagConflict(old(filetype), newRows, f.program, f.file))))
        && (FilesTable !in tables ==> files == old(files) && filetype == old(filetype))
        && (FilesTable in tables ==> files == newRows)
        && (f.fileType.None? || FiletypeTable !in tables ==> filetype == old(filetype))
        && (r.Pass? && f.fileType.Some? ==>
              filetype == TagMatches(old(filetype), newRows, f.program, f.file, f.fileType.value))
        && (FilesTable in tables && FiletypeTable in tables && f.fileType.Some? ==>
              filetype == TagMatches(old(filetype), newRows[..TagPrefix(old(filetype), newRows, f.program, f.file)],
                                     f.program, f.file, f.fileType.value))
    {
      if FilesTable !in tables {
        return Fail(OperationalError("no such table: files"));
      }
      var rows := files + [FileRow(NextId(files), f.file, f.size, f.program, f.hash)];
      NextIdFresh(files);
      assert IdsIncreasing(rows);
      files := rows;
      if f.fileType.None? {
        return Pass;
      }
      if FiletypeTable !in tables {
        return Fail(OperationalError("no such table: filetype"));
      }
      var tagged, written := InsertTypes(filetype, rows, f.program, f.file, f.fileType.value);
      filetype := written;
      if tagged.Err? {
        return Fail(tagged.error);
      }
      return Pass;
    }

    /** add_file as written: the INSERT runs, then `f.type` raises AttributeError on the
        five-field record. The new row stays in the connection's open transaction, where the
        same connection sees it; no filetype row is written. */
    method AddFileAsWritten(f: File) returns (r: Outcome)
      requires Valid()
      modifies this`files
      ensures Valid()
      ensures FilesTable !in tables ==> r.Fail? && files == old(files)
      ensures FilesTable in tables ==>
        && r == Fail(AttributeError(NoTypeMsg))
        && files == old(files) + [FileRow(NextId(old(files)), f.file, f.size, f.program, f.hash)]
    {
      if FilesTable !in tables {
        return Fail(OperationalError("no such table: files"));
      }
      NextIdFresh(files);
      files := files + [FileRow(NextId(files), f.file, f.size, f.program, f.hash)];
      return Fail(AttributeError(NoTypeMsg));
    }

    /** set_file(id, size, hash): only size and hash of the row with that id change. */
    method SetFile(id: int, size: int, hash: string) returns (r: Outcome)
      requires Valid()
      modifies this`files
      ensures Valid()
      ensures FilesTable !in tables ==> r.Fail? && files == old(files)
      ensures FilesTable in tables ==> r == Pass && files == SetSizeHash(old(files), id, size, hash)
    {
      if FilesTable !in tables {
        return Fail(OperationalError("no such table: files"));
      }
      files := SetSizeHash(files, id, size, hash);
      return Pass;
    }

    /** remove_file: with an id, look its type up first; with a record, use the record's id and
        type. Delete the files row, and the filetype row only when a type was found. A missing
        filetype table fails the lookup before anything is deleted, but fails a record's second
        DELETE only after its files row is gone; nothing is rolled back. */
    method RemoveFile(key: FileKey) returns (r: Outcome)
      requires Valid()
      modifies this`files, this`filetype
      ensures Valid()
      ensures var iid := if key.ById? then Some(key.id) else key.f.id;
        var typed := if key.ById? then key.id in old(filetype) else key.f.fileType.Some?;
        && (r.Fail? <==> FilesTable !in tables || ((key.ById? || typed) && FiletypeTable !in tables))
        && (FilesTable !in tables || (key.ById? && FiletypeTable !in tables) ==> files == old(files))
        && (FilesTable in tables && (key.ByRecord? || FiletypeTable in tables) ==> files == WithoutId(old(files), iid))
        && (r.Fail? ==> filetype == old(filetype))
        && (r.Pass? && typed && iid.Some? ==> filetype == old(filetype) - {iid.value})
        && (r.Pass? && (!typed || iid.None?) ==> filetype == old(filetype))
    {
      var ft := false;
      var iid: Option<int>;
      if key.ByRecord? {
        iid := key.f.id;
        ft := key.f.fileType.Some?;
      } else {
        if FiletypeTable !in tables {
          return Fail(OperationalError("no such table: filetype"));
        }
        ft := key.id in filetype;
        iid := Some(key.id);
      }
      if FilesTable !in tables {
        return Fail(OperationalError("no such table: files"));
      }
      WithoutIdIncreasing(files, iid);
      files := WithoutId(files, iid);
      if ft && FiletypeTable !in tables {
        return Fail(OperationalError("no such table: filetype"));
      }
      if ft && iid.Some? {
        filetype := filetype - {iid.value};
      }
      return Pass;
    }
  }
}
