# game-backuper, modelled in Dafny

game-backuper copies the save files of configured programs (games) into a backup directory
and restores them. A YAML configuration names a destination directory and a list of
programs; each program has a `name`, a `base` directory and a list of file rules (a plain
relative name, or a `path` rule that takes a whole directory tree). A SQLite database under
the destination records, for every program and file name, the size and SHA-512 of the copy
last taken.

- A backup task walks the program's rules.
  - A file with no record is copied and a record is inserted.
  - A file whose size or hash differs is copied and its record updated.
  - An unchanged file is skipped.
- A restore task copies every recorded file back, to where the rule that produced it says.
  Then it removes anything listed under the program's rules that no record claimed.

Around this core sit several smaller pieces:

- an encrypted file stream: AES-256-CBC with a per-file random key masked by a salt, and a CRC-32 over the first 1024 bytes that is checked before any byte is returned;
- bzip2 compression with clean-up of stale variants;
- a LevelDB key filter;
- a wildcard-to-regular-expression translation;
- the command line;
- the version string normaliser.

Each module follows one source file:

| module | file | source |
|---|---|---|
| `Wrappers` | `wrappers.dfy` | Option, Result, Outcome and Python's exception kinds |
| `Crypto` | `crypto.dfy` | what enc.py relies on from zlib, AES-CBC, XOR and hexadecimal formatting |
| `Strings` | `strings.dfy` | the few `str` operations the rest uses |
| `Files` | `files.dfy` | `game_backuper/file.py`, plus the filesystem as a `Disk` class |
| `Enc`, `EncRoundTrip` | `enc.dfy` | `game_backuper/enc.py` and the scenario of `testenc.py` |
| `Database` | `db.dfy` | `game_backuper/db.py` |
| `Config` | `config.dfy` | `game_backuper/config.py` |
| `Backup` | `backuper.dfy` | `game_backuper/backuper.py` |
| `Restore` | `restorer.dfy` | `game_backuper/restorer.py` |
| `Compress` | `compress.dfy` | `game_backuper/compress.py` |
| `Leveldb` | `leveldb.dfy` | `game_backuper/leveldb.py` |
| `Regexp` | `regexp.dfy` | `game_backuper/regexp.py` |
| `Cml` | `cml.dfy` | `game_backuper/cml.py` |
| `Version` | `version.dfy` | `version.py` |

Code that updates state in place is modelled as a class, with methods proved against specification functions:

- `EncFile`;
- `Db`;
- `Program` and its cache;
- `Disk`;
- `Opts`.

Pure code is modelled as functions, with lemmas about them.

Pieces that are foreign to the model are parameters:

- the path syntax is `PathOps`, with one stated law: `relpath(join(b, x), b) == x` for a relative `x`;
- SHA-512 is a `digest` function;
- AES is a `BlockCipher` under the single law that decryption undoes encryption;
- CRC-32 is an abstract byte step, folded the way zlib's running CRC works;
- bzip2 is a `pack`/`unpack` pair;
- the directory tree that `listdirs` walks is a snapshot function;
- the regular-expression engines are functions;
- the random key and IV are inputs.

A new database row takes one past the largest rowid (SQLite's rule for an `INTEGER PRIMARY KEY`), so the id of a deleted last row can be handed out again.

Where the code and its documentation disagree, the model follows the code:

- `File` declares five fields in file.py, but `get_file` builds it from the six columns of its joined row and `add_file` reads its `type`. file.py and db.py come from different revisions: db.py imports `hydrate_file_if_needed` from file.py and the `filetype` module, and neither is in the files modelled here. db.py's own revision most likely gives `File` a `type` field. Only this pairing of file.py with db.py makes both methods raise (see "## Findings"). The model's `File` carries the type field, and the behaviour of the pairing is modelled beside it.
- `progs_name`, `ConfigNormalFile`, `ConfigLeveldb`, `ConfigPath`, `Program.get_config`, `list_all_paths`, `remove_dirs`, `mkdir_for_file` and `hydrate_file_if_needed` are used but are not defined in the files modelled here. They are modelled by what their use requires.

## Model

| member | source | states |
|---|---|---|
| Crypto.Crc32Running | game_backuper/enc.py:313-315 | crc32(b, crc32(a, v)) equals crc32(a + b, v), which is how the running CRC is carried across writes |
| Crypto.Crc32Empty | game_backuper/enc.py:73 | the CRC of no bytes leaves the running value unchanged |
| Crypto.XorZip | game_backuper/enc.py:323 | the byte-wise XOR is as long as the shorter operand, and each byte is the XOR of the matching bytes |
| Crypto.PadSalt | game_backuper/enc.py:321-322 | a salt shorter than 32 bytes is extended with zero bytes to 32; a longer salt is kept |
| Crypto.MaskKey | game_backuper/enc.py:319-323 | the key property is the stored key XOR the zero-padded salt, 32 bytes for a 32-byte key |
| Crypto.PadSaltIdempotent | game_backuper/enc.py:321-322 | padding a padded salt changes nothing, so repeated `key` reads agree |
| Crypto.MaskKeyInvolution | game_backuper/enc.py:85-95 | masking the masked key again with the same salt gives back the raw key |
| Crypto.CbcEncrypt | game_backuper/enc.py:71-72 | CBC encryption keeps the length of block-aligned plaintext |
| Crypto.CbcDecrypt | game_backuper/enc.py:95-96 | CBC decryption yields the complete blocks of the ciphertext |
| Crypto.CbcRoundTrip | game_backuper/enc.py:71-96 | decrypting under the key and IV the data was encrypted with gives the plaintext back |
| Crypto.CbcDecryptPrefix | game_backuper/enc.py:212-222 | decrypting a block-aligned prefix of the ciphertext gives the matching prefix of the plaintext, so fed-in chunks yield the stream in order |
| Crypto.ToHexIsHex | game_backuper/enc.py:173 | the hexadecimal form of n is lower-case hex digits, and reads back as n |
| Crypto.ParseHex | game_backuper/enc.py:104 | int(s, 16) either gives a value or raises the one ValueError "invalid literal for int() with base 16" |
| Crypto.ParsePlainHex | game_backuper/enc.py:104 | a non-empty run of hex digits with nothing around it is read as its hexadecimal value |
| Crypto.ParseHexForms | game_backuper/enc.py:104 | surrounding whitespace, one '+' or '-' and a 0x or 0X prefix are accepted around the digits; the value is that of the digits, negated after '-' |
| Crypto.UnderscoreBetweenDigits | game_backuper/enc.py:104 | single underscores between digits, and one right after 0x, are accepted and add nothing to the value |
| Crypto.UnderscoreMisplaced | game_backuper/enc.py:104 | a doubled or trailing underscore, a leading one without 0x, and an empty or blank string are refused |
| Crypto.FormatHex08RoundTrip | game_backuper/enc.py:171-173 | the crc string of a 32-bit CRC has exactly eight lower-case hex digits, and int(_, 16) reads it back |
| Strings.Lower | game_backuper/compress.py:21 | lower() keeps the length and lowers each ASCII letter |
| Strings.Decimal | version.py:34 | str(n) is a non-empty string of decimal digits |
| Strings.DecimalRoundTrip | version.py:22 | int(str(n)) == n |
| Strings.Split | version.py:21 | split(sep) gives at least one piece, and no piece contains sep |
| Strings.SplitJoin | version.py:35 | splitting a sep-join by sep gives back the parts when none of them contains sep |
| Files.WalkSound | game_backuper/file.py:19-30 | every path listdirs returns is loc joined with the names down to a regular file, none of them starting with '.' |
| Files.WalkComplete | game_backuper/file.py:19-30 | every regular file reachable through names not starting with '.' is returned |
| Files.ListDirs | game_backuper/file.py:19-30 | the loop over the listing, which keeps files and recurses into directories, computes the walk |
| Files.ListDirsAt | game_backuper/file.py:20 | listdirs raises FileNotFoundError for a missing path and NotADirectoryError for a file |
| Files.NotAFileError | game_backuper/compress.py:92 | opening a path that is not a regular file for reading raises IsADirectoryError for a directory and FileNotFoundError otherwise |
| Files.WriteOpenError | game_backuper/compress.py:93 | open(q, 'wb') fails exactly when q's parent is not a directory or q is one: FileNotFoundError for a missing parent, NotADirectoryError for a parent that is a file, IsADirectoryError for a directory |
| Files.Disk.NewFile | game_backuper/file.py:33-38 | new_file gives None for a missing path. For a regular file it gives a record with no id, that file's size and its digest. Opening a directory raises IsADirectoryError |
| Files.Disk.CopyFile | game_backuper/file.py:11-15 | the parent of dest is created first when nothing exists there, and stays created whatever copy2 then raises. A target that is the source itself is SameFileError. A missing source is FileNotFoundError and a directory source IsADirectoryError. Opening the target 'wb' fails as `WriteOpenError` says. Otherwise the target holds the source's bytes. On any error the regular files are unchanged. A disk where no path is both a file and a directory stays so |
| Files.Disk.Mkdir | game_backuper/backuper.py:29-30 | mkdir raises FileExistsError when the path exists. It raises NotADirectoryError when the parent is a regular file and FileNotFoundError when the parent is missing. Otherwise it adds exactly that directory |
| Files.Disk.Remove | game_backuper/restorer.py:51-52 | remove deletes exactly that regular file, and fails with nothing changed otherwise |
| Files.Disk.RemoveDirs | game_backuper/restorer.py:54-55 | the recursive removal drops the directory and everything below it, and nothing else |
| Files.Disk.WriteFile | game_backuper/compress.py:116-120 | writing replaces the file's whole content when open(p, 'wb') succeeds; when the parent is missing or not a directory, or p is a directory, it fails with open()'s error and nothing changes |
| Enc.ParseMode | game_backuper/enc.py:51-62 | each mode string maps to its binary open flag, both directions |
| Enc.OpenModeKind | game_backuper/enc.py:64 | open(fn, mode) accepts a mode exactly when its letters come from "rwxabt+", none repeats, 't' and 'b' are not both there, and exactly one of r, w, x and a is; a bad or repeated letter is "invalid mode" |
| Enc.UnlistedModeOpens | game_backuper/enc.py:51-65 | 'w+' and 'rt' pass open() but no branch of the mode chain, so reading mode_code fails; 'rw' and 'bb' are refused by open() itself |
| Enc.ParseCrcArg | game_backuper/enc.py:102-109 | a falsy crc (absent, 0 or '') disables the check and a non-zero int is kept. A string is read by int(s, 16), and a string that int() refuses is the only error |
| Enc.ZeroPad | game_backuper/enc.py:147-148 | close pads with zeros to the next multiple of 128, and adds nothing when already aligned |
| Enc.PyPrefix | game_backuper/enc.py:166 | Python's s[:n], a negative n counting from the end |
| Enc.CrcWindowAppend | game_backuper/enc.py:313-315 | however the data is split into writes, the update in write() computes the CRC of the first 1024 bytes |
| Enc.EncFile.ForWriting | game_backuper/enc.py:68-73 | write mode starts from the random key and IV with CRC 0. Only append mode keeps the old bytes |
| Enc.EncFile.ForReading | game_backuper/enc.py:84-116 | read mode pads the salt and decrypts with the salt-masked key, starting at position 0 with the CRC unchecked |
| Enc.EncFile.Key | game_backuper/enc.py:319-323 | the key property pads the salt in place and returns the masked key |
| Enc.EncFile.Crc32Hex | game_backuper/enc.py:171-173 | the crc property is '{:08x}' of the CRC; with no CRC the format raises TypeError |
| Enc.EncFile.Write | game_backuper/enc.py:288-317 | write refuses a file that is closed or opened for reading. Otherwise it appends data and advances the position by its length, keeping the invariant that the CRC is CRC-32 of the first 1024 bytes written |
| Enc.EncFile.Close | game_backuper/enc.py:124-156 | the output is the CBC encryption of the zero-padded data; the position keeps the unpadded count, and a second close does nothing |
| Enc.EncFile.Refill | game_backuper/enc.py:212-222 | the next 128 ciphertext bytes are consumed, or the decryptor is finalised once; finalising fails on a file that is not whole AES blocks |
| Enc.EncFile.Advance | game_backuper/enc.py:213-221 | the decryptor takes the next 128 bytes of the file, and the buffer grows by exactly what it yields |
| Enc.EncFile.CheckCrc | game_backuper/enc.py:162-169 | the buffer is filled to 1024 bytes or the end of the data, and the result is true exactly when the CRC of the first min(1024, length) bytes matches |
| Enc.EncFile.ReadAtMost | game_backuper/enc.py:254-273 | returns the next bytes of the decrypted stream, at most min(size, length - pos) of them; fewer only at the end of the stream |
| Enc.EncFile.ReadAll | game_backuper/enc.py:231-232 | read() with no size returns the rest of the stream up to the declared length |
| Enc.EncFile.GateCrc | game_backuper/enc.py:227-230 | the first read of a file with a CRC raises DecryptException exactly when the CRC does not match |
| Enc.EncFile.Read | game_backuper/enc.py:224-273 | read refuses a file that is not readable. No byte is returned before the CRC has passed, and what is returned is the next slice of the decrypted stream |
| Enc.Open | game_backuper/enc.py:45-118 | __init__ checks its arguments in the source's order with the source's messages: a mode outside the chain fails as open() would, or with UnboundLocalError when open() accepts it; then a missing file in read mode, an existing file in 'x' mode, the key, IV and length. On success the new stream is in that mode's initial state |
| Enc.EncryptStream | game_backuper/enc.py:335-342 | the copy loop through a 'wb' EncFile writes the CBC encryption of the zero-padded source. It records the salt-masked key, the IV and the CRC string of the first 1024 bytes, and marks the artifact uncompressed |
| Enc.EncryptBytes | game_backuper/enc.py:330-343 | the artifact is always written. Its stats are returned unless the record's size is 0, where the size report raises ZeroDivisionError after the artifact exists |
| Enc.DecryptStream | game_backuper/enc.py:359-365 | opening the artifact 'rb' refuses a bad key or IV with their messages, and a crc string int() refuses; dest is then never opened. Otherwise dest is opened and holds a prefix of the decrypted stream cut to the length. With whole blocks the result is that whole cut stream, or DecryptException when the CRC differs, leaving dest empty |
| Enc.DecryptBytes | game_backuper/enc.py:351-366 | an unencrypted record is refused, and dest is not created on that or on a key, IV or crc-string failure. Otherwise dest is opened 'wb' first and always holds a prefix of the cut stream: empty after a CRC failure, the whole cut stream on success. After the copy, a record size of 0 raises ZeroDivisionError in the size report |
| Enc.CopyOut | game_backuper/enc.py:359-365 | the read(4096) loop returns the whole decrypted stream up to the declared length, and only after the CRC has passed. What it has written is a prefix of that: nothing when the CRC check fails |
| Enc.Drain | game_backuper/enc.py:361-365 | after the first chunk, reading until an empty chunk collects the decrypted stream up to the declared length. Only a file that is not whole AES blocks can fail, and the chunks written before the failing read stay written |
| EncRoundTrip.RoundTrip | testenc.py:8-29 | encrypting then decrypting with the writer's salt, key, IV, length and crc gives the data back; with another salt the result is the CRC check on what that salt decrypts to |
| Database.LexTrichotomy | game_backuper/db.py:46-50 | Python's `<` on version lists is a strict total order |
| Database.IntColumns | game_backuper/db.py:129 | dropping the NULL columns keeps every integer column in order |
| Database.ReadVersionOf | game_backuper/db.py:124-129 | __read_version gives None exactly when the version table or the 'main' row is missing; otherwise it gives the row's integer columns |
| Database.VersionColsReadBack | game_backuper/db.py:144-151 | the row __write_version stores reads back as VERSION |
| Database.OpenEmpty | game_backuper/db.py:55-63 | an empty database gets all three tables, and its version reads VERSION |
| Database.OpenRejectsNewer | game_backuper/db.py:50-52 | a stored version above VERSION raises ValueError and changes nothing |
| Database.OpenMigratesOlder | game_backuper/db.py:46-49 | a version below 1.0.0.1 gets the filetype table, and the stored version is raised to VERSION |
| Database.OpenLeavesCurrentVersion | game_backuper/db.py:41-63 | after a successful open, the version reads VERSION. The one exception is a version table without a 'main' row, which is left as it is |
| Database.OpenIdempotent | game_backuper/db.py:117-119 | opening a database that is already current changes nothing |
| Database.NextIdFresh | game_backuper/db.py:156-157 | the rowid of the next insert is larger than every id, so ids keep increasing |
| Database.FirstMatch | game_backuper/db.py:180-184 | get_file finds the first row in scan order with that program and file, or none when no row matches |
| Database.NamesOf | game_backuper/db.py:188-193 | get_file_list lists no more names than there are rows |
| Database.NamesOfMembers | game_backuper/db.py:186-193 | a name is listed exactly when some row of the program has it |
| Database.ListedIsFound | game_backuper/db.py:178-193 | every listed name is found by get_file |
| Database.SetSizeHash | game_backuper/db.py:214-215 | only the size and hash of the rows with that id change |
| Database.WithoutId | game_backuper/db.py:207 | deleting by id removes exactly the rows with that id, and a NULL id removes none |
| Database.WithoutIdIncreasing | game_backuper/db.py:207 | deleting keeps ids increasing |
| Database.TagMatches | game_backuper/db.py:158-164 | the filetype keys become the old keys plus the ids of the rows with that program and file. Each of those ids maps to the type, and every other entry is kept |
| Database.MatchIds | game_backuper/db.py:159-161 | the id of every row with that program and file is selected |
| Database.MatchIdsOnly | game_backuper/db.py:159-161 | only ids of such rows are selected |
| Database.TagPrefix | game_backuper/db.py:161-164 | how far the insert loop gets: no matching row before that point has a filetype row, and the row at that point, if any, does |
| Database.InsertTypes | game_backuper/db.py:159-164 | the insert loop tags the matching rows; a second tag for one id violates the primary key (IntegrityError), and the tags inserted before it stay |
| Database.Db.UpdateExistsTable | game_backuper/db.py:137-142 | the snapshot of table names becomes the current set of tables |
| Database.Db.WriteVersion | game_backuper/db.py:144-152 | the 'main' row is inserted or updated to VERSION, and fails without a version table |
| Database.Db.CheckDatabase | game_backuper/db.py:41-53 | __check_database computes the usable flag and the new state that the specification function gives |
| Database.Db.CreateTable | game_backuper/db.py:55-63 | every missing table is created, and a new version table gets VERSION |
| Database.Db.Open | game_backuper/db.py:117-119 | the check, then table creation, computes the specification's opened state |
| Database.Db.GetFile | game_backuper/db.py:178-184 | with the type field: returns the first matching row joined with its filetype row, or None; fails when a table is missing |
| Database.Db.GetFileAsWritten | game_backuper/db.py:178-184 | as written, File(*i) gives six values to the five-field File, so every match raises TypeError and only a miss returns (None) |
| Database.Db.GetFileList | game_backuper/db.py:186-193 | returns the program's names in scan order |
| Database.Db.AddFile | game_backuper/db.py:154-165 | with the type field: appends a row with the next rowid, which stays even when a later step fails. When the record has a type, the matching rows are tagged with it. A missing filetype table writes no tag. A row already tagged is an IntegrityError, and the tags written before it stay |
| Database.Db.AddFileAsWritten | game_backuper/db.py:154-158 | as written, the INSERT runs and then reading `f.type` on the five-field File raises AttributeError; the new row stays and no filetype row is written |
| Database.Db.SetFile | game_backuper/db.py:212-216 | the files table becomes its size/hash update |
| Database.Db.RemoveFile | game_backuper/db.py:195-210 | the row goes. Its filetype row goes when an id's type is looked up, or when the record given carries a type. Without a filetype table, an id fails at the lookup with nothing deleted, while a typed record fails after its files row is deleted; a failure never changes the filetype table |
| Config.Contains | game_backuper/config.py:18 | `key in container` on dicts, lists and strings; TypeError on anything else |
| Config.Subscript | game_backuper/config.py:46 | `container[key]` succeeds exactly on a dict holding the key, and gives its value |
| Config.StrField | game_backuper/config.py:16-21 | `name`/`base` is the value when it is a non-empty string, else None |
| Config.FilesList | game_backuper/config.py:34-36 | `files` requires a list under 'files', else ValueError |
| Config.Relative | game_backuper/config.py:50-51 | each listed path becomes an entry named relative to the base |
| Config.ExpandOne | game_backuper/config.py:42-51 | one rule: a string names base/string. A path dict lists its tree. A dict without 'type' or 'path' raises KeyError, a missing base with a rule needing it raises TypeError, and other values add nothing |
| Config.ExpandRulesStep | game_backuper/config.py:41-51 | appending a rule appends its entries, or its error ends the expansion |
| Config.ExpandRulesErrPrefix | game_backuper/config.py:41-51 | the first failing rule decides the error of the whole expansion |
| Config.ExpandRulesAppend | game_backuper/config.py:41-51 | rules expand independently and in list order |
| Config.ExpandStrings | game_backuper/config.py:43-44 | a list of string rules names exactly those files joined onto the base, in order |
| Config.EntriesRelative | game_backuper/config.py:44-51 | under the path law, every entry is a plain file named by its full path relative to the base |
| Config.CheckMeaning | game_backuper/config.py:23-27 | check() is False exactly when name or base is missing; otherwise it is True when `files` succeeds |
| Config.Program.ClearCache | game_backuper/config.py:29-30 | clear_cache empties the cache |
| Config.Program.Files | game_backuper/config.py:32-52 | as written: returns the cache when set, else the expansion, and leaves [] in the cache |
| Config.Program.FilesMemo | game_backuper/config.py:32-52 | as intended: same result, and the expansion itself is cached on success |
| Config.Program.Expand | game_backuper/config.py:41-52 | the rule loop, re-reading the base for each rule, computes the expansion |
| Config.Program.Check | game_backuper/config.py:23-27 | check() computes the specification's answer |
| Config.SecondFilesCallEmpty | game_backuper/config.py:37-40 | as written, a second `files` after a successful first one returns [] |
| Config.FilesCacheCounterexample | game_backuper/config.py:37-40 | a concrete program whose first `files` lists one file and whose second lists none |
| Config.MemoSecondCallSame | game_backuper/config.py:37-38 | with the intended cache the second call returns what the first did |
| Config.DocumentCheck | game_backuper/config.py:69-80 | each document error of Config.__init__, in order, with its message |
| Config.LoadConfig | game_backuper/config.py:66-85 | loading succeeds exactly when every program passes check(). One Program per entry is appended to the shared class-level list, and the ones appended before a failure stay |
| Config.AddPrograms | game_backuper/config.py:81-85 | the program loop succeeds exactly when every entry passes check(). On success one Program per entry, holding that entry, is appended in order; on failure the earlier appends stay |
| Backup.Recorded | game_backuper/backuper.py:34 | the record get_file finds, as a row matching (prog, name) |
| Backup.PassIncreasing | game_backuper/backuper.py:31-47 | a backup pass keeps the file ids increasing |
| Backup.StepKeepsOthers | game_backuper/backuper.py:31-47 | handling one entry does not change what get_file finds for another name |
| Backup.StepSyncs | game_backuper/backuper.py:33-47 | after one entry, its record matches the size and hash just seen |
| Backup.PassSyncs | game_backuper/backuper.py:31-47 | after a pass with distinct names, every plain entry is synced |
| Backup.SyncedFixed | game_backuper/backuper.py:39-42 | a pass over synced records changes nothing |
| Backup.SecondPassNoWrites | game_backuper/backuper.py:31-47 | a second run over unchanged sources skips every plain entry and leaves the table as it is |
| Backup.SyncOne | game_backuper/backuper.py:32-51 | one entry: skip, copy and set_file, or copy and add_file, as the decision says. A LevelDB entry without LevelDB support is a ValueError |
| Backup.Sync | game_backuper/backuper.py:31-51 | on success the files table is the pass specification of what was seen |
| Backup.SyncOneAsWritten | game_backuper/backuper.py:31-47 | as written, a plain entry whose source is a regular file always fails: TypeError when it is recorded, else the copy's error or AttributeError after the insert. A step that passes copies and records nothing |
| Backup.SyncAsWritten | game_backuper/backuper.py:31-47 | as written, the loop passes only when no plain entry's source is a regular file, and then nothing is copied or recorded; a first entry whose source is one fails the BackupTask |
| Backup.RunTask | game_backuper/backuper.py:25-51 | clears the cache, makes dest/name when it is missing, then syncs the program's entries; on success the files table is that pass. It expands through the corrected cache, so the cache ends holding the entries where the code as written leaves [] (see "## Findings") |
| Backup.ProgNames | game_backuper/backuper.py:73 | progs_name is the name of each configured program, in order |
| Backup.Selected | game_backuper/backuper.py:68-77 | run selects all programs, or each requested name's first program, in request order |
| Backup.FirstUnknown | game_backuper/backuper.py:72-74 | the first requested name that no program has |
| Backup.RunAll | game_backuper/backuper.py:67-79 | every requested name is validated before any task runs, and an unknown name raises with nothing changed. Otherwise the result is 0; with another action than backup nothing changes, and with backup each selected program's task runs in order, the files table passing through each successful task's sync pass |
| Backup.RunTasks | game_backuper/backuper.py:61-65 | one task per chosen program in order, for the backup action only; each successful task takes the files table from the previous one's state by its sync pass |
| Backup.BackupStep | game_backuper/backuper.py:61-65 | a successful task leaves the files table as one sync pass over its program's entries |
| Backup.UnknownIsFirst | game_backuper/backuper.py:72-74 | the validation loop reports the first unknown name |
| Restore.Target | game_backuper/restorer.py:33-41 | the target lies under the rule's root (its path, joined onto the base unless absolute), in the place fn has relative to the rule's name, and at the root itself when that relative path starts with '.'. A relative rule path with no base is a TypeError |
| Restore.TargetOfStored | game_backuper/restorer.py:35-41 | a file stored under the rule's name goes back to the same relative place |
| Restore.FirstIndex | game_backuper/restorer.py:42-43 | the index of the first occurrence: the path is there and not before it |
| Restore.RemoveFirst | game_backuper/restorer.py:42-43 | pl.remove takes out one occurrence of the path, counted as a multiset, and changes nothing when the path is absent |
| Restore.RemoveFirstIsFirst | game_backuper/restorer.py:42-43 | the occurrence removed is the first one: what precedes it and what follows it stay, in order |
| Restore.UnclaimedCounts | game_backuper/restorer.py:42-43 | what is left is the listed paths minus the claims, counted with multiplicity |
| Restore.UnclaimedKeeps | game_backuper/restorer.py:50 | a listed path that nobody claims is left for removal |
| Restore.UnclaimedListed | game_backuper/restorer.py:26 | only listed paths are left |
| Restore.ClaimsStep | game_backuper/restorer.py:27-43 | each record adds its own claim, in record order: a path rule's target, whether it is skipped or copied, and nothing for another rule |
| Restore.RestoreOne | game_backuper/restorer.py:28-49 | one record: under a path rule, a record with a type is 'Type dismatched.' and a missing record an AttributeError. Otherwise the target is claimed, kept when an equal file is in place, else dest/prog/fn is copied there. A claimed target exists afterwards. A target that is an existing directory fails in new_file with IsADirectoryError before any copy, so a claimed target was never one |
| Restore.RestoreStep | game_backuper/restorer.py:28-49 | what the record loop uses of one record: the claim, that the claimed target exists, and a disk that only grows |
| Restore.RestoreOneAsWritten | game_backuper/restorer.py:28-32 | as written, every recorded name raises TypeError in get_file, and a path rule with no record raises AttributeError; only an unrecorded name of another rule passes, with no claim and no disk change |
| Restore.RestoreAllAsWritten | game_backuper/restorer.py:24-32 | as written, over names taken from get_file_list the loop succeeds only when there are none: the first recorded name raises TypeError |
| Restore.Cleanup | game_backuper/restorer.py:50-56 | every listed path is removed, as a file or as a directory tree. Files and directories that are neither listed nor inside a listed path are kept |
| Restore.RestoreAll | game_backuper/restorer.py:27-49 | the record loop claims the targets in order, and the first failure ends it. Every claimed target exists afterwards |
| Restore.RunRestore | game_backuper/restorer.py:21-56 | the restore, then the removal of the unclaimed listed paths, files and directory trees. A claimed target survives unless it is still listed or lies inside an unclaimed path. Unlisted files and directories outside the listed paths are kept |
| Compress.FromStr | game_backuper/compress.py:18-25 | 'bzip2' in any case gives BZIP2, another string gives None, and a non-string raises TypeError |
| Compress.LevelOf | game_backuper/compress.py:39-42 | an int (bool included) in 1..9 is accepted as the level |
| Compress.NewConfig | game_backuper/compress.py:28-44 | each error in order. Otherwise bzip2 with level 9 by default, ext '.bz2' and chunk 1048576 |
| Compress.StaleSuffixes | game_backuper/compress.py:85-86 | the stale suffixes are '' plus the supported extensions, minus the active one; ValueError when it is not there |
| Compress.StaleForBz2 | game_backuper/compress.py:67-69 | with bzip2 the only stale suffix is '' |
| Compress.ActiveNotStale | game_backuper/compress.py:85-86 | the active extension is never stale |
| Compress.WithoutFiles | game_backuper/compress.py:102-106 | removing exactly the listed regular files |
| Compress.CompressResult | game_backuper/compress.py:84-106 | after a successful compress the source was a non-empty regular file, dest+ext holds the packed source, no stale variant is left, and other files are kept |
| Compress.CompressEmptySource | game_backuper/compress.py:92-99 | an empty source makes the size report divide by zero after dest+ext is written, so every stale variant of dest is still there |
| Compress.RoundTrip | game_backuper/compress.py:84-121 | decompress reads what compress wrote and gives back the source |
| Compress.CopyChunks | game_backuper/compress.py:94-97 | the chunked copy loop writes exactly the source |
| Compress.CompressFile | game_backuper/compress.py:84-106 | compress on the disk computes the file specification: a missing or directory source and an unwritable dest+ext fail with open()'s error, and an empty source raises ZeroDivisionError before the stale variants are removed |
| Compress.RemoveStale | game_backuper/compress.py:102-106 | the clean-up loop removes the existing stale variants |
| Compress.DecompressFile | game_backuper/compress.py:109-122 | decompress on the disk computes the file specification: an existing dest is removed, a missing src+ext or an unwritable dest fails with open()'s error, and an empty result raises ZeroDivisionError after dest is written |
| Leveldb.Find | game_backuper/leveldb.py:25 | find() gives the first occurrence, or -1 when there is none |
| Leveldb.DomainOf | game_backuper/leveldb.py:24-26 | the domain of a '_' key runs to the separator; with none, Python's -1 cuts off the last byte |
| Leveldb.KeptKeysMembers | game_backuper/leveldb.py:13-28 | a key is kept exactly when the filter accepts it. Kept keys are drawn from the store, and with no domain list every key is kept |
| Leveldb.SortKeys | game_backuper/leveldb.py:29 | sort() gives a bytewise sorted permutation |
| Leveldb.GatherKeys | game_backuper/leveldb.py:12-28 | the iteration appends the kept keys in store order |
| Leveldb.ListEntries | game_backuper/leveldb.py:10-30 | the result is a sorted permutation of the kept keys in store order, so a sub-multiset of the keys holding exactly the kept ones. It holds every key with no domain list, and b'VERSION' whenever the store has it |
| Regexp.EscapeAllChar | game_backuper/regexp.py:47-48 | one character is escaped exactly when it is a special |
| Regexp.ChainChar | game_backuper/regexp.py:47-50 | the replace chain maps one character to its regex counterpart |
| Regexp.ChainTranslates | game_backuper/regexp.py:47-50 | because backslash goes first, the replace chain equals the per-character map |
| Regexp.TranslateAppend | game_backuper/regexp.py:47-50 | the translation distributes over concatenation |
| Regexp.TranslateLength | game_backuper/regexp.py:47-50 | the output length is the input length, plus the escaped characters, plus the '*' characters |
| Regexp.WildcardsPattern | game_backuper/regexp.py:46-50 | the replace loop computes the per-character translation |
| Regexp.WildcardsToRegex | game_backuper/regexp.py:46-51 | the result compiles the translated pattern, with pcre2 only when asked for and available |
| Regexp.NewRegex | game_backuper/regexp.py:16-31 | the pattern is kept. The engine is pcre2 exactly when it is asked for and available, and the flags have no effect |
| Regexp.Match | game_backuper/regexp.py:33-37 | match uses the chosen engine |
| Regexp.MatchOnly | game_backuper/regexp.py:39-43 | under re, match_only is False exactly when the match is None |
| Regexp.MatchOnlyAgrees | game_backuper/regexp.py:33-43 | under re, match_only agrees with whether match found something |
| Cml.DefaultConfig | game_backuper/cml.py:5-9 | DEFAULT_CONFIG is under APPDATA on Windows and /etc elsewhere |
| Cml.FromStr | game_backuper/cml.py:17-26 | backup or restore in any case, None for other strings, TypeError otherwise |
| Cml.LastConfigIsLast | game_backuper/cml.py:37-43 | the config file is the value of the last '-c', or the default |
| Cml.LaterOverrides | game_backuper/cml.py:42-43 | a later '-c' overrides every earlier one |
| Cml.Positionals | game_backuper/cml.py:44-51 | a leading action word sets the action and the rest are programs. Without one every positional is a program and the action stays BACKUP. The list is unset when no name remains |
| Cml.ScanOptions | game_backuper/cml.py:37-43 | the option loop stops at '-h' exactly when there is one; otherwise it yields the last '-c' |
| Cml.Opts.constructor | game_backuper/cml.py:30-32 | the class defaults |
| Cml.Opts.Parse | game_backuper/cml.py:34-56 | '-h' exits with status 0 and changes nothing else. Otherwise the options, then the positionals, set the fields |
| Cml.NewOpts | game_backuper/cml.py:29-51 | a fresh Opts holds the last '-c' and the positional split |
| Version.NumbersOf | version.py:22 | keeps at most one number per dot-part |
| Version.Normalize | version.py:20-35 | normalize, with its padding loop, is the '.'-join of the numerals of the specified parts |
| Version.Shape | version.py:27-35 | with n numeric and four or more parts, the last part grows by n. With n numeric and fewer parts, there are exactly four: the parts, zeros, then n. Otherwise the parts are unchanged |
| Version.ReadBack | version.py:20-35 | the output's numeric dot-parts are exactly the numbers it was joined from |
| Version.NoDash | version.py:20-26 | without '-', the numeric dot-parts of s |
| Version.Idempotent | version.py:20-35 | normalize(normalize(s)) == normalize(s) |
| Version.EmptyIff | version.py:34-35 | the output is empty exactly when there is no number |

## Left out

- Compression inside `EncFile`: the compressor and decompressor branches of enc.py call `compressor`/`decompressor`, which compress.py does not define. Only the uncompressed stream is modelled.
- SQLCipher keying, re-keying, `getpass`, the temporary-file copy, `VACUUM` and the `encrypted` probe in `Db.__init__` are not part of this model; only the check-and-create step is.
- The database lock: every `Db` method is one atomic step.
- Threads: each backup and restore task runs as a sequential procedure, one after another, in request order.
- AES, SHA-512, zlib CRC-32 and base85 are not modelled inside: they are parameters with stated laws. base85 text is taken as the raw bytes it encodes.
- The YAML loader and file reading of `Config.__init__`: the model starts from the loaded document.
- The directory tree `listdirs` walks is a snapshot function. It is not tied to the `Disk` that backup and restore change, so a change to the disk is not reflected in later listings.
- `Files.Disk.CopyFile`: `makedirs` is modelled as adding only the missing parent directory, not each missing ancestor. copy2's metadata copy is left out.
- `Files.Disk`: a path may be recorded both as a file and as a directory; `Wellformed` rules that out, and every Disk method keeps it. Contracts about directories that need it (`Restore.Cleanup`, `Restore.RunRestore`) assume it of the disk they start from.
- `Restore.RestoreOne`: when a copy fails, the contract states what happens to the regular files only. The parent directory made before the failure is stated by `Files.Disk.CopyFile`, not repeated here.
- `Restore.RunRestore`: `Program.all_configs`, `get_config` and `list_all_paths` are parameters (`ruleOf`, `listed`).
- `Backup.SyncOne`: the LevelDB listing of a LevelDB entry is only printed by the source. The model checks support and otherwise does nothing.
- The source's `isinstance` tests on `ConfigNormalFile`/`ConfigLeveldb` are modelled as the two constructors of `Entry`.
- `sizeof_fmt` and the text `compress_info` formats are floating point and are left out; only its division by the original size is modelled, as the ZeroDivisionError an empty original raises. Every print, including the help text, is left out.
- `Crypto.ParseHex`: int() also accepts non-ASCII decimal digits (Unicode category Nd) as digit values; the model accepts ASCII hex digits only.
- `Enc.Open`: what open() does to the filesystem (creating or truncating the file in write modes) is not modelled; `file` is the file's contents before the call.
- `Restore.Target`: its contract states the placement (the root, the relative place under it, the error case) rather than the joined path; the joined path is its definition, which `ClaimOf` and `RestoreOne` use.
- `Database.Db.AddFile`: after a failed filetype insert, the files row and the tags written before it stay in the connection's open transaction, which the model treats as visible; nothing is rolled back.
- `Enc.DecryptBytes` and `Enc.EncryptBytes`: removing an existing dest and creating its directory before the copy are filesystem calls outside the model; `written` and `ct` are what dest holds afterwards.
- `Database.Db.AddFileAsWritten`: the INSERT stays in the connection's open transaction, which the model treats as visible, as it is to the same connection. Commit and rollback are not modelled.
- `Database.Db.RemoveFile`: with a five-field File argument, `id.type` (db.py:200) would raise AttributeError as get_file and add_file do; no modelled caller passes a record, so only the corrected record is modelled.
- `getopt` itself and its `GetoptError` exit: the options arrive split, as (name, value) pairs and positionals.
- `sys.exit` is modelled as the exit status `Parse` returns.
- `Strings.Lower` and `Strings.IsNumeric` handle ASCII only. Python's Unicode case mapping and Unicode numerics are not modelled.
- The pcre2 engine's own matching, and the "Can not load pcre2." message, are left out.
- The git subprocess part of `version.py` and the fallback version 1.0.0 are left out: they are process I/O.
- SQLite's behaviour once the largest rowid reaches 2^63 - 1 is left out: ids are unbounded.
- `zstd.py`, `cfapi.py`, `hashl.py`, `main.py`, `__main__.py` and the packaging scripts are not part of this model.

## Findings

| source | as written | input that shows it | evidently intended | confidence | as-written member | corrected member |
|---|---|---|---|---|---|---|
| game_backuper/db.py:154-184 | paired with this file.py, whose revision differs from db.py's, `File` is the five-field namedtuple of file.py:8, but get_file unpacks the six columns of its joined row into it and add_file reads `f.type` | backing up a program with one existing file s: with no record, add_file(new_file(...)) raises AttributeError after its INSERT; once a row for s exists, get_file raises TypeError, and so does every restore of the program | `File` has a sixth `type` field | inferred from files of different revisions; not executed | Database.Db.GetFileAsWritten, Database.Db.AddFileAsWritten (Backup.SyncAsWritten, Restore.RestoreAllAsWritten) | Database.Db.GetFile, Database.Db.AddFile (Backup.Sync, Restore.RestoreAll) |
| game_backuper/config.py:37-40 | `files` sets the cache to a copy of the still-empty result list before the rules are expanded, so every later call returns [] until `clear_cache` | a program {name: g, base: b, files: [s]}: the first `files` gives [(s, b/s)], the second gives [] | the cache holds the expanded list | not executed | Config.Program.Files (Config.FilesCacheCounterexample, Config.SecondFilesCallEmpty) | Config.Program.FilesMemo (Config.MemoSecondCallSame) |
