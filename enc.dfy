/**
 * The encrypted file stream of game_backuper/enc.py, uncompressed path.
 *
 * One EncFile is opened either for writing (a fresh random key and IV; every byte written goes
 * through AES-CBC, the CRC covers the first 1024 plaintext bytes, close pads with zeros to a
 * multiple of 128 bytes) or for reading (key given masked with the salt, IV, declared length and
 * the crc string; the first read checks the CRC before any byte is returned).
 *
 * `algorithms.AES.block_size` is 128 (bits) and the code uses it as a byte count: reads are
 * 128-byte chunks, padding is to 128 bytes and the CRC window is 128 * 8 = 1024 bytes.
 *
 * The file on disk is a value: `prefix`/`output` on the write side, `ct` on the read side.
 * The decryptor is modelled by its output: for the first n ciphertext bytes it has produced the
 * first n - n % 16 bytes of `stream`, the CBC decryption of the whole file (CbcDecryptPrefix).
 */
module Enc {
  import opened Wrappers
  import opened Crypto

  /** algorithms.AES.block_size, read as bytes. */
  const BlockSize: nat := 128
  /** self._crc_size = algorithms.AES.block_size * 8 */
  const CrcSize: nat := 1024
  /** io.DEFAULT_BUFFER_SIZE, the chunk RawIOBase.readall asks for. */
  const ReadAllChunk: nat := 8192
  /** The chunk size encrypt_file and decrypt_file copy with when no compression is configured. */
  const CopyChunk: nat := 4096

  datatype Mode = Closed | Reading | Writing

  /** The file mode EncFile hands to open(): 'rb', 'wb', 'xb' or 'ab'. */
  datatype OpenFlag = ReadBinary | WriteBinary | ExclusiveBinary | AppendBinary

  /** The mode strings __init__ accepts; any other string leaves no open EncFile. */
  function ParseMode(mode: string): (r: Option<OpenFlag>)
    ensures r == Some(ReadBinary) <==> mode == "" || mode == "r" || mode == "rb"
    ensures r == Some(WriteBinary) <==> mode == "w" || mode == "wb"
    ensures r == Some(ExclusiveBinary) <==> mode == "x" || mode == "xb"
    ensures r == Some(AppendBinary) <==> mode == "a" || mode == "ab"
  {
    if mode in ["", "r", "rb"] then Some(ReadBinary)
    else if mode in ["w", "wb"] then Some(WriteBinary)
    else if mode in ["x", "xb"] then Some(ExclusiveBinary)
    else if mode in ["a", "ab"] then Some(AppendBinary)
    else None
  }

  const InvalidModePrefix := "invalid mode: '"
  const UnboundMsg := "cannot access local variable 'mode_code' where it is not associated with a value"

  /** The letters an open() mode may contain: "rwxabt+". */
  predicate ModeLetter(ch: char)
  {
    ch == 'r' || ch == 'w' || ch == 'x' || ch == 'a' || ch == 'b' || ch == 't' || ch == '+'
  }

  /** The letters that say what kind of open it is: read, write, create or append. */
  predicate KindLetter(ch: char)
  {
    ch == 'r' || ch == 'w' || ch == 'x' || ch == 'a'
  }

  /** The kind letters a mode string holds. */
  function Kinds(mode: string): set<char>
  {
    set ch | ch in mode && KindLetter(ch)
  }

  /** Every letter of the mode is one of "rwxabt+". */
  predicate ModeLetters(mode: string)
  {
    forall i :: 0 <= i < |mode| ==> ModeLetter(mode[i])
  }

  /** No letter of the mode appears twice. */
  predicate NoRepeats(mode: string)
  {
    forall i, j :: 0 <= i < j < |mode| ==> mode[i] != mode[j]
  }

  /** The checks open() makes of a mode string before it touches the file, in CPython's order:
      only the letters of "rwxabt+", none of them twice, not both 't' and 'b', and exactly one
      of 'r', 'w', 'x' and 'a', which is the result. */
  function OpenModeKind(mode: string): (r: Result<char>)
    ensures r.Ok? ==> KindLetter(r.value) && r.value in mode
    ensures !ModeLetters(mode) || !NoRepeats(mode) ==> r == Err(ValueError(InvalidModePrefix + mode + "'"))
    ensures r.Ok? <==> ModeLetters(mode) && NoRepeats(mode) && !('t' in mode && 'b' in mode) && |Kinds(mode)| == 1
  {
    if !ModeLetters(mode) || !NoRepeats(mode) then Err(ValueError(InvalidModePrefix + mode + "'"))
    else if 't' in mode && 'b' in mode then Err(ValueError("can't have text and binary mode at once"))
    else if |Kinds(mode)| > 1 then Err(ValueError("must have exactly one of create/read/write/append mode"))
    else if |Kinds(mode)| == 0 then Err(ValueError("Must have exactly one of create/read/write/append mode and at most one plus"))
    else Ok(OnlyKind(mode))
  }

  /** The one kind letter of a mode that holds exactly one. */
  function OnlyKind(mode: string): (k: char)
    requires |Kinds(mode)| == 1
    ensures KindLetter(k) && k in mode
  {
    if 'r' in mode then 'r'
    else if 'w' in mode then 'w'
    else if 'x' in mode then 'x'
    else
      assert 'a' in Kinds(mode) by {
        var ch :| ch in Kinds(mode);
      }
      'a'
  }

  /** A mode open() accepts but the `if` chain of __init__ does not list: the file is opened, and
      then reading the never-assigned mode_code raises UnboundLocalError. */
  lemma UnlistedModeOpens()
    ensures ParseMode("w+").None? && OpenModeKind("w+") == Ok('w')
    ensures ParseMode("rt").None? && OpenModeKind("rt") == Ok('r')
    ensures OpenModeKind("rw").Err? && OpenModeKind("bb").Err?
  {
    assert "w+"[0] == 'w' && "w+"[1] == '+';
    assert Kinds("w+") == {'w'};
    assert "rt"[0] == 'r' && "rt"[1] == 't';
    assert Kinds("rt") == {'r'};
    assert "rw"[0] == 'r' && "rw"[1] == 'w';
    assert Kinds("rw") == {'r', 'w'};
    assert "bb"[0] == "bb"[1];
  }

  /** The crc32 argument of read mode: absent, an int, or a hex string. */
  datatype CrcArg = NoCrc | CrcInt(n: int) | CrcStr(s: string)

  /** `if crc32:` keeps only truthy values (so 0 and "" disable the check); strings go through int(s, 16). */
  function ParseCrcArg(c: CrcArg): (r: Result<Option<int>>)
    ensures r == Ok(None) <==> c.NoCrc? || c == CrcInt(0) || c == CrcStr("")
    ensures r.Err? <==> c.CrcStr? && c.s != "" && ParseHex(c.s).Err?
    ensures c.CrcStr? && r.Ok? && r.value.Some? ==> ParseHex(c.s) == Ok(r.value.value)
    ensures c.CrcInt? && c.n != 0 ==> r == Ok(Some(c.n))
  {
    match c
    case NoCrc => Ok(None)
    case CrcInt(n) => if n == 0 then Ok(None) else Ok(Some(n))
    case CrcStr(s) =>
      if s == "" then Ok(None)
      else match ParseHex(s)
        case Ok(v) => Ok(Some(v))
        case Err(e) => Err(e)
  }

  /** Zero padding applied by close(): to the next multiple of 128 bytes, nothing if already aligned. */
  function ZeroPad(d: seq<byte>): (r: seq<byte>)
    ensures |r| % BlockSize == 0 && |r| % 16 == 0
    ensures |d| <= |r| < |d| + BlockSize
    ensures r[..|d|] == d
    ensures forall i :: |d| <= i < |r| ==> r[i] == 0
    ensures |d| % BlockSize == 0 ==> r == d
  {
    if |d| % BlockSize == 0 then d else d + Zeros(BlockSize - |d| % BlockSize)
  }

  /** The bytes the CRC of a written stream covers: the first min(total, 1024). */
  function Window(w: seq<byte>): seq<byte>
  {
    w[..Min(|w|, CrcSize)]
  }

  /** s[:n] with Python's slice rules (a negative n counts from the end). */
  function PyPrefix(s: seq<byte>, n: int): (r: seq<byte>)
    ensures 0 <= n ==> r == s[..Min(n, |s|)]
    ensures n < 0 ==> r == s[..Max(0, |s| + n)]
  {
    if n >= 0 then s[..Min(n, |s|)] else s[..Max(0, |s| + n)]
  }

  /** The write-time CRC law: however the data is split, the running CRC of the first 1024
      bytes is updated exactly as write() does it. */
  lemma CrcWindowAppend(step: CrcStep, w: seq<byte>, data: seq<byte>)
    ensures |w| < CrcSize ==>
      Crc32(step, Window(w + data), 0)
        == Crc32(step, data[..Min(|data|, CrcSize - |w|)], Crc32(step, Window(w), 0))
    ensures |w| >= CrcSize ==> Window(w + data) == Window(w)
  {
    if |w| < CrcSize {
      var le := Min(|data|, CrcSize - |w|);
      assert Window(w) == w;
      assert Window(w + data) == w + data[..le];
      Crc32Running(step, w, data[..le], 0);
    } else {
      assert (w + data)[..CrcSize] == w[..CrcSize];
    }
  }

  /** What EncryptStats records about one encrypted artifact. */
  datatype EncryptStats = EncryptStats(key: seq<byte>, iv: seq<byte>, crc32: string,
                                       compressType: Option<int>, compressedSize: Option<int>)

  /** EncryptStats.compressed */
  predicate Compressed(s: EncryptStats)
  {
    s.compressType.Some?
  }

  /** A whole number of 128-byte blocks short of 1024 bytes leaves room for one more block. */
  lemma BlockBelowCrc(c: nat)
    requires c % BlockSize == 0 && c < CrcSize
    ensures c + BlockSize <= CrcSize
  {
  }

  /** What check_crc32 compares for a stream read back with a declared length. */
  function ReadWindow(p: seq<byte>, length: int): seq<byte>
  {
    PyPrefix(p[..Min(|p|, CrcSize)], Min(CrcSize, length))
  }

  lemma SliceJoin(s: seq<byte>, i: nat, j: nat, k: nat)
    requires i <= j <= k <= |s|
    ensures s[i..k] == s[i..j] + s[j..k]
  {
  }

  class EncFile {
    const cipher: BlockCipher
    const step: CrcStep
    /** Reading or Writing: what the file was opened for. */
    const kind: Mode
    /** _mode */
    var mode: Mode
    /** _salt */
    var salt: seq<byte>
    /** _key: the raw key in write mode, the masked key given by the caller in read mode */
    const rawKey: seq<byte>
    /** _iv */
    const iv: Block
    /** _pos */
    var pos: nat
    /** _crc32: the running CRC in write mode, the expected CRC (or None) in read mode */
    var crc32: Option<int>

    /** Write side: the file's bytes before opening (kept by append mode only). */
    const prefix: seq<byte>
    /** Write side: every byte handed to the encryptor, padding included once closed. */
    var fed: seq<byte>
    /** Write side: the data accepted by write(). */
    ghost var written: seq<byte>
    /** Write side: the file's bytes once closed. */
    var output: seq<byte>

    /** Read side: the file's bytes. */
    const ct: seq<byte>
    /** Read side: everything the decryptor yields for the whole file. */
    const stream: seq<byte>
    /** Read side: ciphertext bytes consumed from the file. */
    var consumed: nat
    /** _buf */
    var buf: seq<byte>
    /** _eof: the decryptor has been finalised */
    var eof: bool
    /** _length */
    const length: int
    /** _crc32_checked */
    var crc32Checked: bool

    /** Plaintext bytes the decryptor has produced so far. */
    function Delivered(): nat
      reads this`consumed
    {
      Min(consumed, |stream|)
    }

    /** The bytes check_crc32 hashes once the buffer is filled. */
    function CrcWindow(): seq<byte>
    {
      ReadWindow(stream, length)
    }

    /** Write side: position, running CRC, and what the encryptor has been given. */
    ghost predicate WriteInv()
      reads this
    {
      && mode != Reading
      && pos == |written|
      && crc32 == Some(Crc32(step, Window(written), 0) as int)
      && (mode == Writing ==> fed == written)
      && (mode == Closed ==>
            fed == ZeroPad(written) && output == prefix + CbcEncrypt(cipher, rawKey, iv, fed))
    }

    /** Read side: the buffer is the decrypted stream between _pos and what has been produced. */
    ghost predicate ReadInv()
      reads this
    {
      && mode != Writing
      && |stream| == |ct| - |ct| % 16
      && consumed <= |ct|
      && (consumed % BlockSize == 0 || consumed == |ct|)
      && (eof ==> consumed == |ct|)
      && pos <= Delivered()
      && buf == stream[pos..Delivered()]
      && pos <= Max(length, 0)
      && (crc32.Some? && !crc32Checked ==> pos == 0 && Delivered() <= CrcSize)
      && (crc32.Some? && crc32Checked ==> Crc32(step, CrcWindow(), 0) as int == crc32.value)
    }

    ghost predicate Valid()
      reads this
    {
      && |rawKey| == 32
      && kind != Closed
      && (kind == Writing ==> WriteInv())
      && (kind == Reading ==> ReadInv())
    }

    /** __init__ in write mode, once the mode is known: key and IV come from urandom. */
    constructor ForWriting(flag: OpenFlag, existing: seq<byte>, salt0: seq<byte>,
                           randomKey: seq<byte>, randomIv: Block, c: BlockCipher, s: CrcStep)
      requires |randomKey| == 32
      ensures Valid()
      ensures kind == Writing && mode == Writing
      ensures rawKey == randomKey && iv == randomIv && salt == salt0
      ensures prefix == (if flag == AppendBinary then existing else [])
      ensures written == [] && pos == 0 && crc32 == Some(0)
      ensures cipher == c && step == s
    {
      cipher, step := c, s;
      kind, mode := Writing, Writing;
      salt := salt0;
      rawKey, iv := randomKey, randomIv;
      pos := 0;
      crc32 := Some(0);
      prefix := if flag == AppendBinary then existing else [];
      fed, written, output := [], [], [];
      ct, stream := [], [];
      consumed, buf, eof := 0, [], false;
      length := 0;
      crc32Checked := false;
    }

    /** __init__ in read mode, once key, IV, length and crc have been validated. Building the
        cipher reads the `key` property, which pads the salt in place. */
    constructor ForReading(content: seq<byte>, salt0: seq<byte>, key: seq<byte>, iv0: Block,
                           len: int, crc: Option<int>, c: BlockCipher, s: CrcStep)
      requires |key| == 32
      ensures Valid()
      ensures kind == Reading && mode == Reading
      ensures rawKey == key && iv == iv0 && salt == PadSalt(salt0)
      ensures ct == content && stream == CbcDecrypt(c, MaskKey(salt0, key), iv0, content)
      ensures length == len && crc32 == crc && pos == 0 && !crc32Checked
      ensures cipher == c && step == s && consumed == 0 && buf == [] && !eof
    {
      PadSaltIdempotent(salt0);
      cipher, step := c, s;
      kind, mode := Reading, Reading;
      salt := PadSalt(salt0);
      rawKey, iv := key, iv0;
      pos := 0;
      crc32 := crc;
      prefix, fed, written, output := [], [], [], [];
      ct := content;
      stream := CbcDecrypt(c, MaskKey(salt0, key), iv0, content);
      consumed, buf, eof := 0, [], false;
      length := len;
      crc32Checked := false;
    }

    /** The `key` property: pads the salt to 32 bytes in place and returns the key XOR the salt. */
    method Key() returns (k: seq<byte>)
      requires Valid()
      modifies this`salt
      ensures Valid()
      ensures salt == PadSalt(old(salt))
      ensures k == MaskKey(old(salt), rawKey) && |k| == 32
    {
      PadSaltIdempotent(salt);
      salt := PadSalt(salt);
      k := XorZip(salt, rawKey);
    }

    /** The `crc32` property: '{:08x}'.format(self._crc32). */
    method Crc32Hex() returns (r: Result<string>)
      ensures crc32.None? ==> r.Err? && r.error.TypeError?
      ensures crc32.Some? ==> r == Ok(FormatHex08(crc32.value))
    {
      if crc32.None? {
        return Err(TypeError("unsupported format string passed to NoneType.__format__"));
      }
      return Ok(FormatHex08(crc32.value));
    }

    /** write(data), uncompressed: the CRC takes the part of data that falls in the first 1024
        bytes, the whole of data goes to the encryptor and _pos advances by its length. */
    method Write(data: seq<byte>) returns (r: Outcome)
      requires Valid()
      modifies this`fed, this`pos, this`crc32, this`written
      ensures Valid()
      ensures mode == Closed ==> r == Fail(ValueError("I/O operation on closed file"))
      ensures mode == Reading ==> r == Fail(ValueError("File was not opened for writing"))
      ensures mode != Writing ==> written == old(written) && pos == old(pos) && fed == old(fed)
      ensures mode == Writing ==> r == Pass && written == old(written) + data && pos == old(pos) + |data|
    {
      if mode == Closed {
        return Fail(ValueError("I/O operation on closed file"));
      }
      if mode != Writing {
        return Fail(ValueError("File was not opened for writing"));
      }
      CrcWindowAppend(step, written, data);
      if pos < CrcSize {
        var le := Min(|data|, CrcSize - pos);
        crc32 := Some(Crc32(step, data[..le], crc32.value as u32) as int);
      }
      fed := fed + data;
      written := written + data;
      pos := pos + |data|;
      return Pass;
    }

    /** close(): in write mode pad with zeros to a multiple of 128 bytes and finalise the
        encryptor; _pos (tell()) keeps the unpadded count. A second close does nothing. */
    method Close()
      requires Valid()
      modifies this`mode, this`fed, this`output
      ensures Valid() && mode == Closed
      ensures old(mode) == Writing ==>
        fed == ZeroPad(written) && output == prefix + CbcEncrypt(cipher, rawKey, iv, ZeroPad(written))
      ensures old(mode) != Writing ==> fed == old(fed) && output == old(output)
      ensures kind == Writing ==> pos == |written|
    {
      if mode == Closed {
        return;
      }
      if mode == Writing {
        if pos % BlockSize != 0 {
          fed := fed + Zeros(BlockSize - pos % BlockSize);
        }
        output := prefix + CbcEncrypt(cipher, rawKey, iv, fed);
      }
      mode := Closed;
    }

    /** __read(): take the next 128 bytes of the file into the decryptor, or finalise it once
        the file is exhausted (which fails when the file is not a whole number of AES blocks). */
    method Refill() returns (r: Result<bool>)
      requires Valid() && mode == Reading
      requires crc32.Some? && !crc32Checked ==> |buf| < CrcSize
      modifies this`consumed, this`buf, this`eof
      ensures Valid()
      ensures consumed == Min(old(consumed) + BlockSize, |ct|)
      ensures r == Ok(false) <==> old(eof) && old(consumed) == |ct|
      ensures r.Err? <==> !old(eof) && old(consumed) == |ct| && |ct| % 16 != 0
      ensures r.Err? ==> r.error.ValueError?
      ensures eof == (old(eof) || (old(consumed) == |ct| && r.Ok?))
    {
      assert kind == Reading && ReadInv();
      var next := Min(consumed + BlockSize, |ct|);
      if next == consumed {
        if !eof {
          if |ct| % 16 != 0 {
            return Err(ValueError("The length of the provided data is not a multiple of the block length."));
          }
          eof := true;
          return Ok(true);
        }
        return Ok(false);
      }
      Advance();
      return Ok(true);
    }

    /** The feeding half of __read(): the decryptor takes the next 128 bytes of the file and
        what it yields is appended to the buffer. */
    method Advance()
      requires Valid() && mode == Reading && consumed < |ct|
      requires crc32.Some? && !crc32Checked ==> |buf| < CrcSize
      modifies this`consumed, this`buf
      ensures Valid()
      ensures consumed == Min(old(consumed) + BlockSize, |ct|)
    {
      assert kind == Reading && ReadInv();
      var before := Delivered();
      var next := Min(consumed + BlockSize, |ct|);
      var after := Min(next, |stream|);
      assert before <= after;
      if crc32.Some? && !crc32Checked && before < |stream| {
        BlockBelowCrc(consumed);
        assert after <= CrcSize;
      }
      assert stream[pos..before] + stream[before..after] == stream[pos..after];
      consumed := next;
      buf := buf + stream[before..after];
    }

    /** check_crc32(): fill the buffer up to 1024 bytes (or the end of the file) and compare the
        CRC of its first min(1024, length) bytes with the expected value. */
    method CheckCrc() returns (r: Result<bool>)
      requires Valid() && mode == Reading && crc32.Some? && !crc32Checked
      modifies this`consumed, this`buf, this`eof
      ensures Valid()
      ensures r.Ok? ==> Delivered() == Min(|stream|, CrcSize)
      ensures r.Ok? ==> (r.value <==> Crc32(step, CrcWindow(), 0) as int == crc32.value)
      ensures r.Err? ==> r.error.ValueError? && |ct| % 16 != 0
    {
      while |buf| < CrcSize
        invariant Valid() && mode == Reading
        decreases |ct| - consumed, if eof then 0 else 1
      {
        var ok := Refill();
        if ok.Err? {
          return Err(ok.error);
        }
        if !ok.value {
          break;
        }
      }
      assert Delivered() == Min(|stream|, CrcSize);
      assert PyPrefix(buf, Min(CrcSize, length)) == CrcWindow();
      return Ok(Crc32(step, PyPrefix(buf, Min(CrcSize, length)), 0) as int == crc32.value);
    }

    /** Lines 254-273 of read(): serve at most min(size, length - pos) bytes from the buffer,
        refilling it while it is short; at eof (pos >= length) nothing is returned. */
    method ReadAtMost(size: int) returns (r: Result<seq<byte>>)
      requires Valid() && mode == Reading && (crc32.None? || crc32Checked)
      requires size >= 0
      modifies this`consumed, this`buf, this`eof, this`pos
      ensures Valid()
      ensures old(pos) <= pos
      ensures r.Ok? ==> r.value == stream[old(pos)..pos]
      ensures pos - old(pos) <= Max(0, Min(size, length - old(pos)))
      ensures r.Ok? && pos - old(pos) < Min(size, length - old(pos)) ==> pos == |stream|
      ensures r.Err? ==> r.error.ValueError? && |ct| % 16 != 0
    {
      if size == 0 || pos >= length {
        return Ok([]);
      }
      var n := Min(size, length - pos);
      while |buf| < n
        invariant Valid() && mode == Reading && pos == old(pos)
        decreases |ct| - consumed, if eof then 0 else 1
      {
        var ok := Refill();
        if ok.Err? {
          return Err(ok.error);
        }
        if !ok.value {
          break;
        }
      }
      var d := Take(Min(|buf|, n));
      return Ok(d);
    }

    /** Hand out the first n buffered bytes and advance _pos past them. */
    method Take(n: nat) returns (data: seq<byte>)
      requires Valid() && mode == Reading && (crc32.None? || crc32Checked)
      requires n <= |buf| && pos + n <= Max(length, 0)
      modifies this`buf, this`pos
      ensures Valid()
      ensures pos == old(pos) + n && data == stream[old(pos)..pos]
    {
      data := buf[..n];
      buf := buf[n..];
      pos := pos + n;
    }

    /** RawIOBase.readall(): read(8192) until it returns b''. */
    method ReadAll() returns (r: Result<seq<byte>>)
      requires Valid() && mode == Reading && (crc32.None? || crc32Checked)
      modifies this`consumed, this`buf, this`eof, this`pos
      ensures Valid()
      ensures old(pos) <= pos
      ensures r.Ok? ==> r.value == stream[old(pos)..pos] && pos == Max(old(pos), Min(Max(length, 0), |stream|))
      ensures r.Err? ==> r.error.ValueError? && |ct| % 16 != 0
    {
      var acc: seq<byte> := [];
      ghost var start := pos;
      while true
        invariant Valid() && mode == Reading && (crc32.None? || crc32Checked)
        invariant start <= pos && acc == stream[start..pos]
        decreases Max(length, 0) - pos
      {
        ghost var p0 := pos;
        var chunk := ReadAtMost(ReadAllChunk);
        if chunk.Err? {
          return chunk;
        }
        if chunk.value == [] {
          break;
        }
        SliceJoin(stream, start, p0, pos);
        acc := acc + chunk.value;
      }
      return Ok(acc);
    }

    /** Lines 227-230 of read(): on the first read of a file with a crc, check it and raise
        DecryptException when it does not match; afterwards nothing. */
    method GateCrc() returns (r: Outcome)
      requires Valid() && mode == Reading
      modifies this`consumed, this`buf, this`eof, this`crc32Checked
      ensures Valid()
      ensures r.Pass? <==> crc32.None? || crc32Checked
      ensures old(crc32.None? || crc32Checked) ==> r.Pass?
      ensures r.Fail? ==>
        || (r.error == DecryptException("crc32 check failed.")
            && crc32.Some? && Crc32(step, CrcWindow(), 0) as int != crc32.value)
        || (r.error.ValueError? && |ct| % 16 != 0)
    {
      if crc32.Some? && !crc32Checked {
        var ok := CheckCrc();
        if ok.Err? {
          return Fail(ok.error);
        }
        if !ok.value {
          return Fail(DecryptException("crc32 check failed."));
        }
        crc32Checked := true;
      }
      return Pass;
    }

    /** read(size): refuse unless open for reading; pass the crc gate before returning any
        data; size < 0 reads everything. */
    method Read(size: int) returns (r: Result<seq<byte>>)
      requires Valid()
      modifies this`consumed, this`buf, this`eof, this`pos, this`crc32Checked
      ensures Valid()
      ensures mode == Closed ==> r == Err(ValueError("I/O operation on closed file"))
      ensures mode == Writing ==> r == Err(ValueError("File is not readable."))
      ensures r.Ok? ==> crc32.None? || crc32Checked
      ensures old(pos) <= pos
      ensures r.Ok? ==> r.value == stream[old(pos)..pos]
      ensures r.Ok? && size < 0 ==> pos == Max(old(pos), Min(Max(length, 0), |stream|))
      ensures r.Ok? && size >= 0 ==> |r.value| <= Max(0, Min(size, length - old(pos)))
      ensures r.Ok? && size >= 0 && |r.value| < Min(size, length - old(pos)) ==> pos == |stream|
      ensures mode == Reading && r.Err? ==>
        || (r.error == DecryptException("crc32 check failed.")
            && crc32.Some? && Crc32(step, CrcWindow(), 0) as int != crc32.value)
        || (r.error.ValueError? && |ct| % 16 != 0)
      ensures mode == Reading && (old(crc32).None? || old(crc32Checked)) ==>
        r.Err? ==> r.error.ValueError? && |ct| % 16 != 0
    {
      if mode == Closed {
        return Err(ValueError("I/O operation on closed file"));
      }
      if mode != Reading {
        return Err(ValueError("File is not readable."));
      }
      var gate := GateCrc();
      if gate.Fail? {
        return Err(gate.error);
      }
      if size < 0 {
        r := ReadAll();
      } else {
        r := ReadAtMost(size);
      }
    }
  }

  /** EncFile.__init__: pick the open flag from the mode, open the file, then set up the write
      side (random key and IV, CRC 0) or validate the read-side arguments in the source's order.
      `file` is the file's current contents, None when it does not exist. */
  method Open(file: Option<seq<byte>>, mode: string, salt: seq<byte>,
              key: Option<seq<byte>>, iv: Option<seq<byte>>, length: Option<int>, crc: CrcArg,
              randomKey: seq<byte>, randomIv: Block, c: BlockCipher, s: CrcStep)
    returns (r: Result<EncFile>)
    requires |randomKey| == 32
    ensures r.Ok? ==> fresh(r.value) && r.value.Valid() && r.value.cipher == c && r.value.step == s
    ensures ParseMode(mode).None? ==> r.Err?
    ensures ParseMode(mode).None? && OpenModeKind(mode).Err? ==> r == Err(OpenModeKind(mode).error)
    ensures ParseMode(mode).None? && OpenModeKind(mode).Ok? ==>
      r == Err(if OpenModeKind(mode).value == 'r' && file.None? then FileNotFoundError("No such file or directory")
               else if OpenModeKind(mode).value == 'x' && file.Some? then FileExistsError("File exists")
               else UnboundLocalError(UnboundMsg))
    ensures ParseMode(mode) == Some(ReadBinary) && file.None? ==> r.Err? && r.error.FileNotFoundError?
    ensures ParseMode(mode) == Some(ExclusiveBinary) && file.Some? ==> r.Err? && r.error.FileExistsError?
    ensures ParseMode(mode) == Some(ReadBinary) && file.Some? ==>
      (key.None? || |key.value| != 32 <==> r == Err(ValueError("A 256-bit key is required.")))
    ensures ParseMode(mode) == Some(ReadBinary) && file.Some? && key.Some? && |key.value| == 32 ==>
      (iv.None? || |iv.value| != 16 <==> r == Err(ValueError("A 128-bit initialization_vector is required.")))
    ensures ParseMode(mode) == Some(ReadBinary) && file.Some? && key.Some? && |key.value| == 32
            && iv.Some? && |iv.value| == 16 ==>
      (length.None? <==> r == Err(ValueError("data's length is needed.")))
    ensures r.Ok? && ParseMode(mode) == Some(ReadBinary) ==>
      && file.Some? && key.Some? && iv.Some? && length.Some? && ParseCrcArg(crc).Ok?
      && r.value.kind == Reading && r.value.mode == Reading && r.value.ct == file.value && r.value.length == length.value
      && r.value.rawKey == key.value && r.value.iv == iv.value && r.value.pos == 0
      && r.value.crc32 == ParseCrcArg(crc).value && !r.value.crc32Checked
      && r.value.stream == CbcDecrypt(c, MaskKey(salt, key.value), iv.value, file.value)
    ensures r.Ok? && ParseMode(mode) != Some(ReadBinary) ==>
      && r.value.kind == Writing && r.value.mode == Writing && r.value.written == []
      && r.value.rawKey == randomKey && r.value.iv == randomIv && r.value.salt == salt
      && r.value.prefix == (if ParseMode(mode) == Some(AppendBinary) && file.Some? then file.value else [])
    ensures r.Ok? <==>
      || (ParseMode(mode) == Some(ReadBinary) && file.Some? && key.Some? && |key.value| == 32
          && iv.Some? && |iv.value| == 16 && length.Some? && ParseCrcArg(crc).Ok?)
      || ParseMode(mode) == Some(WriteBinary) || ParseMode(mode) == Some(AppendBinary)
      || (ParseMode(mode) == Some(ExclusiveBinary) && file.None?)
  {
    var flag := ParseMode(mode);
    if flag.None? {
      var kind := OpenModeKind(mode);
      if kind.Err? {
        return Err(kind.error);
      }
      if kind.value == 'r' && file.None? {
        return Err(FileNotFoundError("No such file or directory"));
      }
      if kind.value == 'x' && file.Some? {
        return Err(FileExistsError("File exists"));
      }
      return Err(UnboundLocalError(UnboundMsg));
    }
    if flag.value == ReadBinary {
      if file.None? {
        return Err(FileNotFoundError("No such file or directory"));
      }
      if key.None? || |key.value| != 32 {
        return Err(ValueError("A 256-bit key is required."));
      }
      if iv.None? || |iv.value| != 16 {
        return Err(ValueError("A 128-bit initialization_vector is required."));
      }
      if length.None? {
        return Err(ValueError("data's length is needed."));
      }
      var expected := ParseCrcArg(crc);
      if expected.Err? {
        return Err(expected.error);
      }
      var f := new EncFile.ForReading(file.value, salt, key.value, iv.value, length.value,
                                      expected.value, c, s);
      return Ok(f);
    }
    if flag.value == ExclusiveBinary && file.Some? {
      return Err(FileExistsError("File exists"));
    }
    var existing := if flag.value == AppendBinary && file.Some? then file.value else [];
    var f := new EncFile.ForWriting(flag.value, existing, salt, randomKey, randomIv, c, s);
    return Ok(f);
  }

  /** The with-blocks of encrypt_file: copy src in 4096-byte chunks through an EncFile opened
      'wb' with the file's hash as salt, and record key, IV and crc. */
  method EncryptStream(src: seq<byte>, salt: seq<byte>, randomKey: seq<byte>, randomIv: Block,
                       c: BlockCipher, s: CrcStep)
    returns (ct: seq<byte>, stats: EncryptStats)
    requires |randomKey| == 32
    ensures ct == CbcEncrypt(c, randomKey, randomIv, ZeroPad(src))
    ensures stats.key == MaskKey(salt, randomKey) && stats.iv == randomIv
    ensures stats.crc32 == FormatHex08(Crc32(s, Window(src), 0) as int)
    ensures !Compressed(stats) && stats.compressedSize.None?
  {
    var t := new EncFile.ForWriting(WriteBinary, [], salt, randomKey, randomIv, c, s);
    var i := 0;
    while i < |src|
      invariant 0 <= i <= |src|
      invariant t.Valid() && t.mode == Writing && t.kind == Writing && t.written == src[..i]
      invariant t.rawKey == randomKey && t.iv == randomIv && t.salt == salt && t.prefix == []
      invariant t.cipher == c && t.step == s
      decreases |src| - i
    {
      var a := src[i..Min(i + CopyChunk, |src|)];
      var w := t.Write(a);
      assert src[..i] + a == src[..Min(i + CopyChunk, |src|)];
      i := Min(i + CopyChunk, |src|);
    }
    assert src[..i] == src;
    t.Close();
    var k := t.Key();
    var crc := t.Crc32Hex();
    ct := t.output;
    stats := EncryptStats(k, t.iv, crc.value, None, None);
  }

  /** encrypt_file without the filesystem calls: the artifact is written, then the size report
      divides by the record's size, so a record of size 0 raises after the artifact exists. */
  method EncryptBytes(src: seq<byte>, size: int, salt: seq<byte>, randomKey: seq<byte>, randomIv: Block,
                      c: BlockCipher, s: CrcStep)
    returns (ct: seq<byte>, r: Result<EncryptStats>)
    requires |randomKey| == 32
    ensures ct == CbcEncrypt(c, randomKey, randomIv, ZeroPad(src))
    ensures r.Err? <==> size == 0
    ensures r.Err? ==> r.error == DivisionByZero
    ensures r.Ok? ==> r.value.key == MaskKey(salt, randomKey) && r.value.iv == randomIv
    ensures r.Ok? ==> r.value.crc32 == FormatHex08(Crc32(s, Window(src), 0) as int)
    ensures r.Ok? ==> !Compressed(r.value) && r.value.compressedSize.None?
  {
    var stats;
    ct, stats := EncryptStream(src, salt, randomKey, randomIv, c, s);
    if size == 0 {
      return ct, Err(DivisionByZero);
    }
    return ct, Ok(stats);
  }

  /** The stream an artifact decrypts to with the given salt and (masked) key. */
  function Plain(c: BlockCipher, salt: seq<byte>, key: seq<byte>, iv: Block, ct: seq<byte>): seq<byte>
  {
    CbcDecrypt(c, MaskKey(salt, key), iv, ct)
  }

  /** The with-blocks of decrypt_file: open the artifact for reading, then open dest 'wb' and
      copy the artifact into it in 4096-byte reads until read() returns b''. `dest` is what dest
      holds afterwards: None when opening the artifact failed and dest was never opened. */
  method DecryptStream(ct: seq<byte>, salt: seq<byte>, key: seq<byte>, iv: seq<byte>,
                       length: int, crc: CrcArg, c: BlockCipher, s: CrcStep)
    returns (r: Result<seq<byte>>, dest: Option<seq<byte>>)
    ensures |key| != 32 ==> r == Err(ValueError("A 256-bit key is required."))
    ensures |key| == 32 && |iv| != 16 ==> r == Err(ValueError("A 128-bit initialization_vector is required."))
    ensures |key| == 32 && |iv| == 16 && ParseCrcArg(crc).Err? ==> r.Err?
    ensures dest.None? <==> |key| != 32 || |iv| != 16 || ParseCrcArg(crc).Err?
    ensures r.Ok? ==> dest == Some(r.value)
    ensures dest.Some? ==>
      var p := Plain(c, salt, key, iv, ct);
      |dest.value| <= Min(Max(length, 0), |p|) && dest.value == p[..|dest.value|]
    ensures |key| == 32 && |iv| == 16 && ParseCrcArg(crc).Ok? && |ct| % 16 == 0 ==>
      var p := Plain(c, salt, key, iv, ct);
      var expected := ParseCrcArg(crc).value;
      if expected.None? || Crc32(s, ReadWindow(p, length), 0) as int == expected.value
      then r == Ok(p[..Min(Max(length, 0), |p|)])
      else r == Err(DecryptException("crc32 check failed.")) && dest == Some([])
  {
    var ivRaw: seq<byte> := if |iv| == 16 then iv else seq(16, _ => 0);
    var res := Open(Some(ct), "rb", salt, Some(key), Some(iv), Some(length), crc,
                    seq(32, _ => 0), ivRaw, c, s);
    if res.Err? {
      return Err(res.error), None;
    }
    var got;
    r, got := CopyOut(res.value);
    dest := Some(got);
  }

  /** decrypt_file without the filesystem calls: refuse a record that is not encrypted, copy the
      stream out, then report the sizes, which divides by the record's size. `written` is what
      dest holds afterwards: None when dest was never opened, empty after a failed crc check,
      and the bytes copied so far when the final read fails on a file that is not whole blocks. */
  method DecryptBytes(ct: seq<byte>, encrypted: bool, size: int, salt: seq<byte>, key: seq<byte>, iv: seq<byte>,
                      length: int, crc: CrcArg, c: BlockCipher, s: CrcStep)
    returns (r: Outcome, written: Option<seq<byte>>)
    ensures !encrypted ==> r == Fail(ValueError("File is not encrypted.")) && written.None?
    ensures written.None? <==> !encrypted || |key| != 32 || |iv| != 16 || ParseCrcArg(crc).Err?
    ensures written.Some? ==>
      var p := Plain(c, salt, key, iv, ct);
      |written.value| <= Min(Max(length, 0), |p|) && written.value == p[..|written.value|]
    ensures r.Pass? ==> written.Some? && size != 0
    ensures size == 0 ==> r.Fail?
    ensures encrypted && |key| != 32 ==> r == Fail(ValueError("A 256-bit key is required."))
    ensures encrypted && |key| == 32 && |iv| != 16 ==>
      r == Fail(ValueError("A 128-bit initialization_vector is required."))
    ensures encrypted && |key| == 32 && |iv| == 16 && ParseCrcArg(crc).Err? ==> r.Fail?
    ensures encrypted && |key| == 32 && |iv| == 16 && ParseCrcArg(crc).Ok? && |ct| % 16 == 0 ==>
      var p := Plain(c, salt, key, iv, ct);
      var expected := ParseCrcArg(crc).value;
      if expected.None? || Crc32(s, ReadWindow(p, length), 0) as int == expected.value
      then written == Some(p[..Min(Max(length, 0), |p|)]) && r == (if size == 0 then Fail(DivisionByZero) else Pass)
      else written == Some([]) && r == Fail(DecryptException("crc32 check failed."))
  {
    if !encrypted {
      return Fail(ValueError("File is not encrypted.")), None;
    }
    var out;
    out, written := DecryptStream(ct, salt, key, iv, length, crc, c, s);
    if out.Err? {
      return Fail(out.error), written;
    }
    if size == 0 {
      return Fail(DivisionByZero), written;
    }
    return Pass, written;
  }

  /** The copy loop of decrypt_file: read(4096) until it returns b''. The first read checks the
      crc; once it has passed, only a file that is not whole AES blocks can still fail. `got` is
      what has been written to dest: nothing when the crc check fails, otherwise every chunk
      read before the failing read. */
  method CopyOut(f: EncFile) returns (r: Result<seq<byte>>, got: seq<byte>)
    requires f.Valid() && f.kind == Reading && f.mode == Reading && f.pos == 0 && !f.crc32Checked
    modifies f`consumed, f`buf, f`eof, f`pos, f`crc32Checked
    ensures r.Ok? ==> r.value == f.stream[..Min(Max(f.length, 0), |f.stream|)]
    ensures r.Ok? ==> got == r.value
    ensures |got| <= Min(Max(f.length, 0), |f.stream|) && got == f.stream[..|got|]
    ensures r.Ok? ==> f.crc32.None? || Crc32(f.step, f.CrcWindow(), 0) as int == f.crc32.value
    ensures r.Err? && r.error.DecryptException? ==>
      got == [] && f.crc32.Some? && Crc32(f.step, f.CrcWindow(), 0) as int != f.crc32.value
    ensures r.Err? ==>
      r.error == DecryptException("crc32 check failed.") || (r.error.ValueError? && |f.ct| % 16 != 0)
  {
    var a := f.Read(CopyChunk);
    if a.Err? {
      return a, [];
    }
    r, got := Drain(f, a.value);
  }

  /** The read(4096) loop of decrypt_file after its first chunk: write each chunk, read until an
      empty chunk. `got` is what has been written. */
  method Drain(f: EncFile, first: seq<byte>) returns (r: Result<seq<byte>>, got: seq<byte>)
    requires f.Valid() && f.kind == Reading && f.mode == Reading && (f.crc32.None? || f.crc32Checked)
    requires first == f.stream[..f.pos]
    requires first == [] ==> f.pos >= f.length || f.pos == |f.stream|
    modifies f`consumed, f`buf, f`eof, f`pos, f`crc32Checked
    ensures f.Valid() && (f.crc32.None? || f.crc32Checked)
    ensures r.Ok? ==> r.value == f.stream[..Min(Max(f.length, 0), |f.stream|)]
    ensures r.Ok? ==> got == r.value
    ensures |got| <= Min(Max(f.length, 0), |f.stream|) && got == f.stream[..|got|]
    ensures r.Err? ==> r.error.ValueError? && |f.ct| % 16 != 0
  {
    var out: seq<byte> := [];
    var a: seq<byte> := first;
    while a != []
      invariant f.Valid() && f.mode == Reading && (f.crc32.None? || f.crc32Checked)
      invariant out + a == f.stream[..f.pos]
      invariant a == [] ==> f.pos >= f.length || f.pos == |f.stream|
      decreases Max(f.length, 0) - f.pos + (if a == [] then 0 else 1)
    {
      out := out + a;
      ghost var p0 := f.pos;
      var next := f.Read(CopyChunk);
      if next.Err? {
        assert out == f.stream[..p0];
        return next, out;
      }
      a := next.value;
      assert f.stream[..f.pos] == f.stream[..p0] + f.stream[p0..f.pos];
    }
    assert f.pos == Min(Max(f.length, 0), |f.stream|);
    return Ok(out), out;
  }
}

module EncRoundTrip {
  import opened Wrappers
  import opened Crypto
  import opened Enc

  /** The check_crc32 outcome of reading an artifact back: the expected CRC is the one recorded
      at write time, the hashed bytes are what the reader's key decrypts to. */
  function ReadBack(c: BlockCipher, s: CrcStep, data: seq<byte>, p: seq<byte>): Result<seq<byte>>
  {
    if Crc32(s, ReadWindow(p, |data|), 0) == Crc32(s, Window(data), 0)
    then Ok(p[..Min(|data|, |p|)])
    else Err(DecryptException("crc32 check failed."))
  }

  /** The scenario of testenc.py: encrypt data with one salt, then decrypt it with the key, IV,
      length and crc the writer reported. With the writer's salt the data comes back unchanged;
      with any salt the outcome is the crc check on what that salt's key decrypts to. */
  method RoundTrip(data: seq<byte>, salt: seq<byte>, readSalt: seq<byte>, randomKey: seq<byte>,
                   randomIv: Block, c: BlockCipher, s: CrcStep)
    returns (r: Result<seq<byte>>)
    requires Inverse(c) && |randomKey| == 32
    ensures readSalt == salt ==> r == Ok(data)
    ensures r == ReadBack(c, s, data, Plain(c, readSalt, MaskKey(salt, randomKey), randomIv,
                                            CbcEncrypt(c, randomKey, randomIv, ZeroPad(data))))
  {
    var ct, stats := EncryptStream(data, salt, randomKey, randomIv, c, s);
    FormatHex08RoundTrip(Crc32(s, Window(data), 0));
    var written;
    r, written := DecryptStream(ct, readSalt, stats.key, stats.iv, |data|, CrcStr(stats.crc32), c, s);
    if readSalt == salt {
      MaskKeyInvolution(salt, randomKey);
      CbcRoundTrip(c, randomKey, randomIv, ZeroPad(data));
      var p := ZeroPad(data);
      assert ReadWindow(p, |data|) == Window(data);
      assert p[..Min(|data|, |p|)] == data;
    }
  }
}
