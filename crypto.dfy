/**
 * The primitives EncFile builds on, kept abstract where the program calls a library:
 *  - zlib's CRC-32 is a byte-at-a-time state machine whose step function is a parameter;
 *    `Crc32(step, data, value)` is `zlib.crc32(data, value)`, including the complement
 *    zlib applies on entry and exit;
 *  - AES is a parameter `BlockCipher` (a keyed 16-byte permutation and its inverse);
 *    CBC mode (section 6.2 of NIST SP 800-38A) is written out over it;
 *  - the XOR masking of the key, zero padding, and the '{:08x}' / int(s, 16) conversions.
 */
module Crypto {
  import opened Wrappers

  type byte = bv8
  newtype u32 = x: int | 0 <= x < 0x1_0000_0000

  const Mask32: u32 := 0xFFFF_FFFF

  /** One step of CRC-32 on the (pre-complemented) register. */
  type CrcStep = (u32, byte) -> u32

  function RawCrc(step: CrcStep, state: u32, data: seq<byte>): u32
    decreases |data|
  {
    if data == [] then state else RawCrc(step, step(state, data[0]), data[1..])
  }

  /** zlib.crc32(data, value). */
  function Crc32(step: CrcStep, data: seq<byte>, value: u32): u32
  {
    Mask32 - RawCrc(step, Mask32 - value, data)
  }

  lemma {:induction false} RawCrcConcat(step: CrcStep, s: u32, a: seq<byte>, b: seq<byte>)
    ensures RawCrc(step, s, a + b) == RawCrc(step, RawCrc(step, s, a), b)
    decreases |a|
  {
    if a == [] {
      assert a + b == b;
    } else {
      assert (a + b)[0] == a[0];
      assert (a + b)[1..] == a[1..] + b;
      RawCrcConcat(step, step(s, a[0]), a[1..], b);
    }
  }

  /** The running-CRC law zlib documents: crc32(b, crc32(a, v)) == crc32(a + b, v). */
  lemma Crc32Running(step: CrcStep, a: seq<byte>, b: seq<byte>, v: u32)
    ensures Crc32(step, b, Crc32(step, a, v)) == Crc32(step, a + b, v)
  {
    RawCrcConcat(step, Mask32 - v, a, b);
  }

  /** crc32 of no bytes leaves the running value unchanged. */
  lemma Crc32Empty(step: CrcStep, v: u32)
    ensures Crc32(step, [], v) == v
  {
  }

  // ---------------------------------------------------------------- XOR and padding

  /** bytes(a ^ b for a, b in zip(x, y)): zip stops at the shorter operand. */
  function XorZip(x: seq<byte>, y: seq<byte>): (r: seq<byte>)
    ensures |r| == Min(|x|, |y|)
    ensures forall i :: 0 <= i < |r| ==> r[i] == x[i] ^ y[i]
  {
    seq(Min(|x|, |y|), i requires 0 <= i < Min(|x|, |y|) => x[i] ^ y[i])
  }

  function Zeros(n: nat): (r: seq<byte>)
    ensures |r| == n && forall i :: 0 <= i < n ==> r[i] == 0
  {
    seq(n, _ => 0)
  }

  /** The in-place padding of `EncFile.key`: a salt shorter than 32 bytes is extended with zero bytes. */
  function PadSalt(salt: seq<byte>): (r: seq<byte>)
    ensures |r| == Max(|salt|, 32)
    ensures r[..|salt|] == salt
    ensures forall i :: |salt| <= i < |r| ==> r[i] == 0
  {
    if |salt| < 32 then salt + Zeros(32 - |salt|) else salt
  }

  /** The value of the `key` property: the stored key XOR the zero-padded salt, extra salt bytes ignored. */
  function MaskKey(salt: seq<byte>, key: seq<byte>): (r: seq<byte>)
    ensures |key| == 32 ==> |r| == 32
    ensures |key| == 32 ==> forall i :: 0 <= i < |salt| && i < 32 ==> r[i] == salt[i] ^ key[i]
    ensures |key| == 32 ==> forall i :: |salt| <= i < 32 ==> r[i] == key[i]
  {
    XorZip(PadSalt(salt), key)
  }

  lemma PadSaltIdempotent(salt: seq<byte>)
    ensures PadSalt(PadSalt(salt)) == PadSalt(salt)
  {
  }

  lemma XorTwice(a: byte, b: byte)
    ensures a ^ (a ^ b) == b
  {
  }

  /** Masking twice with one salt gives back the raw key: what read mode relies on. */
  lemma MaskKeyInvolution(salt: seq<byte>, key: seq<byte>)
    requires |key| == 32
    ensures MaskKey(salt, MaskKey(salt, key)) == key
  {
    var p := PadSalt(salt);
    var m := MaskKey(salt, key);
    forall i | 0 <= i < 32
      ensures MaskKey(salt, m)[i] == key[i]
    {
      XorTwice(p[i], key[i]);
    }
  }

  // ---------------------------------------------------------------- CBC over an abstract AES

  type Block = b: seq<byte> | |b| == 16 witness seq(16, _ => 0)

  /** AES as the program uses it: encryption and decryption of one block under a key. */
  datatype BlockCipher = BlockCipher(encrypt: (seq<byte>, Block) -> Block, decrypt: (seq<byte>, Block) -> Block)

  /** The only law assumed of AES: decryption undoes encryption under the same key. */
  ghost predicate Inverse(c: BlockCipher)
  {
    forall k, b :: c.decrypt(k, c.encrypt(k, b)) == b
  }

  function XorBlock(a: Block, b: Block): Block
  {
    XorZip(a, b)
  }

  lemma XorBlockTwice(p: Block, iv: Block)
    ensures XorBlock(XorBlock(p, iv), iv) == p
  {
    var q := XorBlock(XorBlock(p, iv), iv);
    forall i | 0 <= i < 16 ensures q[i] == p[i] {
      assert q[i] == (p[i] ^ iv[i]) ^ iv[i];
    }
  }

  /** CBC encryption of block-aligned plaintext: C_j = E(K, P_j xor C_{j-1}), C_0 = IV. */
  function CbcEncrypt(c: BlockCipher, key: seq<byte>, iv: Block, p: seq<byte>): (r: seq<byte>)
    requires |p| % 16 == 0
    ensures |r| == |p|
    decreases |p|
  {
    if |p| == 0 then []
    else
      var blk := c.encrypt(key, XorBlock(p[..16], iv));
      blk + CbcEncrypt(c, key, blk, p[16..])
  }

  /** CBC decryption of the complete blocks of `ct`: P_j = D(K, C_j) xor C_{j-1}. */
  function CbcDecrypt(c: BlockCipher, key: seq<byte>, iv: Block, ct: seq<byte>): (r: seq<byte>)
    ensures |r| == |ct| - |ct| % 16
    decreases |ct|
  {
    if |ct| < 16 then []
    else
      var blk: Block := ct[..16];
      XorBlock(c.decrypt(key, blk), iv) + CbcDecrypt(c, key, blk, ct[16..])
  }

  /** Round trip under one key and IV. */
  lemma {:induction false} CbcRoundTrip(c: BlockCipher, key: seq<byte>, iv: Block, p: seq<byte>)
    requires Inverse(c)
    requires |p| % 16 == 0
    ensures CbcDecrypt(c, key, iv, CbcEncrypt(c, key, iv, p)) == p
    decreases |p|
  {
    if |p| > 0 {
      var blk := c.encrypt(key, XorBlock(p[..16], iv));
      var ct := CbcEncrypt(c, key, iv, p);
      assert ct == blk + CbcEncrypt(c, key, blk, p[16..]);
      assert ct[..16] == blk;
      assert ct[16..] == CbcEncrypt(c, key, blk, p[16..]);
      CbcRoundTrip(c, key, blk, p[16..]);
      XorBlockTwice(p[..16], iv);
      assert p == p[..16] + p[16..];
    }
  }

  /** CBC decryption is blockwise: decrypting an aligned prefix yields the prefix of the plaintext.
      This is what lets a decryptor fed 128-byte chunks be modelled by slices of one stream. */
  lemma {:induction false} CbcDecryptPrefix(c: BlockCipher, key: seq<byte>, iv: Block, ct: seq<byte>, n: nat)
    requires n % 16 == 0 && n <= |ct|
    ensures CbcDecrypt(c, key, iv, ct[..n]) == CbcDecrypt(c, key, iv, ct)[..n]
    decreases n, 0
  {
    if n > 0 {
      var blk: Block := ct[..16];
      var m := ct[..n];
      var tail := ct[16..];
      assert m[..16] == blk;
      assert m[16..] == tail[..n - 16];
      CbcDecryptStep(c, key, iv, ct);
      CbcDecryptStep(c, key, iv, m);
      CbcPrefixStep(c, key, blk, tail, n - 16, XorBlock(c.decrypt(key, blk), iv));
    }
  }

  lemma CbcPrefixStep(c: BlockCipher, key: seq<byte>, blk: Block, tail: seq<byte>, k: nat, head: seq<byte>)
    requires k % 16 == 0 && k <= |tail| && |head| == 16
    ensures head + CbcDecrypt(c, key, blk, tail[..k]) == (head + CbcDecrypt(c, key, blk, tail))[..16 + k]
    decreases k, 1
  {
    CbcDecryptPrefix(c, key, blk, tail, k);
    PrefixAfterHead(head, CbcDecrypt(c, key, blk, tail), 16 + k);
  }

  lemma CbcDecryptStep(c: BlockCipher, key: seq<byte>, iv: Block, ct: seq<byte>)
    requires |ct| >= 16
    ensures CbcDecrypt(c, key, iv, ct) == XorBlock(c.decrypt(key, ct[..16]), iv) + CbcDecrypt(c, key, ct[..16], ct[16..])
  {
  }

  lemma PrefixAfterHead(head: seq<byte>, rest: seq<byte>, n: nat)
    requires |head| == 16 && 16 <= n <= 16 + |rest|
    ensures (head + rest)[..n] == head + rest[..n - 16]
  {
  }

  // ---------------------------------------------------------------- hexadecimal text

  const HexChars := "0123456789abcdef"

  function HexDigit(d: nat): (ch: char)
    requires d < 16
  {
    HexChars[d]
  }

  /** The digit value int(_, 16) gives a character, if it is one. */
  function HexValue(ch: char): (r: Option<nat>)
    ensures r.Some? ==> r.value < 16
  {
    if '0' <= ch <= '9' then Some(ch as int - '0' as int)
    else if 'a' <= ch <= 'f' then Some(ch as int - 'a' as int + 10)
    else if 'A' <= ch <= 'F' then Some(ch as int - 'A' as int + 10)
    else None
  }

  lemma HexValueOfDigit(d: nat)
    requires d < 16
    ensures HexValue(HexDigit(d)) == Some(d)
  {
  }

  predicate IsHexString(s: string)
  {
    forall i :: 0 <= i < |s| ==> HexValue(s[i]).Some?
  }

  /** Hex digits and underscores, the characters of a digit run of int(s, 16). */
  predicate IsHexOrUnderscore(s: string)
  {
    forall i :: 0 <= i < |s| ==> s[i] == '_' || HexValue(s[i]).Some?
  }

  predicate IsLowerHex(s: string)
  {
    forall i :: 0 <= i < |s| ==> s[i] in HexChars
  }

  /** Lower-case hexadecimal of n without leading zeros, "0" for zero: format(n, 'x'). */
  function ToHex(n: nat): (s: string)
    ensures |s| >= 1
    decreases n
  {
    if n < 16 then [HexDigit(n)] else ToHex(n / 16) + [HexDigit(n % 16)]
  }

  /** The value of a digit run; underscores carry no value. */
  function HexNat(s: string): nat
    requires IsHexOrUnderscore(s)
    decreases |s|
  {
    if s == [] then 0
    else if s[|s| - 1] == '_' then HexNat(s[..|s| - 1])
    else HexNat(s[..|s| - 1]) * 16 + HexValue(s[|s| - 1]).value
  }

  /** The characters str.isspace() accepts, which int() strips from both ends. */
  predicate IsSpace(ch: char)
  {
    || ch == ' ' || '\t' <= ch <= '\r' || '\U{1C}' <= ch <= '\U{1F}' || ch == '\U{85}' || ch == '\U{A0}'
    || ch == '\U{1680}' || '\U{2000}' <= ch <= '\U{200A}' || ch == '\U{2028}' || ch == '\U{2029}'
    || ch == '\U{202F}' || ch == '\U{205F}' || ch == '\U{3000}'
  }

  function StripLeft(s: string): (r: string)
    ensures |r| <= |s|
    decreases |s|
  {
    if |s| > 0 && IsSpace(s[0]) then StripLeft(s[1..]) else s
  }

  function StripRight(s: string): (r: string)
    ensures |r| <= |s|
    decreases |s|
  {
    if |s| > 0 && IsSpace(s[|s| - 1]) then StripRight(s[..|s| - 1]) else s
  }

  /** The digit run of a hexadecimal literal: digits, each pair of them possibly separated by one
      underscore; after a 0x prefix one underscore may also come first. */
  predicate HexRun(d: string, afterPrefix: bool)
  {
    && |d| > 0 && IsHexOrUnderscore(d) && d[|d| - 1] != '_'
    && (afterPrefix || d[0] != '_')
    && NoDoubleUnderscore(d)
  }

  /** No two underscores side by side. */
  predicate NoDoubleUnderscore(d: string)
    decreases |d|
  {
    |d| < 2 || (!(d[0] == '_' && d[1] == '_') && NoDoubleUnderscore(d[1..]))
  }

  const InvalidHex := ValueError("invalid literal for int() with base 16")

  /** int(s, 16): surrounding whitespace is stripped, then an optional sign, an optional 0x or 0X
      prefix, and a run of hex digits with single underscores between them. */
  function ParseHex(s: string): (r: Result<int>)
    ensures r.Err? ==> r.error == InvalidHex
  {
    ParseSigned(StripRight(StripLeft(s)))
  }

  /** A bare run of hex digits is read as its value. */
  lemma ParsePlainHex(s: string)
    requires |s| > 0 && IsHexString(s)
    ensures ParseHex(s) == Ok(HexNat(s))
  {
    PlainSigned(s);
  }

  /** A stripped literal: an optional sign in front of the unsigned part. */
  function ParseSigned(t: string): (r: Result<int>)
    ensures r.Err? ==> r.error == InvalidHex
  {
    var neg := |t| > 0 && t[0] == '-';
    var u := if |t| > 0 && (t[0] == '+' || t[0] == '-') then t[1..] else t;
    match ParseUnsigned(u)
    case Ok(v) => Ok(if neg then -(v as int) else v)
    case Err(e) => Err(e)
  }

  /** An optional 0x or 0X prefix, then the digit run. */
  function ParseUnsigned(u: string): (r: Result<nat>)
    ensures r.Err? ==> r.error == InvalidHex
  {
    var prefixed := |u| >= 2 && u[0] == '0' && (u[1] == 'x' || u[1] == 'X');
    var d := if prefixed then u[2..] else u;
    if HexRun(d, prefixed) then Ok(HexNat(d)) else Err(InvalidHex)
  }

  lemma DigitNotSpace(ch: char)
    requires HexValue(ch).Some? || ch == '+' || ch == '-'
    ensures !IsSpace(ch)
  {
  }

  /** A plain run of hex digits is read without sign or prefix. */
  lemma PlainSigned(h: string)
    requires |h| > 0 && IsHexString(h)
    ensures StripRight(StripLeft(h)) == h
    ensures ParseSigned(h) == Ok(HexNat(h))
  {
    DigitNotSpace(h[0]);
    DigitNotSpace(h[|h| - 1]);
    NothingToStrip(h);
    PlainUnsigned(h);
    assert h[0] != '+' && h[0] != '-' by {
      assert HexValue(h[0]).Some?;
    }
    UnsignedOf(h, HexNat(h));
  }

  lemma NothingToStrip(x: string)
    requires |x| > 0 && !IsSpace(x[0]) && !IsSpace(x[|x| - 1])
    ensures StripRight(StripLeft(x)) == x
  {
    assert StripLeft(x) == x;
  }

  /** Without a sign the literal is read as its unsigned part. */
  lemma UnsignedOf(u: string, v: nat)
    requires |u| > 0 && u[0] != '+' && u[0] != '-'
    requires ParseUnsigned(u) == Ok(v)
    ensures ParseSigned(u) == Ok(v)
  {
  }

  lemma PlainUnsigned(h: string)
    requires |h| > 0 && IsHexString(h)
    ensures ParseUnsigned(h) == Ok(HexNat(h))
  {
    PlainRun(h);
    NotPrefixed(h);
    RunValue(h);
  }

  lemma NotPrefixed(h: string)
    requires |h| > 0 && IsHexString(h)
    ensures !(|h| >= 2 && h[0] == '0' && (h[1] == 'x' || h[1] == 'X'))
  {
    if |h| >= 2 {
      assert HexValue(h[1]).Some?;
    }
  }

  /** A digit run without a prefix is read as its value. */
  lemma RunValue(d: string)
    requires HexRun(d, false)
    requires !(|d| >= 2 && d[0] == '0' && (d[1] == 'x' || d[1] == 'X'))
    ensures ParseUnsigned(d) == Ok(HexNat(d))
  {
  }

  /** A plain run of hex digits is a well-formed digit run. */
  lemma PlainRun(h: string)
    requires |h| > 0 && IsHexString(h)
    ensures HexRun(h, false)
  {
    DigitsNoDoubleUnderscore(h);
    assert HexValue(h[0]).Some? && HexValue(h[|h| - 1]).Some?;
  }

  lemma {:induction false} DigitsNoDoubleUnderscore(h: string)
    requires IsHexString(h)
    ensures NoDoubleUnderscore(h)
    decreases |h|
  {
    if |h| >= 2 {
      assert HexValue(h[0]).Some?;
      DigitsNoDoubleUnderscore(h[1..]);
    }
  }

  lemma {:induction false} StripLeftOf(lead: string, x: string)
    requires AllSpace(lead)
    requires |x| > 0 && !IsSpace(x[0])
    ensures StripLeft(lead + x) == x
    decreases |lead|
  {
    if lead != [] {
      assert (lead + x)[1..] == lead[1..] + x;
      StripLeftOf(lead[1..], x);
    }
  }

  lemma {:induction false} StripRightOf(x: string, trail: string)
    requires AllSpace(trail)
    requires |x| > 0 && !IsSpace(x[|x| - 1])
    ensures StripRight(x + trail) == x
    decreases |trail|
  {
    if trail != [] {
      var t := trail[..|trail| - 1];
      assert (x + trail)[..|x + trail| - 1] == x + t;
      StripRightOf(x, t);
    }
  }

  /** Whitespace around a literal is stripped away. */
  lemma StripAround(lead: string, x: string, trail: string)
    requires AllSpace(lead) && AllSpace(trail)
    requires |x| > 0 && !IsSpace(x[0]) && !IsSpace(x[|x| - 1])
    ensures ParseHex(lead + x + trail) == ParseSigned(x)
  {
    StripRightOf(x, trail);
    StripLeftOf(lead, x + trail);
    assert lead + x + trail == lead + (x + trail);
  }

  /** A 0x or 0X prefix in front of a run of hex digits is accepted. */
  lemma PrefixedUnsigned(prefix: string, h: string)
    requires PrefixPart(prefix)
    requires |h| > 0 && IsHexString(h)
    ensures ParseUnsigned(prefix + h) == Ok(HexNat(h))
  {
    PlainUnsigned(h);
    var u := prefix + h;
    if |prefix| == 0 {
      assert u == h;
    } else {
      assert u[0] == '0' && (u[1] == 'x' || u[1] == 'X');
      assert u[2..] == h;
      assert HexRun(h, true);
    }
  }

  /** A run of whitespace as str.isspace() sees it. */
  predicate AllSpace(s: string)
  {
    forall i :: 0 <= i < |s| ==> IsSpace(s[i])
  }

  /** No sign, or one '+' or '-'. */
  predicate SignPart(sign: string)
  {
    |sign| <= 1 && (|sign| == 1 ==> sign[0] == '+' || sign[0] == '-')
  }

  /** No prefix, or "0x" or "0X". */
  predicate PrefixPart(prefix: string)
  {
    |prefix| == 0 || (|prefix| == 2 && prefix[0] == '0' && (prefix[1] == 'x' || prefix[1] == 'X'))
  }

  /** int(s, 16) accepts the forms Python writes: surrounding whitespace, a sign and a 0x or 0X
      prefix around a run of hex digits, and it reads the run's value with the sign applied. */
  lemma ParseHexForms(lead: string, sign: string, prefix: string, h: string, trail: string, v: nat)
    requires AllSpace(lead) && AllSpace(trail) && SignPart(sign) && PrefixPart(prefix)
    requires |h| > 0 && IsHexString(h) && v == HexNat(h)
    ensures ParseHex(lead + sign + prefix + h + trail) == Ok(if sign == ['-'] then -(v as int) else v)
  {
    var u := prefix + h;
    var x := sign + u;
    Associate(lead, sign, prefix, h, trail);
    EndsNotSpace(sign, prefix, h);
    StripAround(lead, x, trail);
    PrefixedUnsigned(prefix, h);
    UnsignedFirst(prefix, h);
    SignedOf(sign, u, v);
  }

  lemma Associate(lead: string, sign: string, prefix: string, h: string, trail: string)
    ensures lead + sign + prefix + h + trail == lead + (sign + (prefix + h)) + trail
  {
  }

  lemma EndsNotSpace(sign: string, prefix: string, h: string)
    requires SignPart(sign) && PrefixPart(prefix)
    requires |h| > 0 && IsHexString(h)
    ensures var x := sign + (prefix + h); !IsSpace(x[0]) && !IsSpace(x[|x| - 1])
  {
    var x := sign + (prefix + h);
    assert x[|x| - 1] == h[|h| - 1];
    DigitNotSpace(h[|h| - 1]);
    if |sign| == 1 {
      assert x[0] == sign[0];
    } else if |prefix| == 2 {
      assert x[0] == prefix[0];
    } else {
      assert x[0] == h[0];
      DigitNotSpace(h[0]);
    }
  }

  /** A sign in front of an unsigned literal negates it or leaves it. */
  lemma SignedOf(sign: string, u: string, v: nat)
    requires SignPart(sign)
    requires |u| > 0 && u[0] != '+' && u[0] != '-'
    requires ParseUnsigned(u) == Ok(v)
    ensures ParseSigned(sign + u) == Ok(if sign == ['-'] then -(v as int) else v)
  {
    if |sign| == 1 {
      assert sign == [sign[0]];
      assert (sign + u)[0] == sign[0];
      assert (sign + u)[1..] == u;
    } else {
      assert sign + u == u;
    }
  }

  lemma UnsignedFirst(prefix: string, h: string)
    requires PrefixPart(prefix)
    requires |h| > 0 && IsHexString(h)
    ensures |prefix + h| > 0 && (prefix + h)[0] != '+' && (prefix + h)[0] != '-'
  {
    if |prefix| == 0 {
      assert (prefix + h)[0] == h[0];
      assert HexValue(h[0]).Some?;
    } else {
      assert (prefix + h)[0] == prefix[0];
    }
  }

  /** Underscores between digits are accepted and carry no value. */
  lemma UnderscoreBetweenDigits()
    ensures ParseUnsigned("1_f") == Ok(31)
    ensures ParseUnsigned("0x_1f") == Ok(31)
  {
    assert HexNat("1_f"[..2]) == 1 by {
      assert "1_f"[..2][..1] == "1";
      assert HexNat("1"[..0]) == 0;
    }
    assert "0x_1f"[2..] == "_1f";
    assert "_1f"[..2] == "_1" && "_1"[..1] == "_" && "_"[..0] == [];
    assert HexRun("_1f", true);
  }

  /** A doubled, trailing or unprefixed leading underscore is refused, and so is a blank string. */
  lemma UnderscoreMisplaced()
    ensures ParseUnsigned("1__f").Err? && ParseUnsigned("1f_").Err? && ParseUnsigned("_1f").Err?
    ensures ParseHex(" ").Err? && ParseHex("").Err?
  {
    var d := "1__f";
    assert d[1] == '_' && d[2] == '_';
    assert StripLeft(" ") == [];
  }

  /** '{:08x}'.format(n): at least eight hex digits, zero padded; a minus sign counts toward the width. */
  function FormatHex08(n: int): (s: string)
  {
    if n >= 0 then
      var h := ToHex(n);
      (if |h| < 8 then seq(8 - |h|, _ => '0') else []) + h
    else
      var h := ToHex(-n);
      "-" + (if |h| < 7 then seq(7 - |h|, _ => '0') else []) + h
  }

  lemma {:induction false} ToHexIsHex(n: nat)
    ensures IsHexString(ToHex(n))
    ensures IsLowerHex(ToHex(n))
    ensures HexNat(ToHex(n)) == n
    decreases n
  {
    if n >= 16 {
      ToHexIsHex(n / 16);
      var s := ToHex(n);
      assert s[..|s| - 1] == ToHex(n / 16);
      HexValueOfDigit(n % 16);
    } else {
      HexValueOfDigit(n);
    }
  }

  lemma {:induction false} ToHexLength(n: nat, k: nat)
    requires n < Pow16(k) && k >= 1
    ensures |ToHex(n)| <= k
    decreases k
  {
    if n >= 16 {
      assert Pow16(1) == 16;
      ToHexLength(n / 16, k - 1);
    }
  }

  function Pow16(k: nat): nat
  {
    if k == 0 then 1 else 16 * Pow16(k - 1)
  }

  lemma {:induction false} LeadingZeros(z: nat, s: string)
    requires IsHexString(s)
    ensures IsHexString(seq(z, _ => '0') + s)
    ensures HexNat(seq(z, _ => '0') + s) == HexNat(s)
    decreases |s|
  {
    var t := seq(z, _ => '0') + s;
    if s == [] {
      assert t == seq(z, _ => '0');
      AllZeros(z);
    } else {
      assert t[..|t| - 1] == seq(z, _ => '0') + s[..|s| - 1];
      LeadingZeros(z, s[..|s| - 1]);
    }
  }

  lemma {:induction false} AllZeros(z: nat)
    ensures IsHexString(seq(z, _ => '0'))
    ensures HexNat(seq(z, _ => '0')) == 0
    decreases z
  {
    if z > 0 {
      var t := seq(z, _ => '0');
      assert t[..z - 1] == seq(z - 1, _ => '0');
      AllZeros(z - 1);
    }
  }

  /** The crc string EncFile reports: exactly eight lower-case hex digits that int(_, 16) reads back. */
  lemma FormatHex08RoundTrip(v: u32)
    ensures |FormatHex08(v as int)| == 8
    ensures IsLowerHex(FormatHex08(v as int))
    ensures ParseHex(FormatHex08(v as int)) == Ok(v as int)
  {
    var h := ToHex(v as nat);
    assert Pow16(8) == 0x1_0000_0000;
    ToHexLength(v as nat, 8);
    ToHexIsHex(v as nat);
    var z := if |h| < 8 then 8 - |h| else 0;
    assert FormatHex08(v as int) == seq(z, _ => '0') + h;
    LeadingZeros(z, h);
    ParsePlainHex(seq(z, _ => '0') + h);
  }
}
