/**
 * game_backuper/leveldb.py: the keys of a LevelDB store (a browser's local storage) that
 * belong to a list of domains, sorted. The store is its sequence of keys.
 */
module Leveldb {
  import opened Wrappers
  import opened Crypto

  /** b'VERSION' */
  const VersionKey: seq<byte> := [0x56, 0x45, 0x52, 0x53, 0x49, 0x4F, 0x4E]
  /** b'META:' */
  const MetaPrefix: seq<byte> := [0x4D, 0x45, 0x54, 0x41, 0x3A]
  /** b'_' */
  const Underscore: byte := 0x5F
  /** b'\x00\x01', between the domain and the rest of a '_' key */
  const Separator: seq<byte> := [0x00, 0x01]

  /** pat occurs in s at index j. */
  predicate OccursAt(s: seq<byte>, pat: seq<byte>, j: nat)
  {
    j + |pat| <= |s| && s[j..j + |pat|] == pat
  }

  lemma OccursShift(s: seq<byte>, pat: seq<byte>, j: nat)
    requires |s| > 0
    ensures OccursAt(s[1..], pat, j) <==> OccursAt(s, pat, j + 1)
  {
    if j + 1 + |pat| <= |s| {
      assert s[1..][j..j + |pat|] == s[j + 1..j + 1 + |pat|];
    }
  }

  /** bytes.find(pat): the first index where pat occurs, -1 when it does not. */
  function Find(s: seq<byte>, pat: seq<byte>): (r: int)
    ensures r >= -1
    ensures r >= 0 ==> OccursAt(s, pat, r) && forall j: nat :: j < r ==> !OccursAt(s, pat, j)
    ensures r == -1 ==> forall j: nat :: !OccursAt(s, pat, j)
  {
    if |s| < |pat| then -1
    else if s[..|pat|] == pat then
      assert OccursAt(s, pat, 0);
      0
    else
      var f := Find(s[1..], pat);
      assert forall j: nat :: OccursAt(s[1..], pat, j) <==> OccursAt(s, pat, j + 1) by {
        forall j: nat
          ensures OccursAt(s[1..], pat, j) <==> OccursAt(s, pat, j + 1)
        {
          OccursShift(s, pat, j);
        }
      }
      assert !OccursAt(s, pat, 0);
      if f == -1 then
        assert forall j: nat :: !OccursAt(s, pat, j) by {
          forall j: nat
            ensures !OccursAt(s, pat, j)
          {
            if j > 0 {
              assert !OccursAt(s[1..], pat, j - 1);
            }
          }
        }
        -1
      else
        assert forall j: nat :: j < f + 1 ==> !OccursAt(s, pat, j) by {
          forall j: nat | j < f + 1
            ensures !OccursAt(s, pat, j)
          {
            if j > 0 {
              assert !OccursAt(s[1..], pat, j - 1);
            }
          }
        }
        f + 1
  }

  /** A Python slice bound: negative counts from the end, then clipped to 0..n. */
  function Bound(i: int, n: nat): (b: nat)
    ensures b <= n
  {
    if i < 0 then (if i + n < 0 then 0 else i + n) else if i > n then n else i
  }

  /** s[lo:hi] */
  function Slice(s: seq<byte>, lo: int, hi: int): seq<byte>
  {
    var a, b := Bound(lo, |s|), Bound(hi, |s|);
    if a >= b then [] else s[a..b]
  }

  /** The domain of a '_' key: key[1:key.find(b'\x00\x01')]. With no separator find gives -1,
      so the last byte is cut off instead. */
  function DomainOf(k: seq<byte>): (d: seq<byte>)
    requires |k| > 0 && k[0] == Underscore
    ensures Find(k, Separator) == -1 ==> d == if |k| >= 2 then k[1..|k| - 1] else []
    ensures Find(k, Separator) >= 0 ==>
      1 <= Find(k, Separator) <= |k| && d == k[1..Find(k, Separator)]
  {
    var i := Find(k, Separator);
    Slice(k, 1, i)
  }

  predicate StartsWith(k: seq<byte>, p: seq<byte>)
  {
    |p| <= |k| && k[..|p|] == p
  }

  /** Whether list_leveldb_entries returns key k. */
  predicate Kept(dms: Option<seq<seq<byte>>>, k: seq<byte>)
  {
    match dms
    case None => true
    case Some(ds) =>
      if k == VersionKey then true
      else if StartsWith(k, MetaPrefix) then k[5..] in ds
      else if |k| > 0 && k[0] == Underscore then DomainOf(k) in ds
      else false
  }

  /** The keys that keep accepts, in store order. */
  function Filter(keys: seq<seq<byte>>, keep: seq<byte> -> bool): seq<seq<byte>>
  {
    if keys == [] then []
    else
      var k := keys[|keys| - 1];
      Filter(keys[..|keys| - 1], keep) + (if keep(k) then [k] else [])
  }

  lemma {:induction false} FilterMembers(keys: seq<seq<byte>>, keep: seq<byte> -> bool)
    ensures forall x :: x in Filter(keys, keep) <==> x in keys && keep(x)
  {
    if keys != [] {
      var front, last := keys[..|keys| - 1], keys[|keys| - 1];
      FilterMembers(front, keep);
      assert keys == front + [last];
    }
  }

  lemma {:induction false} FilterSubset(keys: seq<seq<byte>>, keep: seq<byte> -> bool)
    ensures multiset(Filter(keys, keep)) <= multiset(keys)
  {
    if keys != [] {
      var front, last := keys[..|keys| - 1], keys[|keys| - 1];
      FilterSubset(front, keep);
      assert keys == front + [last];
      assert multiset(keys) == multiset(front) + multiset{last};
    }
  }

  lemma {:induction false} FilterAll(keys: seq<seq<byte>>, keep: seq<byte> -> bool)
    requires forall x :: x in keys ==> keep(x)
    ensures Filter(keys, keep) == keys
  {
    if keys != [] {
      var front, last := keys[..|keys| - 1], keys[|keys| - 1];
      assert keys == front + [last];
      FilterAll(front, keep);
    }
  }

  /** The kept keys in store order. */
  function KeptKeys(keys: seq<seq<byte>>, dms: Option<seq<seq<byte>>>): seq<seq<byte>>
  {
    Filter(keys, k => Kept(dms, k))
  }

  lemma KeptKeysMembers(keys: seq<seq<byte>>, dms: Option<seq<seq<byte>>>)
    ensures forall x :: x in KeptKeys(keys, dms) <==> x in keys && Kept(dms, x)
    ensures multiset(KeptKeys(keys, dms)) <= multiset(keys)
    ensures dms.None? ==> KeptKeys(keys, dms) == keys
  {
    FilterMembers(keys, k => Kept(dms, k));
    FilterSubset(keys, k => Kept(dms, k));
    if dms.None? {
      FilterAll(keys, k => Kept(dms, k));
    }
  }

  /** Bytewise order of Python bytes: lexicographic, a proper prefix first. */
  predicate ByteLe(a: seq<byte>, b: seq<byte>)
  {
    |a| == 0 || (|b| > 0 && (a[0] < b[0] || (a[0] == b[0] && ByteLe(a[1..], b[1..]))))
  }

  lemma {:induction false} ByteLeTotal(a: seq<byte>, b: seq<byte>)
    ensures ByteLe(a, b) || ByteLe(b, a)
  {
    if |a| > 0 && |b| > 0 && a[0] == b[0] {
      ByteLeTotal(a[1..], b[1..]);
    }
  }

  lemma {:induction false} ByteLeTrans(a: seq<byte>, b: seq<byte>, c: seq<byte>)
    requires ByteLe(a, b) && ByteLe(b, c)
    ensures ByteLe(a, c)
  {
    if |a| > 0 && a[0] == b[0] && b[0] == c[0] {
      ByteLeTrans(a[1..], b[1..], c[1..]);
    }
  }

  predicate Sorted(s: seq<seq<byte>>)
  {
    forall i, j :: 0 <= i < j < |s| ==> ByteLe(s[i], s[j])
  }

  /** x inserted into a sorted list. */
  function Insert(x: seq<byte>, s: seq<seq<byte>>): (r: seq<seq<byte>>)
    requires Sorted(s)
    ensures Sorted(r)
    ensures multiset(r) == multiset(s) + multiset{x}
  {
    if s == [] then [x]
    else if ByteLe(x, s[0]) then
      assert forall j :: 0 <= j < |s| ==> ByteLe(x, s[j]) by {
        forall j | 0 <= j < |s|
          ensures ByteLe(x, s[j])
        {
          if j > 0 {
            ByteLeTrans(x, s[0], s[j]);
          }
        }
      }
      [x] + s
    else
      var t := Insert(x, s[1..]);
      assert s == [s[0]] + s[1..];
      assert forall j :: 0 <= j < |t| ==> ByteLe(s[0], t[j]) by {
        forall j | 0 <= j < |t|
          ensures ByteLe(s[0], t[j])
        {
          assert t[j] in multiset(t);
          if t[j] == x {
            ByteLeTotal(x, s[0]);
          } else {
            assert t[j] in multiset(s[1..]);
            var i :| 0 <= i < |s[1..]| && s[1..][i] == t[j];
            assert s[i + 1] == t[j];
          }
        }
      }
      [s[0]] + t
  }

  /** list.sort() on the gathered keys. */
  function SortKeys(s: seq<seq<byte>>): (r: seq<seq<byte>>)
    ensures Sorted(r)
    ensures multiset(r) == multiset(s)
  {
    if s == [] then []
    else
      assert s == [s[0]] + s[1..];
      Insert(s[0], SortKeys(s[1..]))
  }

  /** The iteration of list_leveldb_entries: the kept keys, appended in store order. */
  method GatherKeys(keys: seq<seq<byte>>, dms: Option<seq<seq<byte>>>) returns (r: seq<seq<byte>>)
    ensures r == KeptKeys(keys, dms)
  {
    r := [];
    var k := 0;
    while k < |keys|
      invariant 0 <= k <= |keys|
      invariant r == KeptKeys(keys[..k], dms)
      decreases |keys| - k
    {
      assert keys[..k + 1][..k] == keys[..k];
      if Kept(dms, keys[k]) {
        r := r + [keys[k]];
      }
      k := k + 1;
    }
    assert keys[..k] == keys;
  }

  /** list_leveldb_entries(db, dms): sorted, drawn from the store's keys, every key when no
      domain list is given, and with a list b'VERSION' whenever the store has it. */
  method ListEntries(keys: seq<seq<byte>>, dms: Option<seq<seq<byte>>>) returns (r: seq<seq<byte>>)
    ensures Sorted(r)
    ensures multiset(r) == multiset(KeptKeys(keys, dms))
    ensures multiset(r) <= multiset(keys)
    ensures forall x :: x in r <==> x in keys && Kept(dms, x)
    ensures dms.None? ==> multiset(r) == multiset(keys)
    ensures VersionKey in keys ==> VersionKey in r
  {
    r := GatherKeys(keys, dms);
    KeptKeysMembers(keys, dms);
    r := SortKeys(r);
    assert forall x :: x in r <==> x in multiset(r);
  }
}
