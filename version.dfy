/**
 * version.py: normalize, which turns a `git describe` string such as "1.2-5-gabc" into a
 * dotted numeric version ("1.2.0.5").
 */
module Version {
  import opened Strings

  /** [int(i) for i in pieces if i.isnumeric()] */
  function NumbersOf(pieces: seq<string>): (r: seq<nat>)
    ensures |r| <= |pieces|
  {
    if pieces == [] then []
    else (if IsNumeric(pieces[0]) then [ParseDecimal(pieces[0])] else []) + NumbersOf(pieces[1..])
  }

  /** [str(i) for i in nv] */
  function Numerals(nv: seq<nat>): (r: seq<string>)
    ensures |r| == |nv|
  {
    seq(|nv|, i requires 0 <= i < |nv| => Decimal(nv[i]))
  }

  function Zeros(k: nat): seq<nat>
  {
    seq(k, _ => 0)
  }

  /** The numbers normalize joins, by the three cases of its second '-' piece: absent or not
      numeric (the dot-parts unchanged), numeric with four or more dot-parts (added to the
      last one), numeric with fewer (padded with zeros to three, then appended). */
  function Parts(s: string): seq<nat>
  {
    var li := Split(s, '-');
    var nv := NumbersOf(Split(li[0], '.'));
    if |li| == 1 || !IsNumeric(li[1]) then nv
    else if |nv| >= 4 then nv[..|nv| - 1] + [nv[|nv| - 1] + ParseDecimal(li[1])]
    else nv + Zeros(3 - |nv|) + [ParseDecimal(li[1])]
  }

  /** normalize(s) */
  method Normalize(s: string) returns (r: string)
    ensures r == Join(Numerals(Parts(s)), '.')
  {
    var li := Split(s, '-');
    var nv := NumbersOf(Split(li[0], '.'));
    if |li| == 1 {
      return Join(Numerals(nv), '.');
    }
    if IsNumeric(li[1]) {
      if |nv| >= 4 {
        assert nv[|nv| - 1 := nv[|nv| - 1] + ParseDecimal(li[1])]
          == nv[..|nv| - 1] + [nv[|nv| - 1] + ParseDecimal(li[1])];
        nv := nv[|nv| - 1 := nv[|nv| - 1] + ParseDecimal(li[1])];
      } else {
        ghost var nv0 := nv;
        while |nv| <= 2
          invariant |nv0| <= |nv| <= 3
          invariant nv == nv0 + Zeros(|nv| - |nv0|)
          decreases 3 - |nv|
        {
          nv := nv + [0];
        }
        nv := nv + [ParseDecimal(li[1])];
      }
    }
    r := Join(Numerals(nv), '.');
  }

  /** The three shapes of the result: with a numeric second piece n and at least four numbers
      the count stays and the last grows by n; with fewer there are exactly four, the numbers
      first, zeros up to the third, n last; otherwise the numbers are kept as they are. */
  lemma Shape(s: string)
    ensures var li := Split(s, '-');
      var nv := NumbersOf(Split(li[0], '.'));
      && (|li| == 1 || !IsNumeric(li[1]) ==> Parts(s) == nv)
      && (|li| > 1 && IsNumeric(li[1]) && |nv| >= 4 ==>
            && |Parts(s)| == |nv|
            && (forall i :: 0 <= i < |nv| - 1 ==> Parts(s)[i] == nv[i])
            && Parts(s)[|nv| - 1] == nv[|nv| - 1] + ParseDecimal(li[1]))
      && (|li| > 1 && IsNumeric(li[1]) && |nv| < 4 ==>
            && |Parts(s)| == 4
            && (forall i :: 0 <= i < |nv| ==> Parts(s)[i] == nv[i])
            && (forall i :: |nv| <= i < 3 ==> Parts(s)[i] == 0)
            && Parts(s)[3] == ParseDecimal(li[1]))
  {
  }

  /** The string normalize returns. */
  function Normalized(s: string): string
  {
    Join(Numerals(Parts(s)), '.')
  }

  lemma {:induction false} NumbersOfNumerals(nv: seq<nat>)
    ensures NumbersOf(Numerals(nv)) == nv
  {
    if nv != [] {
      assert Numerals(nv)[1..] == Numerals(nv[1..]);
      DecimalRoundTrip(nv[0]);
      NumbersOfNumerals(nv[1..]);
      assert nv == [nv[0]] + nv[1..];
    }
  }

  lemma NumeralsNoChar(nv: seq<nat>, c: char)
    requires !IsDigit(c)
    ensures forall k :: 0 <= k < |nv| ==> c !in Numerals(nv)[k]
  {
    forall k | 0 <= k < |nv|
      ensures c !in Numerals(nv)[k]
    {
      var d := Decimal(nv[k]);
      assert forall i :: 0 <= i < |d| ==> d[i] != c;
    }
  }

  /** The output reads back: its numeric dot-parts are exactly the numbers it was made of. */
  lemma ReadBack(s: string)
    ensures NumbersOf(Split(Normalized(s), '.')) == Parts(s)
  {
    var nv := Parts(s);
    if nv == [] {
      assert Normalized(s) == "";
      assert Split("", '.') == [""];
    } else {
      NumeralsNoChar(nv, '.');
      SplitJoin(Numerals(nv), '.');
      NumbersOfNumerals(nv);
    }
  }

  /** Without a '-', normalize keeps the numeric dot-parts of s. */
  lemma NoDash(s: string)
    requires '-' !in s
    ensures Parts(s) == NumbersOf(Split(s, '.'))
  {
    SplitPrefix(s, "", '-');
    assert s + "" == s;
  }

  /** normalize is idempotent: its output has no '-' and reads back as the same numbers. */
  lemma Idempotent(s: string)
    ensures Normalized(Normalized(s)) == Normalized(s)
  {
    var o := Normalized(s);
    NumeralsNoChar(Parts(s), '-');
    JoinFree(Numerals(Parts(s)), '.', '-');
    NoDash(o);
    ReadBack(s);
  }

  /** The output is empty exactly when there is no number to join. */
  lemma EmptyIff(s: string)
    ensures Normalized(s) == "" <==> Parts(s) == []
  {
    assert NumbersOf(Split("", '.')) == [];
    ReadBack(s);
  }
}
