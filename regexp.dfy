/**
 * game_backuper/regexp.py: shell wildcards turned into a regular expression, and the Regex
 * wrapper that picks the pcre2 engine or Python's re. Both engines are parameters.
 */
module Regexp {
  import opened Wrappers

  /** The characters wildcards_to_regex escapes, in the order it escapes them. */
  const Specials: seq<char> := ['\\', '$', '(', ')', '+', '.', '[', '^', '{', '|']

  /** s.replace(c, t) for a one-character c. */
  function ReplaceChar(s: string, c: char, t: string): string
  {
    if s == [] then [] else (if s[0] == c then t else [s[0]]) + ReplaceChar(s[1..], c, t)
  }

  /** The escaping loop after the first k specials: each replaced by backslash and itself. */
  function EscapeAll(s: string, cs: seq<char>): string
  {
    if cs == [] then s
    else
      var c := cs[|cs| - 1];
      ReplaceChar(EscapeAll(s, cs[..|cs| - 1]), c, ['\\', c])
  }

  /** The whole replace chain of wildcards_to_regex. */
  function Chain(s: string): string
  {
    ReplaceChar(ReplaceChar(EscapeAll(s, Specials), '*', ".*"), '?', ".")
  }

  /** What a single wildcard character stands for in the regular expression. */
  function TranslateChar(c: char): string
  {
    if c in Specials then ['\\', c]
    else if c == '*' then ".*"
    else if c == '?' then "."
    else [c]
  }

  /** The per-character reading of a wildcard pattern. */
  function Translate(s: string): string
  {
    if s == [] then [] else TranslateChar(s[0]) + Translate(s[1..])
  }

  /** How many characters of s are in cs. */
  function Count(s: string, cs: set<char>): nat
  {
    if s == [] then 0 else (if s[0] in cs then 1 else 0) + Count(s[1..], cs)
  }

  lemma {:induction false} ReplaceAppend(a: string, b: string, c: char, t: string)
    ensures ReplaceChar(a + b, c, t) == ReplaceChar(a, c, t) + ReplaceChar(b, c, t)
  {
    if a != [] {
      assert (a + b)[1..] == a[1..] + b;
      ReplaceAppend(a[1..], b, c, t);
    } else {
      assert a + b == b;
    }
  }

  lemma {:induction false} EscapeAllAppend(a: string, b: string, cs: seq<char>)
    ensures EscapeAll(a + b, cs) == EscapeAll(a, cs) + EscapeAll(b, cs)
  {
    if cs != [] {
      var c := cs[|cs| - 1];
      EscapeAllAppend(a, b, cs[..|cs| - 1]);
      ReplaceAppend(EscapeAll(a, cs[..|cs| - 1]), EscapeAll(b, cs[..|cs| - 1]), c, ['\\', c]);
    }
  }

  lemma ReplaceOne(c: char, d: char, t: string)
    ensures ReplaceChar([c], d, t) == if c == d then t else [c]
  {
    assert [c][1..] == [];
  }

  lemma ReplacePair(b: char, c: char, d: char, t: string)
    requires b != d && c != d
    ensures ReplaceChar([b, c], d, t) == [b, c]
  {
    assert [b, c] == [b] + [c];
    ReplaceAppend([b], [c], d, t);
    ReplaceOne(b, d, t);
    ReplaceOne(c, d, t);
  }

  /** With distinct characters, a backslash among them only first, one character is
      escaped exactly when it is one of them. */
  lemma {:induction false} EscapeAllChar(c: char, cs: seq<char>)
    requires forall i, j :: 0 <= i < j < |cs| ==> cs[i] != cs[j]
    requires forall i :: 0 < i < |cs| ==> cs[i] != '\\'
    ensures EscapeAll([c], cs) == if c in cs then ['\\', c] else [c]
  {
    if cs != [] {
      var d := cs[|cs| - 1];
      var front := cs[..|cs| - 1];
      EscapeAllChar(c, front);
      assert c in cs <==> c in front || c == d;
      if c in front {
        var i :| 0 <= i < |front| && front[i] == c;
        assert cs[i] == c;
        ReplacePair('\\', c, d, ['\\', d]);
      } else {
        ReplaceOne(c, d, ['\\', d]);
      }
    }
  }

  lemma ChainAppend(a: string, b: string)
    ensures Chain(a + b) == Chain(a) + Chain(b)
  {
    EscapeAllAppend(a, b, Specials);
    ReplaceAppend(EscapeAll(a, Specials), EscapeAll(b, Specials), '*', ".*");
    ReplaceAppend(ReplaceChar(EscapeAll(a, Specials), '*', ".*"),
                  ReplaceChar(EscapeAll(b, Specials), '*', ".*"), '?', ".");
  }

  lemma ChainChar(c: char)
    ensures Chain([c]) == TranslateChar(c)
  {
    EscapeAllChar(c, Specials);
    if c in Specials {
      ReplacePair('\\', c, '*', ".*");
      ReplacePair('\\', c, '?', ".");
    } else if c == '*' {
      ReplaceOne(c, '*', ".*");
      ReplacePair('.', '*', '?', ".");
    } else {
      ReplaceOne(c, '*', ".*");
      ReplaceOne(c, '?', ".");
    }
  }

  /** Because the backslash is escaped first, the replace chain is the per-character map. */
  lemma {:induction false} ChainTranslates(s: string)
    ensures Chain(s) == Translate(s)
  {
    if s != [] {
      assert s == [s[0]] + s[1..];
      ChainAppend([s[0]], s[1..]);
      ChainChar(s[0]);
      ChainTranslates(s[1..]);
    } else {
      var empty: string := [];
      var e := EscapeAll(empty, Specials);
      assert empty + empty == empty;
      EscapeAllAppend(empty, empty, Specials);
      assert |e| == |e| + |e|;
    }
  }

  /** The translation distributes over concatenation. */
  lemma {:induction false} TranslateAppend(a: string, b: string)
    ensures Translate(a + b) == Translate(a) + Translate(b)
  {
    if a != [] {
      assert (a + b)[1..] == a[1..] + b;
      TranslateAppend(a[1..], b);
    } else {
      assert a + b == b;
    }
  }

  /** Each escaped character and each '*' adds one character; everything else keeps its length. */
  lemma {:induction false} TranslateLength(s: string)
    ensures |Translate(s)| == |s| + Count(s, set c | c in Specials) + Count(s, {'*'})
  {
    if s != [] {
      TranslateLength(s[1..]);
    }
  }

  /** wildcards_to_regex(s) up to the Regex call: the escaping loop, then '*' and '?'. */
  method WildcardsPattern(s0: string) returns (s: string)
    ensures s == Translate(s0)
  {
    s := s0;
    var k := 0;
    while k < |Specials|
      invariant 0 <= k <= |Specials|
      invariant s == EscapeAll(s0, Specials[..k])
      decreases |Specials| - k
    {
      assert Specials[..k + 1][..k] == Specials[..k];
      s := ReplaceChar(s, Specials[k], ['\\', Specials[k]]);
      k := k + 1;
    }
    assert Specials[..k] == Specials;
    s := ReplaceChar(s, '*', ".*");
    s := ReplaceChar(s, '?', ".");
    ChainTranslates(s0);
  }

  /** A compiled expression: its pattern and the engine it was compiled with. */
  datatype Regex = Regex(pattern: string, usePcre2: bool)

  /** RegexFlag.I */
  const IgnoreCase := 1

  /** Regex(r, flags, use_pcre2): pcre2 is used only when it is both asked for and available.
      The flags are read into a local option that neither engine receives. */
  function NewRegex(r: string, flags: int, usePcre2: bool, havePcre2: bool): (rx: Regex)
    ensures rx.pattern == r
    ensures rx.usePcre2 <==> havePcre2 && usePcre2
  {
    Regex(r, havePcre2 && usePcre2)
  }

  /** wildcards_to_regex(s, **k) */
  method WildcardsToRegex(s: string, flags: int, usePcre2: bool, havePcre2: bool) returns (rx: Regex)
    ensures rx.pattern == Translate(s)
    ensures rx.usePcre2 <==> havePcre2 && usePcre2
  {
    var p := WildcardsPattern(s);
    rx := NewRegex(p, flags, usePcre2, havePcre2);
  }

  /** Regex.match: an anchored match with the chosen engine. */
  function Match<M>(rx: Regex, s: string, startpos: int,
                    reMatch: (string, string, int) -> Option<M>,
                    pcreMatch: (string, string, int) -> Option<M>): (m: Option<M>)
    ensures rx.usePcre2 ==> m == pcreMatch(rx.pattern, s, startpos)
    ensures !rx.usePcre2 ==> m == reMatch(rx.pattern, s, startpos)
  {
    if rx.usePcre2 then pcreMatch(rx.pattern, s, startpos) else reMatch(rx.pattern, s, startpos)
  }

  /** Regex.match_only: with re, False exactly when the match is None; pcre2 answers itself. */
  function MatchOnly<M>(rx: Regex, s: string, startpos: int,
                        reMatch: (string, string, int) -> Option<M>,
                        pcreMatchOnly: (string, string, int) -> bool): (b: bool)
    ensures !rx.usePcre2 ==> (!b <==> reMatch(rx.pattern, s, startpos).None?)
    ensures rx.usePcre2 ==> b == pcreMatchOnly(rx.pattern, s, startpos)
  {
    if rx.usePcre2 then pcreMatchOnly(rx.pattern, s, startpos)
    else if reMatch(rx.pattern, s, startpos).None? then false else true
  }

  /** With re, match_only agrees with match. */
  lemma MatchOnlyAgrees<M>(rx: Regex, s: string, startpos: int,
                           reMatch: (string, string, int) -> Option<M>,
                           pcreMatch: (string, string, int) -> Option<M>,
                           pcreMatchOnly: (string, string, int) -> bool)
    requires !rx.usePcre2
    ensures MatchOnly(rx, s, startpos, reMatch, pcreMatchOnly) == Match(rx, s, startpos, reMatch, pcreMatch).Some?
  {
  }
}
