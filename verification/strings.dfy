/** String operations of the two host languages, written out so that their
    edge cases are explicit: Python's `str.split()` and `" ".join`, the
    JavaScript `trim`, `toLowerCase`, `endsWith` and `replace(/\/$/, '')`
    calls, and decimal rendering of a natural number. */
module Strings {

  /** Python's `str.isspace()` on one code point: the separators of `str.split()`. */
  predicate IsPySpace(c: char) {
    ('\t' <= c <= '\r') || ('\U{1c}' <= c <= '\U{1f}') || c == ' '
    || c == '\U{85}' || c == '\U{a0}' || c == '\U{1680}'
    || ('\U{2000}' <= c <= '\U{200a}') || c == '\U{2028}' || c == '\U{2029}'
    || c == '\U{202f}' || c == '\U{205f}' || c == '\U{3000}'
  }

  /** The characters JavaScript's `String.prototype.trim` removes:
      ECMAScript WhiteSpace and LineTerminator code points. */
  predicate IsJsSpace(c: char) {
    ('\t' <= c <= '\r') || c == ' ' || c == '\U{a0}' || c == '\U{1680}'
    || ('\U{2000}' <= c <= '\U{200a}') || c == '\U{2028}' || c == '\U{2029}'
    || c == '\U{202f}' || c == '\U{205f}' || c == '\U{3000}' || c == '\U{feff}'
  }

  /** A word as `str.split()` returns it: non-empty, no whitespace inside. */
  predicate IsWord(w: string) {
    |w| > 0 && forall c | c in w :: !IsPySpace(c)
  }

  // ---------------------------------------------------------------------------
  // Python str.split() and " ".join

  /** The longest prefix of `s` that holds no whitespace. */
  function WordPrefix(s: string): (w: string)
    ensures |w| <= |s|
  {
    if |s| == 0 || IsPySpace(s[0]) then [] else [s[0]] + WordPrefix(s[1..])
  }

  /** The word prefix is a prefix, holds no whitespace, and stops at the
      first whitespace character. */
  lemma {:induction false} WordPrefixFacts(s: string)
    ensures WordPrefix(s) <= s
    ensures forall c | c in WordPrefix(s) :: !IsPySpace(c)
    ensures |WordPrefix(s)| < |s| ==> IsPySpace(s[|WordPrefix(s)|])
    ensures |s| > 0 && !IsPySpace(s[0]) ==> |WordPrefix(s)| > 0
    decreases |s|
  {
    if |s| > 0 && !IsPySpace(s[0]) {
      WordPrefixFacts(s[1..]);
      var w := WordPrefix(s);
      var w' := WordPrefix(s[1..]);
      assert w == [s[0]] + w';
      assert forall c | c in w :: c == s[0] || c in w';
      assert |w| < |s| ==> s[|w|] == s[1..][|w'|];
    }
  }

  /** `s.split()`: the maximal runs of non-whitespace characters, in order. */
  function SplitWords(s: string): seq<string>
    decreases |s|
  {
    if |s| == 0 then []
    else if IsPySpace(s[0]) then SplitWords(s[1..])
    else
      var w := WordPrefix(s);
      [w] + SplitWords(s[|w|..])
  }

  /** Every piece `split()` returns is a word: non-empty, without whitespace. */
  lemma {:induction false} SplitWordsAreWords(s: string)
    ensures forall w | w in SplitWords(s) :: IsWord(w)
    decreases |s|
  {
    if |s| == 0 {
    } else if IsPySpace(s[0]) {
      SplitWordsAreWords(s[1..]);
    } else {
      var w := WordPrefix(s);
      WordPrefixFacts(s);
      SplitWordsAreWords(s[|w|..]);
      assert SplitWords(s) == [w] + SplitWords(s[|w|..]);
    }
  }

  /** `split()` finds no word exactly when `s` is whitespace only. */
  lemma {:induction false} SplitWordsEmpty(s: string)
    ensures SplitWords(s) == [] <==> forall i | 0 <= i < |s| :: IsPySpace(s[i])
    decreases |s|
  {
    if |s| > 0 && IsPySpace(s[0]) {
      SplitWordsEmpty(s[1..]);
      assert forall i | 1 <= i < |s| :: s[i] == s[1..][i - 1];
    }
  }

  /** `" ".join(ws)`: it starts with the first word and ends with the last. */
  function JoinWords(ws: seq<string>): string {
    if |ws| == 0 then ""
    else if |ws| == 1 then ws[0]
    else ws[0] + " " + JoinWords(ws[1..])
  }

  /** The words of `ws` written one after another. */
  function Flatten(ws: seq<string>): string {
    if |ws| == 0 then "" else ws[0] + Flatten(ws[1..])
  }

  /** `" ".join(ws)` is the words with exactly one separator character
      between neighbours. */
  lemma {:induction false} JoinWordsLength(ws: seq<string>)
    ensures |JoinWords(ws)| == |Flatten(ws)| + (if |ws| == 0 then 0 else |ws| - 1)
  {
    if |ws| > 1 {
      JoinWordsLength(ws[1..]);
    }
  }

  /** The characters of `s` that are not whitespace, in order. */
  function NonSpace(s: string): string {
    if |s| == 0 then ""
    else (if IsPySpace(s[0]) then "" else [s[0]]) + NonSpace(s[1..])
  }

  lemma {:induction false} NonSpaceAppend(a: string, b: string)
    ensures NonSpace(a + b) == NonSpace(a) + NonSpace(b)
    decreases |a|
  {
    if |a| == 0 {
      assert a + b == b;
    } else {
      assert (a + b)[0] == a[0];
      assert (a + b)[1..] == a[1..] + b;
      NonSpaceAppend(a[1..], b);
    }
  }

  lemma {:induction false} NonSpaceOfWord(w: string)
    requires forall c | c in w :: !IsPySpace(c)
    ensures NonSpace(w) == w
    decreases |w|
  {
    if |w| > 0 {
      assert w[0] in w;
      assert forall c | c in w[1..] :: c in w;
      NonSpaceOfWord(w[1..]);
      assert [w[0]] + w[1..] == w;
    }
  }

  /** A text that starts with a word splits into that word and the words of
      what follows it. */
  lemma SplitAtWord(s: string)
    requires |s| > 0 && !IsPySpace(s[0])
    ensures s == WordPrefix(s) + s[|WordPrefix(s)|..]
    ensures SplitWords(s) == [WordPrefix(s)] + SplitWords(s[|WordPrefix(s)|..])
  {
    WordPrefixFacts(s);
    assert WordPrefix(s) == s[..|WordPrefix(s)|];
  }

  lemma FlattenCons(w: string, ws: seq<string>)
    ensures Flatten([w] + ws) == w + Flatten(ws)
  {
    assert ([w] + ws)[1..] == ws;
  }

  /** The step of `SplitWordsContents` for a text that starts with a word. */
  lemma ContentsAtWord(s: string)
    requires |s| > 0 && !IsPySpace(s[0])
    requires Flatten(SplitWords(s[|WordPrefix(s)|..])) == NonSpace(s[|WordPrefix(s)|..])
    ensures Flatten(SplitWords(s)) == NonSpace(s)
  {
    var w := WordPrefix(s);
    var t := s[|w|..];
    WordPrefixFacts(s);
    calc {
      Flatten(SplitWords(s));
      == { SplitAtWord(s); }
      Flatten([w] + SplitWords(t));
      == { FlattenCons(w, SplitWords(t)); }
      w + NonSpace(t);
      == { NonSpaceOfWord(w); }
      NonSpace(w) + NonSpace(t);
      == { NonSpaceAppend(w, t); SplitAtWord(s); }
      NonSpace(s);
    }
  }

  /** The step of `SplitWordsContents` for a text that starts with whitespace. */
  lemma ContentsAtSpace(s: string)
    requires |s| > 0 && IsPySpace(s[0])
    requires Flatten(SplitWords(s[1..])) == NonSpace(s[1..])
    ensures Flatten(SplitWords(s)) == NonSpace(s)
  {
    SplitAtSpace(s);
    assert NonSpace(s) == "" + NonSpace(s[1..]);
  }

  /** `split()` loses only whitespace: its words, written one after another,
      are the non-whitespace characters of `s` in order. */
  lemma {:induction false} SplitWordsContents(s: string)
    ensures Flatten(SplitWords(s)) == NonSpace(s)
    decreases |s|
  {
    if |s| == 0 {
    } else if IsPySpace(s[0]) {
      SplitWordsContents(s[1..]);
      ContentsAtSpace(s);
    } else {
      SplitWordsContents(s[|WordPrefix(s)|..]);
      ContentsAtWord(s);
    }
  }

  lemma {:induction false} WordPrefixOfWord(w: string, t: string)
    requires forall c | c in w :: !IsPySpace(c)
    requires t == [] || IsPySpace(t[0])
    ensures WordPrefix(w + t) == w
    decreases |w|
  {
    if |w| == 0 {
      assert w + t == t;
    } else {
      assert (w + t)[0] == w[0];
      assert (w + t)[1..] == w[1..] + t;
      WordPrefixOfWord(w[1..], t);
    }
  }

  /** A word followed by whitespace or by nothing splits off as one word. */
  lemma SplitWordFirst(w: string, t: string)
    requires IsWord(w)
    requires t == [] || IsPySpace(t[0])
    ensures SplitWords(w + t) == [w] + SplitWords(t)
  {
    WordPrefixOfWord(w, t);
    assert (w + t)[0] == w[0];
    SplitAtWord(w + t);
    assert (w + t)[|w|..] == t;
  }

  /** Leading whitespace produces no word. */
  lemma SplitAtSpace(t: string)
    requires |t| > 0 && IsPySpace(t[0])
    ensures SplitWords(t) == SplitWords(t[1..])
  {
  }

  /** The step of `SplitJoin` for two or more words. */
  lemma JoinStep(ws: seq<string>)
    requires |ws| >= 2 && IsWord(ws[0])
    requires SplitWords(JoinWords(ws[1..])) == ws[1..]
    ensures SplitWords(JoinWords(ws)) == ws
  {
    var w := ws[0];
    var rest := JoinWords(ws[1..]);
    assert JoinWords(ws) == w + (" " + rest);
    SplitWordFirst(w, " " + rest);
    assert (" " + rest)[1..] == rest;
    SplitAtSpace(" " + rest);
    assert [w] + ws[1..] == ws;
  }

  /** Splitting the single-space join of words gives the words back: the
      text of a chunk re-splits into exactly the words it was built from. */
  lemma {:induction false} SplitJoin(ws: seq<string>)
    requires forall w | w in ws :: IsWord(w)
    ensures SplitWords(JoinWords(ws)) == ws
  {
    if |ws| == 1 {
      assert ws[0] in ws;
      SplitWordFirst(ws[0], []);
      assert ws[0] + [] == ws[0];
    } else if |ws| >= 2 {
      assert ws[0] in ws;
      assert forall v | v in ws[1..] :: v in ws;
      SplitJoin(ws[1..]);
      JoinStep(ws);
    }
  }

  /** The step of `JoinBlanks` for two or more words. */
  lemma JoinBlanksStep(ws: seq<string>)
    requires |ws| >= 2 && IsWord(ws[0])
    requires forall c | c in JoinWords(ws[1..]) && IsPySpace(c) :: c == ' '
    ensures forall c | c in JoinWords(ws) && IsPySpace(c) :: c == ' '
  {
    assert JoinWords(ws) == ws[0] + " " + JoinWords(ws[1..]);
  }

  /** The only whitespace in the join of words is the single blank written
      between neighbours: no tab, newline or other separator appears. */
  lemma {:induction false} JoinBlanks(ws: seq<string>)
    requires forall w | w in ws :: IsWord(w)
    ensures forall c | c in JoinWords(ws) && IsPySpace(c) :: c == ' '
  {
    if |ws| == 1 {
      assert ws[0] in ws;
    } else if |ws| >= 2 {
      assert ws[0] in ws;
      assert forall v | v in ws[1..] :: v in ws;
      JoinBlanks(ws[1..]);
      JoinBlanksStep(ws);
    }
  }

  /** A word in front of two texts that both start with whitespace (or,
      for `t`, are empty) splits off in front of both. */
  lemma WordBeforeSpaceChar(w: string, t: string, u: string, rest: seq<string>)
    requires IsWord(w)
    requires t == [] || IsPySpace(t[0])
    requires |u| > 0 && IsPySpace(u[0])
    requires SplitWords(u) == SplitWords(t) + rest
    ensures SplitWords(w + u) == SplitWords(w + t) + rest
  {
    SplitWordFirst(w, u);
    SplitWordFirst(w, t);
    ConsAppend(w, SplitWords(t), rest);
  }

  /** Putting an element in front commutes with appending. */
  lemma ConsAppend<T>(x: T, p: seq<T>, q: seq<T>)
    ensures [x] + (p + q) == [x] + p + q
  {
  }

  /** The step of `SplitAtSpaceChar` when the text before the separator
      starts with a word. */
  lemma SpaceCharStep(a: string, c: char, b: string)
    requires |a| > 0 && !IsPySpace(a[0]) && IsPySpace(c)
    requires var t := a[|WordPrefix(a)|..];
      SplitWords(t + [c] + b) == SplitWords(t) + SplitWords(b)
    ensures SplitWords(a + [c] + b) == SplitWords(a) + SplitWords(b)
  {
    var w := WordPrefix(a);
    var t := a[|w|..];
    WordSplitShape(a);
    SpaceInFront(t, c, b);
    ConcatShape(w, t, [c], b);
    WordBeforeSpaceChar(w, t, t + [c] + b, SplitWords(b));
  }

  /** A text that starts with a word is that word followed by whitespace or
      by nothing. */
  lemma WordSplitShape(a: string)
    requires |a| > 0 && !IsPySpace(a[0])
    ensures var w := WordPrefix(a);
      var t := a[|w|..];
      IsWord(w) && a == w + t && (t == [] || IsPySpace(t[0]))
  {
    WordPrefixFacts(a);
    assert a == WordPrefix(a) + a[|WordPrefix(a)|..];
  }

  /** Text that starts with whitespace or is empty, then a blank: the
      result starts with whitespace. */
  lemma SpaceInFront(t: string, c: char, b: string)
    requires IsPySpace(c)
    requires t == [] || IsPySpace(t[0])
    ensures |t + [c] + b| > 0 && IsPySpace((t + [c] + b)[0])
  {
    if |t| > 0 { assert (t + [c] + b)[0] == t[0]; } else { assert (t + [c] + b)[0] == c; }
  }

  /** Regrouping a concatenation of four texts. */
  lemma ConcatShape<T>(p: seq<T>, q: seq<T>, x: seq<T>, y: seq<T>)
    ensures p + q + x + y == p + (q + x + y)
  {
  }

  /** Any whitespace character separates words: the words of `a`, a blank
      and `b` are the words of `a` followed by those of `b`, so a word is a
      maximal run of non-whitespace characters. */
  lemma {:induction false} SplitAtSpaceChar(a: string, c: char, b: string)
    requires IsPySpace(c)
    ensures SplitWords(a + [c] + b) == SplitWords(a) + SplitWords(b)
    decreases |a|
  {
    if |a| == 0 {
      assert a + [c] + b == [c] + b;
      assert ([c] + b)[1..] == b;
      SplitAtSpace([c] + b);
    } else if IsPySpace(a[0]) {
      SplitAtSpaceChar(a[1..], c, b);
      SplitAtSpace(a);
      assert (a + [c] + b)[1..] == a[1..] + [c] + b;
      SplitAtSpace(a + [c] + b);
    } else {
      WordPrefixFacts(a);
      SplitAtSpaceChar(a[|WordPrefix(a)|..], c, b);
      SpaceCharStep(a, c, b);
    }
  }

  // ---------------------------------------------------------------------------
  // JavaScript trim

  /** `s.trimStart()`. */
  function TrimStart(s: string): (r: string)
    ensures |r| <= |s|
    ensures r == s[|s| - |r|..]
    ensures forall i | 0 <= i < |s| - |r| :: IsJsSpace(s[i])
    ensures |r| > 0 ==> !IsJsSpace(r[0])
    decreases |s|
  {
    if |s| > 0 && IsJsSpace(s[0]) then TrimStart(s[1..]) else s
  }

  /** `s.trimEnd()`. */
  function TrimEnd(s: string): (r: string)
    ensures r <= s
    ensures forall i | |r| <= i < |s| :: IsJsSpace(s[i])
    ensures |r| > 0 ==> !IsJsSpace(r[|r| - 1])
    decreases |s|
  {
    if |s| > 0 && IsJsSpace(s[|s| - 1]) then TrimEnd(s[..|s| - 1]) else s
  }

  /** `s.trim()`: no whitespace at either end; empty exactly when `s` is
      whitespace only. */
  function Trim(s: string): (r: string)
    ensures |r| > 0 ==> !IsJsSpace(r[0]) && !IsJsSpace(r[|r| - 1])
    ensures |r| == 0 <==> forall i | 0 <= i < |s| :: IsJsSpace(s[i])
  {
    var t := TrimStart(s);
    SpaceSuffix(s, t);
    TrimEnd(t)
  }

  lemma SpaceSuffix(s: string, t: string)
    requires |t| <= |s| && t == s[|s| - |t|..]
    requires forall i | 0 <= i < |s| - |t| :: IsJsSpace(s[i])
    ensures (forall i | 0 <= i < |t| :: IsJsSpace(t[i])) <==> (forall i | 0 <= i < |s| :: IsJsSpace(s[i]))
  {
  }

  // ---------------------------------------------------------------------------
  // Case and suffixes

  /** Lower-casing of one character, for the ASCII letters. */
  function LowerChar(c: char): char {
    if 'A' <= c <= 'Z' then (c as int + 32) as char else c
  }

  /** `s.toLowerCase()` restricted to ASCII letters. */
  function ToLower(s: string): (r: string)
    ensures |r| == |s|
    ensures forall i | 0 <= i < |s| :: r[i] == LowerChar(s[i])
  {
    seq(|s|, i requires 0 <= i < |s| => LowerChar(s[i]))
  }

  /** `s.endsWith(suffix)`. */
  predicate EndsWith(s: string, suffix: string) {
    |suffix| <= |s| && s[|s| - |suffix|..] == suffix
  }

  /** `s.replace(/\/$/, '')`: removes one trailing slash, if there is one. */
  function StripTrailingSlash(s: string): (r: string)
    ensures r + "/" == s || r == s
    ensures r == s <==> !EndsWith(s, "/")
  {
    if |s| > 0 && s[|s| - 1] == '/' then s[..|s| - 1] else s
  }

  // ---------------------------------------------------------------------------
  // Decimal rendering (Python f-string of an int)

  function DigitChar(d: nat): (c: char)
    requires d < 10
    ensures '0' <= c <= '9'
  {
    ('0' as int + d) as char
  }

  /** The value of a decimal digit. */
  function DigitValue(c: char): nat {
    if '0' <= c <= '9' then c as int - '0' as int else 0
  }

  /** The number a string of decimal digits denotes. */
  function ParseDecimal(s: string): nat {
    if |s| == 0 then 0 else ParseDecimal(s[..|s| - 1]) * 10 + DigitValue(s[|s| - 1])
  }

  /** The decimal digits of `n`: they read back as `n`, and there is a
      leading zero only for zero itself. */
  function Decimal(n: nat): (r: string)
    ensures |r| >= 1
    ensures forall c | c in r :: '0' <= c <= '9'
    ensures ParseDecimal(r) == n
    ensures r[0] == '0' <==> n == 0
    ensures |r| > 1 ==> r[0] != '0'
  {
    if n < 10 then [DigitChar(n)]
    else
      var high := Decimal(n / 10);
      var r := high + [DigitChar(n % 10)];
      assert r[..|r| - 1] == high;
      r
  }
}
