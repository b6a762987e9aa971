/**
 * The Python `str` operations the assistant relies on, stated over `seq<char>`:
 * `strip()`, `lower()`, `title()`, `split()`, `split(sep)`, `sep.join(...)`,
 * `replace(old, new)`, `in`, slicing `s[:n]`, `str(n)` and `int(s)`.
 * Case mapping covers ASCII letters only; whitespace is Python's full `str.isspace()` set.
 */
module Text {
  import opened Wrappers

  // ---------------------------------------------------------------------------
  // Characters
  // ---------------------------------------------------------------------------

  /** The characters for which Python's `str.isspace()` holds. */
  const Whitespace: set<char> := {
    ' ', '\t', '\n', '\U{b}', '\U{c}', '\r', '\U{1c}', '\U{1d}', '\U{1e}', '\U{1f}',
    '\U{85}', '\U{a0}', '\U{1680}',
    '\U{2000}', '\U{2001}', '\U{2002}', '\U{2003}', '\U{2004}', '\U{2005}',
    '\U{2006}', '\U{2007}', '\U{2008}', '\U{2009}', '\U{200a}',
    '\U{2028}', '\U{2029}', '\U{202f}', '\U{205f}', '\U{3000}'
  }

  /** Python's `str.isspace()` for one character. */
  predicate IsSpace(c: char) { c in Whitespace }

  predicate IsDigit(c: char) { '0' <= c <= '9' }

  predicate IsUpper(c: char) { 'A' <= c <= 'Z' }

  predicate IsLowerLetter(c: char) { 'a' <= c <= 'z' }

  predicate IsLetter(c: char) { IsUpper(c) || IsLowerLetter(c) }

  function LowerChar(c: char): (r: char)
    ensures !IsUpper(r)
    ensures IsLetter(c) <==> IsLetter(r)
    ensures !IsUpper(c) ==> r == c
  {
    if IsUpper(c) then (c as int + 32) as char else c
  }

  function UpperChar(c: char): (r: char)
    ensures LowerChar(r) == LowerChar(c)
    ensures IsLetter(c) <==> IsLetter(r)
  {
    if IsLowerLetter(c) then (c as int - 32) as char else c
  }

  /** No whitespace character anywhere in `s`. */
  predicate NoSpace(s: string) {
    forall i :: 0 <= i < |s| ==> !IsSpace(s[i])
  }

  /** No upper-case ASCII letter anywhere in `s`. */
  predicate IsLowerCase(s: string) {
    forall i :: 0 <= i < |s| ==> !IsUpper(s[i])
  }

  // ---------------------------------------------------------------------------
  // strip()
  // ---------------------------------------------------------------------------

  /** `s.lstrip()`: drops the maximal run of leading whitespace. */
  function StripStart(s: string): (r: string)
    ensures |r| <= |s| && r == s[|s| - |r|..]
    ensures r == [] || !IsSpace(r[0])
    ensures forall i :: 0 <= i < |s| - |r| ==> IsSpace(s[i])
  {
    if s != [] && IsSpace(s[0]) then StripStart(s[1..]) else s
  }

  /** `s.rstrip()`: drops the maximal run of trailing whitespace. */
  function StripEnd(s: string): (r: string)
    ensures |r| <= |s| && r == s[..|r|]
    ensures r == [] || !IsSpace(r[|r| - 1])
    ensures forall i :: |r| <= i < |s| ==> IsSpace(s[i])
  {
    if s != [] && IsSpace(s[|s| - 1]) then StripEnd(s[..|s| - 1]) else s
  }

  /** `s.strip()`. */
  function Strip(s: string): string {
    StripEnd(StripStart(s))
  }

  /** `strip()` keeps a part of its input: a character absent from `s` is absent from `strip(s)`. */
  lemma StripWithin(s: string, c: char)
    requires c !in s
    ensures c !in Strip(s)
  {
    var t := StripStart(s);
    var r := StripEnd(t);
    forall i | 0 <= i < |r| ensures r[i] != c {
      assert r[i] == t[i] == s[|s| - |t| + i];
    }
  }

  /** `strip()` leaves no whitespace at either end. */
  lemma StripTrimmed(s: string)
    ensures var r := Strip(s); r == [] || (!IsSpace(r[0]) && !IsSpace(r[|r| - 1]))
  {
    var t := StripStart(s);
    var r := StripEnd(t);
    if r != [] {
      assert r[0] == t[0];
    }
  }

  /** A string that neither starts nor ends with whitespace is its own `strip()`. */
  lemma StripUnchanged(s: string)
    requires s == [] || (!IsSpace(s[0]) && !IsSpace(s[|s| - 1]))
    ensures Strip(s) == s
  {
  }

  // ---------------------------------------------------------------------------
  // lower(), title()
  // ---------------------------------------------------------------------------

  /** `s.lower()` (ASCII letters). */
  function Lower(s: string): (r: string)
    ensures |r| == |s| && IsLowerCase(r)
    ensures forall i :: 0 <= i < |s| ==> r[i] == LowerChar(s[i])
  {
    if s == [] then [] else [LowerChar(s[0])] + Lower(s[1..])
  }

  /** Lower-casing a string that is already lower case changes nothing. */
  lemma LowerOfLowerCase(s: string)
    requires IsLowerCase(s)
    ensures Lower(s) == s
  {
  }

  /** `title()` of the rest of a string, given whether the previous character was a letter. */
  function TitleFrom(s: string, afterLetter: bool): (r: string)
    ensures |r| == |s|
  {
    if s == [] then []
    else
      var c := if !IsLetter(s[0]) then s[0] else if afterLetter then LowerChar(s[0]) else UpperChar(s[0]);
      [c] + TitleFrom(s[1..], IsLetter(s[0]))
  }

  /** `s.title()`: every letter that follows a letter is lowered, every other letter is raised. */
  function Title(s: string): string {
    TitleFrom(s, false)
  }

  lemma {:induction false} TitleFromLower(s: string, afterLetter: bool)
    ensures Lower(TitleFrom(s, afterLetter)) == Lower(s)
    decreases |s|
  {
    if s != [] {
      TitleFromLower(s[1..], IsLetter(s[0]));
    }
  }

  /** `title()` changes only the case of letters: lowering its result gives the lowered input. */
  lemma TitleThenLower(s: string)
    ensures Lower(Title(s)) == Lower(s)
  {
    TitleFromLower(s, false);
  }

  // ---------------------------------------------------------------------------
  // split() on whitespace
  // ---------------------------------------------------------------------------

  /** The maximal prefix of `s` that holds no whitespace. */
  function WordPrefix(s: string): (w: string)
    ensures |w| <= |s| && w == s[..|w|] && NoSpace(w)
    ensures |w| == |s| || IsSpace(s[|w|])
    ensures s != [] && !IsSpace(s[0]) ==> w != []
  {
    if s == [] || IsSpace(s[0]) then [] else [s[0]] + WordPrefix(s[1..])
  }

  /** `s.split()`: the maximal runs of non-whitespace characters, in order. */
  function Words(s: string): (ws: seq<string>)
    ensures forall i :: 0 <= i < |ws| ==> ws[i] != [] && NoSpace(ws[i])
    decreases |s|
  {
    if s == [] then []
    else if IsSpace(s[0]) then Words(s[1..])
    else
      var w := WordPrefix(s);
      [w] + Words(s[|w|..])
  }

  /** The characters of `s` that are not whitespace, in order. */
  function NonSpace(s: string): string {
    if s == [] then [] else (if IsSpace(s[0]) then [] else [s[0]]) + NonSpace(s[1..])
  }

  function Concat(ws: seq<string>): string {
    if ws == [] then [] else ws[0] + Concat(ws[1..])
  }

  lemma {:induction false} NonSpaceAppend(a: string, b: string)
    ensures NonSpace(a + b) == NonSpace(a) + NonSpace(b)
    decreases |a|
  {
    if a != [] {
      assert (a + b)[1..] == a[1..] + b;
      NonSpaceAppend(a[1..], b);
    } else {
      assert a + b == b;
    }
  }

  lemma {:induction false} NonSpaceOfWord(s: string)
    requires NoSpace(s)
    ensures NonSpace(s) == s
    decreases |s|
  {
    if s != [] {
      NonSpaceOfWord(s[1..]);
    }
  }

  /** The words of a lower-case string are lower case. */
  lemma {:induction false} WordsOfLowerCase(s: string)
    requires IsLowerCase(s)
    ensures forall i :: 0 <= i < |Words(s)| ==> IsLowerCase(Words(s)[i])
    decreases |s|
  {
    if s != [] {
      if IsSpace(s[0]) {
        WordsOfLowerCase(s[1..]);
      } else {
        var w := WordPrefix(s);
        assert forall j :: 0 <= j < |w| ==> w[j] == s[j];
        WordsOfLowerCase(s[|w|..]);
        assert Words(s) == [w] + Words(s[|w|..]);
      }
    }
  }

  /** `split()` loses exactly the whitespace: its words put together are the non-blank characters. */
  lemma {:induction false} WordsConcat(s: string)
    ensures Concat(Words(s)) == NonSpace(s)
    decreases |s|
  {
    if s != [] {
      if IsSpace(s[0]) {
        WordsConcat(s[1..]);
      } else {
        var w := WordPrefix(s);
        var rest := s[|w|..];
        assert s == w + rest;
        NonSpaceAppend(w, rest);
        NonSpaceOfWord(w);
        WordsConcat(rest);
      }
    }
  }

  // ---------------------------------------------------------------------------
  // split(sep) and sep.join(parts)
  // ---------------------------------------------------------------------------

  /** `s.split(sep)` for a one-character separator: empty parts are kept. */
  function SplitOn(s: string, sep: char): (parts: seq<string>)
    ensures |parts| >= 1
    ensures forall i :: 0 <= i < |parts| ==> sep !in parts[i]
  {
    if s == [] then [[]]
    else
      var rest := SplitOn(s[1..], sep);
      if s[0] == sep then [[]] + rest else [[s[0]] + rest[0]] + rest[1..]
  }

  /** `s.split(sep)` has more than one part exactly when `sep` occurs in `s`. */
  lemma {:induction false} SplitOnMany(s: string, sep: char)
    ensures |SplitOn(s, sep)| > 1 <==> sep in s
    decreases |s|
  {
    if s != [] {
      SplitOnMany(s[1..], sep);
      assert sep in s <==> s[0] == sep || sep in s[1..];
    }
  }

  /** `sep.join(parts)`. */
  function Join(sep: string, parts: seq<string>): string {
    if parts == [] then []
    else if |parts| == 1 then parts[0]
    else parts[0] + sep + Join(sep, parts[1..])
  }

  /** Joining the parts of `split(sep)` with `sep` gives back the input. */
  lemma {:induction false} JoinSplit(s: string, sep: char)
    ensures Join([sep], SplitOn(s, sep)) == s
    decreases |s|
  {
    if s != [] {
      var rest := SplitOn(s[1..], sep);
      JoinSplit(s[1..], sep);
      if s[0] == sep {
        assert SplitOn(s, sep) == [[]] + rest;
        assert ([[]] + rest)[1..] == rest;
      } else {
        var parts := [[s[0]] + rest[0]] + rest[1..];
        assert SplitOn(s, sep) == parts;
        if |rest| == 1 {
          assert Join([sep], rest) == rest[0];
        } else {
          assert parts[1..] == rest[1..];
          assert Join([sep], rest) == rest[0] + [sep] + Join([sep], rest[1..]);
        }
      }
    }
  }

  /** The last part of `split(sep)` is what follows the last separator, or the whole text. */
  lemma {:induction false} SplitOnLast(s: string, sep: char)
    ensures var parts := SplitOn(s, sep); var last := parts[|parts| - 1];
      && |last| <= |s| && s[|s| - |last|..] == last
      && (|last| < |s| ==> s[|s| - |last| - 1] == sep)
    decreases |s|
  {
    if s != [] {
      var rest := SplitOn(s[1..], sep);
      var parts := SplitOn(s, sep);
      SplitOnLast(s[1..], sep);
      if s[0] == sep {
        assert parts == [[]] + rest;
        assert parts[|parts| - 1] == rest[|rest| - 1];
      } else if |rest| == 1 {
        JoinSplit(s[1..], sep);
        assert parts == [[s[0]] + s[1..]];
      } else {
        assert parts == [[s[0]] + rest[0]] + rest[1..];
        var last := rest[|rest| - 1];
        assert parts[|parts| - 1] == last;
        SplitOnMany(s[1..], sep);
        assert sep !in last && sep in s[1..];
        assert |last| < |s| - 1;
      }
    }
  }

  /** Text without the separator is a single part. */
  lemma {:induction false} SplitOnNoSep(s: string, sep: char)
    requires sep !in s
    ensures SplitOn(s, sep) == [s]
    decreases |s|
  {
    if s != [] {
      SplitOnNoSep(s[1..], sep);
      assert [s[0]] + s[1..] == s;
    }
  }

  /** The first part is the text before the first separator; the other parts split the rest. */
  lemma {:induction false} SplitOnFirst(a: string, sep: char, b: string)
    requires sep !in a
    ensures SplitOn(a + [sep] + b, sep) == [a] + SplitOn(b, sep)
    decreases |a|
  {
    var s := a + [sep] + b;
    if a == [] {
      assert s[1..] == b;
    } else {
      assert s[1..] == a[1..] + [sep] + b;
      SplitOnFirst(a[1..], sep, b);
      assert [a[0]] + a[1..] == a;
    }
  }

  // ---------------------------------------------------------------------------
  // replace(), slicing
  // ---------------------------------------------------------------------------

  /** `s.replace(from, to)` for one-character `from` and `to`. */
  function ReplaceChar(s: string, from: char, to: char): (r: string)
    ensures |r| == |s|
    ensures forall i :: 0 <= i < |s| ==> r[i] == (if s[i] == from then to else s[i])
  {
    if s == [] then [] else [if s[0] == from then to else s[0]] + ReplaceChar(s[1..], from, to)
  }

  /** Python's `s[:n]` for `n >= 0`. */
  function Prefix<T>(s: seq<T>, n: nat): (r: seq<T>)
    ensures |r| == if n < |s| then n else |s|
    ensures r == s[..|r|]
  {
    if n < |s| then s[..n] else s
  }

  // ---------------------------------------------------------------------------
  // `pat in s` and first occurrences
  // ---------------------------------------------------------------------------

  predicate OccursAt(s: string, pat: string, i: nat) {
    i + |pat| <= |s| && s[i..i + |pat|] == pat
  }

  /** Python's `pat in s`. */
  predicate Contains(s: string, pat: string) {
    exists i: nat | i <= |s| :: OccursAt(s, pat, i)
  }

  /** The first occurrence of `pat` in `s` at or after `from`, as `str.find` does. */
  function FindFrom(s: string, pat: string, from: nat): (r: Option<nat>)
    requires from <= |s|
    ensures r.Some? ==> from <= r.value && OccursAt(s, pat, r.value)
    ensures r.Some? ==> forall j: nat :: from <= j < r.value ==> !OccursAt(s, pat, j)
    ensures r.None? ==> forall j: nat :: from <= j ==> !OccursAt(s, pat, j)
    decreases |s| - from
  {
    if OccursAt(s, pat, from) then Some(from)
    else if from + |pat| >= |s| then None
    else FindFrom(s, pat, from + 1)
  }

  function Find(s: string, pat: string): (r: Option<nat>)
    ensures r.Some? <==> Contains(s, pat)
    ensures r.Some? ==> OccursAt(s, pat, r.value) && forall j: nat :: j < r.value ==> !OccursAt(s, pat, j)
  {
    FindFrom(s, pat, 0)
  }

  /** An occurrence in a part of a concatenation is an occurrence in the whole. */
  lemma ContainsConcat(a: string, pat: string, b: string)
    ensures Contains(a + pat + b, pat)
  {
    assert (a + pat + b)[|a|..|a| + |pat|] == pat;
    assert OccursAt(a + pat + b, pat, |a|);
  }

  /** A text contains what it starts with. */
  lemma ContainsStart(pat: string, rest: string)
    ensures Contains(pat + rest, pat)
  {
    ContainsConcat([], pat, rest);
    assert [] + pat + rest == pat + rest;
  }

  /** An occurrence in the first part of a concatenation is one in the whole. */
  lemma ContainsLeft(a: string, b: string, pat: string)
    requires Contains(a, pat)
    ensures Contains(a + b, pat)
  {
    var i: nat :| i <= |a| && OccursAt(a, pat, i);
    assert (a + b)[i..i + |pat|] == a[i..i + |pat|];
    assert OccursAt(a + b, pat, i);
  }

  /** An occurrence in the second part of a concatenation is one in the whole. */
  lemma ContainsRight(a: string, b: string, pat: string)
    requires Contains(b, pat)
    ensures Contains(a + b, pat)
  {
    var i: nat :| i <= |b| && OccursAt(b, pat, i);
    assert (a + b)[|a| + i..|a| + i + |pat|] == b[i..i + |pat|];
    assert OccursAt(a + b, pat, |a| + i);
  }

  /** Python's `s.split(pat)[1]` when `pat in s`: the text after the first occurrence, up to the next one. */
  function SecondPart(s: string, pat: string): (r: string)
    requires pat != [] && Contains(s, pat)
  {
    var i := Find(s, pat).value;
    var rest := s[i + |pat|..];
    match Find(rest, pat)
    case None => rest
    case Some(j) => rest[..j]
  }

  /** In a text that starts with `pat` and has no other occurrence after it, the second part is the rest. */
  lemma SecondPartOfStart(pat: string, rest: string)
    requires pat != [] && !Contains(rest, pat)
    ensures Contains(pat + rest, pat) && SecondPart(pat + rest, pat) == rest
  {
    var t := pat + rest;
    ContainsStart(pat, rest);
    assert OccursAt(t, pat, 0);
    assert t[|pat|..] == rest;
  }

  /** A character that cannot start `pat`, put in front of a text without `pat`, adds no occurrence. */
  lemma NotContainsCons(c: char, s: string, pat: string)
    requires pat != [] && pat[0] != c && !Contains(s, pat)
    ensures !Contains([c] + s, pat)
  {
    var t := [c] + s;
    forall i: nat | i <= |t| ensures !OccursAt(t, pat, i) {
      if i > 0 && OccursAt(t, pat, i) {
        assert t[i..i + |pat|] == s[i - 1..i - 1 + |pat|];
        assert OccursAt(s, pat, i - 1);
      }
    }
  }

  // ---------------------------------------------------------------------------
  // str(n) and int(s)
  // ---------------------------------------------------------------------------

  function DigitChar(d: nat): (c: char)
    requires d < 10
    ensures IsDigit(c)
  {
    ('0' as int + d) as char
  }

  function DigitValue(c: char): nat
    requires IsDigit(c)
  {
    c as int - '0' as int
  }

  /** `str(n)` for `n >= 0`: decimal digits, no leading zero. */
  function NatToString(n: nat): (r: string)
    ensures r != [] && forall i :: 0 <= i < |r| ==> IsDigit(r[i])
  {
    if n < 10 then [DigitChar(n)] else NatToString(n / 10) + [DigitChar(n % 10)]
  }

  /** `str(n)`. */
  function IntToString(n: int): string {
    if n < 0 then "-" + NatToString(-n) else NatToString(n)
  }

  /** Decimal digits that may hold single underscores between digits, as `int()` accepts them. */
  predicate DigitRun(t: string) {
    && t != [] && IsDigit(t[0]) && IsDigit(t[|t| - 1])
    && (forall i :: 0 <= i < |t| ==> IsDigit(t[i]) || t[i] == '_')
    && SingleUnderscores(t)
  }

  /** No two underscores in a row. */
  predicate SingleUnderscores(t: string) {
    |t| < 2 || (!(t[0] == '_' && t[1] == '_') && SingleUnderscores(t[1..]))
  }

  lemma {:induction false} DigitsSingleUnderscores(t: string)
    requires forall i :: 0 <= i < |t| ==> IsDigit(t[i])
    ensures SingleUnderscores(t)
    decreases |t|
  {
    if |t| >= 2 {
      DigitsSingleUnderscores(t[1..]);
    }
  }

  /** The value of a run of digits, skipping underscores. */
  function RunValue(t: string): nat {
    if t == [] then 0
    else if IsDigit(t[|t| - 1]) then RunValue(t[..|t| - 1]) * 10 + DigitValue(t[|t| - 1])
    else RunValue(t[..|t| - 1])
  }

  function ParseDigits(t: string): Option<nat> {
    if DigitRun(t) then Some(RunValue(t)) else None
  }

  /** Python's `int(s)` in base 10 (ASCII digits); None where Python raises ValueError. */
  function ParseInt(s: string): Option<int> {
    var t := Strip(s);
    if t == [] then None
    else if t[0] == '-' || t[0] == '+' then
      match ParseDigits(t[1..])
      case None => None
      case Some(v) => var k: int := v; Some(if t[0] == '-' then -k else k)
    else
      match ParseDigits(t)
      case None => None
      case Some(v) => Some(v)
  }

  lemma {:induction false} RunValueOfNatToString(n: nat)
    ensures RunValue(NatToString(n)) == n
    decreases n
  {
    var r := NatToString(n);
    if n >= 10 {
      RunValueOfNatToString(n / 10);
      assert r[..|r| - 1] == NatToString(n / 10);
    }
  }

  lemma DigitIsNotSpace(c: char)
    requires IsDigit(c) || c == '-'
    ensures !IsSpace(c)
  {
  }

  lemma ParseNatToString(n: int)
    requires n >= 0
    ensures ParseInt(IntToString(n)) == Some(n)
  {
    ParseDigitsOfNatToString(n);
    ParseUnsigned(NatToString(n), n);
  }

  lemma ParseNegativeToString(n: int)
    requires n < 0
    ensures ParseInt(IntToString(n)) == Some(n)
  {
    IntToStringOfNegative(n);
    ParseDigitsOfNatToString(-n);
    ParseSigned(NatToString(-n), -n);
  }

  lemma IntToStringOfNegative(n: int)
    requires n < 0
    ensures IntToString(n) == "-" + NatToString(-n)
  {
  }

  /** A run of digits reads back as its value. */
  lemma ParseUnsigned(d: string, v: nat)
    requires d != [] && (forall i :: 0 <= i < |d| ==> IsDigit(d[i])) && ParseDigits(d) == Some(v)
    ensures ParseInt(d) == Some(v)
  {
    assert Strip(d) == d by {
      DigitIsNotSpace(d[0]);
      DigitIsNotSpace(d[|d| - 1]);
      StripUnchanged(d);
    }
  }

  /** A minus sign before a run of digits reads back as the negated value. */
  lemma ParseSigned(d: string, v: nat)
    requires d != [] && IsDigit(d[|d| - 1]) && ParseDigits(d) == Some(v)
    ensures ParseInt("-" + d) == Some(-(v as int))
  {
    StripSigned(d);
    ParseMinus(d, v);
  }

  lemma StripSigned(d: string)
    requires d != [] && IsDigit(d[|d| - 1])
    ensures Strip("-" + d) == "-" + d
  {
    var s := "-" + d;
    DigitIsNotSpace(s[0]);
    assert s[|s| - 1] == d[|d| - 1];
    DigitIsNotSpace(s[|s| - 1]);
    StripUnchanged(s);
  }

  lemma DropSign(d: string)
    ensures ("-" + d)[1..] == d
  {
  }

  lemma ParseMinus(d: string, v: nat)
    requires Strip("-" + d) == "-" + d && ParseDigits(d) == Some(v)
    ensures ParseInt("-" + d) == Some(-(v as int))
  {
    DropSign(d);
  }

  /** `int(str(n)) == n`. */
  lemma ParseIntToString(n: int)
    ensures ParseInt(IntToString(n)) == Some(n)
  {
    if n < 0 {
      ParseNegativeToString(n);
    } else {
      ParseNatToString(n);
    }
  }

  lemma ParseDigitsOfNatToString(m: nat)
    ensures ParseDigits(NatToString(m)) == Some(m)
  {
    var d := NatToString(m);
    RunValueOfNatToString(m);
    DigitsSingleUnderscores(d);
    assert DigitRun(d);
  }
}
