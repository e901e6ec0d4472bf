/**
 * The Python `str` builtins that the watchlist core leans on, as the
 * interpreter defines them for the characters that matter here:
 * `isspace`, `strip`, `split(sep)`, `split()`, `replace`, `startswith`,
 * `lower`/`upper` (ASCII letters only) and `int(s)` in base 10.
 */
module PyStr {
  import opened Wrappers

  /** Python's `str.isspace()`: the 29 code points Unicode calls white space. */
  predicate IsSpace(c: char) {
    var k := c as int;
    (9 <= k <= 13) || (28 <= k <= 32) || k == 0x85 || k == 0xA0 || k == 0x1680
    || (0x2000 <= k <= 0x200A) || k == 0x2028 || k == 0x2029 || k == 0x202F
    || k == 0x205F || k == 0x3000
  }

  predicate NoSpace(s: string) {
    forall k :: 0 <= k < |s| ==> !IsSpace(s[k])
  }

  predicate AllSpace(s: string) {
    forall k :: 0 <= k < |s| ==> IsSpace(s[k])
  }

  /** `str.lstrip()`: drops the longest all-space prefix. */
  function TrimLeft(s: string): (r: string)
    ensures |r| <= |s|
    ensures r == [] || !IsSpace(r[0])
  {
    if |s| > 0 && IsSpace(s[0]) then TrimLeft(s[1..]) else s
  }

  /** `str.rstrip()`: drops the longest all-space suffix. */
  function TrimRight(s: string): (r: string)
    ensures |r| <= |s|
    ensures r == [] || !IsSpace(r[|r| - 1])
  {
    if |s| > 0 && IsSpace(s[|s| - 1]) then TrimRight(s[..|s| - 1]) else s
  }

  /** `str.strip()`: white space dropped from both ends; a string without any is kept. */
  function Strip(s: string): (r: string)
    ensures |r| <= |s|
    ensures r == [] || (!IsSpace(r[0]) && !IsSpace(r[|r| - 1]))
    ensures NoSpace(s) ==> r == s
  {
    var l := TrimLeft(s);
    var r := TrimRight(l);
    assert r != [] ==> r[0] == l[0] by {
      if r != [] { TrimRightExact(l); }
    }
    r
  }

  /** `lstrip()` removes white space only: what it drops is all space, what it keeps is the rest of `s`. */
  lemma {:induction false} TrimLeftExact(s: string)
    ensures var r := TrimLeft(s);
      r == s[|s| - |r|..] && AllSpace(s[..|s| - |r|])
  {
    if |s| > 0 && IsSpace(s[0]) {
      TrimLeftExact(s[1..]);
      var r := TrimLeft(s[1..]);
      assert s[1..][|s| - 1 - |r|..] == s[|s| - |r|..];
      assert forall k :: 1 <= k < |s| - |r| ==> s[k] == s[1..][..|s| - 1 - |r|][k - 1];
    }
  }

  /** `rstrip()` removes white space only: it keeps a prefix of `s` and drops an all-space suffix. */
  lemma {:induction false} TrimRightExact(s: string)
    ensures var r := TrimRight(s);
      r == s[..|r|] && AllSpace(s[|r|..])
  {
    if |s| > 0 && IsSpace(s[|s| - 1]) {
      TrimRightExact(s[..|s| - 1]);
      var r := TrimRight(s[..|s| - 1]);
      assert forall k :: |r| <= k < |s| - 1 ==> s[k] == s[..|s| - 1][|r|..][k - |r|];
    }
  }

  /**
   * `strip()` cuts `s` into white space, the result, and white space; with
   * `Strip`'s own contract (neither end of the result is white space) this
   * fixes the result completely.
   */
  lemma StripExact(s: string)
    ensures var r := Strip(s); var i := |s| - |TrimLeft(s)|;
      i + |r| <= |s| && r == s[i..i + |r|] && AllSpace(s[..i]) && AllSpace(s[i + |r|..])
  {
    var l := TrimLeft(s);
    var r := Strip(s);
    assert r == TrimRight(l);
    TrimLeftExact(s);
    TrimRightExact(l);
    InfixOfSuffix(s, l, r);
  }

  /** A prefix `r` of a suffix `l` of `s` is an infix of `s`, followed in `s` by the rest of `l`. */
  lemma InfixOfSuffix(s: string, l: string, r: string)
    requires |l| <= |s| && l == s[|s| - |l|..]
    requires |r| <= |l| && r == l[..|r|]
    ensures var i := |s| - |l|; r == s[i..i + |r|] && l[|r|..] == s[i + |r|..]
  {
  }

  /** The parts of `s` between two occurrences of `sep`, joined back by `Join`. */
  function Join(parts: seq<string>, sep: char): string
    requires |parts| >= 1
  {
    if |parts| == 1 then parts[0] else parts[0] + [sep] + Join(parts[1..], sep)
  }

  /** The number of occurrences of `c` in `s`. */
  function Count(s: string, c: char): nat {
    if s == [] then 0 else (if s[0] == c then 1 else 0) + Count(s[1..], c)
  }

  lemma JoinCons(p: string, rest: seq<string>, sep: char)
    requires |rest| >= 1
    ensures Join([p] + rest, sep) == p + [sep] + Join(rest, sep)
  {
    assert ([p] + rest)[1..] == rest;
  }

  lemma JoinExtendHead(c: char, rest: seq<string>, sep: char)
    requires |rest| >= 1
    ensures Join([[c] + rest[0]] + rest[1..], sep) == [c] + Join(rest, sep)
  {
    if |rest| > 1 {
      JoinCons([c] + rest[0], rest[1..], sep);
      JoinCons(rest[0], rest[1..], sep);
      assert [rest[0]] + rest[1..] == rest;
    }
  }

  /**
   * `s.split(sep)` for a one-character separator: never empty, no part holds
   * `sep`, one more part than there are separators, and joining the parts
   * with `sep` gives `s` back.
   */
  function SplitOn(s: string, sep: char): (parts: seq<string>)
    ensures |parts| == Count(s, sep) + 1
    ensures forall i :: 0 <= i < |parts| ==> sep !in parts[i]
    ensures Join(parts, sep) == s
  {
    if s == [] then [[]]
    else
      var rest := SplitOn(s[1..], sep);
      assert s == [s[0]] + s[1..];
      if s[0] == sep then
        JoinCons([], rest, sep);
        [[]] + rest
      else
        JoinExtendHead(s[0], rest, sep);
        [[s[0]] + rest[0]] + rest[1..]
  }

  lemma {:induction false} SplitOnNoSep(a: string, sep: char)
    requires sep !in a
    ensures SplitOn(a, sep) == [a]
  {
    if a != [] {
      SplitOnNoSep(a[1..], sep);
      assert [a[0]] + a[1..] == a;
    }
  }

  lemma {:induction false} SplitOnAfterPart(a: string, b: string, sep: char)
    requires sep !in a
    ensures SplitOn(a + [sep] + b, sep) == [a] + SplitOn(b, sep)
  {
    if a == [] {
      assert a + [sep] + b == [sep] + b;
      assert ([sep] + b)[1..] == b;
    } else {
      var x := a + [sep] + b;
      assert x[0] == a[0] && x[1..] == a[1..] + [sep] + b;
      SplitOnAfterPart(a[1..], b, sep);
      var rest := SplitOn(x[1..], sep);
      assert rest == [a[1..]] + SplitOn(b, sep);
      assert SplitOn(x, sep) == [[a[0]] + rest[0]] + rest[1..];
      assert [a[0]] + a[1..] == a;
      assert rest[1..] == SplitOn(b, sep);
    }
  }

  /** `sep.join(parts).split(sep) == parts` whenever no part holds `sep`. */
  lemma {:induction false} SplitJoin(parts: seq<string>, sep: char)
    requires |parts| >= 1
    requires forall i :: 0 <= i < |parts| ==> sep !in parts[i]
    ensures SplitOn(Join(parts, sep), sep) == parts
  {
    if |parts| == 1 {
      SplitOnNoSep(parts[0], sep);
    } else {
      SplitJoin(parts[1..], sep);
      SplitOnAfterPart(parts[0], Join(parts[1..], sep), sep);
      assert [parts[0]] + parts[1..] == parts;
    }
  }

  /** The longest prefix of `s` without white space. */
  function LeadingWord(s: string): (w: string)
    ensures |w| <= |s| && w == s[..|w|]
    ensures NoSpace(w)
    ensures |w| == |s| || IsSpace(s[|w|])
  {
    if |s| == 0 || IsSpace(s[0]) then [] else [s[0]] + LeadingWord(s[1..])
  }

  /** `s.split()`: the maximal runs of non-space characters, in order. */
  function SplitWhitespace(s: string): (words: seq<string>)
    ensures forall i :: 0 <= i < |words| ==> words[i] != [] && NoSpace(words[i])
    decreases |s|
  {
    var t := TrimLeft(s);
    if t == [] then []
    else
      var w := LeadingWord(t);
      [w] + SplitWhitespace(t[|w|..])
  }

  lemma {:induction false} LeadingWordOf(w: string, rest: string)
    requires NoSpace(w)
    requires rest == [] || IsSpace(rest[0])
    ensures LeadingWord(w + rest) == w
  {
    if w != [] {
      assert (w + rest)[1..] == w[1..] + rest;
      LeadingWordOf(w[1..], rest);
      assert [w[0]] + w[1..] == w;
    }
  }

  lemma SplitWhitespaceAfterSpace(tail: string)
    ensures SplitWhitespace([' '] + tail) == SplitWhitespace(tail)
  {
    assert ([' '] + tail)[1..] == tail;
  }

  lemma SplitWhitespaceAfterWord(w: string, rest: string)
    requires w != [] && NoSpace(w)
    requires rest == [] || IsSpace(rest[0])
    ensures SplitWhitespace(w + rest) == [w] + SplitWhitespace(rest)
  {
    var s := w + rest;
    assert TrimLeft(s) == s;
    LeadingWordOf(w, rest);
    assert s[|w|..] == rest;
  }

  /** `lstrip()` drops exactly a leading run of white space that is followed by text starting with none. */
  lemma {:induction false} TrimLeftSpaces(sp: string, t: string)
    requires AllSpace(sp)
    requires t == [] || !IsSpace(t[0])
    ensures TrimLeft(sp + t) == t
  {
    if sp != [] {
      assert (sp + t)[1..] == sp[1..] + t;
      TrimLeftSpaces(sp[1..], t);
    } else {
      assert sp + t == t;
    }
  }

  /** White space alone splits into no words. */
  lemma SplitWhitespaceAllSpace(s: string)
    requires AllSpace(s)
    ensures SplitWhitespace(s) == []
  {
    TrimLeftSpaces(s, []);
    assert s + [] == s;
  }

  /**
   * `split()` read from the text: leading white space, then a word up to the
   * next white space or the end, gives that word followed by the words of
   * the rest. With `SplitWhitespaceAllSpace` this fixes `split()` on every text.
   */
  lemma SplitWhitespaceNextWord(sp: string, w: string, rest: string)
    requires AllSpace(sp)
    requires w != [] && NoSpace(w)
    requires rest == [] || IsSpace(rest[0])
    ensures SplitWhitespace(sp + w + rest) == [w] + SplitWhitespace(rest)
  {
    var s := sp + w + rest;
    assert s == sp + (w + rest);
    TrimLeftSpaces(sp, w + rest);
    LeadingWordOf(w, rest);
    assert (w + rest)[|w|..] == rest;
  }

  /** `" ".join(words).split() == words` for non-empty words without white space. */
  lemma {:induction false} SplitWhitespaceJoin(words: seq<string>)
    requires |words| >= 1
    requires forall i :: 0 <= i < |words| ==> words[i] != [] && NoSpace(words[i])
    ensures SplitWhitespace(Join(words, ' ')) == words
  {
    var w := words[0];
    if |words| == 1 {
      SplitWhitespaceAfterWord(w, []);
      assert w + [] == w;
    } else {
      var tail := Join(words[1..], ' ');
      JoinCons(w, words[1..], ' ');
      assert [w] + words[1..] == words;
      assert Join(words, ' ') == w + ([' '] + tail);
      SplitWhitespaceAfterWord(w, [' '] + tail);
      SplitWhitespaceAfterSpace(tail);
      SplitWhitespaceJoin(words[1..]);
    }
  }

  /** `pat` occurs in `s` at index `i`. */
  predicate OccursAt(s: string, pat: string, i: nat) {
    i <= |s| && pat <= s[i..]
  }

  predicate Occurs(s: string, pat: string) {
    exists i: nat :: i < |s| && OccursAt(s, pat, i)
  }

  /**
   * `s.replace(pat, "")`: every non-overlapping occurrence of `pat`, found
   * left to right, removed.
   */
  function ReplaceAll(s: string, pat: string): (r: string)
    requires pat != []
    ensures |r| <= |s|
    decreases |s|
  {
    if s == [] then []
    else if pat <= s then ReplaceAll(s[|pat|..], pat)
    else [s[0]] + ReplaceAll(s[1..], pat)
  }

  /** A match at the front is removed and the scan goes on after it. */
  lemma ReplaceAllSkipsMatch(pat: string, rest: string)
    requires pat != []
    ensures ReplaceAll(pat + rest, pat) == ReplaceAll(rest, pat)
  {
    assert (pat + rest)[|pat|..] == rest;
  }

  lemma ReplaceAllStep(a: string, b: string, pat: string)
    requires pat != [] && a != [] && !OccursAt(a + b, pat, 0)
    ensures ReplaceAll(a + b, pat) == [a[0]] + ReplaceAll(a[1..] + b, pat)
  {
    var s := a + b;
    assert s[0..] == s;
    assert s[1..] == a[1..] + b;
  }

  /** No match of `pat` starts in the first `k` characters of `s`. */
  predicate NoMatchBefore(s: string, pat: string, k: nat) {
    forall i :: 0 <= i < k ==> !OccursAt(s, pat, i)
  }

  lemma NoMatchInTail(a: string, b: string, pat: string)
    requires a != []
    requires NoMatchBefore(a + b, pat, |a|)
    ensures NoMatchBefore(a[1..] + b, pat, |a[1..]|)
  {
    forall i | 0 <= i < |a| - 1 ensures !OccursAt(a[1..] + b, pat, i) {
      assert !OccursAt(a + b, pat, i + 1);
      assert (a + b)[i + 1..] == (a[1..] + b)[i..];
    }
  }

  /** Text in which no match starts is kept as it is, in front of what the rest becomes. */
  lemma {:induction false} ReplaceAllKeepsUnmatched(a: string, b: string, pat: string)
    requires pat != []
    requires NoMatchBefore(a + b, pat, |a|)
    ensures ReplaceAll(a + b, pat) == a + ReplaceAll(b, pat)
    decreases |a|
  {
    if a == [] {
      assert a + b == b;
      assert a + ReplaceAll(b, pat) == ReplaceAll(b, pat);
    } else {
      ReplaceAllStep(a, b, pat);
      NoMatchInTail(a, b, pat);
      ReplaceAllKeepsUnmatched(a[1..], b, pat);
      var r := ReplaceAll(b, pat);
      assert ReplaceAll(a + b, pat) == [a[0]] + (a[1..] + r);
      assert [a[0]] + (a[1..] + r) == a + r;
    }
  }

  /** Text without an occurrence of `pat` is unchanged. */
  lemma ReplaceAllNoMatch(s: string, pat: string)
    requires pat != []
    requires !Occurs(s, pat)
    ensures ReplaceAll(s, pat) == s
  {
    assert s + [] == s;
    ReplaceAllKeepsUnmatched(s, [], pat);
  }

  /** `(pat + rest).replace(pat, "") == rest` when `rest` holds no further `pat`. */
  lemma ReplaceAllLeading(pat: string, rest: string)
    requires pat != []
    requires !Occurs(rest, pat)
    ensures ReplaceAll(pat + rest, pat) == rest
  {
    ReplaceAllSkipsMatch(pat, rest);
    ReplaceAllNoMatch(rest, pat);
  }

  predicate IsUpperAscii(c: char) { 'A' <= c <= 'Z' }
  predicate IsLowerAscii(c: char) { 'a' <= c <= 'z' }

  function LowerChar(c: char): char {
    if IsUpperAscii(c) then (c as int + 32) as char else c
  }

  function UpperChar(c: char): char {
    if IsLowerAscii(c) then (c as int - 32) as char else c
  }

  /** `str.lower()` on ASCII letters: same length, no capital left, everything else kept. */
  function Lower(s: string): (r: string)
    ensures |r| == |s|
    ensures forall i :: 0 <= i < |r| ==> !IsUpperAscii(r[i])
    ensures forall i :: 0 <= i < |s| && IsUpperAscii(s[i]) ==> r[i] as int == s[i] as int + 32
    ensures forall i :: 0 <= i < |s| && !IsUpperAscii(s[i]) ==> r[i] == s[i]
  {
    seq(|s|, i requires 0 <= i < |s| => LowerChar(s[i]))
  }

  /** `str.upper()` on ASCII letters: same length, no small letter left, everything else kept. */
  function Upper(s: string): (r: string)
    ensures |r| == |s|
    ensures forall i :: 0 <= i < |r| ==> !IsLowerAscii(r[i])
    ensures forall i :: 0 <= i < |s| && IsLowerAscii(s[i]) ==> r[i] as int == s[i] as int - 32
    ensures forall i :: 0 <= i < |s| && !IsLowerAscii(s[i]) ==> r[i] == s[i]
  {
    seq(|s|, i requires 0 <= i < |s| => UpperChar(s[i]))
  }

  /** Letter case does not survive `upper()`: `s.lower().upper() == s.upper()`. */
  lemma UpperOfLower(s: string)
    ensures Upper(Lower(s)) == Upper(s)
  {
    forall i | 0 <= i < |s| ensures Upper(Lower(s))[i] == Upper(s)[i] {
      assert Lower(s)[i] == LowerChar(s[i]);
    }
  }

  predicate IsDigit(c: char) { '0' <= c <= '9' }

  /** Position `i` of `s` is a digit, or an underscore with a digit right after it. */
  predicate DigitOrJoiner(s: string, i: nat)
    requires i < |s|
  {
    IsDigit(s[i]) || (s[i] == '_' && i + 1 < |s| && IsDigit(s[i + 1]))
  }

  /** A run of digits that may hold single underscores between two digits (PEP 515). */
  predicate IsDigitGroup(s: string) {
    |s| > 0 && IsDigit(s[0]) && forall i: nat :: i < |s| ==> DigitOrJoiner(s, i)
  }

  /** The decimal value of the digits of `s`, underscores skipped. */
  function DigitsValue(s: string): nat {
    if s == [] then 0
    else
      var p := DigitsValue(s[..|s| - 1]);
      var c := s[|s| - 1];
      if IsDigit(c) then p * 10 + (c as int - '0' as int) else p
  }

  /**
   * `int(s)` in base 10: white space around, an optional sign, then a digit
   * group; anything else is the ValueError that the caller catches (None).
   */
  function ParseInt(s: string): (r: Option<int>)
  {
    var t := Strip(s);
    if |t| > 0 && (t[0] == '+' || t[0] == '-') then
      if IsDigitGroup(t[1..]) then
        var v: int := DigitsValue(t[1..]);
        Some(if t[0] == '-' then -v else v)
      else None
    else if IsDigitGroup(t) then Some(DigitsValue(t))
    else None
  }

  function DigitChar(d: nat): char
    requires d < 10
  {
    ('0' as int + d) as char
  }

  /** `str(n)` for a natural number. */
  function Digits(n: nat): (s: string)
    ensures |s| > 0
    ensures forall i :: 0 <= i < |s| ==> IsDigit(s[i])
  {
    if n < 10 then [DigitChar(n)] else Digits(n / 10) + [DigitChar(n % 10)]
  }

  /** `str(k)` for an integer. */
  function Decimal(k: int): string {
    if k < 0 then ['-'] + Digits(-k) else Digits(k)
  }

  lemma {:induction false} DigitsValueOfDigits(n: nat)
    ensures DigitsValue(Digits(n)) == n
  {
    if n >= 10 {
      DigitsValueOfDigits(n / 10);
      var s := Digits(n);
      assert s[..|s| - 1] == Digits(n / 10);
    }
  }

  lemma DigitsForm(n: nat)
    ensures IsDigitGroup(Digits(n)) && NoSpace(Digits(n))
  {
    var d := Digits(n);
    forall i: nat | i < |d| ensures DigitOrJoiner(d, i) { }
  }

  lemma ParseDigits(m: nat)
    ensures ParseInt(Digits(m)) == Some(m)
  {
    var d := Digits(m);
    DigitsValueOfDigits(m);
    DigitsForm(m);
    assert Strip(d) == d;
    assert !(d[0] == '+' || d[0] == '-');
  }

  lemma ParseNegative(m: nat)
    ensures ParseInt(['-'] + Digits(m)) == Some(-(m as int))
  {
    var d := Digits(m);
    var s := ['-'] + d;
    DigitsValueOfDigits(m);
    DigitsForm(m);
    assert NoSpace(s) by {
      forall i | 0 <= i < |s| ensures !IsSpace(s[i]) {
        if i > 0 { assert s[i] == d[i - 1]; }
      }
    }
    assert Strip(s) == s;
    assert s[1..] == d;
  }

  /** `int(str(k)) == k`: the integer reader takes back what `str` prints. */
  lemma ParseDecimal(k: int)
    ensures ParseInt(Decimal(k)) == Some(k)
  {
    if k < 0 {
      assert Decimal(k) == ['-'] + Digits(-k);
      ParseNegative(-k);
    } else {
      assert Decimal(k) == Digits(k);
      ParseDigits(k);
    }
  }
}
