/** The Python `str` operations the modelled code relies on. Case mapping and
    the alphanumeric test cover ASCII letters and digits only. */
module Text {
  import opened Wrappers

  /** The characters for which Python's `str.isspace()` is true. */
  const Whitespace: set<char> := {
    '\U{0009}', '\U{000A}', '\U{000B}', '\U{000C}', '\U{000D}', '\U{001C}', '\U{001D}', '\U{001E}',
    '\U{001F}', '\U{0020}', '\U{0085}', '\U{00A0}', '\U{1680}', '\U{2000}', '\U{2001}', '\U{2002}',
    '\U{2003}', '\U{2004}', '\U{2005}', '\U{2006}', '\U{2007}', '\U{2008}', '\U{2009}', '\U{200A}',
    '\U{2028}', '\U{2029}', '\U{202F}', '\U{205F}', '\U{3000}'
  }

  predicate IsSpace(c: char) {
    c in Whitespace
  }

  /** Concatenation regrouped; stated once so that long proofs need not
      rediscover it. */
  lemma AppendAssoc<T>(a: seq<T>, b: seq<T>, c: seq<T>)
    ensures a + b + c == a + (b + c)
  {
  }

  // ---------------------------------------------------------------------
  // Stripping

  /** `s.lstrip(chars)`: drops the longest prefix made of `chars`. */
  function LStrip(s: string, chars: set<char>): (r: string)
    ensures |r| <= |s| && r == s[|s| - |r|..]
    ensures forall k :: 0 <= k < |s| - |r| ==> s[k] in chars
    ensures r != [] ==> r[0] !in chars
  {
    if s != [] && s[0] in chars then LStrip(s[1..], chars) else s
  }

  /** `s.rstrip(chars)`: drops the longest suffix made of `chars`. */
  function RStrip(s: string, chars: set<char>): (r: string)
    ensures r <= s
    ensures forall k :: |r| <= k < |s| ==> s[k] in chars
    ensures r != [] ==> r[|r| - 1] !in chars
  {
    if s != [] && s[|s| - 1] in chars then RStrip(s[..|s| - 1], chars) else s
  }

  /** `s.strip(chars)`. */
  function StripChars(s: string, chars: set<char>): (r: string)
    ensures |r| <= |s|
    ensures r != [] ==> r[0] !in chars && r[|r| - 1] !in chars
  {
    RStrip(LStrip(s, chars), chars)
  }

  /** `s.strip()`. */
  function Strip(s: string): (r: string)
    ensures |r| <= |s|
    ensures r != [] ==> !IsSpace(r[0]) && !IsSpace(r[|r| - 1])
  {
    StripChars(s, Whitespace)
  }

  /** A string with no surrounding characters from `chars` is its own strip. */
  lemma {:induction false} StripCharsIdempotent(s: string, chars: set<char>)
    requires s == [] || (s[0] !in chars && s[|s| - 1] !in chars)
    ensures StripChars(s, chars) == s
  {
  }

  /** Stripping only removes characters: what is left is a slice of `s`. */
  lemma StripWithin(s: string, chars: set<char>)
    ensures forall k :: 0 <= k < |StripChars(s, chars)| ==> StripChars(s, chars)[k] in s
  {
    var l := LStrip(s, chars);
    var r := RStrip(l, chars);
    forall k | 0 <= k < |r| ensures r[k] in s {
      assert r[k] == l[k] == s[|s| - |l| + k];
    }
  }

  /** Stripping twice is stripping once. */
  lemma {:induction false} StripTwice(s: string, chars: set<char>)
    ensures StripChars(StripChars(s, chars), chars) == StripChars(s, chars)
  {
    StripCharsIdempotent(StripChars(s, chars), chars);
  }

  // ---------------------------------------------------------------------
  // Searching

  /** `sub` occurs in `s` starting at `i`. */
  predicate OccursAt(s: string, sub: string, i: int) {
    0 <= i && i + |sub| <= |s| && s[i..i + |sub|] == sub
  }

  /** `s.find(sub)`: the first position where `sub` occurs, or -1. */
  function Find(s: string, sub: string): (i: int)
    ensures -1 <= i <= |s|
    ensures i >= 0 ==> OccursAt(s, sub, i)
    ensures i >= 0 ==> forall j :: 0 <= j < i ==> !OccursAt(s, sub, j)
    ensures i < 0 ==> forall j :: 0 <= j <= |s| ==> !OccursAt(s, sub, j)
  {
    if |s| < |sub| then -1
    else if s[..|sub|] == sub then 0
    else
      var r := Find(s[1..], sub);
      assert forall j :: 1 <= j <= |s| ==> (OccursAt(s, sub, j) <==> OccursAt(s[1..], sub, j - 1));
      if r < 0 then -1 else r + 1
  }

  /** `sub in s`. */
  predicate Contains(s: string, sub: string) {
    Find(s, sub) >= 0
  }

  /** A string that occurs nowhere is not contained. */
  lemma NowhereNotContained(s: string, sub: string)
    requires forall j :: !OccursAt(s, sub, j)
    ensures !Contains(s, sub)
  {
  }

  lemma ContainsChar(s: string, c: char)
    ensures Contains(s, [c]) <==> c in s
  {
    if c in s {
      var j :| 0 <= j < |s| && s[j] == c;
      assert s[j..j + 1] == [c];
      assert OccursAt(s, [c], j);
    }
    if Contains(s, [c]) {
      var i := Find(s, [c]);
      assert s[i..i + 1] == [c];
      assert s[i] == c;
    }
  }

  // ---------------------------------------------------------------------
  // Splitting and joining

  /** `s.split(sep)` for a non-empty separator. */
  function Split(s: string, sep: string): (parts: seq<string>)
    requires sep != []
    ensures |parts| >= 1
    ensures forall p :: p in parts ==> !Contains(p, sep)
    decreases |s|
  {
    var i := Find(s, sep);
    if i < 0 then [s]
    else
      assert forall j :: 0 <= j <= i ==> !OccursAt(s[..i], sep, j) by {
        forall j | 0 <= j <= i ensures !OccursAt(s[..i], sep, j) {
          if j + |sep| <= i {
            assert s[..i][j..j + |sep|] == s[j..j + |sep|];
            assert !OccursAt(s, sep, j);
          }
        }
      }
      [s[..i]] + Split(s[i + |sep|..], sep)
  }

  /** `sep.join(parts)`. */
  function Join(parts: seq<string>, sep: string): string {
    if parts == [] then ""
    else if |parts| == 1 then parts[0]
    else parts[0] + sep + Join(parts[1..], sep)
  }

  /** Joining the pieces of a split gives back the string. */
  lemma {:induction false} JoinSplit(s: string, sep: string)
    requires sep != []
    ensures Join(Split(s, sep), sep) == s
    decreases |s|
  {
    var i := Find(s, sep);
    if i >= 0 {
      var rest := s[i + |sep|..];
      var parts := Split(s, sep);
      assert parts == [s[..i]] + Split(rest, sep);
      assert parts[1..] == Split(rest, sep);
      JoinSplit(rest, sep);
      assert Join(parts, sep) == s[..i] + sep + Join(parts[1..], sep);
      assert s == s[..i] + sep + rest;
    }
  }

  /** Splitting a join gives back the pieces, provided no piece holds the
      separator's first character (so every occurrence is a separator). */
  lemma {:induction false} SplitJoin(parts: seq<string>, sep: string)
    requires sep != [] && parts != []
    requires forall p :: p in parts ==> sep[0] !in p
    ensures Split(Join(parts, sep), sep) == parts
    decreases |parts|
  {
    var s := Join(parts, sep);
    if |parts| == 1 {
      NoFirstCharNoOccurrence(parts[0], sep);
    } else {
      var rest := Join(parts[1..], sep);
      assert s == parts[0] + sep + rest;
      var n := |parts[0]|;
      assert OccursAt(s, sep, n) by {
        assert s[n..n + |sep|] == sep;
      }
      assert parts[0] in parts;
      forall j | 0 <= j < n ensures !OccursAt(s, sep, j) {
        assert s[j] == parts[0][j];
        assert s[j] != sep[0];
        if j + |sep| <= |s| {
          assert s[j..j + |sep|][0] == s[j];
        }
      }
      assert Find(s, sep) == n;
      assert s[..n] == parts[0];
      assert s[n + |sep|..] == rest;
      assert Split(s, sep) == [parts[0]] + Split(rest, sep);
      assert forall p :: p in parts[1..] ==> p in parts;
      SplitJoin(parts[1..], sep);
      assert parts == [parts[0]] + parts[1..];
    }
  }

  lemma NoFirstCharNoOccurrence(s: string, sep: string)
    requires sep != [] && sep[0] !in s
    ensures Find(s, sep) < 0
  {
  }

  // ---------------------------------------------------------------------
  // Replacing

  /** `s.replace(pat, rep)`: every non-overlapping occurrence, left to right;
      an empty `pat` matches before every character and at the end. */
  function ReplaceAll(s: string, pat: string, rep: string): string
    decreases |s|
  {
    if pat == [] then
      if s == [] then rep else rep + [s[0]] + ReplaceAll(s[1..], pat, rep)
    else
      var i := Find(s, pat);
      if i < 0 then s else s[..i] + rep + ReplaceAll(s[i + |pat|..], pat, rep)
  }

  /** Replacing a string that does not occur changes nothing. */
  lemma ReplaceAbsent(s: string, pat: string, rep: string)
    requires pat != [] && !Contains(s, pat)
    ensures ReplaceAll(s, pat, rep) == s
  {
  }

  /** Replacing a string by itself changes nothing. */
  lemma {:induction false} ReplaceSelf(s: string, pat: string)
    ensures ReplaceAll(s, pat, pat) == s
    decreases |s|
  {
    if pat == [] {
      if s != [] {
        ReplaceSelf(s[1..], pat);
        assert s == [s[0]] + s[1..];
      }
    } else {
      var i := Find(s, pat);
      if i >= 0 {
        ReplaceSelf(s[i + |pat|..], pat);
        assert s == s[..i] + s[i..i + |pat|] + s[i + |pat|..];
      }
    }
  }

  /** Replacing one character by another rewrites exactly those positions. */
  lemma {:induction false} ReplaceChar(s: string, a: char, b: char)
    ensures |ReplaceAll(s, [a], [b])| == |s|
    ensures forall k :: 0 <= k < |s| ==> ReplaceAll(s, [a], [b])[k] == if s[k] == a then b else s[k]
    decreases |s|
  {
    var i := Find(s, [a]);
    FindChar(s, a);
    if i >= 0 {
      var r := ReplaceAll(s[i + 1..], [a], [b]);
      ReplaceChar(s[i + 1..], a, b);
      var out := s[..i] + [b] + r;
      assert ReplaceAll(s, [a], [b]) == out;
      forall k | 0 <= k < |s| ensures out[k] == if s[k] == a then b else s[k] {
        if k < i {
          assert out[k] == s[..i][k];
        } else if k > i {
          assert out[k] == r[k - i - 1] && s[i + 1..][k - i - 1] == s[k];
        }
      }
    }
  }

  /** `s.find(c)` for one character: the first `c`, or -1 when there is none. */
  lemma FindChar(s: string, c: char)
    ensures Find(s, [c]) >= 0 ==> Find(s, [c]) < |s| && s[Find(s, [c])] == c && c !in s[..Find(s, [c])]
    ensures Find(s, [c]) < 0 ==> c !in s
  {
    var i := Find(s, [c]);
    if i >= 0 {
      assert s[i..i + 1] == [c];
      forall k | 0 <= k < i ensures s[..i][k] != c {
        NotAt(s, c, k);
      }
    } else {
      forall k | 0 <= k < |s| ensures s[k] != c {
        NotAt(s, c, k);
      }
    }
  }

  lemma NotAt(s: string, c: char, k: nat)
    requires k < |s| && !OccursAt(s, [c], k)
    ensures s[k] != c
  {
    assert s[k..k + 1] == [s[k]];
  }

  /** `s` with every `c` deleted. */
  function DeleteChar(s: string, c: char): (r: string)
    ensures forall x :: x in r <==> x in s && x != c
    ensures |r| <= |s|
  {
    if s == [] then [] else (if s[0] == c then [] else [s[0]]) + DeleteChar(s[1..], c)
  }

  lemma {:induction false} DeleteAppend(a: string, b: string, c: char)
    ensures DeleteChar(a + b, c) == DeleteChar(a, c) + DeleteChar(b, c)
    decreases |a|
  {
    if a == [] {
      assert a + b == b;
    } else {
      assert (a + b)[1..] == a[1..] + b;
      DeleteAppend(a[1..], b, c);
    }
  }

  lemma {:induction false} DeleteAbsent(s: string, c: char)
    requires c !in s
    ensures DeleteChar(s, c) == s
    decreases |s|
  {
    if s != [] {
      DeleteAbsent(s[1..], c);
    }
  }

  /** `s.replace(c, "")` deletes every `c`. */
  lemma {:induction false} ReplaceDelete(s: string, c: char)
    ensures ReplaceAll(s, [c], []) == DeleteChar(s, c)
    decreases |s|
  {
    var i := Find(s, [c]);
    FindChar(s, c);
    if i >= 0 {
      var pre, rest := s[..i], s[i + 1..];
      ReplaceDelete(rest, c);
      assert ReplaceAll(s, [c], []) == pre + ReplaceAll(rest, [c], []) by {
        AppendEmpty(pre);
      }
      SplitAround(s, i);
      DeleteAround(pre, c, rest);
    } else {
      DeleteAbsent(s, c);
    }
  }

  /** A string is what precedes position `i`, the character there, and what
      follows. */
  lemma SplitAround<T>(s: seq<T>, i: nat)
    requires i < |s|
    ensures s == s[..i] + [s[i]] + s[i + 1..]
  {
  }

  lemma AppendEmpty(s: string)
    ensures s + [] == s
  {
  }

  /** Deleting `c` around its first occurrence keeps what precedes it. */
  lemma DeleteAround(pre: string, c: char, rest: string)
    requires c !in pre
    ensures DeleteChar(pre + [c] + rest, c) == pre + DeleteChar(rest, c)
  {
    DeleteAppend(pre + [c], rest, c);
    DeleteLast(pre, c);
  }

  lemma DeleteLast(pre: string, c: char)
    requires c !in pre
    ensures DeleteChar(pre + [c], c) == pre
  {
    DeleteAbsent(pre, c);
    DeleteAppend(pre, [c], c);
    assert DeleteChar([c], c) == [];
  }

  /** `p` is where a line begins: the start of the text or just after a
      newline (the `^` of a multi-line pattern). */
  predicate LineStart(text: string, p: int) {
    0 <= p <= |text| && (p == 0 || text[p - 1] == '\n')
  }

  /** The line boundaries of `str.splitlines()`; "\r\n" counts as one. */
  predicate IsLineBreak(c: char) {
    c in {'\U{000A}', '\U{000D}', '\U{000B}', '\U{000C}', '\U{001C}', '\U{001D}', '\U{001E}', '\U{0085}', '\U{2028}', '\U{2029}'}
  }

  /** The position of the first line break in `s`, or `|s|`. */
  function LineEnd(s: string): (i: nat)
    ensures i <= |s|
    ensures forall k :: 0 <= k < i ==> !IsLineBreak(s[k])
    ensures i < |s| ==> IsLineBreak(s[i])
  {
    if s == [] || IsLineBreak(s[0]) then 0 else 1 + LineEnd(s[1..])
  }

  /** `s.splitlines()`: the lines without their terminators; a final
      terminator does not start an extra empty line. */
  function SplitLines(s: string): (lines: seq<string>)
    ensures forall l :: l in lines ==> forall k :: 0 <= k < |l| ==> !IsLineBreak(l[k])
    ensures s == [] <==> lines == []
    decreases |s|
  {
    if s == [] then []
    else
      var i := LineEnd(s);
      var line := s[..i];
      if i == |s| then [line]
      else
        var next := if s[i] == '\r' && i + 1 < |s| && s[i + 1] == '\n' then i + 2 else i + 1;
        [line] + SplitLines(s[next..])
  }

  // ---------------------------------------------------------------------
  // Case and character classes (ASCII)

  predicate IsAsciiUpper(c: char) { 'A' <= c <= 'Z' }
  predicate IsAsciiLower(c: char) { 'a' <= c <= 'z' }
  predicate IsAsciiLetter(c: char) { IsAsciiUpper(c) || IsAsciiLower(c) }
  predicate IsDigit(c: char) { '0' <= c <= '9' }
  predicate IsAlnumChar(c: char) { IsAsciiLetter(c) || IsDigit(c) }

  /** `s.isalnum()`: non-empty and every character a letter or digit. */
  predicate IsAlnum(s: string) {
    s != [] && forall k :: 0 <= k < |s| ==> IsAlnumChar(s[k])
  }

  /** `s.isdigit()` restricted to ASCII digits. */
  predicate IsDigits(s: string) {
    s != [] && forall k :: 0 <= k < |s| ==> IsDigit(s[k])
  }

  function UpperChar(c: char): (u: char)
    ensures !IsAsciiLower(u)
    ensures !IsAsciiLower(c) ==> u == c
  {
    if IsAsciiLower(c) then (c as int - 32) as char else c
  }

  function LowerChar(c: char): (l: char)
    ensures !IsAsciiUpper(l)
    ensures !IsAsciiUpper(c) ==> l == c
  {
    if IsAsciiUpper(c) then (c as int + 32) as char else c
  }

  /** `s.upper()`. */
  function Upper(s: string): (u: string)
    ensures |u| == |s|
    ensures forall k :: 0 <= k < |s| ==> u[k] == UpperChar(s[k])
  {
    if s == [] then [] else [UpperChar(s[0])] + Upper(s[1..])
  }

  /** `s.lower()`. */
  function Lower(s: string): (l: string)
    ensures |l| == |s|
    ensures forall k :: 0 <= k < |s| ==> l[k] == LowerChar(s[k])
  {
    if s == [] then [] else [LowerChar(s[0])] + Lower(s[1..])
  }

  /** Upper-casing is idempotent. */
  lemma UpperIdempotent(s: string)
    ensures Upper(Upper(s)) == Upper(s)
  {
    assert forall k :: 0 <= k < |s| ==> UpperChar(UpperChar(s[k])) == UpperChar(s[k]);
  }

  lemma LowerIdempotent(s: string)
    ensures Lower(Lower(s)) == Lower(s)
  {
    assert forall k :: 0 <= k < |s| ==> LowerChar(LowerChar(s[k])) == LowerChar(s[k]);
  }

  // ---------------------------------------------------------------------
  // Integers in decimal

  function DigitChar(d: nat): (c: char)
    requires d < 10
    ensures IsDigit(c)
  {
    ('0' as int + d) as char
  }

  function DigitValue(c: char): (d: nat)
    requires IsDigit(c)
    ensures d < 10 && DigitChar(d) == c
  {
    (c as int - '0' as int)
  }

  /** The decimal digits of `n`, with no leading zero. */
  function NatToString(n: nat): (s: string)
    ensures IsDigits(s)
    ensures |s| > 1 ==> s[0] != '0'
    decreases n
  {
    if n < 10 then [DigitChar(n)] else NatToString(n / 10) + [DigitChar(n % 10)]
  }

  /** `str(i)` for an integer. */
  function IntToString(i: int): (s: string)
    ensures s != []
    ensures i < 0 <==> s[0] == '-'
  {
    if i < 0 then "-" + NatToString(-i) else NatToString(i)
  }

  /** The value of a run of decimal digits; underscores are skipped. */
  function DigitsValue(s: string): (n: nat)
    requires forall k :: 0 <= k < |s| ==> IsDigit(s[k]) || s[k] == '_'
    decreases |s|
  {
    if s == [] then 0
    else if s[|s| - 1] == '_' then DigitsValue(s[..|s| - 1])
    else DigitsValue(s[..|s| - 1]) * 10 + DigitValue(s[|s| - 1])
  }

  /** Reading back the decimal digits of `n` gives `n`. */
  lemma {:induction false} NatRoundTrip(n: nat)
    ensures DigitsValue(NatToString(n)) == n
    decreases n
  {
    if n >= 10 {
      NatRoundTrip(n / 10);
      var s := NatToString(n);
      assert s[..|s| - 1] == NatToString(n / 10);
    } else {
      assert NatToString(n)[..0] == [];
    }
  }

  /** Digits in groups separated by single underscores, as Python's integer
      syntax allows them. */
  predicate WellGrouped(s: string) {
    s != [] && IsDigit(s[0]) && IsDigit(s[|s| - 1]) && forall k :: 0 <= k < |s| ==> GroupedAt(s, k)
  }

  /** A digit, or an underscore followed by a digit. */
  predicate GroupedAt(s: string, k: nat)
    requires k < |s|
  {
    IsDigit(s[k]) || (s[k] == '_' && k + 1 < |s| && IsDigit(s[k + 1]))
  }

  /** Python's `int(s)`: optional surrounding whitespace, an optional sign,
      then well-grouped digits; `None` where Python raises `ValueError`. */
  function ParseInt(s: string): (r: Option<int>)
    ensures r.Some? ==> Strip(s) != []
  {
    ParseSigned(Strip(s))
  }

  /** An optional sign followed by well-grouped digits. */
  function ParseSigned(t: string): (r: Option<int>)
    ensures r.Some? ==> t != []
  {
    if t == [] then None
    else if (t[0] == '-' || t[0] == '+') && WellGrouped(t[1..]) then
      var n: int := GroupsValue(t[1..]);
      Some(if t[0] == '-' then -n else n)
    else if WellGrouped(t) then Some(GroupsValue(t))
    else None
  }

  function GroupsValue(s: string): nat
    requires WellGrouped(s)
  {
    GroupedChars(s);
    DigitsValue(s)
  }

  lemma GroupedChars(s: string)
    requires WellGrouped(s)
    ensures forall k :: 0 <= k < |s| ==> IsDigit(s[k]) || s[k] == '_'
  {
    forall k | 0 <= k < |s| ensures IsDigit(s[k]) || s[k] == '_' {
      assert GroupedAt(s, k);
    }
  }

  /** A string without surrounding whitespace is its own strip. */
  lemma StripUnchanged(s: string)
    requires s != [] && !IsSpace(s[0]) && !IsSpace(s[|s| - 1])
    ensures Strip(s) == s
  {
    StripCharsIdempotent(s, Whitespace);
  }

  /** The decimal digits of `n` parse back to `n`. */
  lemma ParseNat(n: nat)
    ensures WellGrouped(NatToString(n))
    ensures GroupsValue(NatToString(n)) == n
    ensures ParseSigned(NatToString(n)) == Some(n)
  {
    var d := NatToString(n);
    NatRoundTrip(n);
    assert WellGrouped(d);
    assert d[0] != '-' && d[0] != '+';
  }

  /** Digits and the minus sign are not whitespace. */
  lemma NotSpace(c: char)
    requires IsDigit(c) || c == '-'
    ensures !IsSpace(c)
  {
  }

  /** A minus sign before well-grouped digits negates their value. */
  lemma ParseNegative(d: string)
    requires WellGrouped(d)
    ensures ParseSigned("-" + d) == Some(-(GroupsValue(d) as int))
  {
    var s := "-" + d;
    assert s[0] == '-' && s[1..] == d;
  }

  /** The text of a negative number is its own strip. */
  lemma NegativeStripped(i: int)
    requires i < 0
    ensures IntToString(i) == "-" + NatToString(-i)
    ensures Strip(IntToString(i)) == IntToString(i)
  {
    var d := NatToString(-i);
    var s := IntToString(i);
    NatRoundTrip(-i);
    NotSpace(d[|d| - 1]);
    assert s[|s| - 1] == d[|d| - 1];
    NotSpace('-');
    StripUnchanged(s);
  }

  /** The text of a negative number parses back. */
  lemma NegativeRoundTrip(i: int)
    requires i < 0
    ensures ParseInt(IntToString(i)) == Some(i)
  {
    var n: nat := -i;
    NegativeStripped(i);
    ParseNat(n);
    ParseNegative(NatToString(n));
  }

  /** The text of a number that is not negative is its own strip and parses
      back. */
  lemma NonNegativeRoundTrip(i: int)
    requires i >= 0
    ensures ParseInt(IntToString(i)) == Some(i)
  {
    var d := NatToString(i);
    assert IntToString(i) == d;
    ParseNat(i);
    NotSpace(d[0]);
    NotSpace(d[|d| - 1]);
    StripUnchanged(d);
  }

  /** `int(str(i)) == i`. */
  lemma IntRoundTrip(i: int)
    ensures ParseInt(IntToString(i)) == Some(i)
  {
    if i < 0 {
      NegativeRoundTrip(i);
    } else {
      NonNegativeRoundTrip(i);
    }
  }
}
