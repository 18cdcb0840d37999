/** `sanitize_filename` of `utils/file_utils.py` (the older `utils.py` has the
    same function with the replacement fixed to `"_"`). File names are
    handled as POSIX paths. */
module FileUtils {
  import opened Text

  /** The characters of `[<>:"/\\|?*]`, which a file name may not hold. */
  predicate IsIllegal(c: char) {
    c in {'<', '>', ':', '"', '/', '\\', '|', '?', '*'}
  }

  /** The control characters of `[\x00-\x1f\x7f-\x9f]`. */
  predicate IsControl(c: char) {
    c <= '\U{001F}' || ('\U{007F}' <= c <= '\U{009F}')
  }

  /** The longest file name kept whole. */
  const MaxLength: nat := 255

  /** Every character of `t` occurs in `s`. */
  ghost predicate CharsIn(t: string, s: string) {
    forall k :: 0 <= k < |t| ==> t[k] in s
  }

  /** No character of `s` is illegal. */
  predicate Legal(s: string) {
    forall k :: 0 <= k < |s| ==> !IsIllegal(s[k])
  }

  /** `FILENAME_ILLEGAL_PATTERN.sub(replacement, s)`. */
  function ReplaceIllegal(s: string, replacement: string): (r: string)
    ensures Legal(replacement) ==> Legal(r)
    ensures Legal(s) ==> r == s
    ensures forall k :: 0 <= k < |r| ==> r[k] in s || r[k] in replacement
  {
    if s == [] then []
    else
      var rest := ReplaceIllegal(s[1..], replacement);
      var r := (if IsIllegal(s[0]) then replacement else [s[0]]) + rest;
      assert forall k :: 0 <= k < |rest| ==> rest[k] in s[1..] || rest[k] in replacement;
      r
  }

  /** `FILENAME_CONTROL_PATTERN.sub("", s)`: the control characters dropped,
      the rest kept in order. */
  function RemoveControl(s: string): (r: string)
    ensures forall k :: 0 <= k < |r| ==> !IsControl(r[k]) && r[k] in s
    ensures (forall k :: 0 <= k < |s| ==> !IsControl(s[k])) ==> r == s
  {
    if s == [] then []
    else if IsControl(s[0]) then RemoveControl(s[1..])
    else [s[0]] + RemoveControl(s[1..])
  }

  /** The last component of `parts` that is neither empty nor `.`. */
  function LastProper(parts: seq<string>): (name: string)
    ensures name == "" || name in parts
  {
    if parts == [] then ""
    else
      var p := parts[|parts| - 1];
      if p != "" && p != "." then p else LastProper(parts[..|parts| - 1])
  }

  /** `Path(s).name` for a POSIX path: empty and `.` components do not count. */
  function PathName(s: string): string {
    LastProper(Split(s, "/"))
  }

  /** `name.rfind(".")`. */
  function RFindDot(name: string): (i: int)
    ensures -1 <= i < |name|
    ensures i >= 0 ==> name[i] == '.' && forall k :: i < k < |name| ==> name[k] != '.'
    ensures i < 0 ==> forall k :: 0 <= k < |name| ==> name[k] != '.'
  {
    if name == [] then -1
    else if name[|name| - 1] == '.' then |name| - 1
    else RFindDot(name[..|name| - 1])
  }

  /** `PurePath.suffix`: from the last dot, unless that dot starts or ends
      the name. */
  function Suffix(name: string): string {
    var i := RFindDot(name);
    if 0 < i < |name| - 1 then name[i..] else ""
  }

  /** `PurePath.stem`: the name without its suffix. */
  function Stem(name: string): string {
    var i := RFindDot(name);
    if 0 < i < |name| - 1 then name[..i] else name
  }

  /** `s[:n]` with Python's reading of a negative `n` (count from the end). */
  function SliceTo(s: string, n: int): (r: string)
    ensures r <= s
    ensures n >= 0 ==> |r| == if n < |s| then n else |s|
    ensures n < 0 ==> |r| == if |s| + n > 0 then |s| + n else 0
  {
    if n >= 0 then (if n < |s| then s[..n] else s)
    else if |s| + n > 0 then s[..|s| + n] else []
  }

  /** The length limit: a name over 255 characters keeps a prefix of its stem
      and its whole suffix. */
  function Truncate(s: string): string {
    if |s| > MaxLength then
      var name := PathName(s);
      var ext := Suffix(name);
      SliceTo(Stem(name), MaxLength - |ext|) + ext
    else s
  }

  /** `sanitize_filename(filename, replacement)`. */
  function SanitizeFilename(filename: string, replacement: string): (r: string)
    ensures forall k :: 0 <= k < |r| ==> !IsControl(r[k])
    ensures r != [] ==> !IsSpace(r[0]) && !IsSpace(r[|r| - 1])
  {
    var t := Truncate(RemoveControl(ReplaceIllegal(filename, replacement)));
    TruncateWithin(RemoveControl(ReplaceIllegal(filename, replacement)));
    StripWithin(t, Whitespace);
    Strip(t)
  }

  // ---------------------------------------------------------------------
  // Lemmas

  /** The stem and the suffix make up the name again. */
  lemma StemSuffix(name: string)
    ensures Stem(name) + Suffix(name) == name
  {
  }

  /** Every piece of a split is made of characters of the string. */
  lemma {:induction false} SplitWithin(s: string, sep: string)
    requires sep != []
    ensures forall p :: p in Split(s, sep) ==> CharsIn(p, s)
    decreases |s|
  {
    var i := Find(s, sep);
    if i >= 0 {
      var rest := s[i + |sep|..];
      SplitWithin(rest, sep);
      assert Split(s, sep) == [s[..i]] + Split(rest, sep);
      forall p | p in Split(rest, sep) ensures CharsIn(p, s) {
        forall k | 0 <= k < |p| ensures p[k] in s {
          assert p[k] in rest;
          var m :| 0 <= m < |rest| && rest[m] == p[k];
          assert s[i + |sep| + m] == p[k];
        }
      }
    }
  }

  /** Truncation only keeps characters it was given. */
  lemma TruncateWithin(s: string)
    ensures CharsIn(Truncate(s), s)
  {
    if |s| > MaxLength {
      var name := PathName(s);
      NameWithin(s);
      var t := SliceTo(Stem(name), MaxLength - |Suffix(name)|) + Suffix(name);
      ShortenedWithin(name, MaxLength - |Suffix(name)|);
      forall k | 0 <= k < |t| ensures t[k] in s {
        assert t[k] in name;
      }
    }
  }

  lemma NameWithin(s: string)
    ensures CharsIn(PathName(s), s)
  {
    SplitWithin(s, "/");
  }

  lemma ShortenedWithin(name: string, n: int)
    ensures CharsIn(SliceTo(Stem(name), n) + Suffix(name), name)
  {
    var i := RFindDot(name);
    var t := SliceTo(Stem(name), n) + Suffix(name);
    forall k | 0 <= k < |t| ensures t[k] in name {
      if k < |SliceTo(Stem(name), n)| {
        assert t[k] == Stem(name)[k];
      } else {
        assert t[k] == name[i + k - |SliceTo(Stem(name), n)|];
      }
    }
  }

  /** With a legal replacement (as the default `"_"` is), a sanitised name
      holds no illegal and no control character. */
  lemma SanitizeClean(filename: string, replacement: string)
    requires Legal(replacement)
    ensures Legal(SanitizeFilename(filename, replacement))
  {
    var a := ReplaceIllegal(filename, replacement);
    var b := RemoveControl(a);
    var t := Truncate(b);
    TruncateWithin(b);
    StripWithin(t, Whitespace);
    var r := SanitizeFilename(filename, replacement);
    forall k | 0 <= k < |r| ensures !IsIllegal(r[k]) {
      assert r[k] in t;
      var m :| 0 <= m < |t| && t[m] == r[k];
      var n :| 0 <= n < |b| && b[n] == t[m];
      var q :| 0 <= q < |a| && a[q] == b[n];
    }
  }

  /** A name that is already clean is returned unchanged. */
  lemma SanitizeUnchanged(filename: string, replacement: string)
    requires |filename| <= MaxLength && Legal(filename)
    requires forall k :: 0 <= k < |filename| ==> !IsControl(filename[k])
    requires filename == [] || (!IsSpace(filename[0]) && !IsSpace(filename[|filename| - 1]))
    ensures SanitizeFilename(filename, replacement) == filename
  {
    if filename != [] {
      StripUnchanged(filename);
    }
  }

  /** A long name without a directory separator is cut to exactly 255
      characters before stripping, when its suffix fits. */
  lemma TruncateLength(s: string)
    requires |s| > MaxLength && '/' !in s && |Suffix(s)| <= MaxLength
    ensures |Truncate(s)| == MaxLength
    ensures Truncate(s)[MaxLength - |Suffix(s)|..] == Suffix(s)
  {
    NoFirstCharNoOccurrence(s, "/");
    assert Split(s, "/") == [s];
    assert s != "" && s != ".";
    assert PathName(s) == s;
    StemSuffix(s);
  }
}
