/** The version bump script: checks a new `MAJOR.MINOR.PATCH` version and
    rewrites it into the project files that carry the version. The files on
    disk are a map from path to text, passed in and handed back. */
module UpdateVersion {
  import opened Wrappers
  import opened Text

  // ---------------------------------------------------------------------
  // The version format

  /** The end of the run of ASCII digits that starts at `i`. */
  function DigitEnd(s: string, i: nat): (k: nat)
    requires i <= |s|
    ensures i <= k <= |s|
    ensures forall j :: i <= j < k ==> IsDigit(s[j])
    ensures k < |s| ==> !IsDigit(s[k])
    decreases |s| - i
  {
    if i == |s| || !IsDigit(s[i]) then i else DigitEnd(s, i + 1)
  }

  /** `validate_version`: the pattern `^\d+\.\d+\.\d+$` tried at the start.
      Each `\d+` is greedy and is followed by a non-digit, so no backtracking
      is needed; the final `$` also matches just before a last newline. */
  predicate ValidVersion(v: string) {
    var a := DigitEnd(v, 0);
    0 < a < |v| && v[a] == '.' &&
    var b := DigitEnd(v, a + 1);
    a + 1 < b < |v| && v[b] == '.' &&
    var c := DigitEnd(v, b + 1);
    b + 1 < c && (c == |v| || (c == |v| - 1 && v[c] == '\n'))
  }

  /** A version as its three digit runs and an optional final newline. */
  function VersionText(major: string, minor: string, patch: string, newline: bool): string {
    major + "." + minor + "." + patch + (if newline then "\n" else "")
  }

  /** A digit run that stops at `i + |d|` is found by `DigitEnd`. */
  lemma DigitRun(s: string, i: nat, d: string)
    requires IsDigits(d) && i + |d| <= |s| && s[i..i + |d|] == d
    requires i + |d| == |s| || !IsDigit(s[i + |d|])
    ensures DigitEnd(s, i) == i + |d|
  {
    assert forall j :: i <= j < i + |d| ==> s[j] == d[j - i];
  }

  /** Every `MAJOR.MINOR.PATCH` of digit runs is accepted, with or without a
      final newline. */
  lemma VersionAccepted(major: string, minor: string, patch: string, newline: bool)
    requires IsDigits(major) && IsDigits(minor) && IsDigits(patch)
    ensures ValidVersion(VersionText(major, minor, patch, newline))
  {
    var v := VersionText(major, minor, patch, newline);
    var a := |major|;
    var b := a + 1 + |minor|;
    var c := b + 1 + |patch|;
    VersionLayout(major, minor, patch, newline);
    DigitRun(v, 0, major);
    DigitRun(v, a + 1, minor);
    DigitRun(v, b + 1, patch);
  }

  lemma VersionLayout(major: string, minor: string, patch: string, newline: bool)
    requires IsDigits(major) && IsDigits(minor) && IsDigits(patch)
    ensures var v := VersionText(major, minor, patch, newline);
            var a := |major|;
            var b := a + 1 + |minor|;
            var c := b + 1 + |patch|;
            |v| == (if newline then c + 1 else c) &&
            v[..a] == major && v[a] == '.' && v[a + 1..b] == minor && v[b] == '.' && v[b + 1..c] == patch &&
            (c < |v| ==> v[c] == '\n')
  {
    var v := VersionText(major, minor, patch, newline);
    var tail := if newline then "\n" else "";
    var a := |major|;
    var b := a + 1 + |minor|;
    var c := b + 1 + |patch|;
    assert v == major + "." + minor + "." + patch + tail;
    assert v[..a] == major;
    assert v[a + 1..b] == minor;
    assert v[b + 1..c] == patch;
  }

  /** Every accepted version is three digit runs joined by dots, with at most
      a final newline after them. */
  lemma VersionParts(v: string) returns (major: string, minor: string, patch: string, newline: bool)
    requires ValidVersion(v)
    ensures IsDigits(major) && IsDigits(minor) && IsDigits(patch)
    ensures v == VersionText(major, minor, patch, newline)
  {
    var a := DigitEnd(v, 0);
    var b := DigitEnd(v, a + 1);
    var c := DigitEnd(v, b + 1);
    major, minor, patch := v[..a], v[a + 1..b], v[b + 1..c];
    newline := c < |v|;
    var tail := if newline then "\n" else "";
    assert v[c..] == tail;
    SplitAtDots(v, a, b, c);
  }

  /** A string cut at two single characters and one more position. */
  lemma SplitAtDots(v: string, a: nat, b: nat, c: nat)
    requires a < b < c <= |v| && v[a] == '.' && v[b] == '.'
    ensures v == v[..a] + "." + v[a + 1..b] + "." + v[b + 1..c] + v[c..]
  {
    assert v == v[..a] + [v[a]] + v[a + 1..b] + [v[b]] + v[b + 1..c] + v[c..];
  }

  /** An accepted version holds no double quote, and a newline only as its
      last character. */
  lemma VersionCharacters(v: string)
    requires ValidVersion(v)
    ensures forall k :: 0 <= k < |v| ==> v[k] != '"'
    ensures forall k :: 0 <= k < |v| - 1 ==> v[k] != '\n'
  {
    var a := DigitEnd(v, 0);
    var b := DigitEnd(v, a + 1);
    var c := DigitEnd(v, b + 1);
    forall k | 0 <= k < |v| ensures v[k] != '"' && (k < |v| - 1 ==> v[k] != '\n') {
      if k >= c {
        assert k == |v| - 1 && v[k] == '\n';
      } else if b < k {
        assert IsDigit(v[k]);
      } else if a < k < b {
        assert IsDigit(v[k]);
      } else if k < a {
        assert IsDigit(v[k]);
      }
    }
  }

  /** Neither stop character occurs in an accepted version without a final
      newline. */
  lemma StopNotInVersion(pat: Pattern, v: string)
    requires ValidVersion(v) && v[|v| - 1] != '\n'
    ensures pat.Stop() !in v
  {
    VersionCharacters(v);
  }

  // ---------------------------------------------------------------------
  // The two target patterns, in MULTILINE mode

  /** `Quoted(lead)` is `^<lead>([^"]+)"` and `ToLineEnd(lead)` is
      `^<lead>(.+)$`; the group is the version. */
  datatype Pattern = Quoted(lead: string) | ToLineEnd(lead: string) {
    /** The character the group cannot hold: a quote, or a newline for `.`. */
    function Stop(): char {
      if Quoted? then '"' else '\n'
    }

    /** `replacement.format(version=v)`: the lead, the version and, for a
        quoted value, the closing quote. */
    function Line(v: string): string {
      if Quoted? then lead + v + "\"" else lead + v
    }
  }

  /** Where a match's group starts and ends, and where the match ends. */
  datatype Span = Span(groupStart: nat, groupEnd: nat, end: nat)

  /** The end of the run of characters other than `stop` from `i`. */
  function RunEnd(s: string, i: nat, stop: char): (k: nat)
    requires i <= |s|
    ensures i <= k <= |s|
    ensures forall j :: i <= j < k ==> s[j] != stop
    ensures k < |s| ==> s[k] == stop
    decreases |s| - i
  {
    if i == |s| || s[i] == stop then i else RunEnd(s, i + 1, stop)
  }

  /** The pattern tried at `p`. The greedy group runs up to the first stop
      character; a quoted group then needs that quote, and `.+$` always ends
      at a line end. */
  function MatchAt(pat: Pattern, text: string, p: nat): (m: Option<Span>)
    requires p <= |text|
    ensures m.Some? ==> LineStart(text, p) && OccursAt(text, pat.lead, p)
    ensures m.Some? ==> p + |pat.lead| == m.value.groupStart < m.value.groupEnd <= m.value.end <= |text|
    ensures m.Some? ==> forall j :: m.value.groupStart <= j < m.value.groupEnd ==> text[j] != pat.Stop()
    ensures m.Some? && pat.Quoted? ==>
              m.value.groupEnd < |text| && text[m.value.groupEnd] == '"' && m.value.end == m.value.groupEnd + 1
    ensures m.Some? && pat.ToLineEnd? ==>
              m.value.end == m.value.groupEnd && (m.value.end == |text| || text[m.value.end] == '\n')
  {
    if !LineStart(text, p) || !OccursAt(text, pat.lead, p) then None
    else
      var q := p + |pat.lead|;
      var g := RunEnd(text, q, pat.Stop());
      if pat.Quoted? then
        if q < g < |text| then Some(Span(q, g, g + 1)) else None
      else
        if q < g then Some(Span(q, g, g)) else None
  }

  /** Why a line that opens with the lead does not match: the group would be
      empty, or a quoted group is never closed. */
  lemma NoMatchReason(pat: Pattern, text: string, p: nat)
    requires p <= |text| && MatchAt(pat, text, p).None?
    requires LineStart(text, p) && OccursAt(text, pat.lead, p)
    ensures var q := p + |pat.lead|;
            q == |text| || text[q] == pat.Stop() || (pat.Quoted? && RunEnd(text, q, '"') == |text|)
  {
  }

  /** `re.search` from `from`: the first position where the pattern matches. */
  function Search(pat: Pattern, text: string, from: nat): (r: Option<nat>)
    requires from <= |text|
    ensures r.Some? ==> from <= r.value <= |text| && MatchAt(pat, text, r.value).Some?
    ensures forall q :: from <= q <= |text| && (r.None? || q < r.value) ==> MatchAt(pat, text, q).None?
    decreases |text| - from
  {
    if MatchAt(pat, text, from).Some? then Some(from)
    else if from == |text| then None
    else Search(pat, text, from + 1)
  }

  /** `match.group(1)` of the first match, if any. */
  function FirstGroup(pat: Pattern, text: string): (r: Option<string>)
    ensures r.Some? <==> Search(pat, text, 0).Some?
    ensures r.Some? ==> r.value != [] && pat.Stop() !in r.value
  {
    match Search(pat, text, 0)
    case None => None
    case Some(p) =>
      var s := MatchAt(pat, text, p).value;
      Some(text[s.groupStart..s.groupEnd])
  }

  /** `re.sub` from position `i`: every match, left to right, becomes `rep`;
      the scan resumes where a match ends. */
  function SubFrom(pat: Pattern, rep: string, text: string, i: nat): string
    requires i <= |text|
    decreases |text| - i
  {
    match MatchAt(pat, text, i)
    case Some(s) => rep + SubFrom(pat, rep, text, s.end)
    case None => if i == |text| then [] else [text[i]] + SubFrom(pat, rep, text, i + 1)
  }

  /** `re.sub(pattern, rep, text, flags=re.MULTILINE)`. */
  function Sub(pat: Pattern, rep: string, text: string): string {
    SubFrom(pat, rep, text, 0)
  }

  /** With no match from `i` on, the rest of the text is kept as it is. */
  lemma {:induction false} SubUnmatched(pat: Pattern, rep: string, text: string, i: nat)
    requires i <= |text| && Search(pat, text, i).None?
    ensures SubFrom(pat, rep, text, i) == text[i..]
    decreases |text| - i
  {
    if i < |text| {
      assert MatchAt(pat, text, i).None?;
      SubUnmatched(pat, rep, text, i + 1);
      SubCopies(pat, rep, text, i);
      assert text[i..] == [text[i]] + text[i + 1..];
    }
  }

  /** Up to the first match the text is kept; the match becomes `rep`, and the
      scan goes on after it. */
  lemma SubFirst(pat: Pattern, rep: string, text: string, i: nat)
    requires i <= |text| && Search(pat, text, i).Some?
    ensures var p := Search(pat, text, i).value;
            SubFrom(pat, rep, text, i) == text[i..p] + rep + SubFrom(pat, rep, text, MatchAt(pat, text, p).value.end)
  {
    var p := Search(pat, text, i).value;
    var rest := SubFrom(pat, rep, text, MatchAt(pat, text, p).value.end);
    SubSkips(pat, rep, text, i, p);
    SubMatches(pat, rep, text, p);
    AppendAssoc(text[i..p], rep, rest);
  }

  /** Positions where nothing matches are copied one by one. */
  lemma {:induction false} SubSkips(pat: Pattern, rep: string, text: string, i: nat, p: nat)
    requires i <= p <= |text|
    requires forall q :: i <= q < p ==> MatchAt(pat, text, q).None?
    ensures SubFrom(pat, rep, text, i) == text[i..p] + SubFrom(pat, rep, text, p)
    decreases p - i
  {
    if i < p {
      var rest := SubFrom(pat, rep, text, p);
      var next := SubFrom(pat, rep, text, i + 1);
      assert next == text[i + 1..p] + rest by {
        SubSkips(pat, rep, text, i + 1, p);
      }
      assert SubFrom(pat, rep, text, i) == [text[i]] + next by {
        SubCopies(pat, rep, text, i);
      }
      ConsSlice(text, i, p, rest);
    }
  }

  lemma ConsSlice<T>(s: seq<T>, i: nat, p: nat, x: seq<T>)
    requires i < p <= |s|
    ensures [s[i]] + (s[i + 1..p] + x) == s[i..p] + x
  {
    assert s[i..p] == [s[i]] + s[i + 1..p];
  }

  /** Where the pattern matches, the scan writes `rep` and resumes after the
      match. */
  lemma SubMatches(pat: Pattern, rep: string, text: string, i: nat)
    requires i <= |text| && MatchAt(pat, text, i).Some?
    ensures SubFrom(pat, rep, text, i) == rep + SubFrom(pat, rep, text, MatchAt(pat, text, i).value.end)
  {
  }

  /** Where nothing matches, the scan copies the next character first. */
  lemma SubCopies(pat: Pattern, rep: string, text: string, i: nat)
    requires i < |text| && MatchAt(pat, text, i).None?
    ensures SubFrom(pat, rep, text, i) == [text[i]] + SubFrom(pat, rep, text, i + 1)
  {
  }

  // ---------------------------------------------------------------------
  // One file

  /** `VersionTarget`: the file, its name, the version pattern (which also
      fixes the replacement line) and whether the file may be missing. */
  datatype Target = Target(path: string, name: string, pattern: Pattern, optional: bool)

  /** The three version-carrying files under `root`. */
  function Targets(root: string): (ts: seq<Target>)
    ensures |ts| == 3 && DistinctPaths(ts)
    ensures ts[0].path == root + PyProject && ts[0].pattern == Quoted(VersionLead) && !ts[0].optional
    ensures !ts[1].optional && ts[2].optional
  {
    var ts := [Target(root + PyProject, "pyproject.toml", Quoted(VersionLead), false),
               Target(root + "/src/python_template/__init__.py", "__init__.py", Quoted("__version__ = \""), false),
               Target(root + "/.env.example", ".env.example", ToLineEnd("APP_VERSION="), true)];
    assert ts[0].path[|root| + 1] == 'p';
    assert ts[1].path[|root| + 1] == 's';
    assert ts[2].path[|root| + 1] == '.';
    ts
  }

  const PyProject: string := "/pyproject.toml"
  const VersionLead: string := "version = \""

  /** The paths of the targets, in order. */
  function PathsOf(ts: seq<Target>): (ps: seq<string>)
    ensures |ps| == |ts| && forall k :: 0 <= k < |ts| ==> ps[k] == ts[k].path
  {
    if ts == [] then [] else [ts[0].path] + PathsOf(ts[1..])
  }

  predicate DistinctPaths(ts: seq<Target>) {
    forall i, j :: 0 <= i < j < |ts| ==> ts[i].path != ts[j].path
  }

  /** The status `update_file` reports: OK, SKIP or ERROR. */
  datatype Status = Updated | Skipped | Failed

  datatype FileResult = FileResult(status: Status, message: string)

  /** The content `update_file` computes for a target. */
  function NewContent(t: Target, content: string, v: string): string {
    Sub(t.pattern, t.pattern.Line(v), content)
  }

  /** `update_file`: the decision for one target over the files as they are. */
  function UpdateFile(t: Target, files: map<string, string>, v: string): (r: FileResult)
    ensures t.path !in files ==> r.status == (if t.optional then Skipped else Failed)
    ensures t.path in files && FirstGroup(t.pattern, files[t.path]).None? ==>
              r.status == (if t.optional then Skipped else Failed)
    ensures r.status == Updated <==>
              t.path in files && FirstGroup(t.pattern, files[t.path]).Some? &&
              NewContent(t, files[t.path], v) != files[t.path]
    ensures r.status == Updated ==>
              r.message == "Updated " + t.name + ": " + FirstGroup(t.pattern, files[t.path]).value + " -> " + v
  {
    if t.path !in files then
      if t.optional then FileResult(Skipped, "Optional file not found: " + t.path)
      else FileResult(Failed, "Required file not found: " + t.path)
    else
      var content := files[t.path];
      match FirstGroup(t.pattern, content)
      case None =>
        if t.optional then FileResult(Skipped, "Version pattern not found in optional file: " + t.path)
        else FileResult(Failed, "Version pattern not found in " + t.path)
      case Some(previous) =>
        if NewContent(t, content, v) == content then FileResult(Skipped, "No changes made to " + t.path)
        else FileResult(Updated, "Updated " + t.name + ": " + previous + " -> " + v)
  }

  /** A file whose only match already carries `v` is left alone. */
  lemma AlreadyCurrentSkips(t: Target, files: map<string, string>, v: string)
    requires t.path in files && FirstGroup(t.pattern, files[t.path]) == Some(v)
    requires var text := files[t.path];
             var s := MatchAt(t.pattern, text, Search(t.pattern, text, 0).value).value;
             Search(t.pattern, text, s.end).None?
    ensures UpdateFile(t, files, v) == FileResult(Skipped, "No changes made to " + t.path)
  {
    SubSingleMatch(t.pattern, files[t.path]);
  }

  /** A match is the replacement line for its own group. */
  lemma MatchedLine(pat: Pattern, text: string, p: nat)
    requires p <= |text| && MatchAt(pat, text, p).Some?
    ensures var s := MatchAt(pat, text, p).value;
            text[p..s.end] == pat.Line(text[s.groupStart..s.groupEnd])
  {
    var s := MatchAt(pat, text, p).value;
    assert text[p..s.groupStart] == pat.lead;
    if pat.Quoted? {
      assert text[p..s.end] == text[p..s.groupStart] + text[s.groupStart..s.groupEnd] + text[s.groupEnd..s.end];
      assert text[s.groupEnd..s.end] == "\"";
    } else {
      assert text[p..s.end] == text[p..s.groupStart] + text[s.groupStart..s.groupEnd];
    }
  }

  /** Substituting the only match by its own line changes nothing. */
  lemma SubSingleMatch(pat: Pattern, text: string)
    requires FirstGroup(pat, text).Some?
    requires var s := MatchAt(pat, text, Search(pat, text, 0).value).value;
             Search(pat, text, s.end).None?
    ensures Sub(pat, pat.Line(FirstGroup(pat, text).value), text) == text
  {
    var p := Search(pat, text, 0).value;
    var s := MatchAt(pat, text, p).value;
    var rep := pat.Line(FirstGroup(pat, text).value);
    assert rep == pat.Line(text[s.groupStart..s.groupEnd]);
    MatchedLine(pat, text, p);
    SubFirst(pat, rep, text, 0);
    SubUnmatched(pat, rep, text, s.end);
    Reassemble(text, p, s.end);
  }

  lemma Reassemble(text: string, p: nat, e: nat)
    requires p <= e <= |text|
    ensures text[0..p] + text[p..e] + text[e..] == text
  {
    assert text[0..p] + text[p..e] == text[..e];
  }

  // ---------------------------------------------------------------------
  // Reading the new version back

  /** A position before `n` that does not match still does not match in a
      text that agrees on the first `n` characters: the decision reads no
      further than the character after the lead. */
  lemma NoMatchKept(pat: Pattern, text: string, text': string, q: nat, n: nat, close: nat)
    requires n <= |text| && n <= |text'| && text[..n] == text'[..n]
    requires q + |pat.lead| < n && MatchAt(pat, text, q).None?
    requires pat.Quoted? ==> q + |pat.lead| <= close < |text| && text[close] == '"'
    ensures MatchAt(pat, text', q).None?
  {
    assert forall j :: 0 <= j < n ==> text[j] == text'[j] by {
      forall j | 0 <= j < n ensures text[j] == text'[j] {
        assert text[..n][j] == text'[..n][j];
      }
    }
    if LineStart(text', q) && OccursAt(text', pat.lead, q) {
      assert text'[q..q + |pat.lead|] == text[q..q + |pat.lead|];
      var k := q + |pat.lead|;
      NoMatchReason(pat, text, q);
      assert text[k] == pat.Stop() by {
        if pat.Quoted? {
          assert RunEnd(text, k, '"') <= close;
        }
      }
    }
  }

  /** After the substitution the first match is where it was, and its group
      is the new version, provided that version is not empty and holds no
      stop character. */
  lemma ReadBack(pat: Pattern, text: string, v: string)
    requires Search(pat, text, 0).Some?
    requires v != [] && pat.Stop() !in v
    ensures FirstGroup(pat, Sub(pat, pat.Line(v), text)) == Some(v)
  {
    var rep := pat.Line(v);
    var p := Search(pat, text, 0).value;
    var s := MatchAt(pat, text, p).value;
    var rest := SubFrom(pat, rep, text, s.end);
    SubFirst(pat, rep, text, 0);
    var text' := Sub(pat, rep, text);
    assert text' == text[..p] + rep + rest by {
      assert text[0..p] == text[..p];
    }
    ReadBackBefore(pat, text, text', p, rep);
    if pat.ToLineEnd? {
      ReadBackTail(pat, text, rep, s.end);
    }
    assert p == 0 || text[..p][p - 1] == '\n';
    LineLayout(pat, text', p, v, text[..p], rest);
    ReadBackAt(pat, text', p, v);
    SearchFirst(pat, text', p);
  }

  /** The positions before the first match still do not match once it is
      replaced by a line that opens with the same lead. */
  lemma ReadBackBefore(pat: Pattern, text: string, text': string, p: nat, rep: string)
    requires Search(pat, text, 0) == Some(p)
    requires |pat.lead| <= |rep| && rep[..|pat.lead|] == pat.lead
    requires var s := MatchAt(pat, text, p).value;
             text' == text[..p] + rep + SubFrom(pat, rep, text, s.end)
    ensures forall q :: 0 <= q < p ==> MatchAt(pat, text', q).None?
  {
    var s := MatchAt(pat, text, p).value;
    var n := p + |pat.lead|;
    var close := s.groupEnd;
    MatchLead(pat, text, p);
    PrefixKept(text, text', p, pat.lead, rep, SubFrom(pat, rep, text, s.end), n);
    forall q | 0 <= q < p ensures MatchAt(pat, text', q).None? {
      NoMatchKept(pat, text, text', q, n, close);
    }
  }

  /** A match opens with the lead, and a quoted one closes with a quote. */
  lemma MatchLead(pat: Pattern, text: string, p: nat)
    requires p <= |text| && MatchAt(pat, text, p).Some?
    ensures var s := MatchAt(pat, text, p).value;
            p + |pat.lead| <= |text| && text[p..p + |pat.lead|] == pat.lead &&
            (pat.Quoted? ==> p + |pat.lead| <= s.groupEnd < |text| && text[s.groupEnd] == '"')
  {
  }

  /** Replacing what follows `p` by a string that opens with the same lead
      keeps the text up to the end of the lead. */
  lemma PrefixKept(text: string, text': string, p: nat, lead: string, rep: string, rest: string, n: nat)
    requires n == p + |lead| <= |text| && text[p..n] == lead
    requires |lead| <= |rep| && rep[..|lead|] == lead
    requires text' == text[..p] + rep + rest
    ensures n <= |text'| && text[..n] == text'[..n]
  {
    assert text[..n] == text[..p] + lead;
    assert text'[..n] == text[..p] + rep[..|lead|];
  }

  /** What follows a `.+$` match after the substitution is the end of the
      text or a newline. */
  lemma ReadBackTail(pat: Pattern, text: string, rep: string, e: nat)
    requires pat.ToLineEnd? && 0 < e <= |text| && text[e - 1] != '\n'
    requires e == |text| || text[e] == '\n'
    ensures var rest := SubFrom(pat, rep, text, e);
            rest == [] || rest[0] == '\n'
  {
    if e < |text| {
      assert !LineStart(text, e);
      SubCopies(pat, rep, text, e);
    }
  }

  /** The replacement line matches, with the version as its group. */
  lemma ReadBackAt(pat: Pattern, text': string, p: nat, v: string)
    requires v != [] && pat.Stop() !in v
    requires var n := p + |pat.lead|;
             var g := n + |v|;
             g <= |text'| && LineStart(text', p) && text'[p..n] == pat.lead && text'[n..g] == v &&
             (pat.Quoted? ==> g < |text'| && text'[g] == '"') &&
             (pat.ToLineEnd? && g < |text'| ==> text'[g] == '\n')
    ensures MatchAt(pat, text', p).Some?
    ensures var s := MatchAt(pat, text', p).value;
            text'[s.groupStart..s.groupEnd] == v
  {
    var n := p + |pat.lead|;
    var g := n + |v|;
    assert forall j :: n <= j < g ==> text'[j] == v[j - n];
    assert RunEnd(text', n, pat.Stop()) == g;
  }

  /** Where the pieces of the substituted text sit. */
  lemma LineLayout(pat: Pattern, text': string, p: nat, v: string, before: string, rest: string)
    requires text' == before + pat.Line(v) + rest && p == |before|
    requires p == 0 || before[p - 1] == '\n'
    requires pat.ToLineEnd? ==> rest == [] || rest[0] == '\n'
    ensures var n := p + |pat.lead|;
            var g := n + |v|;
            g <= |text'| && LineStart(text', p) && text'[p..n] == pat.lead && text'[n..g] == v &&
            (pat.Quoted? ==> g < |text'| && text'[g] == '"') &&
            (pat.ToLineEnd? && g < |text'| ==> text'[g] == '\n')
  {
    var n := p + |pat.lead|;
    var g := n + |v|;
    if pat.Quoted? {
      Regroup(before, pat.lead, v, "\"", rest);
      PiecesLayout(text', before, pat.lead, v, "\"" + rest, n, g);
    } else {
      PiecesLayout(text', before, pat.lead, v, rest, n, g);
    }
  }

  /** Five pieces regrouped as four. */
  lemma Regroup<T>(a: seq<T>, b: seq<T>, c: seq<T>, d: seq<T>, e: seq<T>)
    ensures a + (b + c + d) + e == a + b + c + (d + e)
  {
  }

  /** Where the pieces of a line laid out after a line start sit. */
  lemma PiecesLayout(t: string, before: string, lead: string, v: string, after: string, n: nat, g: nat)
    requires t == before + lead + v + after
    requires before == [] || before[|before| - 1] == '\n'
    requires n == |before| + |lead| && g == n + |v|
    ensures g <= |t| && LineStart(t, |before|) && t[|before|..n] == lead && t[n..g] == v
    ensures g < |t| ==> t[g] == after[0]
    ensures g == |t| <==> after == []
  {
    var p := |before|;
    if p > 0 {
      assert t[p - 1] == before[p - 1];
    }
    assert t[p..n] == lead && t[n..g] == v;
  }

  /** A match with none before it is what the search finds. */
  lemma SearchFirst(pat: Pattern, text: string, p: nat)
    requires p <= |text| && MatchAt(pat, text, p).Some?
    requires forall q :: 0 <= q < p ==> MatchAt(pat, text, q).None?
    ensures Search(pat, text, 0) == Some(p)
  {
  }

  // ---------------------------------------------------------------------
  // The whole run

  /** `get_current_version`: the version in the project file, or why it could
      not be read. */
  datatype Lookup = Found(version: string) | NotFound(reason: string)

  function CurrentVersion(root: string, files: map<string, string>): (r: Lookup)
    ensures r.Found? <==> root + PyProject in files && FirstGroup(Quoted(VersionLead), files[root + PyProject]).Some?
  {
    var path := root + PyProject;
    if path !in files then NotFound("pyproject.toml not found at " + path)
    else
      match FirstGroup(Quoted(VersionLead), files[path])
      case None => NotFound("Could not find version in pyproject.toml")
      case Some(version) => Found(version)
  }

  /** The message `update_all` adds for one target's result. */
  function Report(r: FileResult, dryRun: bool): string {
    match r.status
    case Updated => (if dryRun then "[DRY RUN] " else "[OK] ") + r.message
    case Skipped => "[INFO] " + r.message
    case Failed => "[ERROR] " + r.message
  }

  /** The files after one target: rewritten only for an OK outside a dry run. */
  function Written(t: Target, files: map<string, string>, v: string, dryRun: bool): (r: map<string, string>)
    ensures r.Keys == files.Keys
    ensures forall p :: p in files && p != t.path ==> r[p] == files[p]
  {
    if !dryRun && UpdateFile(t, files, v).status == Updated then
      files[t.path := NewContent(t, files[t.path], v)]
    else files
  }

  /** The messages and the files after some targets, in order. */
  datatype Run = Run(messages: seq<string>, files: map<string, string>)

  function RunTargets(ts: seq<Target>, files: map<string, string>, v: string, dryRun: bool): (r: Run)
    ensures r.files.Keys == files.Keys
    decreases |ts|
  {
    if ts == [] then Run([], files)
    else
      var rest := RunTargets(ts[1..], Written(ts[0], files, v, dryRun), v, dryRun);
      Run([Report(UpdateFile(ts[0], files, v), dryRun)] + rest.messages, rest.files)
  }

  function InvalidMessage(v: string): string {
    "[ERROR] Invalid version format: " + v + ". Expected format: MAJOR.MINOR.PATCH (e.g., 1.2.3)"
  }

  /** The lines before the per-file messages. */
  function Header(current: string, v: string, dryRun: bool): (h: seq<string>)
    ensures |h| == if dryRun then 5 else 3
  {
    ["[INFO] Current version: " + current, "[INFO] New version: " + v, ""] +
    (if dryRun then ["[DRY RUN] No files will be modified", ""] else [])
  }

  /** `update_all` as a value: the messages and the files afterwards. */
  function UpdateAllRun(root: string, files: map<string, string>, v: string, dryRun: bool): (r: Run)
    ensures r.files.Keys == files.Keys
  {
    if !ValidVersion(v) then Run([InvalidMessage(v)], files)
    else
      match CurrentVersion(root, files)
      case NotFound(reason) => Run(["[ERROR] Error getting current version: " + reason], files)
      case Found(current) =>
        var r := RunTargets(Targets(root), files, v, dryRun);
        Run(Header(current, v, dryRun) + r.messages, r.files)
  }

  /** `VersionUpdater`: the project root and its targets, fixed at creation. */
  datatype VersionUpdater = VersionUpdater(root: string, targets: seq<Target>)

  function NewVersionUpdater(root: string): (u: VersionUpdater)
    ensures u.root == root && u.targets == Targets(root)
  {
    VersionUpdater(root, Targets(root))
  }

  /** `update_all`: one message per target, and the files written back
      unless this is a dry run. */
  method UpdateAll(u: VersionUpdater, files: map<string, string>, v: string, dryRun: bool)
    returns (messages: seq<string>, disk: map<string, string>)
    requires u == NewVersionUpdater(u.root)
    ensures Run(messages, disk) == UpdateAllRun(u.root, files, v, dryRun)
    ensures !ValidVersion(v) ==> messages == [InvalidMessage(v)] && disk == files
    ensures dryRun ==> disk == files
  {
    if !ValidVersion(v) {
      return [InvalidMessage(v)], files;
    }
    var current := CurrentVersion(u.root, files);
    if current.NotFound? {
      return ["[ERROR] Error getting current version: " + current.reason], files;
    }
    messages := ["[INFO] Current version: " + current.version, "[INFO] New version: " + v, ""];
    if dryRun {
      messages := messages + ["[DRY RUN] No files will be modified", ""];
    }
    assert messages == Header(current.version, v, dryRun);
    UpdateAllFound(u.root, files, v, dryRun);
    var said;
    said, disk := RunAllTargets(u.targets, files, v, dryRun);
    messages := messages + said;
  }

  /** The loop of `update_all` over the targets: each target's message in
      turn, and its file written back unless this is a dry run. */
  method RunAllTargets(ts: seq<Target>, files: map<string, string>, v: string, dryRun: bool)
    returns (messages: seq<string>, disk: map<string, string>)
    ensures Run(messages, disk) == RunTargets(ts, files, v, dryRun)
    ensures dryRun ==> disk == files
  {
    messages, disk := [], files;
    var i := 0;
    while i < |ts|
      invariant 0 <= i <= |ts|
      invariant dryRun ==> disk == files
      invariant var rest := RunTargets(ts[i..], disk, v, dryRun);
                Run(messages + rest.messages, rest.files) == RunTargets(ts, files, v, dryRun)
    {
      var t := ts[i];
      var r := UpdateFile(t, disk, v);
      RunStep(ts, i, disk, v, dryRun, messages);
      var line;
      if r.status == Updated {
        if !dryRun {
          disk := disk[t.path := NewContent(t, disk[t.path], v)];
          line := "[OK] " + r.message;
        } else {
          line := "[DRY RUN] " + r.message;
        }
      } else if r.status == Skipped {
        line := "[INFO] " + r.message;
      } else {
        line := "[ERROR] " + r.message;
      }
      messages := messages + [line];
      i := i + 1;
    }
    assert messages + [] == messages;
  }

  /** With a valid version and a readable current version, the run is the
      header followed by the targets' messages. */
  lemma UpdateAllFound(root: string, files: map<string, string>, v: string, dryRun: bool)
    requires ValidVersion(v) && CurrentVersion(root, files).Found?
    ensures var r := RunTargets(Targets(root), files, v, dryRun);
            UpdateAllRun(root, files, v, dryRun) ==
              Run(Header(CurrentVersion(root, files).version, v, dryRun) + r.messages, r.files)
  {
  }

  /** One target of the loop in `update_all`: its message goes after those
      already said, and the rest runs on the files it leaves. */
  lemma RunStep(ts: seq<Target>, i: nat, disk: map<string, string>, v: string, dryRun: bool, said: seq<string>)
    requires i < |ts|
    ensures var rest := RunTargets(ts[i..], disk, v, dryRun);
            var next := RunTargets(ts[i + 1..], Written(ts[i], disk, v, dryRun), v, dryRun);
            Run(said + rest.messages, rest.files) ==
              Run(said + [Report(UpdateFile(ts[i], disk, v), dryRun)] + next.messages, next.files)
  {
    assert ts[i..][1..] == ts[i + 1..];
    var next := RunTargets(ts[i + 1..], Written(ts[i], disk, v, dryRun), v, dryRun);
    AppendAssoc(said, [Report(UpdateFile(ts[i], disk, v), dryRun)], next.messages);
  }

  // ---------------------------------------------------------------------
  // Properties of a run

  /** A dry run writes nothing. */
  lemma {:induction false} DryRunKeepsFiles(ts: seq<Target>, files: map<string, string>, v: string)
    ensures RunTargets(ts, files, v, true).files == files
    decreases |ts|
  {
    if ts != [] {
      DryRunKeepsFiles(ts[1..], files, v);
    }
  }

  /** With distinct paths, the targets do not see each other's writes: the
      k-th message is the k-th target's result on the files as given, each
      target file ends up as that target alone leaves it, and no other file
      changes. */
  lemma RunTargetsEffect(ts: seq<Target>, files: map<string, string>, v: string, dryRun: bool)
    requires DistinctPaths(ts)
    ensures var r := RunTargets(ts, files, v, dryRun);
            |r.messages| == |ts| &&
            (forall k :: 0 <= k < |ts| ==> r.messages[k] == Report(UpdateFile(ts[k], files, v), dryRun)) &&
            r.files.Keys == files.Keys &&
            (forall k :: 0 <= k < |ts| && ts[k].path in files ==>
               r.files[ts[k].path] == Written(ts[k], files, v, dryRun)[ts[k].path]) &&
            (forall p :: p in files && p !in PathsOf(ts) ==> r.files[p] == files[p])
  {
    RunMessages(ts, files, v, dryRun);
    RunTargetFiles(ts, files, v, dryRun);
    RunOtherFiles(ts, files, v, dryRun);
  }

  /** A later target sees the same file after an earlier target's write. */
  lemma LaterUnaffected(ts: seq<Target>, files: map<string, string>, v: string, dryRun: bool, k: nat)
    requires DistinctPaths(ts) && 1 <= k < |ts|
    ensures var files' := Written(ts[0], files, v, dryRun);
            UpdateFile(ts[k], files', v) == UpdateFile(ts[k], files, v) &&
            (ts[k].path in files ==>
               Written(ts[k], files', v, dryRun)[ts[k].path] == Written(ts[k], files, v, dryRun)[ts[k].path])
  {
    assert ts[k].path != ts[0].path;
  }

  /** The messages of a run, one per target, in order. */
  lemma {:induction false} RunMessages(ts: seq<Target>, files: map<string, string>, v: string, dryRun: bool)
    requires DistinctPaths(ts)
    ensures var r := RunTargets(ts, files, v, dryRun);
            |r.messages| == |ts| &&
            forall k :: 0 <= k < |ts| ==> r.messages[k] == Report(UpdateFile(ts[k], files, v), dryRun)
    decreases |ts|
  {
    if ts != [] {
      var files' := Written(ts[0], files, v, dryRun);
      RunMessages(ts[1..], files', v, dryRun);
      var r := RunTargets(ts, files, v, dryRun);
      var r' := RunTargets(ts[1..], files', v, dryRun);
      assert r.messages == [Report(UpdateFile(ts[0], files, v), dryRun)] + r'.messages;
      forall k | 1 <= k < |ts| ensures r.messages[k] == Report(UpdateFile(ts[k], files, v), dryRun) {
        assert ts[k] == ts[1..][k - 1];
        LaterUnaffected(ts, files, v, dryRun, k);
      }
    }
  }

  /** Each target file ends a run as that target alone leaves it. */
  lemma {:induction false} RunTargetFiles(ts: seq<Target>, files: map<string, string>, v: string, dryRun: bool)
    requires DistinctPaths(ts)
    ensures var r := RunTargets(ts, files, v, dryRun);
            forall k :: 0 <= k < |ts| && ts[k].path in files ==>
              r.files[ts[k].path] == Written(ts[k], files, v, dryRun)[ts[k].path]
    decreases |ts|
  {
    if ts != [] {
      var t := ts[0];
      var files' := Written(t, files, v, dryRun);
      RunTargetFiles(ts[1..], files', v, dryRun);
      RunOtherFiles(ts[1..], files', v, dryRun);
      var r := RunTargets(ts, files, v, dryRun);
      assert r.files == RunTargets(ts[1..], files', v, dryRun).files;
      forall k | 0 <= k < |ts| && ts[k].path in files
        ensures r.files[ts[k].path] == Written(ts[k], files, v, dryRun)[ts[k].path]
      {
        if k == 0 {
          assert t.path !in PathsOf(ts[1..]) by {
            forall j | 0 <= j < |ts[1..]| ensures PathsOf(ts[1..])[j] != t.path {
              assert ts[1..][j] == ts[j + 1];
            }
          }
        } else {
          assert ts[k] == ts[1..][k - 1];
          LaterUnaffected(ts, files, v, dryRun, k);
        }
      }
    }
  }

  /** A file no target names is left as it was. */
  lemma {:induction false} RunOtherFiles(ts: seq<Target>, files: map<string, string>, v: string, dryRun: bool)
    ensures var r := RunTargets(ts, files, v, dryRun);
            forall p :: p in files && p !in PathsOf(ts) ==> r.files[p] == files[p]
    decreases |ts|
  {
    if ts != [] {
      var files' := Written(ts[0], files, v, dryRun);
      RunOtherFiles(ts[1..], files', v, dryRun);
      assert PathsOf(ts) == [ts[0].path] + PathsOf(ts[1..]);
    }
  }

  /** After a real run, a target that reported OK reads back the new version,
      for a version without a final newline. */
  lemma UpdatedReadsBack(root: string, files: map<string, string>, v: string, k: nat)
    requires ValidVersion(v) && v[|v| - 1] != '\n' && k < 3
    requires CurrentVersion(root, files).Found?
    requires UpdateFile(Targets(root)[k], files, v).status == Updated
    ensures var t := Targets(root)[k];
            FirstGroup(t.pattern, UpdateAllRun(root, files, v, false).files[t.path]) == Some(v)
  {
    var ts := Targets(root);
    var t := ts[k];
    var after := RunTargets(ts, files, v, false).files;
    assert UpdateAllRun(root, files, v, false).files == after;
    UpdatedHasMatch(t, files, v);
    assert after[t.path] == NewContent(t, files[t.path], v) by {
      RunTargetFiles(ts, files, v, false);
    }
    StopNotInVersion(t.pattern, v);
    ReadBack(t.pattern, files[t.path], v);
  }

  /** A target that reports OK has a match, and a real run writes its new
      content. */
  lemma UpdatedHasMatch(t: Target, files: map<string, string>, v: string)
    requires UpdateFile(t, files, v).status == Updated
    ensures t.path in files && Search(t.pattern, files[t.path], 0).Some?
    ensures Written(t, files, v, false)[t.path] == NewContent(t, files[t.path], v)
  {
  }

  /** After a real run that updated the project file, the current version is
      the new one. */
  lemma CurrentAfterUpdate(root: string, files: map<string, string>, v: string)
    requires ValidVersion(v) && v[|v| - 1] != '\n'
    requires CurrentVersion(root, files).Found?
    requires UpdateFile(Targets(root)[0], files, v).status == Updated
    ensures CurrentVersion(root, UpdateAllRun(root, files, v, false).files) == Found(v)
  {
    UpdatedReadsBack(root, files, v, 0);
    RunTargetsEffect(Targets(root), files, v, false);
  }

  /** Past the header, a run has one message per target, in target order,
      each the target's result on the files as given. */
  lemma OneMessagePerTarget(root: string, files: map<string, string>, v: string, dryRun: bool)
    requires ValidVersion(v) && CurrentVersion(root, files).Found?
    ensures var r := UpdateAllRun(root, files, v, dryRun);
            var h := if dryRun then 5 else 3;
            var ts := Targets(root);
            |r.messages| == h + 3 &&
            forall k :: 0 <= k < 3 ==> r.messages[h + k] == Report(UpdateFile(ts[k], files, v), dryRun)
  {
    RunTargetsEffect(Targets(root), files, v, dryRun);
  }

  /** A dry run leaves every file as it was. */
  lemma DryRunWritesNothing(root: string, files: map<string, string>, v: string)
    ensures UpdateAllRun(root, files, v, true).files == files
  {
    DryRunKeepsFiles(Targets(root), files, v);
  }
}
