/** The string logic of the release-notes script: turning a tag into the
    changelog's version token, cutting one version's section out of a
    changelog, cleaning up a model-written summary and laying out the final
    markdown. Git, the HTTP call to the model and the file I/O around them are
    not modelled: their results arrive here as parameters. */
module ReleaseNotes {
  import opened Wrappers
  import opened Text

  /** Python truthiness of an optional string: present and non-empty. */
  predicate Truthy(o: Option<string>) {
    o.Some? && o.value != ""
  }

  // ---------------------------------------------------------------------
  // Tags

  /** `normalize_version_from_tag`: a tag `v1.2.3` names the changelog
      version `1.2.3`; only one leading `v` is dropped. */
  function NormalizeVersionFromTag(tag: string): (r: string)
    ensures tag != [] && tag[0] == 'v' ==> tag == "v" + r
    ensures tag == [] || tag[0] != 'v' ==> r == tag
  {
    if tag != [] && tag[0] == 'v' then tag[1..] else tag
  }

  /** Prefixing a version with `v` and normalising gives the version back,
      even when the version itself starts with `v`. */
  lemma NormalizeTagged(version: string)
    ensures NormalizeVersionFromTag("v" + version) == version
  {
    assert ("v" + version)[1..] == version;
  }

  // ---------------------------------------------------------------------
  // Changelog sections

  /** A line beginning at `p` opens with `prefix`. */
  predicate LineOpensWith(text: string, prefix: string, p: int) {
    LineStart(text, p) && OccursAt(text, prefix, p)
  }

  /** The first line at or after `from` that opens with `prefix`, or -1. */
  function FindLine(text: string, prefix: string, from: nat): (p: int)
    requires from <= |text|
    ensures p == -1 || (from <= p <= |text| && LineOpensWith(text, prefix, p))
    ensures p >= 0 ==> forall q :: from <= q < p ==> !LineOpensWith(text, prefix, q)
    ensures p < 0 ==> forall q :: from <= q <= |text| ==> !LineOpensWith(text, prefix, q)
    decreases |text| - from
  {
    if LineOpensWith(text, prefix, from) then from
    else if from == |text| then -1
    else FindLine(text, prefix, from + 1)
  }

  /** The position of the first newline at or after `i`, or the end of the
      text: where `.*$` stops. */
  function NewlineFrom(text: string, i: nat): (k: nat)
    requires i <= |text|
    ensures i <= k <= |text|
    ensures forall j :: i <= j < k ==> text[j] != '\n'
    ensures k < |text| ==> text[k] == '\n'
    decreases |text| - i
  {
    if i == |text| || text[i] == '\n' then i else NewlineFrom(text, i + 1)
  }

  /** What opens every version heading of the changelog. */
  const NextHeading: string := "## ["

  /** The heading of one version's section. */
  function Heading(version: string): (h: string)
    ensures |h| == |version| + 5 && h[..4] == NextHeading && h[|h| - 1] == ']'
  {
    NextHeading + version + "]"
  }

  /** Where the section of `version` begins and ends: from the end of the
      first line opening with `## [version]` to the next line opening with
      `## [`, or to the end of the text. */
  function SectionBounds(text: string, version: string): (b: Option<(nat, nat)>)
    ensures b.Some? ==> b.value.0 <= b.value.1 <= |text|
    ensures b.Some? ==> forall q :: b.value.0 <= q < b.value.1 ==> !LineOpensWith(text, NextHeading, q)
    ensures b.Some? ==> b.value.1 < |text| ==> LineOpensWith(text, NextHeading, b.value.1)
    ensures b.None? <==> forall p :: 0 <= p <= |text| ==> !LineOpensWith(text, Heading(version), p)
  {
    var h := FindLine(text, Heading(version), 0);
    if h < 0 then Option.None
    else
      var start := NewlineFrom(text, h + |Heading(version)|);
      var next := FindLine(text, NextHeading, start);
      Option.Some((start, if next < 0 then |text| else next))
  }

  /** `extract_changelog_section`: the stripped section of `version`, or
      `None` when there is no heading for it or the section is blank. */
  function ExtractChangelogSection(text: string, version: string): (r: Option<string>)
    ensures SectionBounds(text, version).None? ==> r.None?
    ensures r.Some? ==> r.value != [] && Strip(r.value) == r.value
  {
    match SectionBounds(text, version)
    case None => Option.None
    case Some((start, end)) =>
      var section := Strip(text[start..end]);
      if section == [] then Option.None
      else
        StripCharsIdempotent(section, Whitespace);
        Option.Some(section)
  }

  /** Stripping keeps a contiguous piece of the string. */
  lemma StripSlice(s: string) returns (a: nat)
    ensures a + |Strip(s)| <= |s| && Strip(s) == s[a..a + |Strip(s)|]
  {
    var l := LStrip(s, Whitespace);
    a := |s| - |l|;
    assert Strip(s) == RStrip(l, Whitespace) <= l;
  }

  /** Five characters that are not a newline followed by a line opening with
      `## [`. */
  lemma {:induction false} NotHeadingAfter(text: string, p: nat)
    requires p + 5 <= |text| && !LineOpensWith(text, NextHeading, p + 1)
    ensures text[p..p + 5] != "\n" + NextHeading
  {
    assert text[p + 1..p + 5] == text[p..p + 5][1..];
  }

  /** When no line in `[s, e)` opens a version heading, no piece of the
      text between them holds a version heading after a newline. */
  lemma {:induction false} NoHeadingInPiece(text: string, s: nat, e: nat, a: nat, v: string)
    requires s <= e <= |text| && a + |v| <= e - s && v == text[s..e][a..a + |v|]
    requires forall q :: s <= q < e ==> !LineOpensWith(text, NextHeading, q)
    ensures forall j :: !OccursAt(v, "\n" + NextHeading, j)
  {
    forall j | 0 <= j && j + 5 <= |v|
      ensures !OccursAt(v, "\n" + NextHeading, j)
    {
      SliceOfSlice(text[s..e], a, a + |v|, j, j + 5);
      SliceOfSlice(text, s, e, a + j, a + j + 5);
      assert v[j..j + 5] == text[s + a + j..s + a + j + 5];
      NotHeadingAfter(text, s + a + j);
      assert v[j..j + 5] != "\n" + NextHeading;
    }
  }

  /** The stripped text of a stretch where no line opens a version heading
      holds no version heading after a newline. */
  lemma {:induction false} NoHeadingInStrip(text: string, s: nat, e: nat)
    requires s <= e <= |text|
    requires forall q :: s <= q < e ==> !LineOpensWith(text, NextHeading, q)
    ensures !Contains(Strip(text[s..e]), "\n" + NextHeading)
  {
    var piece := text[s..e];
    var v := Strip(piece);
    var a := StripSlice(piece);
    NoHeadingInPiece(text, s, e, a, v);
    NowhereNotContained(v, "\n" + NextHeading);
  }

  /** No line inside an extracted section opens a new version heading. */
  lemma {:induction false} ExtractStopsAtHeading(text: string, version: string)
    ensures var r := ExtractChangelogSection(text, version);
            r.Some? ==> !Contains(r.value, "\n" + NextHeading)
  {
    var b := SectionBounds(text, version);
    if b.Some? {
      NoHeadingInStrip(text, b.value.0, b.value.1);
    }
  }

  /** The surrounding whitespace of a padded string is what `strip` drops. */
  lemma {:induction false} LStripPadded(pre: string, rest: string)
    requires forall k :: 0 <= k < |pre| ==> IsSpace(pre[k])
    requires rest != [] && !IsSpace(rest[0])
    ensures LStrip(pre + rest, Whitespace) == rest
    decreases |pre|
  {
    if pre != [] {
      assert (pre + rest)[1..] == pre[1..] + rest;
      LStripPadded(pre[1..], rest);
    } else {
      assert pre + rest == rest;
    }
  }

  lemma {:induction false} RStripPadded(rest: string, post: string)
    requires forall k :: 0 <= k < |post| ==> IsSpace(post[k])
    requires rest != [] && !IsSpace(rest[|rest| - 1])
    ensures RStrip(rest + post, Whitespace) == rest
    decreases |post|
  {
    if post != [] {
      var post' := post[..|post| - 1];
      assert (rest + post)[..|rest + post| - 1] == rest + post';
      RStripPadded(rest, post');
    } else {
      assert rest + post == rest;
    }
  }

  lemma StripPadded(pre: string, body: string, post: string)
    requires forall k :: 0 <= k < |pre| ==> IsSpace(pre[k])
    requires forall k :: 0 <= k < |post| ==> IsSpace(post[k])
    requires body != [] && !IsSpace(body[0]) && !IsSpace(body[|body| - 1])
    ensures Strip(pre + body + post) == body
  {
    assert pre + body + post == pre + (body + post);
    LStripPadded(pre, body + post);
    RStripPadded(body, post);
  }

  /** Characters whose class the proofs below rely on. */
  lemma CharFacts()
    ensures !IsSpace('-') && !IsSpace('#') && !IsSpace('`') && !IsSpace('[') && !IsSpace(']')
    ensures !IsSpace('h') && !IsSpace('H') && !IsSpace('A') && !IsSpace('R') && !IsSpace('V') && !IsSpace('N')
    ensures IsSpace('\n') && IsSpace(' ')
  {
    MarksNotSpace();
    LettersNotSpace();
  }

  lemma MarksNotSpace()
    ensures !IsSpace('-') && !IsSpace('#') && !IsSpace('`') && !IsSpace('[') && !IsSpace(']')
  {
  }

  lemma LettersNotSpace()
    ensures !IsSpace('h') && !IsSpace('H') && !IsSpace('A') && !IsSpace('R') && !IsSpace('V') && !IsSpace('N')
  {
  }

  /** A piece of a slice is a piece of the whole. */
  lemma SliceOfSlice(s: string, lo: nat, hi: nat, i: nat, j: nat)
    requires lo <= hi <= |s| && i <= j <= hi - lo
    ensures s[lo..hi][i..j] == s[lo + i..lo + j]
  {
    assert forall k :: 0 <= k < j - i ==> s[lo..hi][i..j][k] == s[lo + i + k];
  }

  /** No line of `body` opens with `## [`. */
  predicate NoVersionHeading(body: string) {
    forall j :: 0 <= j < |body| && (j == 0 || body[j - 1] == '\n') ==> !OccursAt(body, NextHeading, j)
  }

  /** Inside a copy of `body`, an occurrence is one of `body`. */
  lemma {:induction false} OccursInCopy(text: string, b: nat, body: string, q: nat)
    requires b + |body| <= |text| && text[b..b + |body|] == body
    requires b <= q && q + 4 <= b + |body|
    ensures OccursAt(text, NextHeading, q) == OccursAt(body, NextHeading, q - b)
  {
    SliceOfSlice(text, b, b + |body|, q - b, q - b + 4);
  }

  /** A version heading cannot run across a newline. */
  lemma {:induction false} NoHeadingAcross(text: string, e: nat, q: nat)
    requires q < e < q + 4 <= |text| && text[e] == '\n'
    ensures !OccursAt(text, NextHeading, q)
  {
    assert text[q..q + 4][e - q] == '\n';
  }

  /** Between the newline that ends a heading (at `start`) and the newline
      that follows `body`, no line opens a version heading. */
  lemma {:induction false} NoHeadingInBody(text: string, start: nat, body: string, q: int)
    requires 0 < start && start + 1 + |body| <= |text|
    requires text[start - 1] != '\n' && text[start] == '\n'
    requires text[start + 1..start + 1 + |body|] == body
    requires start + 1 + |body| < |text| ==> text[start + 1 + |body|] == '\n'
    requires body != [] && !IsSpace(body[|body| - 1])
    requires NoVersionHeading(body)
    requires start <= q <= start + 1 + |body|
    ensures !LineOpensWith(text, NextHeading, q)
  {
    var e := start + 1 + |body|;
    if q == e {
      CharFacts();
      assert text[q - 1] == body[|body| - 1];
    } else if q > start {
      var j := q - start - 1;
      if q + 4 <= e {
        OccursInCopy(text, start + 1, body, q);
        if j > 0 {
          assert text[q - 1] == body[j - 1];
        }
      } else if q + 4 <= |text| {
        NoHeadingAcross(text, e, q);
      }
    }
  }

  /** The first line of the changelog is the heading of `version`. */
  lemma HeadingFirst(version: string, rest: string)
    ensures var text := Heading(version) + rest;
            FindLine(text, Heading(version), 0) == 0
  {
    var text := Heading(version) + rest;
    assert text[..|Heading(version)|] == Heading(version);
    assert LineOpensWith(text, Heading(version), 0);
  }

  /** The lines after a heading ending at `start` and a body ending at `e`:
      the next version heading is the one `tail` opens, if any. */
  lemma {:induction false} NextHeadingAfterBody(text: string, head: string, body: string, tail: string)
    requires text == head + "\n" + body + tail
    requires head != [] && head[|head| - 1] != '\n'
    requires body != [] && !IsSpace(body[0]) && !IsSpace(body[|body| - 1])
    requires NoVersionHeading(body)
    requires tail == [] || OccursAt(tail, "\n" + NextHeading, 0)
    ensures FindLine(text, NextHeading, |head|) == if tail == [] then -1 else |head| + 2 + |body|
  {
    var start := |head|;
    var e := start + 1 + |body|;
    assert text[start - 1] == head[|head| - 1];
    assert text[start] == '\n';
    assert text[start + 1..e] == body;
    assert e < |text| ==> text[e] == tail[0];
    forall q | start <= q <= e
      ensures !LineOpensWith(text, NextHeading, q)
    {
      NoHeadingInBody(text, start, body, q);
    }
    if tail != [] {
      assert text[e..e + 5] == tail[..5];
      assert text[e + 1..e + 5] == NextHeading;
      assert LineOpensWith(text, NextHeading, e + 1);
    }
  }

  /** The bounds of the section that opens a changelog. */
  lemma {:induction false} FirstSectionBounds(version: string, body: string, tail: string)
    requires body != [] && !IsSpace(body[0]) && !IsSpace(body[|body| - 1])
    requires NoVersionHeading(body)
    requires tail == [] || OccursAt(tail, "\n" + NextHeading, 0)
    ensures var sb := SectionBounds(Heading(version) + "\n" + body + tail, version);
            sb.Some? && sb.value.0 == |Heading(version)| &&
            sb.value.1 == |Heading(version)| + (if tail == [] then 1 else 2) + |body|
  {
    var head := Heading(version);
    var text := head + "\n" + body + tail;
    assert text == head + ("\n" + body + tail);
    HeadingFirst(version, "\n" + body + tail);
    var start := |head|;
    assert text[start] == '\n';
    assert NewlineFrom(text, 0 + start) == start;
    assert text[start - 1] == head[|head| - 1] == ']';
    CharFacts();
    NextHeadingAfterBody(text, head, body, tail);
  }

  /** A changelog that opens with the heading of `version`, followed by a
      stripped `body` and then either nothing or the next version's heading,
      gives back exactly `body`. */
  lemma {:induction false} ExtractFirstSection(version: string, body: string, tail: string)
    requires body != [] && !IsSpace(body[0]) && !IsSpace(body[|body| - 1])
    requires NoVersionHeading(body)
    requires tail == [] || OccursAt(tail, "\n" + NextHeading, 0)
    ensures ExtractChangelogSection(Heading(version) + "\n" + body + tail, version) == Option.Some(body)
  {
    var text := Heading(version) + "\n" + body + tail;
    var start := |Heading(version)|;
    var end := start + (if tail == [] then 1 else 2) + |body|;
    FirstSectionBounds(version, body, tail);
    FirstSectionStrip(text, start, end, version, body, tail);
    ExtractFromBounds(text, version, start, end, body);
  }

  /** The text between those bounds strips to `body`. */
  lemma FirstSectionStrip(text: string, start: nat, end: nat, version: string, body: string, tail: string)
    requires body != [] && !IsSpace(body[0]) && !IsSpace(body[|body| - 1])
    requires tail == [] || OccursAt(tail, "\n" + NextHeading, 0)
    requires text == Heading(version) + "\n" + body + tail && start == |Heading(version)|
    requires end == start + (if tail == [] then 1 else 2) + |body|
    ensures end <= |text| && Strip(text[start..end]) == body
  {
    var post: string := if tail == [] then [] else "\n";
    var piece := text[start..end];
    if tail == [] {
      assert piece == "\n" + body + post;
    } else {
      assert tail[..1] == "\n";
      assert piece == "\n" + body + post;
    }
    NewlinePadded(body, post);
    assert Strip(piece) == body;
  }

  /** A body between a newline and at most one more strips to itself. */
  lemma NewlinePadded(body: string, post: string)
    requires body != [] && !IsSpace(body[0]) && !IsSpace(body[|body| - 1])
    requires post == [] || post == "\n"
    ensures Strip("\n" + body + post) == body
  {
    CharFacts();
    StripPadded("\n", body, post);
  }

  /** A section whose bounds strip to a non-empty `body` is extracted as `body`. */
  lemma ExtractFromBounds(text: string, version: string, start: nat, end: nat, body: string)
    requires SectionBounds(text, version).Some?
    requires SectionBounds(text, version).value.0 == start && SectionBounds(text, version).value.1 == end
    requires end <= |text| && body != [] && Strip(text[start..end]) == body
    ensures ExtractChangelogSection(text, version) == Option.Some(body)
  {
  }

  // ---------------------------------------------------------------------
  // Model summaries

  /** The characters of a fence's language tag, `[a-zA-Z0-9_-]`. */
  predicate IsTagChar(c: char) {
    IsAlnumChar(c) || c == '_' || c == '-'
  }

  /** The end of the run of tag characters that starts at `i`. */
  function TagEnd(s: string, i: nat): (k: nat)
    requires i <= |s|
    ensures i <= k <= |s|
    ensures forall j :: i <= j < k ==> IsTagChar(s[j])
    ensures k < |s| ==> !IsTagChar(s[k])
    decreases |s| - i
  {
    if i == |s| || !IsTagChar(s[i]) then i else TagEnd(s, i + 1)
  }

  /** The end of the run of whitespace that starts at `i`. */
  function SpaceEnd(s: string, i: nat): (k: nat)
    requires i <= |s|
    ensures i <= k <= |s|
    ensures forall j :: i <= j < k ==> IsSpace(s[j])
    ensures k < |s| ==> !IsSpace(s[k])
    decreases |s| - i
  {
    if i == |s| || !IsSpace(s[i]) then i else SpaceEnd(s, i + 1)
  }

  const Fence: string := "```"

  /** Removes ```` ^```[a-zA-Z0-9_-]*\n? ````: an opening fence, its language
      tag and the newline after them. What is left is a suffix. */
  function DropOpeningFence(c: string): (r: string)
    ensures |r| <= |c| && r == c[|c| - |r|..]
    ensures !OccursAt(c, Fence, 0) ==> r == c
    ensures OccursAt(c, Fence, 0) ==> |r| <= |c| - 3
  {
    if OccursAt(c, Fence, 0) then
      var k := TagEnd(c, 3);
      if k < |c| && c[k] == '\n' then c[k + 1..] else c[k..]
    else c
  }

  /** Removes ```` \n?```$ ````, where `$` matches at the end or before a final
      newline: a closing fence, with the newline before it. */
  function DropClosingFence(c: string): (r: string)
    ensures |r| <= |c|
    ensures c == [] || (c[|c| - 1] != '`' && c[|c| - 1] != '\n') ==> r == c
  {
    var n := |c|;
    if n >= 3 && c[n - 1] == '`' && c[n - 3..] == Fence then
      if n >= 4 && c[n - 4] == '\n' then c[..n - 4] else c[..n - 3]
    else if n >= 4 && c[n - 1] == '\n' && c[n - 4..n - 1] == Fence then
      if n >= 5 && c[n - 5] == '\n' then c[..n - 5] + "\n" else c[..n - 4] + "\n"
    else c
  }

  /** `Highlights` in any ASCII case begins at `k`. */
  predicate HighlightsAt(c: string, k: nat) {
    k + 10 <= |c| && Lower(c[k..k + 10]) == "highlights"
  }

  /** Removes `^##\s+Highlights\s*\n?`, ignoring case: a leading
      "## Highlights" heading and the whitespace after it. */
  function DropHighlightsHeading(c: string): (r: string)
    ensures |r| <= |c| && r == c[|c| - |r|..]
    ensures !OccursAt(c, "##", 0) ==> r == c
  {
    if OccursAt(c, "##", 0) then
      var k := SpaceEnd(c, 2);
      if k > 2 && HighlightsAt(c, k) then c[SpaceEnd(c, k + 10)..] else c
    else c
  }

  /** `sanitize_model_summary`: strips the text, removes an opening fence, a
      closing fence and a leading "## Highlights" heading, and strips again. */
  function SanitizeModelSummary(raw: string): (r: string)
    ensures Strip(r) == r
    ensures |r| <= |raw|
  {
    Unwrap(Strip(raw))
  }

  /** The three removals and the final strip, on stripped content. */
  function Unwrap(content: string): (r: string)
    ensures Strip(r) == r
    ensures |r| <= |content|
  {
    var inner := DropHighlightsHeading(DropClosingFence(DropOpeningFence(content)));
    StripTwice(inner, Whitespace);
    Strip(inner)
  }

  /** An opening fence with a language tag and its newline is removed
      whole. */
  lemma {:induction false} OpeningFenceDropped(lang: string, rest: string)
    requires forall k :: 0 <= k < |lang| ==> IsTagChar(lang[k])
    ensures DropOpeningFence(Fence + lang + "\n" + rest) == rest
  {
    var c := Fence + lang + "\n" + rest;
    assert c[..3] == Fence;
    assert c[3..3 + |lang|] == lang;
    assert c[3 + |lang|] == '\n';
    assert forall j :: 3 <= j < 3 + |lang| ==> IsTagChar(c[j]);
    assert !IsTagChar(c[3 + |lang|]);
    var k := TagEnd(c, 3);
    assert k == 3 + |lang|;
    assert c[k + 1..] == rest;
  }

  /** A closing fence on its own line is removed with its newline. */
  lemma {:induction false} ClosingFenceDropped(body: string)
    ensures DropClosingFence(body + "\n" + Fence) == body
  {
    var c := body + "\n" + Fence;
    var n := |c|;
    assert c[n - 3..] == Fence;
    assert c[n - 4] == '\n';
    assert c[..n - 4] == body;
  }

  /** A stripped summary that neither opens nor closes with a fence keeps
      everything but a leading "## Highlights" heading. */
  lemma {:induction false} SanitizeUnfenced(body: string)
    requires body == [] || (!IsSpace(body[0]) && !IsSpace(body[|body| - 1]))
    requires !OccursAt(body, Fence, 0)
    requires body == [] || body[|body| - 1] != '`'
    ensures SanitizeModelSummary(body) == Strip(DropHighlightsHeading(body))
  {
    StripCharsIdempotent(body, Whitespace);
    assert SanitizeModelSummary(body) == Unwrap(body);
    CharFacts();
    assert DropOpeningFence(body) == body;
    assert DropClosingFence(body) == body;
  }

  /** Both fences around a summary are dropped. */
  lemma {:induction false} FencesDropped(lang: string, body: string)
    requires forall k :: 0 <= k < |lang| ==> IsTagChar(lang[k])
    ensures DropClosingFence(DropOpeningFence(Fence + lang + "\n" + body + "\n" + Fence)) == body
  {
    assert Fence + lang + "\n" + body + "\n" + Fence == Fence + lang + "\n" + (body + "\n" + Fence);
    OpeningFenceDropped(lang, body + "\n" + Fence);
    ClosingFenceDropped(body);
  }

  /** A summary wrapped in a fence with a language tag reads the same as the
      bare summary. */
  lemma {:induction false} SanitizeFenced(lang: string, body: string)
    requires forall k :: 0 <= k < |lang| ==> IsTagChar(lang[k])
    requires body == [] || (!IsSpace(body[0]) && !IsSpace(body[|body| - 1]))
    requires !OccursAt(body, Fence, 0)
    requires body == [] || body[|body| - 1] != '`'
    ensures SanitizeModelSummary(Fence + lang + "\n" + body + "\n" + Fence) == SanitizeModelSummary(body)
  {
    var raw := Fence + lang + "\n" + body + "\n" + Fence;
    assert raw == Fence + (lang + "\n" + body + "\n" + Fence);
    assert raw[0] == Fence[0] == '`';
    assert raw[|raw| - 1] == Fence[2] == '`';
    FencedStripped(raw);
    FencesDropped(lang, body);
    assert Unwrap(raw) == Strip(DropHighlightsHeading(body));
    SanitizeUnfenced(body);
  }

  /** A text between backquotes is already stripped. */
  lemma FencedStripped(raw: string)
    requires raw != [] && raw[0] == '`' && raw[|raw| - 1] == '`'
    ensures Strip(raw) == raw
  {
    CharFacts();
    StripCharsIdempotent(raw, Whitespace);
  }

  /** The heading "## Highlights", in any case, and the newline after it are
      dropped whole. */
  lemma {:induction false} HeadingDropped(heading: string, body: string)
    requires |heading| == 10 && Lower(heading) == "highlights"
    requires body != [] && !IsSpace(body[0])
    ensures DropHighlightsHeading("## " + heading + "\n" + body) == body
  {
    var raw := "## " + heading + "\n" + body;
    CharFacts();
    assert raw[..2] == "##";
    assert raw[2] == ' ';
    assert raw[3..13] == heading;
    assert LowerChar(raw[3]) == 'h';
    assert SpaceEnd(raw, 3) == 3;
    assert SpaceEnd(raw, 2) == 3;
    assert HighlightsAt(raw, 3);
    assert raw[13] == '\n';
    assert raw[14..] == body;
    assert SpaceEnd(raw, 14) == 14;
    assert SpaceEnd(raw, 13) == 14;
  }

  /** A leading "## Highlights" heading, in any case, is dropped. */
  lemma {:induction false} SanitizeHeading(heading: string, body: string)
    requires |heading| == 10 && Lower(heading) == "highlights"
    requires body != [] && !IsSpace(body[0]) && !IsSpace(body[|body| - 1])
    requires body[|body| - 1] != '`'
    ensures SanitizeModelSummary("## " + heading + "\n" + body) == body
  {
    var raw := "## " + heading + "\n" + body;
    CharFacts();
    assert raw[0] == '#' && raw[|raw| - 1] == body[|body| - 1];
    StripCharsIdempotent(raw, Whitespace);
    assert raw[0] != Fence[0];
    SanitizeUnfenced(raw);
    HeadingDropped(heading, body);
    StripCharsIdempotent(body, Whitespace);
  }

  // ---------------------------------------------------------------------
  // Composing the notes

  /** `line.lstrip().startswith("- ")`: after the leading whitespace come a
      dash and a space. */
  predicate Bulleted(line: string) {
    var i := SpaceEnd(line, 0);
    i + 2 <= |line| && line[i] == '-' && line[i + 1] == ' '
  }

  lemma DashBulleted(rest: string)
    ensures Bulleted("- " + rest)
  {
    CharFacts();
    assert SpaceEnd("- " + rest, 0) == 0;
  }

  /** The fixed fallback lines. */
  const FallbackIntro: string := "Auto-generated summary unavailable; review changelog and commit details below."
  const FallbackAdvice: string := "Validation recommendation: run regression tests before production rollout."

  /** The scope of a release: `prev..tag`, or the tag alone for a first
      release. */
  function ReleaseRange(previousTag: Option<string>, tag: string): (r: string)
    ensures Truthy(previousTag) ==> r == previousTag.value + ".." + tag
    ensures !Truthy(previousTag) ==> r == tag
  {
    if Truthy(previousTag) then previousTag.value + ".." + tag else tag
  }

  /** `build_fallback_highlights`: three fixed lines naming the release
      scope. */
  function BuildFallbackHighlights(previousTag: Option<string>, tag: string): (lines: seq<string>)
    ensures |lines| == 3
    ensures lines[1] == ScopeLine(previousTag, tag)
  {
    [FallbackIntro, ScopeLine(previousTag, tag), FallbackAdvice]
  }

  /** The middle fallback line, `Release scope: <range>.`. */
  function ScopeLine(previousTag: Option<string>, tag: string): (r: string)
    ensures |r| >= 16 && r[0] == 'R' && r[|r| - 1] == '.'
    ensures r[..15] == "Release scope: " && r[15..|r| - 1] == ReleaseRange(previousTag, tag)
  {
    var head := "Release scope: ";
    var range := ReleaseRange(previousTag, tag);
    assert |head| == 15 && head[0] == 'R';
    Framed(head, range, ".");
    head + range + "."
  }

  lemma Framed(head: string, mid: string, tail: string)
    ensures (head + mid + tail)[..|head|] == head
    ensures (head + mid + tail)[|head|..|head| + |mid|] == mid
  {
    var s := head + mid + tail;
    assert s[..|head|] == head;
    assert s[|head|..|head| + |mid|] == mid;
  }

  /** A line made only of whitespace, the lines for which `line.strip()` is
      empty (see BlankIsStripEmpty). */
  predicate Blank(line: string) {
    SpaceEnd(line, 0) == |line|
  }

  lemma BlankIsStripEmpty(line: string)
    ensures Blank(line) <==> Strip(line) == []
  {
    var l := LStrip(line, Whitespace);
    if Blank(line) {
      assert forall k :: 0 <= k < |line| ==> IsSpace(line[k]);
    } else {
      var i := SpaceEnd(line, 0);
      assert !IsSpace(line[i]);
      assert |line| - |l| <= i;
      assert l[0] !in Whitespace;
    }
  }

  /** The lines that are not blank, in order. */
  function NonBlank(lines: seq<string>): (r: seq<string>)
    ensures |r| <= |lines|
    ensures forall k :: 0 <= k < |r| ==> !Blank(r[k])
  {
    if lines == [] then []
    else (if !Blank(lines[0]) then [lines[0]] else []) + NonBlank(lines[1..])
  }

  /** The kept lines are exactly the non-blank ones. */
  lemma {:induction false} NonBlankMembers(lines: seq<string>)
    ensures forall l :: l in NonBlank(lines) <==> l in lines && !Blank(l)
    decreases |lines|
  {
    if lines != [] {
      NonBlankMembers(lines[1..]);
      assert forall l :: l in lines <==> l == lines[0] || l in lines[1..];
    }
  }

  /** Dropping blank lines keeps the order of the others: it distributes over
      concatenation. */
  lemma {:induction false} NonBlankAppend(a: seq<string>, b: seq<string>)
    ensures NonBlank(a + b) == NonBlank(a) + NonBlank(b)
    decreases |a|
  {
    if a == [] {
      assert a + b == b;
    } else {
      NonBlankAppend(a[1..], b);
      assert (a + b)[0] == a[0] && (a + b)[1..] == a[1..] + b;
      var head := if !Blank(a[0]) then [a[0]] else [];
      assert NonBlank(a + b) == head + (NonBlank(a[1..]) + NonBlank(b));
      assert NonBlank(a) == head + NonBlank(a[1..]);
    }
  }

  /** A highlight line as the notes show it: kept when already a bullet,
      otherwise stripped of leading dashes and spaces and made one. */
  function NormalizeHighlight(line: string): (r: string)
    ensures Bulleted(r)
    ensures Bulleted(line) ==> r == line
  {
    if Bulleted(line) then line
    else
      var text := Strip(LStrip(line, {'-', ' '}));
      DashBulleted(text);
      "- " + text
  }

  function NormalizeHighlights(lines: seq<string>): (r: seq<string>)
    ensures |r| == |lines|
    ensures forall k :: 0 <= k < |r| ==> r[k] == NormalizeHighlight(lines[k])
  {
    if lines == [] then [] else [NormalizeHighlight(lines[0])] + NormalizeHighlights(lines[1..])
  }

  /** A commit line as the notes show it. */
  function FormatCommit(line: string): (r: string)
    ensures Bulleted(r)
    ensures Bulleted(line) ==> r == line
    ensures !Bulleted(line) ==> r == "- " + line
  {
    if Bulleted(line) then line
    else
      DashBulleted(line);
      "- " + line
  }

  function FormatCommits(lines: seq<string>): (r: seq<string>)
    ensures |r| == |lines|
    ensures forall k :: 0 <= k < |r| ==> r[k] == FormatCommit(lines[k])
  {
    if lines == [] then [] else [FormatCommit(lines[0])] + FormatCommits(lines[1..])
  }

  const SummaryUnavailable: string := "Auto-generated summary unavailable."
  const NoCommits: string := "No commits found for this tag."
  const NoChangelog: string := "_No matching CHANGELOG section found._"

  /** The highlight lines: the summary's lines when there is a summary, the
      fallback otherwise; blank lines dropped, each made a bullet, and a
      placeholder when none is left. */
  function Highlights(tag: string, previousTag: Option<string>, modelSummary: Option<string>): (r: seq<string>)
    ensures |r| >= 1
  {
    Bullets(if Truthy(modelSummary) then SplitLines(SanitizeModelSummary(modelSummary.value))
            else BuildFallbackHighlights(previousTag, tag))
  }

  /** The non-blank lines of `source` made bullets, or the placeholder. */
  function Bullets(source: seq<string>): (r: seq<string>)
    ensures |r| >= 1
  {
    var normalized := NormalizeHighlights(NonBlank(source));
    if normalized == [] then ["- " + SummaryUnavailable] else normalized
  }

  /** The placeholder appears exactly when every line is blank. */
  lemma BulletsOf(source: seq<string>)
    ensures (exists l :: l in source && !Blank(l)) ==> Bullets(source) == NormalizeHighlights(NonBlank(source))
    ensures (forall l :: l in source ==> Blank(l)) ==> Bullets(source) == ["- " + SummaryUnavailable]
  {
    NonBlankMembers(source);
    if exists l :: l in source && !Blank(l) {
      var l :| l in source && !Blank(l);
      assert l in NonBlank(source);
    } else {
      assert NonBlank(source) == [];
    }
  }

  /** With a summary, the highlights are its sanitized non-blank lines, in
      order, each made a bullet; only a summary with no such line gives the
      placeholder. */
  lemma HighlightsFromSummary(tag: string, previousTag: Option<string>, modelSummary: Option<string>)
    requires Truthy(modelSummary)
    ensures var lines := SplitLines(SanitizeModelSummary(modelSummary.value));
      ((exists l :: l in lines && !Blank(l)) ==> Highlights(tag, previousTag, modelSummary) == NormalizeHighlights(NonBlank(lines))) &&
      ((forall l :: l in lines ==> Blank(l)) ==> Highlights(tag, previousTag, modelSummary) == ["- " + SummaryUnavailable])
  {
    BulletsOf(SplitLines(SanitizeModelSummary(modelSummary.value)));
  }

  /** Every highlight line is a bullet. */
  lemma HighlightsBulleted(tag: string, previousTag: Option<string>, modelSummary: Option<string>)
    ensures forall k :: 0 <= k < |Highlights(tag, previousTag, modelSummary)| ==>
              Bulleted(Highlights(tag, previousTag, modelSummary)[k])
  {
    DashBulleted(SummaryUnavailable);
  }

  /** The commit lines: each made a bullet, or a placeholder bullet when
      there are none. */
  function CommitLines(commits: seq<string>): (r: seq<string>)
    ensures |r| >= 1
    ensures commits != [] ==> r == FormatCommits(commits)
    ensures commits == [] ==> r == ["- " + NoCommits]
  {
    if commits == [] then
      assert FormatCommit(NoCommits) == "- " + NoCommits by {
        CharFacts();
        assert LStrip(NoCommits, Whitespace) == NoCommits;
      }
      FormatCommits([NoCommits])
    else FormatCommits(commits)
  }

  /** Every commit line is a bullet. */
  lemma CommitLinesBulleted(commits: seq<string>)
    ensures forall k :: 0 <= k < |CommitLines(commits)| ==> Bulleted(CommitLines(commits)[k])
  {
  }

  const HighlightsHeading: string := "## Highlights"
  const ChangelogHeading: string := "## Changelog Extract"
  const CommitsHeading: string := "## Commits"

  function TitleLine(tag: string): string { "# Release " + tag }
  function TagLine(tag: string): string { "- Release tag: `" + tag + "`" }

  /** The previous tag, or "N/A" for a first release. */
  function PreviousLine(previousTag: Option<string>): string {
    "- Previous tag: `" + (if Truthy(previousTag) then previousTag.value else "N/A") + "`"
  }

  /** The changelog section, or a note that there is none. */
  function ChangelogText(changelogSection: Option<string>): (r: string)
    ensures Truthy(changelogSection) ==> r == changelogSection.value
    ensures !Truthy(changelogSection) ==> r == NoChangelog
  {
    if Truthy(changelogSection) then changelogSection.value else NoChangelog
  }

  /** The lines of the notes around given highlight and commit lines: title
      and tags, then the highlights, the changelog extract and the commits,
      each under its heading, and a final empty line. */
  function Assemble(tag: string, previousTag: Option<string>, changelogSection: Option<string>,
                    h: seq<string>, c: seq<string>): (s: seq<string>)
    ensures |s| == |h| + |c| + 12
    ensures s[0] == TitleLine(tag) && s[2] == TagLine(tag) && s[3] == PreviousLine(previousTag)
    ensures s[5] == HighlightsHeading && s[6..6 + |h|] == h
    ensures s[|h| + 7] == ChangelogHeading && s[|h| + 8] == ChangelogText(changelogSection)
    ensures s[|h| + 10] == CommitsHeading && s[|h| + 11..|s| - 1] == c
    ensures s[|s| - 1] == ""
    ensures forall k :: 0 <= k < |h| ==> s[6 + k] == h[k]
    ensures forall k :: 0 <= k < |c| ==> s[|h| + 11 + k] == c[k]
  {
    var top := [TitleLine(tag), "", TagLine(tag), PreviousLine(previousTag), "", HighlightsHeading];
    var middle := ["", ChangelogHeading, ChangelogText(changelogSection), "", CommitsHeading];
    Layout(top, h, middle, c, [""]);
    top + h + middle + c + [""]
  }

  /** The lines of the notes, before they are joined. */
  function Sections(tag: string, previousTag: Option<string>, changelogSection: Option<string>,
                    commits: seq<string>, modelSummary: Option<string>): seq<string>
  {
    Assemble(tag, previousTag, changelogSection, Highlights(tag, previousTag, modelSummary), CommitLines(commits))
  }

  /** Where the pieces of a five-part concatenation sit. */
  lemma Layout<T>(top: seq<T>, h: seq<T>, middle: seq<T>, c: seq<T>, last: seq<T>)
    ensures var s := top + h + middle + c + last;
            |s| == |top| + |h| + |middle| + |c| + |last| &&
            (forall k :: 0 <= k < |top| ==> s[k] == top[k]) &&
            s[|top|..|top| + |h|] == h &&
            (forall k :: 0 <= k < |h| ==> s[|top| + k] == h[k]) &&
            (forall k :: 0 <= k < |c| ==> s[|top| + |h| + |middle| + k] == c[k]) &&
            (forall k :: 0 <= k < |middle| ==> s[|top| + |h| + k] == middle[k]) &&
            s[|top| + |h| + |middle|..|s| - |last|] == c &&
            (forall k :: 0 <= k < |last| ==> s[|s| - |last| + k] == last[k])
  {
    var s := top + h + middle + c + last;
    assert s[|top|..|top| + |h|] == h;
    assert s[|top| + |h| + |middle|..|s| - |last|] == c;
  }

  /** `compose_release_notes`: the sections joined by newlines. Line `k`
      sits at `JoinOffset(.., k)`, so the lines appear whole and in order. */
  function ComposeReleaseNotes(tag: string, previousTag: Option<string>, changelogSection: Option<string>,
                               commits: seq<string>, modelSummary: Option<string>): (notes: string)
    ensures OccursAt(notes, TitleLine(tag), 0)
    ensures var s := Sections(tag, previousTag, changelogSection, commits, modelSummary);
      forall k :: 0 <= k < |s| ==> OccursAt(notes, s[k], JoinOffset(s, "\n", k))
  {
    var s := Sections(tag, previousTag, changelogSection, commits, modelSummary);
    JoinHead(s, "\n");
    forall k | 0 <= k < |s| ensures OccursAt(Join(s, "\n"), s[k], JoinOffset(s, "\n", k)) {
      JoinAt(s, "\n", k);
    }
    Join(s, "\n")
  }

  /** Where part `k` starts in `Join(parts, sep)`. */
  function JoinOffset(parts: seq<string>, sep: string, k: nat): (n: nat)
    requires k <= |parts|
    ensures k > 0 ==> n >= JoinOffset(parts, sep, k - 1) + |parts[k - 1]| + |sep|
  {
    if k == 0 then 0 else JoinOffset(parts, sep, k - 1) + |parts[k - 1]| + |sep|
  }

  /** Offsets into a join after its first part are shifted by that part and
      the separator. */
  lemma {:induction false} JoinOffsetShift(parts: seq<string>, sep: string, k: nat)
    requires 1 <= k <= |parts|
    ensures JoinOffset(parts, sep, k) == |parts[0]| + |sep| + JoinOffset(parts[1..], sep, k - 1)
  {
    if k > 1 {
      JoinOffsetShift(parts, sep, k - 1);
      assert parts[1..][k - 2] == parts[k - 1];
    }
  }

  /** Part `k` occurs whole in the join, at its offset. */
  lemma {:induction false} JoinAt(parts: seq<string>, sep: string, k: nat)
    requires k < |parts|
    ensures OccursAt(Join(parts, sep), parts[k], JoinOffset(parts, sep, k))
    decreases |parts|
  {
    var j := Join(parts, sep);
    if |parts| == 1 {
      assert j[..|parts[0]|] == parts[0];
    } else {
      var rest := Join(parts[1..], sep);
      assert j == parts[0] + sep + rest;
      if k == 0 {
        assert j[..|parts[0]|] == parts[0];
      } else {
        JoinAt(parts[1..], sep, k - 1);
        JoinOffsetShift(parts, sep, k);
        OccursAfter(parts[0] + sep, rest, parts[k], JoinOffset(parts[1..], sep, k - 1));
      }
    }
  }

  lemma OccursAfter(a: string, t: string, sub: string, i: int)
    requires OccursAt(t, sub, i)
    ensures OccursAt(a + t, sub, |a| + i)
  {
    assert (a + t)[|a| + i..|a| + i + |sub|] == t[i..i + |sub|];
  }

  /** The notes hold the three headings, the changelog extract (or its
      placeholder), every highlight and every commit line. */
  lemma NotesContents(tag: string, previousTag: Option<string>, changelogSection: Option<string>,
                      commits: seq<string>, modelSummary: Option<string>)
    ensures var notes := ComposeReleaseNotes(tag, previousTag, changelogSection, commits, modelSummary);
      Holds(notes, HighlightsHeading) && Holds(notes, ChangelogHeading) && Holds(notes, CommitsHeading) &&
      Holds(notes, ChangelogText(changelogSection)) &&
      (forall l :: l in Highlights(tag, previousTag, modelSummary) ==> Holds(notes, l)) &&
      (forall l :: l in CommitLines(commits) ==> Holds(notes, l))
  {
    LayoutHeld(tag, previousTag, changelogSection, Highlights(tag, previousTag, modelSummary), CommitLines(commits));
  }

  /** The joined layout holds each heading, the changelog text and every
      given line. */
  lemma LayoutHeld(tag: string, previousTag: Option<string>, changelogSection: Option<string>,
                   h: seq<string>, c: seq<string>)
    ensures var notes := Join(Assemble(tag, previousTag, changelogSection, h, c), "\n");
      Holds(notes, HighlightsHeading) && Holds(notes, ChangelogHeading) && Holds(notes, CommitsHeading) &&
      Holds(notes, ChangelogText(changelogSection)) &&
      (forall l :: l in h ==> Holds(notes, l)) &&
      (forall l :: l in c ==> Holds(notes, l))
  {
    var s := Assemble(tag, previousTag, changelogSection, h, c);
    HoldsPart(s, 5);
    HoldsPart(s, |h| + 7);
    HoldsPart(s, |h| + 8);
    HoldsPart(s, |h| + 10);
    forall l | l in h ensures Holds(Join(s, "\n"), l) {
      var k :| 0 <= k < |h| && h[k] == l;
      HoldsPart(s, 6 + k);
    }
    forall l | l in c ensures Holds(Join(s, "\n"), l) {
      var k :| 0 <= k < |c| && c[k] == l;
      HoldsPart(s, |h| + 11 + k);
    }
  }

  lemma HoldsPart(s: seq<string>, k: nat)
    requires k < |s|
    ensures Holds(Join(s, "\n"), s[k])
  {
    JoinAt(s, "\n", k);
  }

  /** `sub in s`. */
  ghost predicate Holds(s: string, sub: string) {
    exists i :: OccursAt(s, sub, i)
  }

  /** A join of several parts begins with the first part and its separator. */
  lemma {:induction false} JoinHead(parts: seq<string>, sep: string)
    requires |parts| >= 2
    ensures OccursAt(Join(parts, sep), parts[0], 0)
  {
    assert Join(parts, sep) == parts[0] + sep + Join(parts[1..], sep);
    assert Join(parts, sep)[..|parts[0]|] == parts[0];
  }

  /** A fallback line is already stripped and becomes a bullet as it is. */
  lemma FallbackLine(l: string)
    requires l != [] && l[0] in {'A', 'R', 'V'} && l[|l| - 1] == '.'
    ensures !Blank(l) && Strip(l) == l && NormalizeHighlight(l) == "- " + l
  {
    CharFacts();
    StripCharsIdempotent(l, Whitespace);
    assert SpaceEnd(l, 0) == 0;
    assert !Bulleted(l);
    assert l[0] !in {'-', ' '};
    assert LStrip(l, {'-', ' '}) == l;
    assert Strip(LStrip(l, {'-', ' '})) == l;
  }

  /** Without a summary, the highlights are the three fallback lines as
      bullets, the second naming the release scope. */
  lemma {:induction false} FallbackWhenNoSummary(tag: string, previousTag: Option<string>, modelSummary: Option<string>)
    requires !Truthy(modelSummary)
    ensures Highlights(tag, previousTag, modelSummary) ==
            ["- " + FallbackIntro, "- " + ScopeLine(previousTag, tag), "- " + FallbackAdvice]
  {
    var lines := BuildFallbackHighlights(previousTag, tag);
    var scope := lines[1];
    // The first character of a long literal is found through a shorter
    // prefix of it.
    assert "Auto-generated summary unavailable; revi"[0] == 'A';
    assert "Validation recommendation: run regressio"[0] == 'V';
    FallbackBullets(FallbackIntro, scope, FallbackAdvice);
    assert lines == [FallbackIntro, scope, FallbackAdvice];
  }

  /** Three fallback lines survive blank-dropping and each gains a dash. */
  lemma FallbackBullets(a: string, b: string, c: string)
    requires a != [] && a[0] in {'A', 'R', 'V'} && a[|a| - 1] == '.'
    requires b != [] && b[0] in {'A', 'R', 'V'} && b[|b| - 1] == '.'
    requires c != [] && c[0] in {'A', 'R', 'V'} && c[|c| - 1] == '.'
    ensures NormalizeHighlights(NonBlank([a, b, c])) == ["- " + a, "- " + b, "- " + c]
  {
    assert NonBlank([a, b, c]) == [a, b, c] by {
      FallbackLine(a);
      FallbackLine(b);
      FallbackLine(c);
      NonBlankThree(a, b, c);
    }
    NormalizeThree(a, b, c);
    FallbackLine(a);
    FallbackLine(b);
    FallbackLine(c);
  }

  lemma NormalizeThree(a: string, b: string, c: string)
    ensures NormalizeHighlights([a, b, c]) == [NormalizeHighlight(a), NormalizeHighlight(b), NormalizeHighlight(c)]
  {
    assert [a, b, c][1..] == [b, c];
    assert [b, c][1..] == [c];
    assert [c][1..] == [];
  }

  lemma NonBlankThree(a: string, b: string, c: string)
    requires !Blank(a) && !Blank(b) && !Blank(c)
    ensures NonBlank([a, b, c]) == [a, b, c]
  {
    assert [a, b, c][1..] == [b, c];
    assert [b, c][1..] == [c];
    assert [c][1..] == [];
    assert NonBlank([c]) == [c];
    assert NonBlank([b, c]) == [b, c];
  }

  /** A list of lines none of which is blank is kept whole. */
  lemma {:induction false} NonBlankAll(lines: seq<string>)
    requires forall k :: 0 <= k < |lines| ==> !Blank(lines[k])
    ensures NonBlank(lines) == lines
  {
    if lines != [] {
      NonBlankAll(lines[1..]);
      assert [lines[0]] + lines[1..] == lines;
    }
  }

  /** With a summary, the highlights come from it alone: the tags do not
      matter. */
  lemma SummaryIgnoresTags(tag: string, tag': string, previousTag: Option<string>, previousTag': Option<string>,
                           modelSummary: Option<string>)
    requires Truthy(modelSummary)
    ensures Highlights(tag, previousTag, modelSummary) == Highlights(tag', previousTag', modelSummary)
  {
  }
}
