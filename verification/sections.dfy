/** The section locator (`_find_section_content`) and the extractor built on it
    (`_extract_sections_from_docs`): find the first document line that one of six
    title patterns matches, tried in a fixed order, then collect that line and
    the lines below it up to the next boundary line or a cap of 100 body lines. */
module Sections {
  import opened Text

  /** Appended after the 100th body line. */
  const Marker := "... (content truncated)"

  /** The number of body lines collected before the marker is appended: the
      source stops once `len(content_lines) > 100`, the header line included. */
  const Cap := 100

  /** The patterns tried, in priority order: three heading forms, the title as
      given, the title in lower case, and its slug (spaces to `-`, lower case). */
  function Patterns(title: string): (ps: seq<string>)
    ensures |ps| == 6
    ensures ps[3] == title && ps[4] == Lower(title)
    ensures forall k :: 0 <= k < |ps| ==> |ps[k]| >= |title|
  {
    ["# " + title, "## " + title, "### " + title, title, Lower(title), Lower(ReplaceChar(title, ' ', '-'))]
  }

  /** `pattern in line.lower() or line.lower().strip() == pattern`: the pattern
      itself is not lower-cased. */
  predicate LineMatches(pattern: string, line: string) {
    Contains(Lower(line), pattern) || Strip(Lower(line)) == pattern
  }

  /** The second test adds nothing: a stripped line is a substring of the line,
      so a line matches exactly when the pattern occurs in its lower-cased form. */
  lemma MatchesIsContains(pattern: string, line: string)
    ensures LineMatches(pattern, line) <==> Contains(Lower(line), pattern)
  {
    if Strip(Lower(line)) == pattern {
      var a := StripIsInfix(Lower(line));
      ContainsAt(Lower(line), pattern, a);
    }
  }

  /** A lower-cased string holds no upper-case letter. */
  lemma LowerHasNoUpper(s: string)
    ensures forall c :: c in Lower(s) ==> !IsUpper(c)
  {
    forall c | c in Lower(s) ensures !IsUpper(c) {
      var k :| 0 <= k < |s| && Lower(s)[k] == c;
    }
  }

  /** A pattern holding an upper-case letter matches no line. */
  lemma UpperPatternNeverMatches(pattern: string, line: string)
    requires HasUpper(pattern)
    ensures !LineMatches(pattern, line)
  {
    MatchesIsContains(pattern, line);
    LowerHasNoUpper(line);
    if Contains(Lower(line), pattern) {
      ContainedChars(Lower(line), pattern);
      assert false;
    }
  }

  /** `line.strip()` starts a new section when it starts with `"# "`, or starts
      with `"## "` and differs from the stripped header line; the `and` binds
      tighter than the `or`. */
  predicate IsBoundary(header: string, line: string) {
    var current := Strip(line);
    StartsWith(current, "# ") || (StartsWith(current, "## ") && current != Strip(header))
  }

  /** A `### ` heading never ends a section: it starts with neither `"# "` nor
      `"## "`. */
  lemma SubSubheadingContinues(header: string, line: string)
    requires StartsWith(Strip(line), "### ")
    ensures !IsBoundary(header, line)
  {
    var current := Strip(line);
    assert current[1] == '#' && current[2] == '#';
  }

  /** A `## ` line ends a section exactly when it differs from the stripped
      header line. */
  lemma SubheadingEnds(header: string, line: string)
    requires StartsWith(Strip(line), "## ")
    ensures IsBoundary(header, line) <==> Strip(line) != Strip(header)
  {
    assert Strip(line)[1] == '#';
  }

  /** The boundary test for the section headed by `header`. */
  function EndsSection(header: string): string -> bool {
    line => IsBoundary(header, line)
  }

  /** Index of the first line at or after `from` that `pattern` matches, or
      `|lines|` when there is none. */
  function FirstLine(pattern: string, lines: seq<string>, from: nat): (i: nat)
    requires from <= |lines|
    ensures from <= i <= |lines|
    ensures i < |lines| ==> LineMatches(pattern, lines[i])
    decreases |lines| - from
  {
    if from == |lines| || LineMatches(pattern, lines[from]) then from
    else FirstLine(pattern, lines, from + 1)
  }

  /** `FirstLine` skips only lines that do not match. */
  lemma {:induction false} FirstLineEarliest(pattern: string, lines: seq<string>, from: nat, t: nat)
    requires from <= |lines| && from <= t < FirstLine(pattern, lines, from)
    ensures !LineMatches(pattern, lines[t])
    decreases |lines| - from
  {
    if t > from {
      FirstLineEarliest(pattern, lines, from + 1, t);
    }
  }

  /** Where the search stopped: pattern `pattern`, line `line`. */
  datatype Hit = Hit(pattern: nat, line: nat)

  /** The first hit of the patterns `ps[p..]`, trying every line for one
      pattern before the next pattern. */
  function FirstHit(ps: seq<string>, lines: seq<string>, p: nat): (r: Option<Hit>)
    requires p <= |ps|
    ensures r.Some? ==> p <= r.value.pattern < |ps| && r.value.line < |lines|
    decreases |ps| - p
  {
    if p == |ps| then None
    else
      var i := FirstLine(ps[p], lines, 0);
      if i < |lines| then Some(Hit(p, i)) else FirstHit(ps, lines, p + 1)
  }

  /** A hit is a match; no earlier line matches its pattern and no earlier
      pattern matches any line. */
  lemma {:induction false} FirstHitIsFirst(ps: seq<string>, lines: seq<string>, p: nat, q: nat, t: nat)
    requires p <= |ps| && FirstHit(ps, lines, p).Some?
    requires t < |lines|
    ensures LineMatches(ps[FirstHit(ps, lines, p).value.pattern], lines[FirstHit(ps, lines, p).value.line])
    ensures p <= q < FirstHit(ps, lines, p).value.pattern ==> !LineMatches(ps[q], lines[t])
    ensures t < FirstHit(ps, lines, p).value.line ==> !LineMatches(ps[FirstHit(ps, lines, p).value.pattern], lines[t])
    decreases |ps| - p
  {
    var i := FirstLine(ps[p], lines, 0);
    if i < |lines| {
      if t < i {
        FirstLineEarliest(ps[p], lines, 0, t);
      }
    } else {
      FirstHitIsFirst(ps, lines, p + 1, q, t);
      if q == p {
        FirstLineEarliest(ps[p], lines, 0, t);
      }
    }
  }

  /** No hit means no pattern of `ps[p..]` matches any line. */
  lemma {:induction false} NoHitNoMatch(ps: seq<string>, lines: seq<string>, p: nat, q: nat, t: nat)
    requires p <= q < |ps| && t < |lines|
    requires FirstHit(ps, lines, p).None?
    ensures !LineMatches(ps[q], lines[t])
    decreases |ps| - p
  {
    FirstLineEarliest(ps[p], lines, 0, t);
    if q > p {
      NoHitNoMatch(ps, lines, p + 1, q, t);
    }
  }

  /** A matching pair guarantees a hit. */
  lemma {:induction false} MatchGivesHit(ps: seq<string>, lines: seq<string>, p: nat, q: nat, t: nat)
    requires p <= q < |ps| && t < |lines|
    requires LineMatches(ps[q], lines[t])
    ensures FirstHit(ps, lines, p).Some?
  {
    if FirstHit(ps, lines, p).None? {
      NoHitNoMatch(ps, lines, p, q, t);
    }
  }

  /** The body collected from line `from` on, with room for `room` more lines
      before the marker: collection stops before the first line `stop` holds
      for (a boundary line, in `SectionLines`) or at the end of the lines, and
      the line that fills the room is followed by the marker. */
  function Body(lines: seq<string>, stop: string -> bool, from: nat, room: nat): (r: seq<string>)
    requires from <= |lines| && 1 <= room
    decreases |lines| - from
  {
    if from == |lines| || stop(lines[from]) then []
    else if room == 1 then [lines[from], Marker]
    else [lines[from]] + Body(lines, stop, from + 1, room - 1)
  }

  /** One more body line: a line `stop` does not hold for is kept, followed
      by the marker when it fills the room and by the rest of the body
      otherwise. */
  lemma BodyAt(lines: seq<string>, stop: string -> bool, from: nat, room: nat)
    requires from < |lines| && 1 <= room && !stop(lines[from])
    ensures Body(lines, stop, from, room) ==
      [lines[from]] + if room == 1 then [Marker] else Body(lines, stop, from + 1, room - 1)
  {
  }

  /** The number of document lines in `r` when `room` is the most it can
      hold: all of `r`, or all but the marker once the room is filled. */
  function Kept(r: seq<string>, room: nat): nat {
    if |r| == room + 1 then room else |r|
  }

  /** A body is either short of the room, or holds `room` document lines and
      then the marker; short of the room, collection stopped at the end of
      the lines or right before a line `stop` holds for. */
  lemma {:induction false} BodyShape(lines: seq<string>, stop: string -> bool, from: nat, room: nat)
    requires from <= |lines| && 1 <= room
    ensures var r := Body(lines, stop, from, room);
      (|r| < room || |r| == room + 1) &&
      from + Kept(r, room) <= |lines| &&
      (|r| == room + 1 ==> r[room] == Marker) &&
      (|r| < room ==> from + |r| == |lines| || stop(lines[from + |r|]))
    decreases |lines| - from
  {
    if from < |lines| && !stop(lines[from]) && room > 1 {
      BodyAt(lines, stop, from, room);
      BodyShape(lines, stop, from + 1, room - 1);
    }
  }

  /** Every document line in a body is the line at its position, verbatim,
      and `stop` does not hold for it. */
  lemma {:induction false} BodyLine(lines: seq<string>, stop: string -> bool, from: nat, room: nat, t: nat)
    requires from <= t < |lines| && 1 <= room
    requires t < from + Kept(Body(lines, stop, from, room), room)
    ensures Body(lines, stop, from, room)[t - from] == lines[t]
    ensures !stop(lines[t])
    decreases |lines| - from
  {
    if t > from {
      BodyAt(lines, stop, from, room);
      BodyLine(lines, stop, from + 1, room - 1, t);
    }
  }

  /** The lines returned for a hit at line `i`: the header line and its body. */
  function SectionLines(lines: seq<string>, i: nat): (r: seq<string>)
    requires i < |lines|
    ensures r != [] && r[0] == lines[i]
  {
    [lines[i]] + Body(lines, EndsSection(lines[i]), i + 1, Cap)
  }

  /** At most `Cap` lines, the header included, are returned when collection
      stopped early, at the end of the document or right before a boundary
      line; otherwise the header, `Cap` body lines and the marker. */
  lemma SectionShape(lines: seq<string>, i: nat)
    requires i < |lines|
    ensures var r := SectionLines(lines, i);
      (1 <= |r| <= Cap || |r| == Cap + 2) &&
      i + Kept(r, Cap + 1) <= |lines| &&
      (|r| == Cap + 2 ==> r[Cap + 1] == Marker) &&
      (|r| <= Cap ==> i + |r| == |lines| || IsBoundary(lines[i], lines[i + |r|]))
  {
    BodyShape(lines, EndsSection(lines[i]), i + 1, Cap);
  }

  /** The returned lines before the marker are the document lines from the
      hit on, verbatim, and none after the header is a boundary line. */
  lemma SectionLine(lines: seq<string>, i: nat, t: nat)
    requires i <= t < |lines| && t < i + Kept(SectionLines(lines, i), Cap + 1)
    ensures SectionLines(lines, i)[t - i] == lines[t]
    ensures i < t ==> !IsBoundary(lines[i], lines[t])
  {
    if i < t {
      BodyLine(lines, EndsSection(lines[i]), i + 1, Cap, t);
    }
  }

  /** `_find_section_content(full_docs, title)` as a function. */
  function FindSection(fullDocs: string, title: string): (r: Option<string>)
  {
    var lines := SplitOn(fullDocs, '\n');
    match FirstHit(Patterns(title), lines, 0)
    case None => None
    case Some(h) => Some(JoinWith(SectionLines(lines, h.line), '\n'))
  }

  /** One pass of the collecting loop: with `acc` collected so far and `stop`
      false on line `j`, `acc + [lines[j]]` is followed by the rest of the
      body, or by the marker when it holds the header and `Cap` body lines. */
  lemma CollectStep(lines: seq<string>, stop: string -> bool, j: nat, acc: seq<string>, total: seq<string>)
    requires j < |lines| && 1 <= |acc| <= Cap && !stop(lines[j])
    requires acc + Body(lines, stop, j, Cap + 1 - |acc|) == total
    ensures |acc| < Cap ==> (acc + [lines[j]]) + Body(lines, stop, j + 1, Cap - |acc|) == total
    ensures |acc| == Cap ==> (acc + [lines[j]]) + [Marker] == total
  {
    var room := Cap + 1 - |acc|;
    BodyAt(lines, stop, j, room);
    if room == 1 {
      AppendShift(acc, lines[j], [Marker]);
    } else {
      AppendShift(acc, lines[j], Body(lines, stop, j + 1, room - 1));
    }
  }

  /** Appending one element moves it from the front of the rest to the end
      of the prefix. */
  lemma AppendShift<T>(prefix: seq<T>, x: T, rest: seq<T>)
    ensures prefix + ([x] + rest) == (prefix + [x]) + rest
  {
  }

  /** The `while` loop of `_find_section_content`: the lines collected for a
      hit at line `i`. */
  method CollectSection(lines: seq<string>, i: nat) returns (contentLines: seq<string>)
    requires i < |lines|
    ensures contentLines == SectionLines(lines, i)
  {
    var line := lines[i];
    contentLines := [line];
    var j := i + 1;
    while j < |lines|
      invariant i + 1 <= j <= |lines| && |contentLines| == j - i <= Cap
      invariant contentLines + Body(lines, EndsSection(line), j, Cap + 1 - |contentLines|) == SectionLines(lines, i)
    {
      // `IsBoundary` is the test on `lines[j].strip()`.
      if IsBoundary(line, lines[j]) {
        break;
      }
      CollectStep(lines, EndsSection(line), j, contentLines, SectionLines(lines, i));
      contentLines := contentLines + [lines[j]];
      j := j + 1;
      if |contentLines| > Cap {
        contentLines := contentLines + [Marker];
        break;
      }
    }
  }

  /** `_find_section_content(full_docs, title)`. */
  method FindSectionContent(fullDocs: string, title: string) returns (r: Option<string>)
    ensures r == FindSection(fullDocs, title)
  {
    var lines := SplitOn(fullDocs, '\n');
    var patternsToTry := Patterns(title);
    for p := 0 to |patternsToTry|
      invariant FirstHit(patternsToTry, lines, 0) == FirstHit(patternsToTry, lines, p)
    {
      var pattern := patternsToTry[p];
      for i := 0 to |lines|
        invariant FirstLine(pattern, lines, 0) == FirstLine(pattern, lines, i)
      {
        var line := lines[i];
        if LineMatches(pattern, line) {
          assert FirstHit(patternsToTry, lines, 0) == Some(Hit(p, i));
          var contentLines := CollectSection(lines, i);
          return Some(JoinWith(contentLines, '\n'));
        }
      }
    }
    return None;
  }

  // ---------------------------------------------------------------------------
  // Properties of the locator

  /** When the locator finds nothing, none of the six patterns occurs in any
      lower-cased document line. */
  lemma NotFoundNoMatch(fullDocs: string, title: string, q: nat, t: nat)
    requires FindSection(fullDocs, title).None?
    requires q < 6 && t < |SplitOn(fullDocs, '\n')|
    ensures !Contains(Lower(SplitOn(fullDocs, '\n')[t]), Patterns(title)[q])
  {
    var lines := SplitOn(fullDocs, '\n');
    var ps := Patterns(title);
    NoHitNoMatch(ps, lines, 0, q, t);
    MatchesIsContains(ps[q], lines[t]);
  }

  /** When one of the six patterns occurs in a lower-cased document line, the
      locator finds a section. */
  lemma MatchFound(fullDocs: string, title: string, q: nat, t: nat)
    requires q < 6 && t < |SplitOn(fullDocs, '\n')|
    requires Contains(Lower(SplitOn(fullDocs, '\n')[t]), Patterns(title)[q])
    ensures FindSection(fullDocs, title).Some?
  {
    var lines := SplitOn(fullDocs, '\n');
    var ps := Patterns(title);
    MatchesIsContains(ps[q], lines[t]);
    MatchGivesHit(ps, lines, 0, q, t);
  }

  /** A title that occurs verbatim in a document line is found, and its value
      is the located text, not the not-found message: its lower-case form, the
      fifth pattern, occurs in the lower-cased line. The located text need not
      hold that line (`FoundAtFirstMatch`). */
  lemma VerbatimTitleFound(fullDocs: string, title: string, t: nat)
    requires title != "" && t < |SplitOn(fullDocs, '\n')|
    requires Contains(SplitOn(fullDocs, '\n')[t], title)
    ensures FindSection(fullDocs, title).Some?
    ensures SectionValue(fullDocs, title) == FindSection(fullDocs, title).value
  {
    var lines := SplitOn(fullDocs, '\n');
    var ps := Patterns(title);
    ContainsLower(lines[t], title);
    MatchFound(fullDocs, title, 4, t);
    var h := FirstHit(ps, lines, 0).value;
    FoundAtFirstMatch(fullDocs, title, 0, t);
    ContainsLen(Lower(lines[h.line]), ps[h.pattern]);
    JoinFirst(SectionLines(lines, h.line), '\n');
  }

  /** A found section starts at the first line matched by the first pattern
      that matches any line: no earlier pattern matches a line, and no earlier
      line matches its pattern. */
  lemma FoundAtFirstMatch(fullDocs: string, title: string, q: nat, t: nat)
    requires FindSection(fullDocs, title).Some?
    requires t < |SplitOn(fullDocs, '\n')|
    ensures var lines := SplitOn(fullDocs, '\n');
      var h := FirstHit(Patterns(title), lines, 0).value;
      FindSection(fullDocs, title).value == JoinWith(SectionLines(lines, h.line), '\n') &&
      Contains(Lower(lines[h.line]), Patterns(title)[h.pattern]) &&
      (q < h.pattern ==> !Contains(Lower(lines[t]), Patterns(title)[q])) &&
      (t < h.line ==> !Contains(Lower(lines[t]), Patterns(title)[h.pattern]))
  {
    var lines := SplitOn(fullDocs, '\n');
    var ps := Patterns(title);
    var h := FirstHit(ps, lines, 0).value;
    FirstHitIsFirst(ps, lines, 0, q, t);
    MatchesIsContains(ps[h.pattern], lines[h.line]);
    MatchesIsContains(ps[h.pattern], lines[t]);
    if q < h.pattern {
      MatchesIsContains(ps[q], lines[t]);
    }
  }

  /** The returned text splits back into exactly the returned lines. */
  lemma FoundLinesRoundTrip(fullDocs: string, title: string)
    requires FindSection(fullDocs, title).Some?
    ensures var lines := SplitOn(fullDocs, '\n');
      SplitOn(FindSection(fullDocs, title).value, '\n') ==
        SectionLines(lines, FirstHit(Patterns(title), lines, 0).value.line)
  {
    var lines := SplitOn(fullDocs, '\n');
    var i := FirstHit(Patterns(title), lines, 0).value.line;
    SectionPieces(lines, i);
    SplitJoin(SectionLines(lines, i), '\n');
  }

  /** Each returned line is a document line or the marker. */
  lemma SectionPieces(lines: seq<string>, i: nat)
    requires i < |lines|
    ensures forall piece :: piece in SectionLines(lines, i) ==> piece == Marker || piece in lines
  {
    var r := SectionLines(lines, i);
    SectionShape(lines, i);
    forall piece | piece in r ensures piece == Marker || piece in lines {
      var k :| 0 <= k < |r| && r[k] == piece;
      if k < Kept(r, Cap + 1) {
        SectionLine(lines, i, i + k);
      }
    }
  }

  /** A title with an upper-case letter can only be found by its lower-case
      form or its slug: the first four patterns never match. */
  lemma UpperTitleSkipsFirstFour(fullDocs: string, title: string)
    requires HasUpper(title)
    ensures FirstHit(Patterns(title), SplitOn(fullDocs, '\n'), 0) ==
            FirstHit(Patterns(title), SplitOn(fullDocs, '\n'), 4)
  {
    var lines := SplitOn(fullDocs, '\n');
    var ps := Patterns(title);
    var k :| 0 <= k < |title| && IsUpper(title[k]);
    assert IsUpper(ps[0][2 + k]) && IsUpper(ps[1][3 + k]) && IsUpper(ps[2][4 + k]) && IsUpper(ps[3][k]);
    SkipUnmatched(ps, lines, 3);
    SkipUnmatched(ps, lines, 2);
    SkipUnmatched(ps, lines, 1);
    SkipUnmatched(ps, lines, 0);
  }

  /** A pattern with an upper-case letter passes the search on to the next. */
  lemma SkipUnmatched(ps: seq<string>, lines: seq<string>, p: nat)
    requires p < |ps| && HasUpper(ps[p])
    ensures FirstHit(ps, lines, p) == FirstHit(ps, lines, p + 1)
  {
    var i := FirstLine(ps[p], lines, 0);
    if i < |lines| {
      UpperPatternNeverMatches(ps[p], lines[i]);
    }
  }

  /** The empty title is always found: its fourth pattern, `""`, occurs in
      every line. */
  lemma EmptyTitleFound(fullDocs: string)
    ensures FindSection(fullDocs, "").Some?
  {
    var lines := SplitOn(fullDocs, '\n');
    assert Patterns("")[3] == "";
    assert Contains(Lower(lines[0]), "");
    MatchGivesHit(Patterns(""), lines, 0, 3, 0);
  }

  /** The empty title in the empty document is found, but the located text is
      `""`, so the value stored for it is still the not-found message. */
  lemma EmptyTitleEmptyDocs()
    ensures FindSection("", "") == Some("")
    ensures SectionValue("", "") == NotFound("")
  {
    var lines := SplitOn("", '\n');
    assert lines == [""];
    var ps := Patterns("");
    assert !LineMatches(ps[0], "") && !LineMatches(ps[1], "") && !LineMatches(ps[2], "");
    assert LineMatches(ps[3], "");
    assert FirstHit(ps, lines, 0) == Some(Hit(3, 0));
    assert SectionLines(lines, 0) == [""];
  }

  // ---------------------------------------------------------------------------
  // The extractor

  /** The value stored for a title that was not found. */
  function NotFound(title: string): (s: string)
    ensures |s| > |title|
  {
    "Section '" + title + "' not found in documentation."
  }

  /** The value `_extract_sections_from_docs` stores for `title`: the found
      content when it is not empty, the not-found message otherwise. */
  function SectionValue(fullDocs: string, title: string): (v: string)
    ensures v != ""
    ensures (FindSection(fullDocs, title).None? || FindSection(fullDocs, title).value == "") ==> v == NotFound(title)
  {
    match FindSection(fullDocs, title)
    case Some(content) => if content != "" then content else NotFound(title)
    case None => NotFound(title)
  }

  /** `_extract_sections_from_docs(full_docs, section_titles)`. */
  method ExtractSections(fullDocs: string, sectionTitles: seq<string>) returns (contentSections: map<string, string>)
    ensures contentSections.Keys == set t | t in sectionTitles
    ensures forall t :: t in sectionTitles ==> contentSections[t] == SectionValue(fullDocs, t)
  {
    contentSections := map[];
    for n := 0 to |sectionTitles|
      invariant contentSections.Keys == set t | t in sectionTitles[..n]
      invariant forall t :: t in contentSections ==> contentSections[t] == SectionValue(fullDocs, t)
    {
      var title := sectionTitles[n];
      var sectionContent := FindSectionContent(fullDocs, title);
      if sectionContent.Some? && sectionContent.value != "" {
        assert SectionValue(fullDocs, title) == sectionContent.value;
        contentSections := contentSections[title := sectionContent.value];
      } else {
        assert SectionValue(fullDocs, title) == NotFound(title);
        contentSections := contentSections[title := NotFound(title)];
      }
      assert sectionTitles[..n + 1] == sectionTitles[..n] + [title];
    }
    assert sectionTitles[..|sectionTitles|] == sectionTitles;
  }

  /** The result has at most one entry per requested title: repeated titles
      share one entry. */
  lemma {:induction false} KeyCount(titles: seq<string>)
    ensures |set t | t in titles| <= |titles|
  {
    if titles != [] {
      var init := titles[..|titles| - 1];
      KeyCount(init);
      assert (set t | t in titles) == (set t | t in init) + {titles[|titles| - 1]};
    }
  }
}
