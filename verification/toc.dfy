/** The table-of-contents parser (`_parse_toc`): a walk over the lines of the
    table of contents that remembers the latest category header and turns each
    bullet line carrying a markdown link into a section record. */
module Toc {
  import opened Text
  import opened LinkPattern

  datatype SectionRecord = SectionRecord(title: string, category: string, url: string, description: string)

  /** A (stripped) line that starts with one of the bullet or ordinal markers
      `-`, `*`, `1.`, `2.`, `3.`, `4.`, `5.`, read character by character. */
  predicate IsBullet(line: string) {
    |line| >= 1 &&
    (line[0] == '-' || line[0] == '*' || (|line| >= 2 && '1' <= line[0] <= '5' && line[1] == '.'))
  }

  /** `IsBullet` is the `startswith` test on the tuple of markers. */
  lemma BulletMarkers(line: string)
    ensures IsBullet(line) <==>
      StartsWith(line, "-") || StartsWith(line, "*") ||
      StartsWith(line, "1.") || StartsWith(line, "2.") || StartsWith(line, "3.") ||
      StartsWith(line, "4.") || StartsWith(line, "5.")
  {
    if |line| >= 2 {
      assert StartsWith(line, "1.") <==> line[0] == '1' && line[1] == '.';
      assert StartsWith(line, "2.") <==> line[0] == '2' && line[1] == '.';
      assert StartsWith(line, "3.") <==> line[0] == '3' && line[1] == '.';
      assert StartsWith(line, "4.") <==> line[0] == '4' && line[1] == '.';
      assert StartsWith(line, "5.") <==> line[0] == '5' && line[1] == '.';
    }
  }

  /** A (stripped) line that starts with `#` or with `http`. */
  predicate IsHashOrUrl(line: string) {
    (|line| >= 1 && line[0] == '#') || (|line| >= 4 && line[..4] == "http")
  }

  lemma HashOrUrlPrefixes(line: string)
    ensures IsHashOrUrl(line) <==> StartsWith(line, "#") || StartsWith(line, "http")
  {
  }

  /** A (stripped) header line that becomes the current category: not empty, not a
      bullet, and starting with neither `#` nor `http`. */
  predicate SetsCategory(line: string) {
    line != "" && !IsBullet(line) && !IsHashOrUrl(line)
  }

  /** The category named by a header line: the line without any `#`, stripped. */
  function CategoryText(line: string): (r: string)
    ensures '#' !in r
    ensures Strip(r) == r
  {
    StripIdempotent(RemoveChar(line, '#'));
    StripChars(RemoveChar(line, '#'));
    Strip(RemoveChar(line, '#'))
  }

  /** The category after reading one more (stripped) line. */
  function NextCategory(category: string, line: string): string {
    if SetsCategory(line) then CategoryText(line) else category
  }

  /** The description of a record: `"{category}: {title}"`, or the title alone
      when there is no category. */
  function Describe(category: string, title: string): string {
    if category != "" then category + ": " + title else title
  }

  /** The query occurs, ignoring ASCII case, in the title or in the category. */
  predicate MatchesQuery(query: string, title: string, category: string) {
    Contains(Lower(title), Lower(query)) || Contains(Lower(category), Lower(query))
  }

  /** Whether a record survives the optional query: an absent or empty query
      keeps everything. */
  predicate Keeps(query: Option<string>, title: string, category: string) {
    query.None? || query.value == "" || MatchesQuery(query.value, title, category)
  }

  /** What every record produced by the parser looks like. */
  predicate WellFormed(r: SectionRecord) {
    r.description == Describe(r.category, r.title) &&
    ']' !in r.title && ')' !in r.url && '#' !in r.category &&
    Strip(r.title) == r.title && Strip(r.url) == r.url && Strip(r.category) == r.category
  }

  /** The record of a bullet line under `category`, if the line holds a link:
      the stripped link text is the title, the stripped link target the url. */
  function RecordOf(line: string, category: string): Option<SectionRecord> {
    match Search(line)
    case None => None
    case Some(x) =>
      var title := Strip(LinkText(line, x));
      Some(SectionRecord(title, category, Strip(LinkTarget(line, x)), Describe(category, title)))
  }

  /** A line gives a record exactly when the link pattern matches it; the
      record keeps the category and describes itself from category and title. */
  lemma RecordOfShape(line: string, category: string)
    ensures RecordOf(line, category).Some? <==> Search(line).Some?
    ensures RecordOf(line, category).Some? ==>
      RecordOf(line, category).value.category == category &&
      RecordOf(line, category).value.description == Describe(category, RecordOf(line, category).value.title)
  {
  }

  /** A description ends with the title, and is the title alone when there is
      no category. */
  lemma DescribeShape(category: string, title: string)
    ensures category == "" ==> Describe(category, title) == title
    ensures var d := Describe(category, title); |title| <= |d| && d[|d| - |title|..] == title
  {
  }

  /** A record read from a line is well formed when its category is. */
  lemma RecordOfWellFormed(line: string, category: string)
    requires '#' !in category && Strip(category) == category
    requires RecordOf(line, category).Some?
    ensures WellFormed(RecordOf(line, category).value)
  {
    var x := Search(line).value;
    StripIdempotent(LinkText(line, x));
    StripIdempotent(LinkTarget(line, x));
    StripChars(LinkText(line, x));
    StripChars(LinkTarget(line, x));
  }

  /** The title and the url of a record occur in the line it was read from. */
  lemma RecordInLine(line: string, category: string)
    requires RecordOf(line, category).Some?
    ensures Contains(line, RecordOf(line, category).value.title)
    ensures Contains(line, RecordOf(line, category).value.url)
  {
    var x := Search(line).value;
    LinkPartsInLine(line, x);
  }

  /** A link whose text is only whitespace gives an empty title, and one whose
      target is only whitespace an empty url: the pattern only asks for
      non-empty groups, and stripping happens afterwards. */
  lemma BlankLinkParts(line: string, category: string)
    requires RecordOf(line, category).Some?
    ensures var x := Search(line).value;
      (RecordOf(line, category).value.title == "" <==>
        forall i :: 0 <= i < |LinkText(line, x)| ==> IsSpace(LinkText(line, x)[i])) &&
      (RecordOf(line, category).value.url == "" <==>
        forall i :: 0 <= i < |LinkTarget(line, x)| ==> IsSpace(LinkTarget(line, x)[i]))
  {
    var x := Search(line).value;
    StripEmpty(LinkText(line, x));
    StripEmpty(LinkTarget(line, x));
  }

  /** The stripped link text and the stripped link target of a match occur in
      the line. */
  lemma LinkPartsInLine(line: string, x: Match)
    requires IsMatchAt(line, x.open, x.close, x.end)
    ensures Contains(line, Strip(LinkText(line, x)))
    ensures Contains(line, Strip(LinkTarget(line, x)))
  {
    StripOfSliceOccurs(line, x.open + 1, x.close, LinkText(line, x));
    StripOfSliceOccurs(line, x.close + 2, x.end, LinkTarget(line, x));
  }

  /** The records one (stripped) line contributes under `category`: at most one,
      and only from a bullet line holding a link. */
  function Emit(line: string, category: string, query: Option<string>): (r: seq<SectionRecord>)
    ensures |r| <= 1
    ensures r != [] ==> line != "" && IsBullet(line) && RecordOf(line, category) == Some(r[0])
  {
    if line == "" || !IsBullet(line) then []
    else match RecordOf(line, category)
      case None => []
      case Some(s) => if Keeps(query, s.title, s.category) then [s] else []
  }

  /** The current category after the given stripped lines: the category of the
      latest line that sets one, or `""`. */
  function CategoryAfter(lines: seq<string>): (r: string)
    ensures '#' !in r && Strip(r) == r
  {
    if lines == [] then ""
    else NextCategory(CategoryAfter(lines[..|lines| - 1]), lines[|lines| - 1])
  }

  /** The records of the given stripped lines, in line order. */
  function ParseLines(lines: seq<string>, query: Option<string>): (r: seq<SectionRecord>)
    ensures |r| <= |lines|
  {
    if lines == [] then []
    else
      var before := lines[..|lines| - 1];
      ParseLines(before, query) + Emit(lines[|lines| - 1], CategoryAfter(before), query)
  }

  /** The lines `_parse_toc` walks, each stripped: the stripped text, split on
      line feeds. */
  function TocLines(tocContent: string): (r: seq<string>)
    ensures |r| >= 1
  {
    StripEach(SplitOn(Strip(tocContent), '\n'))
  }

  /** Reading line `n` extends the records by what that line emits and moves the
      category on by that line. */
  lemma ParseStep(lines: seq<string>, n: nat, query: Option<string>)
    requires n < |lines|
    ensures ParseLines(lines[..n + 1], query) ==
      ParseLines(lines[..n], query) + Emit(lines[n], CategoryAfter(lines[..n]), query)
    ensures CategoryAfter(lines[..n + 1]) == NextCategory(CategoryAfter(lines[..n]), lines[n])
  {
    var prefix := lines[..n + 1];
    assert prefix[..n] == lines[..n] && prefix[n] == lines[n];
    ParseLast(prefix, query);
    CategoryLast(prefix);
  }

  /** What one non-empty stripped line does, case by case, in the terms the
      loop of `ParseToc` tests. */
  lemma LineEffect(line: string, category: string, query: Option<string>)
    requires line != ""
    ensures !IsBullet(line) ==> Emit(line, category, query) == []
    ensures IsBullet(line) ==> NextCategory(category, line) == category
    ensures IsBullet(line) && Search(line).None? ==> Emit(line, category, query) == []
    ensures IsBullet(line) && Search(line).Some? ==>
      var title := Strip(LinkText(line, Search(line).value));
      var record := SectionRecord(title, category, Strip(LinkTarget(line, Search(line).value)), Describe(category, title));
      Emit(line, category, query) == if Keeps(query, title, category) then [record] else []
  {
  }

  /** `_parse_toc(toc_content, query)`. */
  method ParseToc(tocContent: string, query: Option<string>) returns (sections: seq<SectionRecord>)
    ensures sections == ParseLines(TocLines(tocContent), query)
    ensures |sections| <= |TocLines(tocContent)|
  {
    var lines := SplitOn(Strip(tocContent), '\n');
    ghost var stripped := StripEach(lines);
    sections := [];
    var currentCategory := "";
    for n := 0 to |lines|
      invariant currentCategory == CategoryAfter(stripped[..n])
      invariant sections == ParseLines(stripped[..n], query)
    {
      ParseStep(stripped, n, query);
      var line := Strip(lines[n]);
      assert line == stripped[n];
      if line == "" {
        continue;
      }
      LineEffect(line, currentCategory, query);
      // `IsBullet` and `IsHashOrUrl` are the two `startswith` tests (see
      // `BulletMarkers` and `HashOrUrlPrefixes`).
      if !IsBullet(line) {
        if line != "" && !IsHashOrUrl(line) {
          currentCategory := CategoryText(line);
        }
        continue;
      }
      var linkMatch := Search(line);
      if linkMatch.Some? {
        var title := Strip(LinkText(line, linkMatch.value));
        var url := Strip(LinkTarget(line, linkMatch.value));
        if query.Some? && query.value != "" && !MatchesQuery(query.value, title, currentCategory) {
          continue;
        }
        sections := sections + [SectionRecord(title, currentCategory, url, Describe(currentCategory, title))];
      }
    }
    assert stripped[..|lines|] == stripped;
  }

  // ---------------------------------------------------------------------------
  // Properties of the parse

  /** The records `rs` that match `query`, in their order. */
  function FilterRecords(rs: seq<SectionRecord>, query: string): (r: seq<SectionRecord>)
    ensures |r| <= |rs|
  {
    if rs == [] then []
    else
      var last := rs[|rs| - 1];
      FilterRecords(rs[..|rs| - 1], query) + (if MatchesQuery(query, last.title, last.category) then [last] else [])
  }

  /** The filter keeps exactly the records that match the query. */
  lemma {:induction false} FilterMembers(rs: seq<SectionRecord>, query: string)
    ensures forall s :: s in FilterRecords(rs, query) <==> s in rs && MatchesQuery(query, s.title, s.category)
  {
    if rs != [] {
      var init := rs[..|rs| - 1];
      FilterMembers(init, query);
      assert rs == init + [rs[|rs| - 1]];
    }
  }

  /** Filtering distributes over concatenation. */
  lemma {:induction false} FilterAppend(a: seq<SectionRecord>, b: seq<SectionRecord>, query: string)
    ensures FilterRecords(a + b, query) == FilterRecords(a, query) + FilterRecords(b, query)
    decreases |b|
  {
    if b == [] {
      assert a + b == a;
    } else {
      var init := b[..|b| - 1];
      var last := b[|b| - 1];
      var kept := if MatchesQuery(query, last.title, last.category) then [last] else [];
      FilterAppend(a, init, query);
      assert (a + b)[..|a + b| - 1] == a + init;
      assert (a + b)[|a + b| - 1] == last;
      assert FilterRecords(a + b, query) == FilterRecords(a + init, query) + kept;
      assert FilterRecords(b, query) == FilterRecords(init, query) + kept;
    }
  }

  /** `sub` is `rs` with some elements left out, the rest in order. */
  predicate IsSubsequence(sub: seq<SectionRecord>, rs: seq<SectionRecord>)
    decreases |rs|
  {
    if sub == [] then true
    else if rs == [] then false
    else if sub[|sub| - 1] == rs[|rs| - 1] then IsSubsequence(sub[..|sub| - 1], rs[..|rs| - 1])
    else IsSubsequence(sub, rs[..|rs| - 1])
  }

  lemma {:induction false} FilterIsSubsequence(rs: seq<SectionRecord>, query: string)
    ensures IsSubsequence(FilterRecords(rs, query), rs)
    decreases |rs|
  {
    if rs != [] {
      var last := rs[|rs| - 1];
      var init := rs[..|rs| - 1];
      FilterIsSubsequence(init, query);
      var f := FilterRecords(rs, query);
      if MatchesQuery(query, last.title, last.category) {
        assert f[..|f| - 1] == FilterRecords(init, query);
      } else {
        assert f == FilterRecords(init, query);
        SubsequenceExtend(f, init, last);
        assert init + [last] == rs;
      }
    }
  }

  /** A subsequence of `rs` is a subsequence of `rs` with one more element. */
  lemma {:induction false} SubsequenceExtend(sub: seq<SectionRecord>, rs: seq<SectionRecord>, x: SectionRecord)
    requires IsSubsequence(sub, rs)
    ensures IsSubsequence(sub, rs + [x])
    decreases |rs|, 1
  {
    var rs' := rs + [x];
    assert rs'[..|rs'| - 1] == rs;
    if sub != [] && sub[|sub| - 1] == x {
      SubsequenceDropLast(sub, rs);
    }
  }

  /** Dropping the last element of a subsequence keeps it a subsequence. */
  lemma {:induction false} SubsequenceDropLast(sub: seq<SectionRecord>, rs: seq<SectionRecord>)
    requires sub != [] && IsSubsequence(sub, rs)
    ensures IsSubsequence(sub[..|sub| - 1], rs)
    decreases |rs|, 0
  {
    var init := sub[..|sub| - 1];
    if init != [] {
      var front := rs[..|rs| - 1];
      var last := rs[|rs| - 1];
      assert front + [last] == rs;
      if sub[|sub| - 1] != last {
        SubsequenceDropLast(sub, front);
      }
      SubsequenceExtend(init, front, last);
    }
  }

  /** Every record of a parse is well formed. */
  lemma {:induction false} ParsedRecordsWellFormed(lines: seq<string>, query: Option<string>)
    ensures forall s :: s in ParseLines(lines, query) ==> WellFormed(s)
  {
    if lines != [] {
      var before := lines[..|lines| - 1];
      ParsedRecordsWellFormed(before, query);
      var line := lines[|lines| - 1];
      var emitted := Emit(line, CategoryAfter(before), query);
      if emitted != [] {
        RecordOfWellFormed(line, CategoryAfter(before));
      }
    }
  }

  /** The last line's records follow those of the lines before it. */
  lemma ParseLast(lines: seq<string>, query: Option<string>)
    requires lines != []
    ensures ParseLines(lines, query) ==
      ParseLines(lines[..|lines| - 1], query) + Emit(lines[|lines| - 1], CategoryAfter(lines[..|lines| - 1]), query)
  {
  }

  /** On one line, a non-empty query filters what the line yields unfiltered;
      an empty query filters nothing. */
  lemma EmitFilter(line: string, category: string, query: string)
    ensures query != "" ==> Emit(line, category, Some(query)) == FilterRecords(Emit(line, category, None), query)
    ensures query == "" ==> Emit(line, category, Some(query)) == Emit(line, category, None)
  {
    var unfiltered := Emit(line, category, None);
    if unfiltered != [] {
      assert unfiltered[..0] == [];
    }
  }

  /** With a non-empty query the parse is the unfiltered parse, filtered; with
      an empty query it is the unfiltered parse. */
  lemma {:induction false} QueryFilters(lines: seq<string>, query: string)
    ensures query != "" ==> ParseLines(lines, Some(query)) == FilterRecords(ParseLines(lines, None), query)
    ensures query == "" ==> ParseLines(lines, Some(query)) == ParseLines(lines, None)
  {
    if lines != [] {
      var before := lines[..|lines| - 1];
      var line := lines[|lines| - 1];
      QueryFilters(before, query);
      ParseLast(lines, Some(query));
      ParseLast(lines, None);
      EmitFilter(line, CategoryAfter(before), query);
      FilterAppend(ParseLines(before, None), Emit(line, CategoryAfter(before), None), query);
    }
  }

  /** The query-filtered parse keeps the unfiltered records it keeps in their
      order, and keeps exactly those whose title or category contains the query,
      ignoring case. */
  lemma QueryKeepsMatches(lines: seq<string>, query: string)
    requires query != ""
    ensures IsSubsequence(ParseLines(lines, Some(query)), ParseLines(lines, None))
    ensures forall s :: s in ParseLines(lines, Some(query)) <==>
      s in ParseLines(lines, None) && MatchesQuery(query, s.title, s.category)
  {
    QueryFilters(lines, query);
    FilterIsSubsequence(ParseLines(lines, None), query);
    FilterMembers(ParseLines(lines, None), query);
  }

  /** The category after some lines is `""` when no line sets one. */
  lemma {:induction false} CategoryWithoutHeader(lines: seq<string>)
    requires forall j :: 0 <= j < |lines| ==> !SetsCategory(lines[j])
    ensures CategoryAfter(lines) == ""
  {
    if lines != [] {
      var before := lines[..|lines| - 1];
      assert forall j :: 0 <= j < |before| ==> before[j] == lines[j];
      CategoryWithoutHeader(before);
      CategoryLast(lines);
    }
  }

  /** The category after some lines is the category of the latest line that
      sets one. */
  lemma {:induction false} CategoryIsLatestHeader(lines: seq<string>, j: nat)
    requires j < |lines| && SetsCategory(lines[j])
    requires forall t :: j < t < |lines| ==> !SetsCategory(lines[t])
    ensures CategoryAfter(lines) == CategoryText(lines[j])
  {
    var n := |lines| - 1;
    var before := lines[..n];
    CategoryLast(lines);
    if j < n {
      assert before[j] == lines[j];
      assert forall t :: j < t < |before| ==> before[t] == lines[t];
      CategoryIsLatestHeader(before, j);
      assert !SetsCategory(lines[n]);
      assert CategoryAfter(lines) == CategoryAfter(before);
    } else {
      assert CategoryAfter(lines) == NextCategory(CategoryAfter(before), lines[j]);
    }
  }

  /** The category after the last line is that line's effect on the category
      before it. */
  lemma CategoryLast(lines: seq<string>)
    requires lines != []
    ensures CategoryAfter(lines) == NextCategory(CategoryAfter(lines[..|lines| - 1]), lines[|lines| - 1])
  {
  }

  /** Line `o` yields a record under the category in force before it. */
  predicate Yields(lines: seq<string>, o: nat, query: Option<string>)
    requires o < |lines|
  {
    Emit(lines[o], CategoryAfter(lines[..o]), query) != []
  }

  /** The indices of the lines that yield records, in order. */
  function Origins(lines: seq<string>, query: Option<string>): (os: seq<nat>)
    ensures |os| == |ParseLines(lines, query)|
    ensures forall k :: 0 <= k < |os| ==> os[k] < |lines|
  {
    if lines == [] then []
    else
      var n := |lines| - 1;
      ParseCount(lines, query);
      Origins(lines[..n], query) + (if Yields(lines, n, query) then [n] else [])
  }

  /** The last line adds one record to the parse when it yields one, and none
      otherwise. */
  lemma ParseCount(lines: seq<string>, query: Option<string>)
    requires lines != []
    ensures |ParseLines(lines, query)| ==
      |ParseLines(lines[..|lines| - 1], query)| + (if Yields(lines, |lines| - 1, query) then 1 else 0)
  {
    ParseLast(lines, query);
  }

  /** Records come in the order of their lines. */
  lemma {:induction false} OriginsIncrease(lines: seq<string>, query: Option<string>)
    ensures forall k, k' :: 0 <= k < k' < |Origins(lines, query)| ==> Origins(lines, query)[k] < Origins(lines, query)[k']
  {
    if lines != [] {
      OriginsIncrease(lines[..|lines| - 1], query);
    }
  }

  /** Record `k` of a parse is exactly what its origin line yields under the
      category in force before that line. */
  lemma {:induction false} OriginYields(lines: seq<string>, query: Option<string>, k: nat)
    requires k < |ParseLines(lines, query)|
    ensures YieldsAt(lines, Origins(lines, query)[k], ParseLines(lines, query)[k], query)
  {
    var n := |lines| - 1;
    var before := lines[..n];
    ParseLast(lines, query);
    var emitted := Emit(lines[n], CategoryAfter(before), query);
    var os := Origins(lines, query);
    OriginsLast(lines, query);
    if k < |ParseLines(before, query)| {
      OriginYields(before, query, k);
      assert os[k] == Origins(before, query)[k];
      assert ParseLines(lines, query)[k] == ParseLines(before, query)[k];
      YieldsAtExtend(before, lines, os[k], ParseLines(lines, query)[k], query);
    } else {
      assert os[k] == n && ParseLines(lines, query)[k] == emitted[0] && emitted == [emitted[0]];
      assert lines[..n] == before;
    }
  }

  /** Whether a line yields a record does not depend on the lines after it. */
  lemma YieldsPrefix(lines: seq<string>, o: nat, query: Option<string>)
    requires o < |lines| - 1
    ensures Yields(lines[..|lines| - 1], o, query) == Yields(lines, o, query)
  {
    assert lines[..|lines| - 1][..o] == lines[..o];
  }

  /** Every line that yields a record is the origin of one: no record is
      dropped. */
  lemma {:induction false} EmittingLineIsOrigin(lines: seq<string>, query: Option<string>, o: nat)
    requires o < |lines| && Yields(lines, o, query)
    ensures o in Origins(lines, query)
  {
    if o == |lines| - 1 {
      LastLineIsOrigin(lines, query);
    } else {
      YieldsPrefix(lines, o, query);
      EmittingLineIsOrigin(lines[..|lines| - 1], query, o);
      OriginsPrefix(lines, query, o);
    }
  }

  /** The last line is an origin when it yields a record. */
  lemma LastLineIsOrigin(lines: seq<string>, query: Option<string>)
    requires lines != [] && Yields(lines, |lines| - 1, query)
    ensures |lines| - 1 in Origins(lines, query)
  {
    OriginsLast(lines, query);
  }

  /** Adding a line keeps the origins found before it. */
  lemma OriginsPrefix(lines: seq<string>, query: Option<string>, o: nat)
    requires lines != [] && o in Origins(lines[..|lines| - 1], query)
    ensures o in Origins(lines, query)
  {
    OriginsLast(lines, query);
  }

  /** The origins of the lines before the last, then the last line when it
      yields a record. */
  lemma OriginsLast(lines: seq<string>, query: Option<string>)
    requires lines != []
    ensures Origins(lines, query) ==
      Origins(lines[..|lines| - 1], query) + (if Yields(lines, |lines| - 1, query) then [|lines| - 1] else [])
  {
  }

  /** Line `o` is a bullet line that yields exactly the record `r` under the
      category in force before it. */
  predicate YieldsAt(lines: seq<string>, o: nat, r: SectionRecord, query: Option<string>) {
    o < |lines| && IsBullet(lines[o]) && Emit(lines[o], CategoryAfter(lines[..o]), query) == [r]
  }

  lemma YieldsAtExtend(before: seq<string>, lines: seq<string>, o: nat, r: SectionRecord, query: Option<string>)
    requires before <= lines
    requires YieldsAt(before, o, r, query)
    ensures YieldsAt(lines, o, r, query)
  {
    assert lines[..o] == before[..o];
  }

  /** Lines that are empty, or start with `#` or `http`, change neither the
      records nor the category. */
  lemma IgnoredLine(lines: seq<string>, line: string, query: Option<string>)
    requires line == "" || StartsWith(line, "#") || StartsWith(line, "http")
    ensures ParseLines(lines + [line], query) == ParseLines(lines, query)
    ensures CategoryAfter(lines + [line]) == CategoryAfter(lines)
  {
    var all := lines + [line];
    assert all[..|all| - 1] == lines;
    HashOrUrlPrefixes(line);
    assert !IsBullet(line) && !SetsCategory(line);
    ParseLast(all, query);
    CategoryLast(all);
  }

  /** An ordinal beyond 5 is not a bullet marker: a line such as `6. [a](b)`
      yields no record and becomes the category. */
  lemma HigherOrdinalIsHeader(line: string, category: string, query: Option<string>)
    requires |line| >= 2 && '6' <= line[0] <= '9' && line[1] == '.'
    ensures Emit(line, category, query) == []
    ensures NextCategory(category, line) == CategoryText(line)
  {
  }
}
