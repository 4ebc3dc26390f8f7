/** src/utils/markdown.ts: the managed section of a markdown document,
    delimited by a start-marker line and an end-marker line. The file is the
    optional document text (None when the file does not exist); the single
    `writeFile` of each branch is the `written` text of the outcome.

    The operations take the marker pair as a parameter; the program uses
    `Sentinels`. Every property is proved for any pair satisfying `Nested`,
    which `Sentinels` does. */
module Markdown {
  import opened Wrappers
  import opened Types
  import opened Strings

  datatype Markers = Markers(start: string, end: string)

  /** START_SENTINEL and END_SENTINEL. */
  const Sentinels: Markers := Markers("## DL Agentic Workflow", "## DL Agentic Workflow END")

  /** What the proofs use of a marker pair: each marker is a single line, the
      end marker is the start marker followed by a suffix shorter than the
      start marker, and the end marker neither begins nor ends with blank. */
  predicate Nested(m: Markers) {
    && m.start <= m.end
    && |m.start| + 1 < |m.end| && |m.end| + 1 < 2 * |m.start|
    && '\n' !in m.start && '\n' !in m.end
    && !IsWhitespace(m.end[0]) && !IsWhitespace(m.end[|m.end| - 1])
  }

  lemma SentinelsNested()
    ensures Nested(Sentinels)
  {
    var s, e := Sentinels.start, Sentinels.end;
    assert e == s + " END";
    SentinelsOneLine();
    assert e[0] == '#' && e[|e| - 1] == 'D';
  }

  lemma SentinelsOneLine()
    ensures '\n' !in Sentinels.start && '\n' !in Sentinels.end
  {
    var s, e := Sentinels.start, Sentinels.end;
    assert '\n' !in s;
    assert e == s + " END";
  }

  /** The block written around section content `c`. */
  function Section(m: Markers, c: string): string {
    m.start + "\n" + c + "\n" + m.end + "\n"
  }

  datatype SentinelError =
    | MissingEnd      // start text found, end marker not found
    | EndBeforeStart  // first end marker not after the first start text
    | EndOnStartLine  // only raised by InsertOrUpdateChecked

  /** `{ action, sectionFound }`, with the text written to the file, if any. */
  datatype Upsert = Upsert(action: Action, sectionFound: bool, written: Option<string>)

  /** What the two `indexOf` searches find in an existing document. */
  datatype Location =
    | NoStart
    | Unterminated
    | Inverted
    | Region(startIndex: nat, sectionStart: nat, endIndex: nat)

  function Locate(m: Markers, doc: string): (loc: Location)
    ensures loc.Region? ==> loc.startIndex < loc.endIndex <= |doc| && loc.sectionStart <= |doc|
  {
    var startIndex := IndexOf(doc, m.start);
    var endIndex := IndexOf(doc, m.end);
    if startIndex == -1 then NoStart
    else if endIndex == -1 then Unterminated
    else if startIndex >= endIndex then Inverted
    else
      var startLineEnd := IndexOfFrom(doc, "\n", startIndex);
      Region(startIndex, if startLineEnd == -1 then |doc| else startLineEnd + 1, endIndex)
  }

  /** What the searches of Locate establish. */
  lemma LocateFacts(m: Markers, doc: string)
    ensures var loc := Locate(m, doc);
      && (loc.NoStart? <==> !Contains(doc, m.start))
      && (loc.Unterminated? <==> Contains(doc, m.start) && !Contains(doc, m.end))
      && (loc.Region? ==>
        && MatchAt(doc, m.start, loc.startIndex)
        && MatchAt(doc, m.end, loc.endIndex)
        && ('\n' !in m.start ==> loc.startIndex + |m.start| <= loc.sectionStart))
  {
    IndexOfFirst(doc, m.start);
    IndexOfFirst(doc, m.end);
    var loc := Locate(m, doc);
    if loc.Region? && '\n' !in m.start {
      var startLineEnd := IndexOfFrom(doc, "\n", loc.startIndex);
      IndexOfFromFirst(doc, "\n", loc.startIndex);
      if startLineEnd != -1 {
        NewlineAfterMatch(doc, m.start, loc.startIndex, startLineEnd);
      }
    }
  }

  /** Locate of a text whose three searches give those of `y`, moved right by `k`. */
  lemma LocateShift(m: Markers, d: string, y: string, k: nat)
    requires |d| == k + |y|
    requires IndexOf(d, m.start) == ShiftIndex(IndexOf(y, m.start), k)
    requires IndexOf(d, m.end) == ShiftIndex(IndexOf(y, m.end), k)
    requires IndexOf(y, m.start) != -1 ==>
      IndexOfFrom(d, "\n", k + IndexOf(y, m.start)) == ShiftIndex(IndexOfFrom(y, "\n", IndexOf(y, m.start)), k)
    ensures Locate(m, d) == Shifted(Locate(m, y), k)
  {
  }

  /** Locate of a text whose three searches are known. */
  lemma LocateRegion(m: Markers, d: string, si: nat, a: nat, b: nat)
    requires IndexOf(d, m.start) == si && IndexOf(d, m.end) == b && si < b
    requires 0 < a <= |d| && IndexOfFrom(d, "\n", si) == a - 1
    ensures Locate(m, d) == Region(si, a, b)
  {
  }

  /** `r`, an index or -1, moved right by `k`. */
  function ShiftIndex(r: int, k: nat): int {
    if r == -1 then -1 else k + r
  }

  /** `loc` with every index moved right by `k`. */
  function Shifted(loc: Location, k: nat): Location {
    match loc
    case Region(si, a, b) => Region(k + si, k + a, k + b)
    case _ => loc
  }

  /** The end marker sits on the start marker's line, so the section's
      content range runs backwards. */
  predicate SameLine(m: Markers, doc: string) {
    var loc := Locate(m, doc);
    loc.Region? && loc.sectionStart > loc.endIndex
  }

  /** The trimmed section content of a document whose markers are in place:
      what the upsert compares with the new content. */
  function ReadSection(m: Markers, doc: string): Option<string> {
    match Locate(m, doc)
    case Region(_, sectionStart, endIndex) => Some(Trim(Substring(doc, sectionStart, endIndex)))
    case _ => None
  }

  /** insertOrUpdateSectionBySentinels. */
  function InsertOrUpdate(m: Markers, existing: Option<string>, newContent: string): (r: Result<Upsert, SentinelError>)
    ensures r.Failure? ==> existing.Some? && Contains(existing.value, m.start)
    ensures r.Success? ==>
      && (r.value.action == Created <==> existing.None?)
      && (r.value.written.None? <==> r.value.action == Skipped)
      && (r.value.sectionFound <==> existing.Some? && Contains(existing.value, m.start))
  {
    match existing
    case None => Success(Upsert(Created, false, Some(Section(m, newContent))))
    case Some(doc) =>
      LocateFacts(m, doc);
      match Locate(m, doc)
      case NoStart => Success(Upsert(Updated, false, Some(TrimEnd(doc) + "\n" + Section(m, newContent))))
      case Unterminated => Failure(MissingEnd)
      case Inverted => Failure(EndBeforeStart)
      case Region(_, sectionStart, endIndex) =>
        if Trim(Substring(doc, sectionStart, endIndex)) == Trim(newContent) then
          Success(Upsert(Skipped, true, None))
        else
          Success(Upsert(Updated, true, Some(doc[..sectionStart] + newContent + "\n" + doc[endIndex..])))
  }

  /** The document after an upsert that succeeded. */
  function After(existing: Option<string>, u: Upsert): string
    requires u.written.Some? || existing.Some?
  {
    if u.written.Some? then u.written.value else existing.value
  }

  // ---------------------------------------------------------------------
  // Reading back what was written

  /** Text that ends a line and holds no marker does not change what is
      found after it. */
  lemma LocateAfterPrefix(m: Markers, x: string, y: string)
    requires Nested(m) && EndsLine(x) && !Contains(x, m.start)
    ensures Locate(m, x + y) == Shifted(Locate(m, y), |x|)
  {
    PrefixShiftsMarkers(m, x, y);
    var si := IndexOf(y, m.start);
    if si != -1 {
      PrefixShiftsLineEnd(x, y, si);
    }
    LocateShift(m, x + y, y, |x|);
  }

  /** The search for a line end past a prefix finds what it finds in `y`. */
  lemma PrefixShiftsLineEnd(x: string, y: string, from: nat)
    requires from <= |y|
    ensures IndexOfFrom(x + y, "\n", |x| + from) == ShiftIndex(IndexOfFrom(y, "\n", from), |x|)
  {
    IndexOfFromShift(x, y, "\n", |x| + from);
  }

  /** Both marker searches past such a prefix find what they find in `y`. */
  lemma PrefixShiftsMarkers(m: Markers, x: string, y: string)
    requires Nested(m) && EndsLine(x) && !Contains(x, m.start)
    ensures IndexOf(x + y, m.start) == ShiftIndex(IndexOf(y, m.start), |x|)
    ensures IndexOf(x + y, m.end) == ShiftIndex(IndexOf(y, m.end), |x|)
  {
    IndexOfConcat(x, y, m.start);
    NoMatchOfExtension(x, m.start, m.end);
    IndexOfConcat(x, y, m.end);
  }

  /** The section content read from the region Locate found. */
  lemma ReadSectionOfRegion(m: Markers, d: string, si: nat, a: nat, b: nat, body: string)
    requires Locate(m, d) == Region(si, a, b) && a <= b <= |d| && d[a..b] == body
    ensures ReadSection(m, d) == Some(Trim(body))
  {
    var loc := Locate(m, d);
    assert loc.sectionStart == a && loc.endIndex == b;
    assert Substring(d, a, b) == body;
  }

  /** A freshly written section is found where it was written. */
  lemma LocateSection(m: Markers, c: string)
    requires Nested(m) && !Contains(c, m.start)
    ensures Locate(m, Section(m, c)) == Region(0, |m.start| + 1, |m.start| + |c| + 2)
  {
    var s := m.start;
    var sec := Section(m, c);
    var rest := (c + "\n") + (m.end + "\n");
    assert sec == s + "\n" + rest;
    IndexOfAtStart(sec, s);
    SectionEndSearch(m, c);
    FirstNewline(s, rest);
    LocateRegion(m, sec, 0, |s| + 1, |s| + |c| + 2);
  }

  /** The content line of a written section. */
  lemma SectionContent(m: Markers, c: string)
    ensures Section(m, c)[|m.start| + 1..|m.start| + |c| + 2] == c + "\n"
  {
    SectionParts(m, c);
    MiddleOfConcat(m.start + "\n", c + "\n", m.end + "\n");
  }

  /** The three lines of a written section. */
  lemma SectionParts(m: Markers, c: string)
    ensures Section(m, c) == (m.start + "\n") + ((c + "\n") + (m.end + "\n"))
  {
    var head, body, tail := m.start + "\n", c + "\n", m.end + "\n";
    assert Section(m, c) == (head + c) + "\n" + tail;
    assert (head + c) + "\n" == head + body;
    assert (head + body) + tail == head + (body + tail);
  }

  /** In a freshly written section the first end marker is the one written. */
  lemma SectionEndSearch(m: Markers, c: string)
    requires Nested(m) && !Contains(c, m.start)
    ensures IndexOf(Section(m, c), m.end) == |m.start| + |c| + 2
  {
    var s, e := m.start, m.end;
    var head := s + "\n";
    var body := c + "\n";
    var tail := e + "\n";
    SectionParts(m, c);
    NoMatchOfExtension(c, s, e);
    NoMatchThroughNewline(c, e);
    NoMatchAcrossShortLine(head, [], e);
    assert !Contains(head, e) by {
      forall j | 0 <= j <= |head| ensures !MatchAt(head, e, j) { }
    }
    IndexOfAtStart(tail, e);
    IndexOfConcat(body, tail, e);
    IndexOfConcat(head, body + tail, e);
  }

  /** A line end followed by a freshly written section: the section is found
      where it was written. */
  lemma LocateWrittenSection(m: Markers, x: string, c: string)
    requires Nested(m)
    requires EndsLine(x) && !Contains(x, m.start) && !Contains(c, m.start)
    ensures Locate(m, x + Section(m, c)) == Region(|x|, |x| + |m.start| + 1, |x| + |m.start| + |c| + 2)
  {
    LocateAfterPrefix(m, x, Section(m, c));
    LocateSection(m, c);
  }

  /** A line end followed by a freshly written section: the section reads
      back as the trimmed content. */
  lemma ReadWrittenSection(m: Markers, x: string, c: string)
    requires Nested(m)
    requires EndsLine(x) && !Contains(x, m.start) && !Contains(c, m.start)
    ensures ReadSection(m, x + Section(m, c)) == Some(Trim(c))
  {
    var sec := Section(m, c);
    var a, b := |m.start| + 1, |m.start| + |c| + 2;
    LocateWrittenSection(m, x, c);
    SectionContent(m, c);
    SliceOfConcat(x, sec, a, b);
    ReadSectionOfRegion(m, x + sec, |x|, |x| + a, |x| + b, c + "\n");
    TrimNewline(c);
  }

  /** The first end marker of a rewritten document follows the new content. */
  lemma EndAfterReplacement(m: Markers, doc: string, a: nat, b: nat, c: string)
    requires Nested(m) && !Contains(c, m.start)
    requires IndexOf(doc, m.end) == b
    requires 0 < a <= b && doc[a - 1] == '\n'
    ensures IndexOf(doc[..a] + ((c + "\n") + doc[b..]), m.end) == a + |c| + 1
  {
    var s, e := m.start, m.end;
    var prefix := doc[..a];
    IndexOfFirst(doc, e);
    assert EndsLine(prefix);
    SlicesAgree(doc, prefix, a);
    forall j | 0 <= j <= |prefix|
      ensures !MatchAt(prefix, e, j)
    {
      assert MatchAt(prefix, e, j) ==> MatchAt(doc, e, j);
    }
    NoMatchOfExtension(c, s, e);
    NoMatchThroughNewline(c, e);
    assert MatchAt(doc[b..], e, 0) by { assert doc[b..][..|e|] == doc[b..b + |e|]; }
    IndexOfConcat(c + "\n", doc[b..], e);
    IndexOfConcat(prefix, (c + "\n") + doc[b..], e);
  }

  /** A section rewritten in place is found where it was written. */
  lemma LocateReplaced(m: Markers, doc: string, c: string)
    requires Nested(m)
    requires Locate(m, doc).Region? && Locate(m, doc).sectionStart <= Locate(m, doc).endIndex
    requires !Contains(c, m.start)
    ensures var loc := Locate(m, doc);
      var d := doc[..loc.sectionStart] + c + "\n" + doc[loc.endIndex..];
      Locate(m, d) == Region(loc.startIndex, loc.sectionStart, loc.sectionStart + |c| + 1)
  {
    var loc := Locate(m, doc);
    var si, a, b := loc.startIndex, loc.sectionStart, loc.endIndex;
    ReplacedAt(m, doc, c, si, a, b);
    assert doc[..a] + c + "\n" + doc[b..] == doc[..a] + ((c + "\n") + doc[b..]);
  }

  /** LocateReplaced, for the region `si`, `a`, `b`. */
  lemma ReplacedAt(m: Markers, doc: string, c: string, si: nat, a: nat, b: nat)
    requires Nested(m) && Locate(m, doc) == Region(si, a, b) && a <= b
    requires !Contains(c, m.start)
    ensures Locate(m, doc[..a] + ((c + "\n") + doc[b..])) == Region(si, a, a + |c| + 1)
  {
    RegionSearches(m, doc, si, a, b);
    var d := doc[..a] + ((c + "\n") + doc[b..]);
    assert doc[..a] == d[..a];
    // the start marker stays first, and its line still ends where it did
    IndexOfFromPrefix(doc, d, m.start, 0, a);
    IndexOfFromPrefix(doc, d, "\n", si, a);
    // the end marker follows the new content
    EndAfterReplacement(m, doc, a, b, c);
    LocateRegion(m, d, si, a, a + |c| + 1);
  }

  /** The three searches behind a region. */
  lemma LocateSearches(m: Markers, doc: string, si: nat, a: nat, b: nat)
    requires Locate(m, doc) == Region(si, a, b)
    ensures IndexOf(doc, m.start) == si && IndexOf(doc, m.end) == b && si < b
    ensures var lineEnd := IndexOfFrom(doc, "\n", si);
      a == if lineEnd == -1 then |doc| else lineEnd + 1
  {
  }

  /** The searches behind a region whose content range runs forwards. */
  lemma RegionSearches(m: Markers, doc: string, si: nat, a: nat, b: nat)
    requires Nested(m) && Locate(m, doc) == Region(si, a, b) && a <= b
    ensures IndexOf(doc, m.start) == si && IndexOf(doc, m.end) == b
    ensures 0 < a && IndexOfFrom(doc, "\n", si) == a - 1 && doc[a - 1] == '\n'
    ensures si + |m.start| <= a
  {
    LocateSearches(m, doc, si, a, b);
    LocateFacts(m, doc);
    var lineEnd := IndexOfFrom(doc, "\n", si);
    IndexOfFromFirst(doc, "\n", si);
    assert lineEnd != -1;
    assert doc[a - 1] == '\n' by { assert doc[lineEnd..lineEnd + 1][0] == doc[lineEnd]; }
  }

  /** A section rewritten in place reads back as the trimmed content. */
  lemma ReadReplacedSection(m: Markers, doc: string, c: string)
    requires Nested(m)
    requires Locate(m, doc).Region? && Locate(m, doc).sectionStart <= Locate(m, doc).endIndex
    requires !Contains(c, m.start)
    ensures var loc := Locate(m, doc);
      var d := doc[..loc.sectionStart] + c + "\n" + doc[loc.endIndex..];
      && Locate(m, d) == Region(loc.startIndex, loc.sectionStart, loc.sectionStart + |c| + 1)
      && ReadSection(m, d) == Some(Trim(c))
  {
    var loc := Locate(m, doc);
    var d := doc[..loc.sectionStart] + c + "\n" + doc[loc.endIndex..];
    LocateReplaced(m, doc, c);
    assert d == doc[..loc.sectionStart] + ((c + "\n") + doc[loc.endIndex..]);
    MiddleOfConcat(doc[..loc.sectionStart], c + "\n", doc[loc.endIndex..]);
    ReadSectionOfRegion(m, d, loc.startIndex, loc.sectionStart, loc.sectionStart + |c| + 1, c + "\n");
    TrimNewline(c);
  }

  // ---------------------------------------------------------------------
  // Properties of the upsert

  /** Start text present and no end marker: an error and nothing written. */
  lemma UnterminatedSectionFails(m: Markers, doc: string, c: string)
    requires Contains(doc, m.start) && !Contains(doc, m.end)
    ensures InsertOrUpdate(m, Some(doc), c) == Failure(MissingEnd)
  {
    LocateFacts(m, doc);
  }

  /** A document whose first marker line is an end marker is reported as
      inverted: the end marker text begins with the start marker text, so both
      searches find the same index, and nothing is appended. */
  lemma LoneEndMarkerRejected(m: Markers, x: string, y: string, c: string)
    requires Nested(m)
    requires EndsLine(x) && !Contains(x, m.start)
    ensures InsertOrUpdate(m, Some(x + m.end + y), c) == Failure(EndBeforeStart)
  {
    LocateLoneEnd(m, x, y);
  }

  lemma LocateLoneEnd(m: Markers, x: string, y: string)
    requires Nested(m)
    requires EndsLine(x) && !Contains(x, m.start)
    ensures Locate(m, x + m.end + y) == Inverted
  {
    var s, e := m.start, m.end;
    assert x + e + y == x + (e + y);
    IndexOfAtStart(e + y, s);
    IndexOfAtStart(e + y, e);
    IndexOfConcat(x, e + y, s);
    NoMatchOfExtension(x, s, e);
    IndexOfConcat(x, e + y, e);
  }

  /** `d` is `doc` with the range `a..b` replaced by the line `c`. */
  predicate Spliced(d: string, doc: string, a: nat, b: nat, c: string) {
    && a <= |doc| && b <= |doc| && |d| == a + |c| + 1 + (|doc| - b)
    && d[..a] == doc[..a]
    && d[a..a + |c|] == c && d[a + |c|] == '\n'
    && d[a + |c| + 1..] == doc[b..]
  }

  lemma SplicedParts(doc: string, a: nat, b: nat, c: string)
    requires a <= |doc| && b <= |doc|
    ensures Spliced(doc[..a] + c + "\n" + doc[b..], doc, a, b, c)
  {
    var d := doc[..a] + c + "\n" + doc[b..];
    assert d[a + |c| + 1..] == doc[b..];
  }

  /** An update of a found section writes exactly when the trimmed contents
      differ, and then keeps the text up to the end of the start marker's line
      and everything from the end marker on, verbatim, with the new content
      on its own line between them. */
  lemma ReplaceKeepsOutside(m: Markers, doc: string, c: string)
    requires Locate(m, doc).Region?
    ensures var loc := Locate(m, doc);
      var r := InsertOrUpdate(m, Some(doc), c);
      && r.Success? && r.value.sectionFound
      && (r.value.action == Updated <==> r.value.written.Some?)
      && (r.value.written.None? <==> Trim(Substring(doc, loc.sectionStart, loc.endIndex)) == Trim(c))
      && (r.value.written.Some? ==> Spliced(r.value.written.value, doc, loc.sectionStart, loc.endIndex, c))
  {
    var loc := Locate(m, doc);
    SplicedParts(doc, loc.sectionStart, loc.endIndex, c);
  }

  /** Round trip: when the new content does not hold the start marker text
      and the markers are on separate lines, reading the section back from the
      document the upsert leaves gives the trimmed new content, and the
      markers are still on separate lines. */
  lemma UpsertRoundTrip(m: Markers, existing: Option<string>, c: string)
    requires Nested(m) && !Contains(c, m.start)
    requires existing.Some? ==> !SameLine(m, existing.value)
    requires InsertOrUpdate(m, existing, c).Success?
    ensures var u := InsertOrUpdate(m, existing, c).value;
      (u.written.Some? || existing.Some?)
      && ReadSection(m, After(existing, u)) == Some(Trim(c))
      && !SameLine(m, After(existing, u))
  {
    match existing
    case None =>
      assert [] + Section(m, c) == Section(m, c);
      LocateWrittenSection(m, [], c);
      ReadWrittenSection(m, [], c);
    case Some(doc) =>
      match Locate(m, doc)
      case NoStart =>
        LocateFacts(m, doc);
        var e := TrimEnd(doc);
        assert doc[0..|e|] == e;
        NoMatchInSlice(doc, m.start, 0, |e|);
        NoMatchThroughNewline(e, m.start);
        LocateWrittenSection(m, e + "\n", c);
        ReadWrittenSection(m, e + "\n", c);
      case Region(_, a, b) =>
        if Trim(Substring(doc, a, b)) != Trim(c) {
          ReadReplacedSection(m, doc, c);
        }
  }

  /** Idempotence: a second identical upsert finds the section and skips. */
  lemma UpsertIdempotent(m: Markers, existing: Option<string>, c: string)
    requires Nested(m) && !Contains(c, m.start)
    requires existing.Some? ==> !SameLine(m, existing.value)
    requires InsertOrUpdate(m, existing, c).Success?
    ensures var u := InsertOrUpdate(m, existing, c).value;
      (u.written.Some? || existing.Some?)
      && InsertOrUpdate(m, Some(After(existing, u)), c) == Success(Upsert(Skipped, true, None))
  {
    UpsertRoundTrip(m, existing, c);
  }

  // ---------------------------------------------------------------------
  // Finding: an end marker on the start marker's line

  /** As written, when the end marker shares the start marker's line the
      `substring` arguments are swapped, the compared text holds the end
      marker, the section is rewritten with a second end marker, and the new
      document is again in the same state and longer: repeated runs never
      settle. */
  lemma SameLineNeverSettles(m: Markers, doc: string, c: string)
    requires Nested(m)
    requires SameLine(m, doc) && !Contains(c, m.start)
    ensures var r := InsertOrUpdate(m, Some(doc), c);
      && r.Success? && r.value.action == Updated && r.value.written.Some?
      && SameLine(m, r.value.written.value)
      && |r.value.written.value| > |doc|
  {
    SameLineCompared(m, doc, c);
    ReplaceKeepsOutside(m, doc, c);
    UpdateWrites(m, doc, c);
    SameLineRewritten(m, doc, c);
  }

  /** The text an update of a found section writes. */
  lemma UpdateWrites(m: Markers, doc: string, c: string)
    requires Locate(m, doc).Region?
    ensures var loc := Locate(m, doc);
      var r := InsertOrUpdate(m, Some(doc), c);
      r.Success? && (r.value.written.Some? ==>
        r.value.written.value == doc[..loc.sectionStart] + c + "\n" + doc[loc.endIndex..])
  {
  }

  /** On a same-line layout the whole end marker lies before the section start. */
  lemma SameLineEndFirst(m: Markers, doc: string)
    requires Nested(m) && SameLine(m, doc)
    ensures Locate(m, doc).endIndex + |m.end| <= Locate(m, doc).sectionStart
  {
    var loc := Locate(m, doc);
    var lineEnd := IndexOfFrom(doc, "\n", loc.startIndex);
    LocateFacts(m, doc);
    IndexOfFromFirst(doc, "\n", loc.startIndex);
    if lineEnd != -1 {
      NewlineAfterMatch(doc, m.end, loc.endIndex, lineEnd);
    }
  }

  /** On a same-line layout the compared text starts with the end marker, so
      it never equals content free of the start marker text. */
  lemma SameLineCompared(m: Markers, doc: string, c: string)
    requires Nested(m)
    requires SameLine(m, doc) && !Contains(c, m.start)
    ensures Trim(Substring(doc, Locate(m, doc).sectionStart, Locate(m, doc).endIndex)) != Trim(c)
  {
    var s, e := m.start, m.end;
    var loc := Locate(m, doc);
    var a, b := loc.sectionStart, loc.endIndex;
    LocateFacts(m, doc);
    SameLineEndFirst(m, doc);
    var region := doc[b..a];
    assert e <= region by { assert region[..|e|] == doc[b..b + |e|]; }
    LeadingMarkerNotContent(m, region, c);
  }

  /** Text starting with the end marker never trims to the trim of content
      free of the start marker text. */
  lemma LeadingMarkerNotContent(m: Markers, region: string, c: string)
    requires Nested(m) && m.end <= region && !Contains(c, m.start)
    ensures Trim(region) != Trim(c)
  {
    var s, e := m.start, m.end;
    TrimKeepsLeadingWord(region, e);
    var prior := Trim(region);
    assert MatchAt(prior, s, 0) by { assert prior[..|s|] == e[..|s|]; }
    NoMatchInTrim(c, s);
  }

  /** On a same-line layout the rewritten document is again a same-line
      layout, and longer. */
  lemma SameLineRewritten(m: Markers, doc: string, c: string)
    requires Nested(m) && SameLine(m, doc)
    ensures var loc := Locate(m, doc);
      var d := doc[..loc.sectionStart] + c + "\n" + doc[loc.endIndex..];
      SameLine(m, d) && |d| > |doc|
  {
    var loc := Locate(m, doc);
    SameLineEndFirst(m, doc);
    SameLineRewrittenAt(m, doc, c, loc.startIndex, loc.sectionStart, loc.endIndex);
  }

  /** SameLineRewritten, for the region `si`, `a`, `b`. */
  lemma SameLineRewrittenAt(m: Markers, doc: string, c: string, si: nat, a: nat, b: nat)
    requires Nested(m) && Locate(m, doc) == Region(si, a, b) && b + |m.end| <= a
    ensures var d := doc[..a] + c + "\n" + doc[b..];
      SameLine(m, d) && |d| > |doc|
  {
    var s, e := m.start, m.end;
    LocateSearches(m, doc, si, a, b);
    LocateFacts(m, doc);
    var d := doc[..a] + c + "\n" + doc[b..];
    assert doc[..a] == d[..a];
    IndexOfFromPrefix(doc, d, s, 0, a);
    IndexOfFromPrefix(doc, d, e, 0, a);
    var lineEnd := IndexOfFrom(doc, "\n", si);
    if lineEnd != -1 {
      IndexOfFromFirst(doc, "\n", si);
      IndexOfFromPrefix(doc, d, "\n", si, a);
      LocateRegion(m, d, si, a, b);
    } else {
      LineEndAfterPrefix(doc, d, si, a, b, c);
      LocateOfSearches(m, d, si, b);
    }
  }

  /** When the start marker's line runs to the end of `doc`, the first line
      end of `d` from there lies past `doc`. */
  lemma LineEndAfterPrefix(doc: string, d: string, si: nat, a: nat, b: nat, c: string)
    requires si <= a == |doc| && b <= |doc| && d == doc[..a] + c + "\n" + doc[b..]
    requires IndexOfFrom(doc, "\n", si) == -1
    ensures IndexOfFrom(d, "\n", si) >= a
  {
    IndexOfFromFirst(doc, "\n", si);
    forall j | si <= j < a
      ensures !MatchAt(d, "\n", j)
    {
      assert !MatchAt(doc, "\n", j);
      assert d[j..j + 1] == doc[j..j + 1];
    }
    IndexOfFromSkip(d, "\n", si, a);
    assert MatchAt(d, "\n", a + |c|) by { assert d[a + |c|..a + |c| + 1] == "\n"; }
    IndexOfFromFirst(d, "\n", a);
  }

  /** Locate of a text whose marker searches are known. */
  lemma LocateOfSearches(m: Markers, d: string, si: nat, b: nat)
    requires IndexOf(d, m.start) == si && IndexOf(d, m.end) == b && si < b
    ensures var lineEnd := IndexOfFrom(d, "\n", si);
      Locate(m, d) == Region(si, if lineEnd == -1 then |d| else lineEnd + 1, b)
  {
  }

  /** The corrected upsert: an end marker on the start marker's line is
      rejected like the other malformed layouts. */
  function InsertOrUpdateChecked(m: Markers, existing: Option<string>, newContent: string): Result<Upsert, SentinelError> {
    if existing.Some? && SameLine(m, existing.value) then Failure(EndOnStartLine)
    else InsertOrUpdate(m, existing, newContent)
  }

  /** The corrected upsert converges: a second identical call skips. */
  lemma CheckedUpsertIdempotent(m: Markers, existing: Option<string>, c: string)
    requires Nested(m) && !Contains(c, m.start)
    requires InsertOrUpdateChecked(m, existing, c).Success?
    ensures var u := InsertOrUpdateChecked(m, existing, c).value;
      (u.written.Some? || existing.Some?)
      && InsertOrUpdateChecked(m, Some(After(existing, u)), c) == Success(Upsert(Skipped, true, None))
  {
    UpsertRoundTrip(m, existing, c);
    UpsertIdempotent(m, existing, c);
  }

  // ---------------------------------------------------------------------
  // validateSentinels

  datatype Verdict =
    | Valid
    | MultipleStart(count: nat)
    | MultipleEnd(count: nat)
    | Mismatched(startCount: nat, endCount: nat)

  /** The checks of validateSentinels, in their order. */
  function Judge(startCount: nat, endCount: nat): (v: Verdict)
    ensures v == Valid <==> startCount <= 1 && endCount <= 1 && startCount == endCount
    ensures v.MultipleStart? <==> startCount > 1
    ensures v.MultipleEnd? <==> startCount <= 1 && endCount > 1
    ensures v.Mismatched? <==> startCount <= 1 && endCount <= 1 && startCount != endCount
  {
    if startCount > 1 then MultipleStart(startCount)
    else if endCount > 1 then MultipleEnd(endCount)
    else if startCount != endCount then Mismatched(startCount, endCount)
    else Valid
  }

  /** validateSentinels, as written: both marker texts are counted on their own. */
  function ValidateSentinels(m: Markers, content: string): (v: Verdict)
    requires m.start != [] && m.end != []
    ensures v == Valid <==>
      CountMatches(content, m.start) <= 1 && CountMatches(content, m.start) == CountMatches(content, m.end)
    ensures v.MultipleStart? <==> CountMatches(content, m.start) > 1
  {
    Judge(CountMatches(content, m.start), CountMatches(content, m.end))
  }

  /** The corrected check: a start-marker match that begins an end marker is
      not a start marker. */
  function ValidateSentinelsBare(m: Markers, content: string): Verdict
    requires m.start != [] && m.end != []
  {
    Judge(CountMatchesNotStarting(content, m.start, m.end), CountMatches(content, m.end))
  }

  /** The marker counts of an end-marker line. */
  lemma EndLineCounts(m: Markers)
    requires Nested(m)
    ensures CountMatches(m.end + "\n", m.start) == 1
    ensures CountMatchesNotStarting(m.end + "\n", m.start, m.end) == 0
    ensures CountMatches(m.end + "\n", m.end) == 1
  {
    var s, e := m.start, m.end;
    var tail := e + "\n";
    assert tail[..|s|] == s && tail[|s|..] == e[|s|..] + "\n";
    assert tail[..|e|] == e && tail[|e|..] == "\n";
    assert MatchAt(tail, e, 0);
    assert CountMatches(tail[|s|..], s) == 0;
    assert CountMatchesNotStarting(tail[|s|..], s, e) == 0;
    assert CountMatches("\n", e) == 0;
  }

  /** The marker counts of a start-marker line. */
  lemma StartLineCounts(m: Markers)
    requires Nested(m)
    ensures CountMatches(m.start + "\n", m.start) == 1
    ensures CountMatchesNotStarting(m.start + "\n", m.start, m.end) == 1
    ensures CountMatches(m.start + "\n", m.end) == 0
  {
    var s, e := m.start, m.end;
    var head := s + "\n";
    assert head[..|s|] == s && head[|s|..] == "\n";
    assert !MatchAt(head, e, 0);
    assert CountMatches("\n", s) == 0;
    assert CountMatchesNotStarting("\n", s, e) == 0;
  }

  /** The marker counts of a document holding one written section: line-ended
      text before it and any text after it, neither holding the start text. */
  lemma WrittenSectionCounts(m: Markers, x: string, c: string, y: string)
    requires Nested(m)
    requires EndsLine(x) && !Contains(x, m.start) && !Contains(c, m.start) && !Contains(y, m.start)
    ensures CountMatches(x + Section(m, c) + y, m.start) == 2
    ensures CountMatchesNotStarting(x + Section(m, c) + y, m.start, m.end) == 1
    ensures CountMatches(x + Section(m, c) + y, m.end) == 1
  {
    var s, e := m.start, m.end;
    var d := x + Section(m, c);
    BlockCounts(m, x, c);
    SectionEndsLine(m, x, c);
    NoMatchOfExtension(y, s, e);
    NoMatchCountsZero(y, s, e);
    NoMatchCountsZero(y, e, e);
    CountMatchesConcat(d, y, s);
    CountMatchesNotStartingConcat(d, y, s, e);
    CountMatchesConcat(d, y, e);
  }

  lemma SectionEndsLine(m: Markers, x: string, c: string)
    ensures EndsLine(x + Section(m, c))
  {
    var d := x + Section(m, c);
    assert d[|d| - 1] == Section(m, c)[|Section(m, c)| - 1];
  }

  /** The marker counts of a line end followed by a written section. */
  lemma BlockCounts(m: Markers, x: string, c: string)
    requires Nested(m)
    requires EndsLine(x) && !Contains(x, m.start) && !Contains(c, m.start)
    ensures CountMatches(x + Section(m, c), m.start) == 2
    ensures CountMatchesNotStarting(x + Section(m, c), m.start, m.end) == 1
    ensures CountMatches(x + Section(m, c), m.end) == 1
  {
    var s, e := m.start, m.end;
    var head := s + "\n";
    var body := c + "\n";
    var tail := e + "\n";
    SectionParts(m, c);
    NoMatchOfExtension(x, s, e);
    NoMatchOfExtension(c, s, e);
    NoMatchThroughNewline(c, s);
    NoMatchThroughNewline(c, e);
    StartLineCounts(m);
    EndLineCounts(m);
    WrittenStartCounts(m, x, head, body, tail);
    WrittenEndCount(m, x, head, body, tail);
  }

  lemma WrittenStartCounts(m: Markers, x: string, head: string, body: string, tail: string)
    requires Nested(m) && EndsLine(x) && EndsLine(head) && EndsLine(body)
    requires !Contains(x, m.start) && !Contains(body, m.start)
    requires CountMatches(head, m.start) == 1 && CountMatchesNotStarting(head, m.start, m.end) == 1
    requires CountMatches(tail, m.start) == 1 && CountMatchesNotStarting(tail, m.start, m.end) == 0
    ensures CountMatches(x + (head + (body + tail)), m.start) == 2
    ensures CountMatchesNotStarting(x + (head + (body + tail)), m.start, m.end) == 1
  {
    var s, e := m.start, m.end;
    NoMatchCountsZero(x, s, e);
    NoMatchCountsZero(body, s, e);
    CountMatchesConcat(body, tail, s);
    CountMatchesConcat(head, body + tail, s);
    CountMatchesConcat(x, head + (body + tail), s);
    CountMatchesNotStartingConcat(body, tail, s, e);
    CountMatchesNotStartingConcat(head, body + tail, s, e);
    CountMatchesNotStartingConcat(x, head + (body + tail), s, e);
  }

  lemma WrittenEndCount(m: Markers, x: string, head: string, body: string, tail: string)
    requires Nested(m) && EndsLine(x) && EndsLine(head) && EndsLine(body)
    requires !Contains(x, m.end) && !Contains(body, m.end)
    requires CountMatches(head, m.end) == 0 && CountMatches(tail, m.end) == 1
    ensures CountMatches(x + (head + (body + tail)), m.end) == 1
  {
    var e := m.end;
    NoMatchCountsZero(x, e, e);
    NoMatchCountsZero(body, e, e);
    CountMatchesConcat(body, tail, e);
    CountMatchesConcat(head, body + tail, e);
    CountMatchesConcat(x, head + (body + tail), e);
  }

  /** The marker counts of a line end followed by a lone end-marker line. */
  lemma LoneEndCounts(m: Markers, x: string)
    requires Nested(m)
    requires EndsLine(x) && !Contains(x, m.start)
    ensures CountMatches(x + m.end + "\n", m.start) == 1
    ensures CountMatchesNotStarting(x + m.end + "\n", m.start, m.end) == 0
    ensures CountMatches(x + m.end + "\n", m.end) == 1
  {
    var s, e := m.start, m.end;
    var tail := e + "\n";
    assert x + e + "\n" == x + tail;
    NoMatchOfExtension(x, s, e);
    NoMatchCountsZero(x, s, e);
    NoMatchCountsZero(x, e, e);
    EndLineCounts(m);
    CountMatchesConcat(x, tail, s);
    CountMatchesNotStartingConcat(x, tail, s, e);
    CountMatchesConcat(x, tail, e);
  }

  /** Finding, as written: every document the upsert writes, holding one
      start-marker line and one end-marker line, is reported as having
      multiple start sentinels. */
  lemma ValidateRejectsWrittenSection(m: Markers, x: string, c: string, y: string)
    requires Nested(m)
    requires EndsLine(x) && !Contains(x, m.start) && !Contains(c, m.start) && !Contains(y, m.start)
    ensures ValidateSentinels(m, x + Section(m, c) + y) == MultipleStart(2)
  {
    WrittenSectionCounts(m, x, c, y);
  }

  /** Finding, as written: a lone end-marker line, which the upsert rejects,
      is reported valid. */
  lemma ValidateAcceptsLoneEnd(m: Markers, x: string)
    requires Nested(m)
    requires EndsLine(x) && !Contains(x, m.start)
    ensures ValidateSentinels(m, x + m.end + "\n") == Valid
  {
    LoneEndCounts(m, x);
  }

  /** Corrected: the documents the upsert writes are valid. */
  lemma BareAcceptsWrittenSection(m: Markers, x: string, c: string, y: string)
    requires Nested(m)
    requires EndsLine(x) && !Contains(x, m.start) && !Contains(c, m.start) && !Contains(y, m.start)
    ensures ValidateSentinelsBare(m, x + Section(m, c) + y) == Valid
  {
    WrittenSectionCounts(m, x, c, y);
  }

  /** Corrected: a lone end-marker line is a mismatch. */
  lemma BareRejectsLoneEnd(m: Markers, x: string)
    requires Nested(m)
    requires EndsLine(x) && !Contains(x, m.start)
    ensures ValidateSentinelsBare(m, x + m.end + "\n") == Mismatched(0, 1)
  {
    LoneEndCounts(m, x);
  }
}
