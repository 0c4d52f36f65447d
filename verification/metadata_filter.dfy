/**
 * `BookMetadataFilter`: strips print runs, ISBNs, copyright notices,
 * publisher and service lines from a book's text, then normalises its
 * whitespace.
 *
 * Each compiled regular expression is modelled by what `pattern.sub('', t)`
 * does with it: it deletes the characters its matches cover and keeps the
 * rest in order. Which characters those are is given, per text, by a
 * `Pattern` value; the expressions themselves are not interpreted.
 */
module MetadataFilter {
  import opened Text

  /** For a text, the positions one pattern's matches cover. */
  type Pattern = string -> seq<bool>

  /** The filter's three ordered pattern lists, fixed at construction
      (metadata_filter.py:24-101). */
  datatype BookMetadataFilter = BookMetadataFilter(
    metadataPatterns: seq<Pattern>,
    isbnPatterns: seq<Pattern>,
    copyrightPatterns: seq<Pattern>)

  /** `_init_publisher_keywords`. */
  const PublisherKeywords: seq<string> := [
    "издательство", "издатель", "издано", "издание", "издал",
    "publisher", "published", "publishing", "press",
    "эксмо", "аст", "дрофа", "просвещение", "наука", "академия",
    "росмэн", "махаон", "белый город", "вече", "молодая гвардия",
    "художественная литература", "детская литература",
    "советский писатель", "современник", "знание"
  ]

  // ---------------------------------------------------------------------
  // Pattern stages

  /** The text after each pattern, in list order, has deleted what it matches. */
  function ApplyPatterns(ps: seq<Pattern>, text: string): (r: string)
    ensures |r| <= |text|
    ensures IsSubsequence(r, text)
    decreases |ps|
  {
    if |ps| == 0 then
      SubsequenceRefl(text);
      text
    else
      var once := DeleteMasked(text, ps[0](text));
      var r := ApplyPatterns(ps[1..], once);
      SubsequenceTrans(r, once, text);
      r
  }

  /** `for pattern in patterns: text = pattern.sub('', text)`. */
  method SubstituteAll(ps: seq<Pattern>, text: string) returns (r: string)
    ensures r == ApplyPatterns(ps, text)
  {
    r := text;
    var i := 0;
    while i < |ps|
      invariant 0 <= i <= |ps|
      invariant ApplyPatterns(ps[i..], r) == ApplyPatterns(ps, text)
    {
      assert ps[i..][1..] == ps[i + 1..];
      r := DeleteMasked(r, ps[i](r));
      i := i + 1;
    }
  }

  // ---------------------------------------------------------------------
  // _is_content_line

  predicate IsSpecialChar(c: char) {
    c in ".,;:()[]{}"
  }

  lemma MulMonotonic(a: real, b: real, c: real)
    requires c > 0.0
    ensures a > b <==> a * c > b * c
  {
    assert a * c - b * c == (a - b) * c;
  }

  /** A ratio above 0.3 is the integer comparison `10 * d > 3 * n`. */
  lemma RatioAboveThreeTenths(d: nat, n: nat)
    requires n > 0
    ensures (d as real) / (n as real) > 0.3 <==> 10 * d > 3 * n
  {
    var q := (d as real) / (n as real);
    assert q * (n as real) == d as real;
    MulMonotonic(q, 0.3, n as real);
  }

  /** `_is_content_line`: a stripped line of at least 20 characters in which
      digits make up at most 30% and the characters `.,;:()[]{}` at most 20%,
      the ratios compared with integers. */
  predicate IsContentLine(line: string) {
    var s := Strip(line);
    |s| >= 20 && 10 * Count(s, IsDigit) <= 3 * |s| && 5 * Count(s, IsSpecialChar) <= |s|
  }

  /** The integer comparisons of `IsContentLine` are the ratio tests of
      `_is_content_line`, read as exact rational arithmetic. */
  lemma IsContentLineRatios(line: string)
    ensures var s := Strip(line);
      IsContentLine(line) <==>
        |s| >= 20
        && !((Count(s, IsDigit) as real) / (|s| as real) > 0.3)
        && !(Count(s, IsSpecialChar) as real > (|s| as real) * 0.2)
  {
    var s := Strip(line);
    if |s| >= 20 {
      RatioAboveThreeTenths(Count(s, IsDigit), |s|);
    }
  }

  // ---------------------------------------------------------------------
  // _filter_publisher_lines

  /** A line is kept unless its lower-cased, stripped form names a publisher
      and it does not look like content. */
  predicate KeepPublisherLine(line: string) {
    !(ContainsAny(Strip(Lower(line)), PublisherKeywords) && !IsContentLine(line))
  }

  function PublisherLines(text: string): (r: string)
    ensures |r| <= |text|
  {
    var lines := SplitOn(text, '\n');
    var kept := Filter(lines, KeepPublisherLine);
    SplitOnJoin(text, '\n');
    FilterShrinks(lines, KeepPublisherLine);
    JoinShrinks(kept, lines, "\n");
    JoinWith(kept, "\n")
  }

  /** The surviving lines are input lines, unchanged and in their order;
      every line that does not both name a publisher and fail the content
      test survives, and none that does. */
  lemma PublisherLinesMeans(text: string)
    ensures var lines := SplitOn(text, '\n');
      var kept := Filter(lines, KeepPublisherLine);
      IsSubsequence(kept, lines) &&
      (kept != [] ==> SplitOn(PublisherLines(text), '\n') == kept) &&
      (kept == [] ==> PublisherLines(text) == "") &&
      (forall k :: 0 <= k < |kept| ==> kept[k] in lines && KeepPublisherLine(kept[k])) &&
      (forall k :: 0 <= k < |lines| && KeepPublisherLine(lines[k]) ==> lines[k] in kept)
  {
    var lines := SplitOn(text, '\n');
    var kept := Filter(lines, KeepPublisherLine);
    FilterIsSubsequence(lines, KeepPublisherLine);
    FilterMembers(lines, KeepPublisherLine);
    if kept != [] {
      forall k | 0 <= k < |kept| ensures '\n' !in kept[k] {
        assert kept[k] in lines;
      }
      JoinSplitOn(kept, '\n');
    }
  }

  /** The line loop of `_filter_publisher_lines`: the lines `keep`
      accepts, unchanged and in order. */
  method KeepLines(lines: seq<string>, keep: string -> bool) returns (kept: seq<string>)
    ensures kept == Filter(lines, keep)
  {
    kept := [];
    var i := 0;
    while i < |lines|
      invariant 0 <= i <= |lines|
      invariant kept == Filter(lines[..i], keep)
    {
      FilterSnoc(lines, i, keep);
      var line := lines[i];
      if keep(line) {
        kept := kept + [line];
      }
      i := i + 1;
    }
    TakeAll(lines);
  }

  /** `_filter_publisher_lines`: the kept lines, unchanged and in order. */
  method FilterPublisherLines(text: string) returns (r: string)
    ensures r == PublisherLines(text)
    ensures |r| <= |text|
  {
    var lines := SplitOn(text, '\n');
    var kept := KeepLines(lines, KeepPublisherLine);
    r := JoinWith(kept, "\n");
  }

  // ---------------------------------------------------------------------
  // _filter_service_lines

  predicate IsServiceChar(c: char) {
    IsDigit(c) || IsSpace(c) || c == '-' || c == '.' || c == ':' || c == ';'
  }

  /** `re.match(r'^[\d\s\-\.:;]+$', line)`. */
  predicate OnlyServiceChars(s: string) {
    |s| > 0 && forall i :: 0 <= i < |s| ==> IsServiceChar(s[i])
  }

  predicate IsDateSep(c: char) {
    c == '.' || c == '-' || c == '/'
  }

  /** `s` is `a` digits, a separator, `b` digits, a separator, then 2 to 4 digits. */
  predicate DateShape(s: string, a: nat, b: nat) {
    a + b + 2 <= |s| &&
    AllDigits(s[..a]) && IsDateSep(s[a]) &&
    AllDigits(s[a + 1..a + 1 + b]) && IsDateSep(s[a + 1 + b]) &&
    2 <= |s| - (a + b + 2) <= 4 && AllDigits(s[a + b + 2..])
  }

  /** `re.match(r'^\d{1,2}[\.\-/]\d{1,2}[\.\-/]\d{2,4}$', line)`. */
  predicate IsBareDate(s: string) {
    exists a: nat, b: nat | 1 <= a <= 2 && 1 <= b <= 2 :: DateShape(s, a, b)
  }

  /** The three kinds of stripped line `_filter_service_lines` drops besides empty ones. */
  predicate IsServiceLine(s: string) {
    OnlyServiceChars(s) || (IsUpperCase(s) && |s| < 50) || IsBareDate(s)
  }

  predicate KeepServiceLine(s: string) {
    s != [] && !IsServiceLine(s)
  }

  function ServiceLines(text: string): (r: string)
    ensures |r| <= |text|
  {
    var lines := SplitOn(text, '\n');
    var stripped := StripAll(lines);
    var kept := Filter(stripped, KeepServiceLine);
    SplitOnJoin(text, '\n');
    FilterShrinks(stripped, KeepServiceLine);
    JoinShrinks(kept, stripped, "\n");
    JoinLength(stripped, "\n");
    JoinLength(lines, "\n");
    StripAllShorter(lines);
    JoinWith(kept, "\n")
  }

  /** `_filter_service_lines`: the stripped lines that are non-empty and not
      service lines, in order. */
  method FilterServiceLines(text: string) returns (r: string)
    ensures r == ServiceLines(text)
    ensures r == [] || forall line :: line in SplitOn(r, '\n') ==>
      line != [] && Strip(line) == line && !IsServiceLine(line)
  {
    var lines := SplitOn(text, '\n');
    ghost var stripped := StripAll(lines);
    var kept := [];
    var i := 0;
    while i < |lines|
      invariant 0 <= i <= |lines|
      invariant kept == Filter(stripped[..i], KeepServiceLine)
    {
      var line := Strip(lines[i]);
      FilterSnoc(stripped, i, KeepServiceLine);
      if KeepServiceLine(line) {
        kept := kept + [line];
      }
      i := i + 1;
    }
    TakeAll(stripped);
    r := JoinWith(kept, "\n");
    KeptServiceLinesSplit(lines, kept, r);
  }

  /** The joined service-filtered lines split back into clean lines. */
  lemma KeptServiceLinesSplit(lines: seq<string>, kept: seq<string>, r: string)
    requires forall k :: 0 <= k < |lines| ==> '\n' !in lines[k]
    requires kept == Filter(StripAll(lines), KeepServiceLine) && r == JoinWith(kept, "\n")
    ensures r == [] || forall line :: line in SplitOn(r, '\n') ==>
      line != [] && Strip(line) == line && !IsServiceLine(line)
  {
    KeptServiceLinesClean(lines);
    if r != [] {
      JoinSplitOn(kept, '\n');
      forall line | line in SplitOn(r, '\n')
        ensures line != [] && Strip(line) == line && !IsServiceLine(line)
      {
        var k :| 0 <= k < |kept| && kept[k] == line;
      }
    }
  }

  lemma KeptServiceLinesClean(lines: seq<string>)
    requires forall k :: 0 <= k < |lines| ==> '\n' !in lines[k]
    ensures var kept := Filter(StripAll(lines), KeepServiceLine);
      forall k :: 0 <= k < |kept| ==> '\n' !in kept[k] && Strip(kept[k]) == kept[k] && KeepServiceLine(kept[k])
  {
    var stripped := StripAll(lines);
    var kept := Filter(stripped, KeepServiceLine);
    FilterMembers(stripped, KeepServiceLine);
    forall k | 0 <= k < |kept| ensures '\n' !in kept[k] && Strip(kept[k]) == kept[k] {
      var j :| 0 <= j < |stripped| && stripped[j] == kept[k];
      StrippedPieceIsClean(lines[j]);
    }
  }

  /** A stripped line of a split text has no newline and strips to itself. */
  lemma StrippedPieceIsClean(piece: string)
    requires '\n' !in piece
    ensures '\n' !in Strip(piece) && Strip(Strip(piece)) == Strip(piece)
  {
    StripIdempotent(piece);
  }

  // ---------------------------------------------------------------------
  // _clean_result

  /** `_clean_result`. The second substitution (`\n\s*\n\s*\n+`) needs a
      newline, and the first one has already turned every newline into a
      space, so it never applies and is not written out. */
  function CleanResult(text: string): (r: string)
    ensures |r| <= |text|
    ensures '\n' !in r
    ensures OnlyPlainSpaces(r) && NoDoubleSpace(r)
    ensures Trimmed(r)
  {
    var lines := StripLines(CollapseSpaces(text));
    CleanResultShape(text);
    Strip(lines)
  }

  lemma NoNewline(s: string)
    requires OnlyPlainSpaces(s)
    ensures '\n' !in s
  {
    if '\n' in s {
      var i :| 0 <= i < |s| && s[i] == '\n';
      assert IsSpace(s[i]);
    }
  }

  lemma CleanResultShape(text: string)
    ensures var r := Strip(StripLines(CollapseSpaces(text)));
      |r| <= |text| && OnlyPlainSpaces(r) && NoDoubleSpace(r) && '\n' !in r
  {
    var c := CollapseSpaces(text);
    assert OnlyPlainSpaces(c) && NoDoubleSpace(c) && |c| <= |text|;
    NoNewline(c);
    StripLinesSingleLine(c);
    StripIdempotent(c);
    StripKeepsSpacing(c);
    NoNewline(Strip(c));
  }

  // ---------------------------------------------------------------------
  // filter_metadata

  /** The stages of `filter_metadata`, in order: metadata patterns, ISBN
      patterns, copyright patterns, publisher lines, service lines, clean-up.
      An empty text is returned as it is. */
  function Filtered(f: BookMetadataFilter, text: string): (r: string)
    ensures |r| <= |text|
    ensures text == "" ==> r == ""
    ensures '\n' !in r && OnlyPlainSpaces(r) && NoDoubleSpace(r)
    ensures Trimmed(r)
  {
    if text == "" then text
    else
      var t := ApplyPatterns(f.copyrightPatterns, ApplyPatterns(f.isbnPatterns, ApplyPatterns(f.metadataPatterns, text)));
      CleanResult(ServiceLines(PublisherLines(t)))
  }

  /** `filter_metadata`. */
  method FilterMetadata(f: BookMetadataFilter, text: string) returns (r: string)
    ensures r == Filtered(f, text)
  {
    if text == "" {
      return text;
    }
    r := SubstituteAll(f.metadataPatterns, text);
    r := SubstituteAll(f.isbnPatterns, r);
    r := SubstituteAll(f.copyrightPatterns, r);
    r := FilterPublisherLines(r);
    r := FilterServiceLines(r);
    r := CleanResult(r);
  }

  // ---------------------------------------------------------------------
  // get_filtered_statistics

  datatype FilterStatistics = FilterStatistics(
    originalLength: nat,
    filteredLength: nat,
    removedLength: int,
    removalPercentage: real)

  lemma FractionBounds(x: real, n: real)
    requires 0.0 <= x <= n && n > 0.0
    ensures 0.0 <= x / n <= 1.0
  {
    var q := x / n;
    assert q * n == x;
    MulMonotonic(q, 1.0, n);
    MulMonotonic(0.0, q, n);
  }

  /** `get_filtered_statistics`, with the percentage left unrounded. */
  function GetFilteredStatistics(original: string, filtered: string): (st: FilterStatistics)
    ensures st.originalLength == |original| && st.filteredLength == |filtered|
    ensures st.removedLength == |original| - |filtered|
    ensures original == "" ==> st.removalPercentage == 0.0
    ensures |filtered| <= |original| ==> 0.0 <= st.removalPercentage <= 100.0
  {
    var removed := |original| - |filtered|;
    if original == "" then FilterStatistics(0, |filtered|, removed, 0.0)
    else
      var fraction := (removed as real) / (|original| as real);
      assert |filtered| <= |original| ==> 0.0 <= fraction <= 1.0 by {
        if |filtered| <= |original| {
          FractionBounds(removed as real, |original| as real);
        }
      }
      FilterStatistics(|original|, |filtered|, removed, fraction * 100.0)
  }
}
