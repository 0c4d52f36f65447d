/**
 * `PDFHistoryReader` (src/pdf_reader.py): the argument checks of
 * `read_pdf` and the pure text rules it applies to each page's text —
 * grouping sentences into paragraphs, the historical-content test, the
 * keyword classification and the period extraction.
 *
 * The regular expressions are written out as the positions they match:
 * `re.search` finds the leftmost start, and at that start the longer
 * digit run is tried first.
 */
module PdfReader {
  import opened Text
  import opened Files

  // ---------------------------------------------------------------------
  // read_pdf argument checks

  datatype PdfCheck = NotFound | NotPdf | Readable

  /** `Path.exists()`. */
  predicate PathExists(disk: Disk, path: string) {
    path in disk.files || path in disk.dirs
  }

  /** The checks `read_pdf` makes before opening the file: a missing path
      raises `FileNotFoundError`, one whose lower-cased suffix is not
      ".pdf" raises `ValueError`. */
  function ReadPdfCheck(disk: Disk, path: string): (r: PdfCheck)
    ensures r == NotFound <==> !PathExists(disk, path)
    ensures r == NotPdf <==> PathExists(disk, path) && Lower(Suffix(path)) != ".pdf"
  {
    if !PathExists(disk, path) then NotFound
    else if Lower(Suffix(path)) != ".pdf" then NotPdf
    else Readable
  }

  // ---------------------------------------------------------------------
  // _split_into_paragraphs

  predicate IsTerminator(c: char) {
    c == '.' || c == '!' || c == '?'
  }

  predicate IsSentenceChar(c: char) {
    !IsTerminator(c)
  }

  predicate NoTerminator(s: string) {
    forall i :: 0 <= i < |s| ==> !IsTerminator(s[i])
  }

  /** `s` without its leading run of terminators. */
  function SkipTerminators(s: string): (r: string)
    ensures |r| <= |s|
    ensures r == [] || !IsTerminator(r[0])
    ensures KeepChars(r, IsSentenceChar) == KeepChars(s, IsSentenceChar)
    decreases |s|
  {
    if |s| > 0 && IsTerminator(s[0]) then SkipTerminators(s[1..]) else s
  }

  /** `re.split(r'[.!?]+', s)`: the pieces between maximal runs of
      terminators, with an empty piece before a leading run and after a
      trailing one. */
  function Sentences(s: string): (r: seq<string>)
    ensures |r| >= 1
    ensures forall k :: 0 <= k < |r| ==> NoTerminator(r[k])
    decreases |s|
  {
    if |s| == 0 then [""]
    else if IsTerminator(s[0]) then [""] + Sentences(SkipTerminators(s[1..]))
    else
      var rest := Sentences(s[1..]);
      [[s[0]] + rest[0]] + rest[1..]
  }

  function Concat(parts: seq<string>): string {
    if |parts| == 0 then "" else parts[0] + Concat(parts[1..])
  }

  /** Splitting loses exactly the terminators: the pieces put back together
      are the text with every '.', '!' and '?' removed. */
  lemma {:induction false} SentencesLoseTerminators(s: string)
    ensures Concat(Sentences(s)) == KeepChars(s, IsSentenceChar)
    decreases |s|
  {
    if |s| == 0 {
    } else if IsTerminator(s[0]) {
      var t := SkipTerminators(s[1..]);
      SentencesLoseTerminators(t);
      assert ([""] + Sentences(t))[1..] == Sentences(t);
    } else {
      var rest := Sentences(s[1..]);
      SentencesLoseTerminators(s[1..]);
      assert rest == [rest[0]] + rest[1..];
      assert Concat(rest) == rest[0] + Concat(rest[1..]);
      assert ([[s[0]] + rest[0]] + rest[1..])[1..] == rest[1..];
    }
  }

  /** The kept sentences, each stripped and followed by ". " — the text
      the paragraphs are cut from. */
  function Dotted(sentences: seq<string>): string {
    if |sentences| == 0 then ""
    else
      var s := Strip(sentences[0]);
      (if s == "" then "" else s + ". ") + Dotted(sentences[1..])
  }

  /** The paragraphs, each followed by one space. */
  function Spaced(paragraphs: seq<string>): string {
    if |paragraphs| == 0 then "" else paragraphs[0] + " " + Spaced(paragraphs[1..])
  }

  /** A paragraph under construction: empty, or stripped sentences each
      followed by ". ". */
  predicate OpenParagraph(current: string) {
    current == "" || (|current| >= 2 && !IsSpace(current[0]) && EndsWith(current, ". "))
  }

  /** The paragraphs the loop produces from the remaining `sentences` when
      the paragraph under construction is `current`. */
  function GroupFrom(sentences: seq<string>, current: string): seq<string> {
    if |sentences| == 0 then
      if Strip(current) != "" then [Strip(current)] else []
    else
      var s := Strip(sentences[0]);
      if s == "" then GroupFrom(sentences[1..], current)
      else
        var c := current + s + ". ";
        if |c| > 100 then [Strip(c)] + GroupFrom(sentences[1..], "")
        else GroupFrom(sentences[1..], c)
  }

  /** `_split_into_paragraphs(text)`. */
  function Paragraphs(text: string): seq<string> {
    GroupFrom(Sentences(CollapseSpaces(text)), "")
  }

  /** Stripping an open paragraph drops only its final space. */
  lemma StripOpen(c: string)
    requires OpenParagraph(c) && c != ""
    ensures Strip(c) == c[..|c| - 1]
    ensures Strip(c) != "" && Strip(c)[|Strip(c)| - 1] == '.'
  {
    var n := |c|;
    assert c[n - 2..] == ". ";
    assert LStrip(c) == c;
    assert RStrip(c) == RStrip(c[..n - 1]);
    assert RStrip(c[..n - 1]) == c[..n - 1];
  }

  lemma OpenExtend(current: string, s: string)
    requires OpenParagraph(current) && s != "" && Trimmed(s)
    ensures OpenParagraph(current + s + ". ")
  {
    var c := current + s + ". ";
    assert c[|c| - 2..] == ". ";
    assert c[0] == if current == "" then s[0] else current[0];
  }

  predicate EndsWithDot(p: string) {
    p != "" && p[|p| - 1] == '.'
  }

  /** Every paragraph is non-empty and ends with '.'. */
  predicate AllEndWithDot(paragraphs: seq<string>) {
    |paragraphs| == 0 || (EndsWithDot(paragraphs[0]) && AllEndWithDot(paragraphs[1..]))
  }

  /** Every paragraph but the last has at least 100 characters. */
  predicate LongButLast(paragraphs: seq<string>) {
    |paragraphs| <= 1 || (|paragraphs[0]| >= 100 && LongButLast(paragraphs[1..]))
  }

  /** One sentence more: a blank one changes nothing, another one extends
      the open paragraph, which is flushed once longer than 100. */
  lemma GroupStep(sentences: seq<string>, current: string)
    requires |sentences| > 0
    ensures Strip(sentences[0]) == "" ==> GroupFrom(sentences, current) == GroupFrom(sentences[1..], current)
    ensures Strip(sentences[0]) != "" && |current + Strip(sentences[0]) + ". "| > 100 ==>
      GroupFrom(sentences, current) == [Strip(current + Strip(sentences[0]) + ". ")] + GroupFrom(sentences[1..], "")
    ensures Strip(sentences[0]) != "" && |current + Strip(sentences[0]) + ". "| <= 100 ==>
      GroupFrom(sentences, current) == GroupFrom(sentences[1..], current + Strip(sentences[0]) + ". ")
  {
  }

  lemma SeqAppendAssoc<T>(a: seq<T>, b: seq<T>, c: seq<T>)
    ensures a + (b + c) == a + b + c
  {
  }

  lemma AppendAssoc(a: string, b: string, e: string, d: string)
    ensures a + (b + e + d) == a + b + e + d
  {
  }

  lemma AllEndWithDotCons(p: string, g: seq<string>)
    requires EndsWithDot(p) && AllEndWithDot(g)
    ensures AllEndWithDot([p] + g)
  {
    assert ([p] + g)[1..] == g;
  }

  /** Every paragraph is non-empty and ends with '.'. */
  lemma {:induction false} GroupEndsWithDot(sentences: seq<string>, current: string)
    requires OpenParagraph(current)
    ensures AllEndWithDot(GroupFrom(sentences, current))
    decreases |sentences|
  {
    if |sentences| == 0 {
      if current != "" {
        StripOpen(current);
        assert GroupFrom(sentences, current) == [Strip(current)];
      }
    } else {
      var s := Strip(sentences[0]);
      var rest := sentences[1..];
      if s == "" {
        assert GroupFrom(sentences, current) == GroupFrom(rest, current);
        GroupEndsWithDot(rest, current);
      } else {
        var c := current + s + ". ";
        assert OpenParagraph(c) by {
          OpenExtend(current, s);
        }
        if |c| > 100 {
          assert GroupFrom(sentences, current) == [Strip(c)] + GroupFrom(rest, "");
          assert EndsWithDot(Strip(c)) by {
            StripOpen(c);
          }
          GroupEndsWithDot(rest, "");
          AllEndWithDotCons(Strip(c), GroupFrom(rest, ""));
        } else {
          assert GroupFrom(sentences, current) == GroupFrom(rest, c);
          GroupEndsWithDot(rest, c);
        }
      }
    }
  }

  /** Every paragraph but the last was flushed once longer than 100, so it
      keeps at least 100 characters after stripping. */
  lemma {:induction false} GroupLongParagraphs(sentences: seq<string>, current: string)
    requires OpenParagraph(current)
    ensures LongButLast(GroupFrom(sentences, current))
    decreases |sentences|
  {
    if |sentences| > 0 {
      GroupStep(sentences, current);
      var s := Strip(sentences[0]);
      if s == "" {
        GroupLongParagraphs(sentences[1..], current);
      } else {
        var c := current + s + ". ";
        OpenExtend(current, s);
        if |c| > 100 {
          StripOpen(c);
          GroupLongParagraphs(sentences[1..], "");
          var g := GroupFrom(sentences[1..], "");
          assert ([Strip(c)] + g)[1..] == g;
        } else {
          GroupLongParagraphs(sentences[1..], c);
        }
      }
    }
  }

  /** No sentence is lost, reordered or altered: the paragraphs, each
      followed by a space, spell out the open paragraph and then every
      non-blank stripped sentence followed by ". ". */
  lemma {:induction false} GroupKeepsSentences(sentences: seq<string>, current: string)
    requires OpenParagraph(current)
    ensures Spaced(GroupFrom(sentences, current)) == current + Dotted(sentences)
    decreases |sentences|
  {
    if |sentences| == 0 {
      if current != "" {
        SpacedFlush(current, []);
      }
    } else {
      var s := Strip(sentences[0]);
      if s == "" {
        GroupKeepsSentences(sentences[1..], current);
        KeepsBlank(sentences, current);
      } else {
        var c := current + s + ". ";
        OpenExtend(current, s);
        if |c| > 100 {
          GroupKeepsSentences(sentences[1..], "");
          KeepsFlush(sentences, current);
        } else {
          GroupKeepsSentences(sentences[1..], c);
          KeepsExtend(sentences, current);
        }
      }
    }
  }

  lemma KeepsBlank(sentences: seq<string>, current: string)
    requires |sentences| > 0 && Strip(sentences[0]) == ""
    requires Spaced(GroupFrom(sentences[1..], current)) == current + Dotted(sentences[1..])
    ensures Spaced(GroupFrom(sentences, current)) == current + Dotted(sentences)
  {
    var d := Dotted(sentences[1..]);
    assert "" + d == d;
    assert Dotted(sentences) == d;
    GroupStep(sentences, current);
  }

  lemma KeepsFlush(sentences: seq<string>, current: string)
    requires |sentences| > 0 && Strip(sentences[0]) != "" && OpenParagraph(current)
    requires |current + Strip(sentences[0]) + ". "| > 100
    requires Spaced(GroupFrom(sentences[1..], "")) == "" + Dotted(sentences[1..])
    ensures Spaced(GroupFrom(sentences, current)) == current + Dotted(sentences)
  {
    GroupStep(sentences, current);
    var s := Strip(sentences[0]);
    var d := Dotted(sentences[1..]);
    var c := current + s + ". ";
    OpenExtend(current, s);
    SpacedFlush(c, GroupFrom(sentences[1..], ""));
    assert "" + d == d;
    assert Dotted(sentences) == s + ". " + d;
    AppendAssoc(current, s, ". ", d);
  }

  lemma KeepsExtend(sentences: seq<string>, current: string)
    requires |sentences| > 0 && Strip(sentences[0]) != ""
    requires |current + Strip(sentences[0]) + ". "| <= 100
    requires Spaced(GroupFrom(sentences[1..], current + Strip(sentences[0]) + ". "))
          == current + Strip(sentences[0]) + ". " + Dotted(sentences[1..])
    ensures Spaced(GroupFrom(sentences, current)) == current + Dotted(sentences)
  {
    GroupStep(sentences, current);
    var s := Strip(sentences[0]);
    var d := Dotted(sentences[1..]);
    assert Dotted(sentences) == s + ". " + d;
    AppendAssoc(current, s, ". ", d);
  }

  /** Flushing an open paragraph and putting the space back gives it whole. */
  lemma SpacedFlush(c: string, g: seq<string>)
    requires OpenParagraph(c) && c != ""
    ensures Spaced([Strip(c)] + g) == c + Spaced(g)
  {
    StripOpen(c);
    assert ([Strip(c)] + g)[1..] == g;
    assert Strip(c) + " " == c;
  }

  /** The properties of `_split_into_paragraphs` together. */
  lemma ParagraphsShape(text: string)
    ensures AllEndWithDot(Paragraphs(text))
    ensures LongButLast(Paragraphs(text))
    ensures Spaced(Paragraphs(text)) == Dotted(Sentences(CollapseSpaces(text)))
  {
    var ss := Sentences(CollapseSpaces(text));
    GroupEndsWithDot(ss, "");
    GroupLongParagraphs(ss, "");
    GroupKeepsSentences(ss, "");
  }

  /** `_split_into_paragraphs`: collapse whitespace, split into sentences
      and accumulate them into paragraphs longer than 100 characters. */
  method SplitIntoParagraphs(text: string) returns (paragraphs: seq<string>)
    ensures paragraphs == Paragraphs(text)
  {
    paragraphs := GroupSentences(Sentences(CollapseSpaces(text)));
  }

  /** One iteration of the accumulation loop: the paragraph it closes, if
      any, and the new open paragraph. */
  method AddSentence(sentence: string, current: string, ghost rest: seq<string>) returns (closed: seq<string>, next: string)
    ensures GroupFrom([sentence] + rest, current) == closed + GroupFrom(rest, next)
  {
    GroupStep([sentence] + rest, current);
    assert ([sentence] + rest)[1..] == rest;
    var s := Strip(sentence);
    closed, next := [], current;
    if s != "" {
      next := current + s + ". ";
      if |next| > 100 {
        closed, next := [Strip(next)], "";
      }
    }
  }

  /** The loop invariant of `GroupSentences` survives one iteration. */
  lemma GroupInvariantStep(sentences: seq<string>, i: nat, paragraphs: seq<string>, current: string,
                           closed: seq<string>, next: string)
    requires i < |sentences|
    requires paragraphs + GroupFrom(sentences[i..], current) == GroupFrom(sentences, "")
    requires GroupFrom([sentences[i]] + sentences[i + 1..], current) == closed + GroupFrom(sentences[i + 1..], next)
    ensures (paragraphs + closed) + GroupFrom(sentences[i + 1..], next) == GroupFrom(sentences, "")
  {
    DropCons(sentences, i);
    SeqAppendAssoc(paragraphs, closed, GroupFrom(sentences[i + 1..], next));
  }

  /** The accumulation loop of `_split_into_paragraphs`, without the final
      flush. */
  method GroupLoop(sentences: seq<string>) returns (paragraphs: seq<string>, current: string)
    ensures paragraphs + GroupFrom([], current) == GroupFrom(sentences, "")
  {
    paragraphs := [];
    current := "";
    for i := 0 to |sentences|
      invariant paragraphs + GroupFrom(sentences[i..], current) == GroupFrom(sentences, "")
    {
      var closed, next := AddSentence(sentences[i], current, sentences[i + 1..]);
      GroupInvariantStep(sentences, i, paragraphs, current, closed, next);
      paragraphs, current := paragraphs + closed, next;
    }
    assert sentences[|sentences|..] == [];
  }

  /** `_split_into_paragraphs` once the sentences are split: the
      accumulation loop and the final flush. */
  method GroupSentences(sentences: seq<string>) returns (paragraphs: seq<string>)
    ensures paragraphs == GroupFrom(sentences, "")
  {
    var current;
    paragraphs, current := GroupLoop(sentences);
    if Strip(current) != "" {
      paragraphs := paragraphs + [Strip(current)];
    }
  }

  // ---------------------------------------------------------------------
  // _is_historical_content

  const HistoricalKeywords: seq<string> := [
    "история", "исторический", "историческое",
    "году", "веке", "период", "эпоха",
    "война", "битва", "сражение",
    "царь", "князь", "император",
    "революция", "реформа", "реформы",
    "крещение", "основание", "создание",
    "россия", "русь", "русский", "русская"
  ]

  predicate OccursIn(lower: string, keyword: string) {
    Contains(lower, keyword)
  }

  /** `sum(1 for keyword in historical_keywords if keyword in text_lower)`. */
  function KeywordCount(lower: string): nat {
    |Filter(HistoricalKeywords, k => OccursIn(lower, k))|
  }

  /** `\b`: the position `i` (with `s[i]` a word character) is not preceded
      by a word character. */
  predicate WordStart(s: string, i: nat) {
    i == 0 || (i <= |s| && !IsWordChar(s[i - 1]))
  }

  /** `\b` after a word character at position `i - 1`. */
  predicate WordEnd(s: string, i: nat) {
    i >= |s| || !IsWordChar(s[i])
  }

  /** `\b\d{n}\s*году?\b` matches at `i` with exactly `n` digits. */
  predicate YearWordAt(s: string, i: nat, n: nat)
  {
    i + n <= |s| && WordStart(s, i) && AllDigits(s[i..i + n]) &&
    var t := LStrip(s[i + n..]);
    StartsWith(t, "год") && (WordEnd(t, 3) || (|t| > 3 && t[3] == 'у' && WordEnd(t, 4)))
  }

  /** `re.search(r'\b\d{3,4}\s*году?\b', text)` succeeds. */
  predicate HasYearMention(s: string) {
    exists i: nat :: i < |s| && (YearWordAt(s, i, 4) || YearWordAt(s, i, 3))
  }

  /** `_is_historical_content`: at least two keywords or a "NNN год(у)"
      mention, and more than 50 characters. */
  predicate IsHistorical(text: string) {
    (KeywordCount(Lower(text)) >= 2 || HasYearMention(text)) && |text| > 50
  }

  /** At least two filtered elements means two distinct positions pass. */
  lemma {:induction false} FilterAtLeastTwo<T>(s: seq<T>, p: T -> bool)
    ensures |Filter(s, p)| >= 2 <==> exists i, j :: 0 <= i < j < |s| && p(s[i]) && p(s[j])
  {
    if |s| > 0 {
      var n := |s| - 1;
      var init := s[..n];
      FilterAtLeastTwo(init, p);
      FilterMembers(init, p);
      assert forall i :: 0 <= i < n ==> init[i] == s[i];
      if exists i, j :: 0 <= i < j < |s| && p(s[i]) && p(s[j]) {
        var i, j :| 0 <= i < j < |s| && p(s[i]) && p(s[j]);
        if j < n {
          assert p(init[i]) && p(init[j]);
        } else {
          assert init[i] in Filter(init, p);
        }
      }
      if |Filter(s, p)| >= 2 && |Filter(init, p)| < 2 {
        assert p(s[n]) && |Filter(init, p)| == 1;
        var f := Filter(init, p)[0];
        assert f in init;
        var i :| 0 <= i < n && init[i] == f;
        assert p(s[i]) && p(s[n]);
      }
    }
  }

  /** `_is_historical_content` in words: two different keywords occur in
      the lower-cased text, or a year mention does; and the text is longer
      than 50. */
  lemma IsHistoricalMeans(text: string)
    ensures IsHistorical(text) <==>
      (|text| > 50 &&
       ((exists i, j :: 0 <= i < j < |HistoricalKeywords| &&
          Contains(Lower(text), HistoricalKeywords[i]) && Contains(Lower(text), HistoricalKeywords[j]))
        || HasYearMention(text)))
  {
    FilterAtLeastTwo(HistoricalKeywords, k => OccursIn(Lower(text), k));
  }

  // ---------------------------------------------------------------------
  // _classify_content

  const WarWords: seq<string> := ["война", "битва", "сражение", "нашествие"]
  const ReformWords: seq<string> := ["реформа", "реформы", "изменение", "преобразование"]
  const PoliticsWords: seq<string> := ["царь", "князь", "император", "правитель"]
  const ReligionWords: seq<string> := ["крещение", "религия", "церковь", "вера"]
  const RevolutionWords: seq<string> := ["революция", "восстание", "переворот"]
  const CultureWords: seq<string> := ["культура", "искусство", "литература", "наука"]
  const GeneralCategory: string := "общее"

  /** The categories with their keywords, in the order they are tried. */
  const Categories: seq<(string, seq<string>)> := [
    ("война", WarWords), ("реформы", ReformWords), ("политика", PoliticsWords),
    ("религия", ReligionWords), ("революция", RevolutionWords), ("культура", CultureWords)
  ]

  /** The label of the first category of `table`, from position `k` on,
      one of whose keywords occurs in `lower`; the general label when none
      does. */
  function FirstCategory(lower: string, table: seq<(string, seq<string>)>, k: nat): string
    decreases |table| - k
  {
    if k >= |table| then GeneralCategory
    else if ContainsAny(lower, table[k].1) then table[k].0
    else FirstCategory(lower, table, k + 1)
  }

  /** `_classify_content`, written as the source's chain of tests. */
  function Classify(text: string): string {
    var lower := Lower(text);
    if ContainsAny(lower, WarWords) then "война"
    else if ContainsAny(lower, ReformWords) then "реформы"
    else if ContainsAny(lower, PoliticsWords) then "политика"
    else if ContainsAny(lower, ReligionWords) then "религия"
    else if ContainsAny(lower, RevolutionWords) then "революция"
    else if ContainsAny(lower, CultureWords) then "культура"
    else GeneralCategory
  }

  /** The chain of tests is the table lookup: the categories are tried in
      the order war, reforms, politics, religion, revolution, culture. */
  lemma ClassifyByTable(text: string)
    ensures Classify(text) == FirstCategory(Lower(text), Categories, 0)
  {
    var lower := Lower(text);
    assert FirstCategory(lower, Categories, 6) == GeneralCategory;
    assert FirstCategory(lower, Categories, 5) == if ContainsAny(lower, CultureWords) then "культура" else GeneralCategory;
    assert FirstCategory(lower, Categories, 4) == if ContainsAny(lower, RevolutionWords) then "революция" else FirstCategory(lower, Categories, 5);
    assert FirstCategory(lower, Categories, 3) == if ContainsAny(lower, ReligionWords) then "религия" else FirstCategory(lower, Categories, 4);
    assert FirstCategory(lower, Categories, 2) == if ContainsAny(lower, PoliticsWords) then "политика" else FirstCategory(lower, Categories, 3);
    assert FirstCategory(lower, Categories, 1) == if ContainsAny(lower, ReformWords) then "реформы" else FirstCategory(lower, Categories, 2);
  }

  /** The first matching category wins: its keywords occur and no earlier
      category's do; the general label means that none matches. */
  lemma {:induction false} FirstCategoryWins(lower: string, table: seq<(string, seq<string>)>, k: nat)
    requires k <= |table|
    requires forall j :: 0 <= j < |table| ==> table[j].0 != GeneralCategory
    ensures FirstCategory(lower, table, k) == GeneralCategory <==>
      forall j :: k <= j < |table| ==> !ContainsAny(lower, table[j].1)
    ensures FirstCategory(lower, table, k) != GeneralCategory ==>
      exists j :: k <= j < |table| && FirstCategory(lower, table, k) == table[j].0 &&
        ContainsAny(lower, table[j].1) &&
        (forall m :: k <= m < j ==> !ContainsAny(lower, table[m].1))
    decreases |table| - k
  {
    if k < |table| && !ContainsAny(lower, table[k].1) {
      FirstCategoryWins(lower, table, k + 1);
    }
  }

  /** `_classify_content` returns the label of the first category, in
      table order, one of whose keywords occurs in the lower-cased text,
      and 'общее' exactly when none does. */
  lemma ClassifyFirstMatch(text: string)
    ensures Classify(text) == GeneralCategory <==>
      forall j :: 0 <= j < |Categories| ==> !ContainsAny(Lower(text), Categories[j].1)
    ensures Classify(text) != GeneralCategory ==>
      exists j :: 0 <= j < |Categories| && Classify(text) == Categories[j].0 &&
        ContainsAny(Lower(text), Categories[j].1) &&
        (forall m :: 0 <= m < j ==> !ContainsAny(Lower(text), Categories[m].1))
  {
    ClassifyByTable(text);
    FirstCategoryWins(Lower(text), Categories, 0);
  }

  // ---------------------------------------------------------------------
  // _extract_period

  /** The value of a run of decimal digits (`int(s)`). */
  function DigitsValue(s: string): (v: nat)
    requires AllDigits(s)
  {
    if |s| == 0 then 0 else DigitsValue(s[..|s| - 1]) * 10 + (s[|s| - 1] as int - '0' as int)
  }

  /** `(\d{1,2})\s*веке?` matching at `i`: its digits. */
  function CenturyAt(s: string, i: nat): Option<string> {
    if i + 2 <= |s| && AllDigits(s[i..i + 2]) && StartsWith(LStrip(s[i + 2..]), "век") then Some(s[i..i + 2])
    else if i + 1 <= |s| && AllDigits(s[i..i + 1]) && StartsWith(LStrip(s[i + 1..]), "век") then Some(s[i..i + 1])
    else None
  }

  /** `re.search` from position `i`: the leftmost match. */
  function FirstCentury(s: string, i: nat): (r: Option<string>)
    ensures r.Some? <==> exists j :: i <= j < |s| && CenturyAt(s, j).Some?
    ensures r.Some? ==> exists j :: i <= j < |s| && r == CenturyAt(s, j) &&
                                  (forall m :: i <= m < j ==> CenturyAt(s, m).None?)
    decreases |s| - i
  {
    if i >= |s| then None
    else if CenturyAt(s, i).Some? then CenturyAt(s, i)
    else FirstCentury(s, i + 1)
  }

  /** `(\d{3,4})\s*году?` matching at `i`: its year. */
  function YearAt(s: string, i: nat): Option<nat> {
    if i + 4 <= |s| && AllDigits(s[i..i + 4]) && StartsWith(LStrip(s[i + 4..]), "год") then Some(DigitsValue(s[i..i + 4]))
    else if i + 3 <= |s| && AllDigits(s[i..i + 3]) && StartsWith(LStrip(s[i + 3..]), "год") then Some(DigitsValue(s[i..i + 3]))
    else None
  }

  function FirstYear(s: string, i: nat): (r: Option<nat>)
    ensures r.Some? <==> exists j :: i <= j < |s| && YearAt(s, j).Some?
    ensures r.Some? ==> exists j :: i <= j < |s| && r == YearAt(s, j) &&
                                  (forall m :: i <= m < j ==> YearAt(s, m).None?)
    decreases |s| - i
  {
    if i >= |s| then None
    else if YearAt(s, i).Some? then YearAt(s, i)
    else FirstYear(s, i + 1)
  }

  /** Roman numerals below 40. */
  function Roman(n: nat): string
    requires n < 40
  {
    var units := ["", "I", "II", "III", "IV", "V", "VI", "VII", "VIII", "IX"];
    var tens := ["", "X", "XX", "XXX"];
    tens[n / 10] + units[n % 10]
  }

  /** The century of a year as the source's chain of comparisons gives it. */
  function PeriodOfYear(year: nat): string {
    if year < 1000 then "X век"
    else if year < 1100 then "XI век"
    else if year < 1200 then "XII век"
    else if year < 1300 then "XIII век"
    else if year < 1400 then "XIV век"
    else if year < 1500 then "XV век"
    else if year < 1600 then "XVI век"
    else if year < 1700 then "XVII век"
    else if year < 1800 then "XVIII век"
    else if year < 1900 then "XIX век"
    else if year < 2000 then "XX век"
    else "XXI век"
  }

  /** Each hundred years from 1000 to 1999 maps to the Roman numeral of
      the century it lies in (the years 100·(c−1) to 100·c − 1 form
      century c). */
  lemma PeriodOfYearRoman(year: nat, c: nat)
    requires 11 <= c <= 20 && 100 * (c - 1) <= year < 100 * c
    ensures PeriodOfYear(year) == Roman(c) + " век"
  {
    if c <= 15 {
      RomanEarlyCenturies();
      assert c == 11 || c == 12 || c == 13 || c == 14 || c == 15;
    } else {
      RomanLateCenturies();
      assert c == 16 || c == 17 || c == 18 || c == 19 || c == 20;
    }
  }

  /** The whole mapping: every year below 1000 is "X век", every year from
      1000 to 1999 gives the numeral of its century, and every later year
      is "XXI век". */
  lemma PeriodOfYearMeans(year: nat)
    ensures year < 1000 ==> PeriodOfYear(year) == "X век"
    ensures 1000 <= year < 2000 ==> PeriodOfYear(year) == Roman(year / 100 + 1) + " век"
    ensures year >= 2000 ==> PeriodOfYear(year) == "XXI век"
  {
    if 1000 <= year < 2000 {
      PeriodOfYearRoman(year, year / 100 + 1);
    }
  }

  lemma RomanEarlyCenturies()
    ensures Roman(11) + " век" == "XI век" && Roman(12) + " век" == "XII век"
    ensures Roman(13) + " век" == "XIII век" && Roman(14) + " век" == "XIV век"
    ensures Roman(15) + " век" == "XV век"
  {
  }

  lemma RomanLateCenturies()
    ensures Roman(16) + " век" == "XVI век" && Roman(17) + " век" == "XVII век"
    ensures Roman(18) + " век" == "XVIII век" && Roman(19) + " век" == "XIX век"
    ensures Roman(20) + " век" == "XX век"
  {
  }

  const UnknownPeriod: string := "неизвестно"

  /** `_extract_period`. */
  function ExtractPeriod(text: string): string {
    match FirstCentury(text, 0)
    case Some(century) => century + " век"
    case None =>
      match FirstYear(text, 0)
      case Some(year) => PeriodOfYear(year)
      case None => UnknownPeriod
  }

  /** A "N век" mention anywhere wins over any year, and it is the leftmost
      one; without one, the leftmost year mention gives the century; with
      neither the period is unknown. */
  lemma ExtractPeriodMeans(text: string)
    ensures (exists i :: 0 <= i < |text| && CenturyAt(text, i).Some?) ==>
      exists i :: 0 <= i < |text| && CenturyAt(text, i).Some? && ExtractPeriod(text) == CenturyAt(text, i).value + " век" &&
        (forall m :: 0 <= m < i ==> CenturyAt(text, m).None?)
    ensures (forall i :: 0 <= i < |text| ==> CenturyAt(text, i).None?) &&
            (exists i :: 0 <= i < |text| && YearAt(text, i).Some?) ==>
      exists i :: 0 <= i < |text| && YearAt(text, i).Some? && ExtractPeriod(text) == PeriodOfYear(YearAt(text, i).value) &&
        (forall m :: 0 <= m < i ==> YearAt(text, m).None?)
    ensures (forall i :: 0 <= i < |text| ==> CenturyAt(text, i).None? && YearAt(text, i).None?) ==>
      ExtractPeriod(text) == UnknownPeriod
  {
  }
}
