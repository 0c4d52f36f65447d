/**
 * What happens to the model's decoded output before it is shown
 * (src/models/history_ai.py, src/models/history_ai_ru.py): the echoed
 * prompt is cut off, a too-short answer is replaced by a fixed message, and
 * the text is cleaned, by dropping repeated adjacent words in the English
 * model and repeated sentences in the Russian one.
 *
 * Tokenisation, generation and decoding are not modelled: the decoded
 * string is an input.
 */
module GeneratedText {
  import opened Text

  // ---------------------------------------------------------------------
  // The post-decode block of generate_text

  /** Cuts the prompt off the decoded text when the text starts with it,
      and strips what follows; any other text is left as it is. */
  function StripPrompt(decoded: string, prompt: string): (r: string)
    ensures StartsWith(decoded, prompt) ==> Trimmed(r) && |r| <= |decoded| - |prompt|
    ensures !StartsWith(decoded, prompt) ==> r == decoded
  {
    if StartsWith(decoded, prompt) then Strip(decoded[|prompt|..]) else decoded
  }

  /** An output that echoes the prompt gives back the stripped continuation. */
  lemma StripPromptEcho(prompt: string, rest: string)
    ensures StripPrompt(prompt + rest, prompt) == Strip(rest)
  {
    assert (prompt + rest)[..|prompt|] == prompt;
    assert (prompt + rest)[|prompt|..] == rest;
  }

  const ShortAnswerMessage: string := "Извините, не удалось сгенерировать содержательный ответ. Попробуйте изменить промпт или параметры генерации."

  /** What `generate_text` in history_ai.py returns for a decoded output. */
  function FinishGeneration(decoded: string, prompt: string): string {
    var t := StripPrompt(decoded, prompt);
    if t == "" || |Strip(t)| < 10 then ShortAnswerMessage else CleanGenerated(t)
  }

  /** The emptiness test is subsumed by the length test: the fixed message
      is given exactly for remainders with fewer than 10 non-padding
      characters, and every other remainder is cleaned. */
  lemma FinishGenerationMeans(decoded: string, prompt: string)
    ensures |Strip(StripPrompt(decoded, prompt))| < 10 ==> FinishGeneration(decoded, prompt) == ShortAnswerMessage
    ensures |Strip(StripPrompt(decoded, prompt))| >= 10 ==>
              StripPrompt(decoded, prompt) != "" &&
              FinishGeneration(decoded, prompt) == CleanGenerated(StripPrompt(decoded, prompt))
  {
  }

  // ---------------------------------------------------------------------
  // _clean_generated_text of history_ai.py

  /** The characters the second `re.sub` keeps: word characters,
      whitespace and `.,!?:;-()"'`. */
  predicate IsKeptChar(c: char) {
    IsWordChar(c) || IsSpace(c) || c in ".,!?:;-()\"'"
  }

  function LastOr(d: seq<string>, default: string): string {
    if d == [] then default else d[|d| - 1]
  }

  /** The words the loop keeps: a word is kept when it differs from the
      last word kept ("" before the first). */
  function DedupAdjacent(ws: seq<string>): seq<string> {
    if ws == [] then []
    else
      var d := DedupAdjacent(ws[..|ws| - 1]);
      var w := ws[|ws| - 1];
      if w != LastOr(d, "") then d + [w] else d
  }

  predicate NoAdjacentRepeat(ws: seq<string>) {
    forall i :: 0 <= i < |ws| - 1 ==> ws[i] != ws[i + 1]
  }

  lemma {:induction false} DedupNoRepeat(ws: seq<string>)
    ensures NoAdjacentRepeat(DedupAdjacent(ws))
    ensures DedupAdjacent(ws) != [] ==> LastOr(DedupAdjacent(ws), "") in ws
  {
    if ws != [] {
      var init := ws[..|ws| - 1];
      DedupNoRepeat(init);
      var d := DedupAdjacent(init);
      if d != [] {
        assert LastOr(d, "") in ws;
      }
    }
  }

  lemma {:induction false} DedupSubsequence(ws: seq<string>)
    ensures IsSubsequence(DedupAdjacent(ws), ws)
  {
    if ws == [] {
    } else {
      var init, w := ws[..|ws| - 1], ws[|ws| - 1];
      DedupSubsequence(init);
      SubsequenceSnoc(DedupAdjacent(init), init, w);
      SplitLast(ws);
    }
  }

  /** A non-empty first word is always kept. */
  lemma {:induction false} DedupFirst(ws: seq<string>)
    requires |ws| > 0 && ws[0] != ""
    ensures |DedupAdjacent(ws)| > 0 && DedupAdjacent(ws)[0] == ws[0]
  {
    if |ws| > 1 {
      var init := ws[..|ws| - 1];
      DedupFirst(init);
    }
  }

  /** Words with no empty word and no adjacent repeat are kept as they are. */
  lemma {:induction false} DedupFixpoint(ws: seq<string>)
    requires NoAdjacentRepeat(ws) && forall k :: 0 <= k < |ws| ==> ws[k] != ""
    ensures DedupAdjacent(ws) == ws
  {
    if ws != [] {
      var init := ws[..|ws| - 1];
      DedupFixpoint(init);
      SplitLast(ws);
    }
  }

  /** The words of the text once whitespace is collapsed and unwanted
      characters removed. */
  function RegexCleaned(text: string): string {
    KeepChars(CollapseSpaces(text), IsKeptChar)
  }

  function CleanedWords(text: string): seq<string> {
    DedupAdjacent(Words(RegexCleaned(text)))
  }

  /** What `_clean_generated_text` returns. */
  function CleanGenerated(text: string): string {
    Strip(JoinWith(CleanedWords(text), " "))
  }

  /** The kept words are proper words of allowed characters, with no
      adjacent repeat, in their original order, and the first one is kept. */
  lemma CleanedWordsMeans(text: string)
    ensures var ws := Words(RegexCleaned(text));
      var cw := CleanedWords(text);
      ProperWords(cw) && NoAdjacentRepeat(cw) && IsSubsequence(cw, ws) &&
      (forall k :: 0 <= k < |cw| ==> AllChars(cw[k], IsKeptChar)) &&
      (ws != [] ==> cw != [] && cw[0] == ws[0])
  {
    var ws := Words(RegexCleaned(text));
    var cw := CleanedWords(text);
    DedupNoRepeat(ws);
    DedupSubsequence(ws);
    SubsequenceMembers(cw, ws);
    WordsKeep(RegexCleaned(text), IsKeptChar);
    if ws != [] {
      DedupFirst(ws);
    }
    forall k | 0 <= k < |cw| ensures cw[k] != [] && NoSpace(cw[k]) && AllChars(cw[k], IsKeptChar) {
      assert cw[k] in ws;
    }
  }

  /** Proper words of `p`-characters, joined by single spaces, form a
      stripped string of `p`-characters that splits back into them. */
  lemma JoinedWordsShape(ws: seq<string>, p: char -> bool)
    requires ProperWords(ws) && AllChars(" ", p)
    requires forall k :: 0 <= k < |ws| ==> AllChars(ws[k], p)
    ensures var j := JoinWith(ws, " ");
      Strip(j) == j && Words(j) == ws &&
      OnlyPlainSpaces(j) && NoDoubleSpace(j) && Trimmed(j) && AllChars(j, p)
  {
    var j := JoinWith(ws, " ");
    if ws != [] {
      JoinStartsWithWord(ws);
    }
    JoinOfWordsShape(ws);
    WordsOfJoin(ws);
    JoinKeeps(ws, " ", p);
  }

  /** The result is the kept words separated by single spaces, with no
      other whitespace, and splitting it gives the kept words back. */
  lemma CleanGeneratedShape(text: string)
    ensures var r := CleanGenerated(text);
      r == JoinWith(CleanedWords(text), " ") && Words(r) == CleanedWords(text) &&
      OnlyPlainSpaces(r) && NoDoubleSpace(r) && Trimmed(r) && AllChars(r, IsKeptChar)
  {
    var cw := CleanedWords(text);
    assert ProperWords(cw) && forall k :: 0 <= k < |cw| ==> AllChars(cw[k], IsKeptChar) by {
      CleanedWordsMeans(text);
    }
    JoinedWordsShape(cw, IsKeptChar);
  }

  /** Cleaning a cleaned text changes nothing. */
  lemma CleanGeneratedIdempotent(text: string)
    ensures CleanGenerated(CleanGenerated(text)) == CleanGenerated(text)
  {
    var r := CleanGenerated(text);
    var cw := CleanedWords(text);
    CleanGeneratedShape(text);
    CleanedWordsMeans(text);
    CollapseFixpoint(r);
    KeepCharsAll(r, IsKeptChar);
    assert RegexCleaned(r) == r;
    DedupFixpoint(cw);
    assert CleanedWords(r) == cw;
  }

  /** One more word looked at by the `prev_word` loop. */
  lemma DedupSnoc(ws: seq<string>, i: nat)
    requires i < |ws|
    ensures var d := DedupAdjacent(ws[..i]);
      DedupAdjacent(ws[..i + 1]) == if ws[i] != LastOr(d, "") then d + [ws[i]] else d
  {
    assert ws[..i + 1][..i] == ws[..i];
  }

  /** The `prev_word` loop of `_clean_generated_text`. */
  method DropRepeatedWords(words: seq<string>) returns (cleaned: seq<string>)
    ensures cleaned == DedupAdjacent(words)
  {
    cleaned := [];
    var prevWord := "";
    for i := 0 to |words|
      invariant cleaned == DedupAdjacent(words[..i])
      invariant prevWord == LastOr(cleaned, "")
    {
      DedupSnoc(words, i);
      var word := words[i];
      if word != prevWord {
        cleaned := cleaned + [word];
        prevWord := word;
      }
    }
    TakeAll(words);
  }

  /** `_clean_generated_text`: the two substitutions, the word loop and the
      join. */
  method CleanGeneratedText(text: string) returns (r: string)
    ensures r == CleanGenerated(text)
  {
    var kept := KeepChars(CollapseSpaces(text), IsKeptChar);
    var cleaned := DropRepeatedWords(Words(kept));
    r := Strip(JoinWith(cleaned, " "));
  }

  // ---------------------------------------------------------------------
  // _clean_generated_text of history_ai_ru.py

  /** The values the loop keeps: each normalised piece that is not empty
      and not kept already. */
  function Unique(parts: seq<string>, norm: string -> string): seq<string> {
    if parts == [] then []
    else
      var u := Unique(parts[..|parts| - 1], norm);
      var s := norm(parts[|parts| - 1]);
      if s != "" && s !in u then u + [s] else u
  }

  /** The sentences `_clean_generated_text` keeps: the stripped pieces. */
  function UniqueSentences(parts: seq<string>): seq<string> {
    Unique(parts, Strip)
  }

  /** Kept values are not empty and pairwise distinct. */
  lemma {:induction false} UniqueDistinct(parts: seq<string>, norm: string -> string)
    ensures forall k :: 0 <= k < |Unique(parts, norm)| ==> Unique(parts, norm)[k] != ""
    ensures forall i, j :: 0 <= i < j < |Unique(parts, norm)| ==> Unique(parts, norm)[i] != Unique(parts, norm)[j]
  {
    if parts != [] {
      var u0 := Unique(parts[..|parts| - 1], norm);
      UniqueDistinct(parts[..|parts| - 1], norm);
      var s := norm(parts[|parts| - 1]);
      if s != "" && s !in u0 {
        var u := u0 + [s];
        assert Unique(parts, norm) == u;
        forall k | 0 <= k < |u| ensures u[k] != "" {
          if k < |u0| {
            assert u[k] == u0[k];
          }
        }
        forall i, j | 0 <= i < j < |u| ensures u[i] != u[j] {
          assert u[i] == u0[i];
          if j < |u0| {
            assert u[j] == u0[j];
          } else {
            assert u0[i] in u0;
          }
        }
      } else {
        assert Unique(parts, norm) == u0;
      }
    }
  }

  /** A value is kept exactly when some piece normalises to it and it is
      not empty. */
  lemma {:induction false} UniqueMembers(parts: seq<string>, norm: string -> string)
    ensures forall x :: x in Unique(parts, norm) <==> x != "" && exists k :: 0 <= k < |parts| && norm(parts[k]) == x
  {
    if parts != [] {
      var n := |parts| - 1;
      var init := parts[..n];
      UniqueMembers(init, norm);
      assert forall k :: 0 <= k < n ==> init[k] == parts[k];
      forall x | x != "" && (exists k :: 0 <= k < |parts| && norm(parts[k]) == x)
        ensures x in Unique(parts, norm)
      {
        var k :| 0 <= k < |parts| && norm(parts[k]) == x;
        if k < n {
          assert norm(init[k]) == x;
        }
      }
    }
  }

  /** One instance of `UniqueOrder`. */
  lemma {:induction false} UniqueOrderAt(parts: seq<string>, norm: string -> string, i: nat, j: nat, kj: nat)
    requires i < j < |Unique(parts, norm)| && kj < |parts| && norm(parts[kj]) == Unique(parts, norm)[j]
    ensures exists ki :: 0 <= ki < kj && norm(parts[ki]) == Unique(parts, norm)[i]
    decreases |parts|
  {
    var n := |parts| - 1;
    var init := parts[..n];
    var u0 := Unique(init, norm);
    var u := Unique(parts, norm);
    var s := norm(parts[n]);
    UniqueMembers(init, norm);
    assert forall k :: 0 <= k < n ==> init[k] == parts[k];
    assert i < |u0| && u[i] == u0[i];
    assert u0[i] in u0;
    var k0 :| 0 <= k0 < n && norm(init[k0]) == u0[i];
    if j < |u0| {
      assert u[j] == u0[j];
      if kj < n {
        assert norm(init[kj]) == u0[j];
        UniqueOrderAt(init, norm, i, j, kj);
        var ki :| 0 <= ki < kj && norm(init[ki]) == u0[i];
        assert norm(parts[ki]) == u[i];
      } else {
        assert u0[j] in u0;
        var kj0 :| 0 <= kj0 < n && norm(init[kj0]) == u0[j];
        UniqueOrderAt(init, norm, i, j, kj0);
        var ki :| 0 <= ki < kj0 && norm(init[ki]) == u0[i];
        assert norm(parts[ki]) == u[i];
      }
    } else {
      assert u == u0 + [s] && u[j] == s && s !in u0 && s != "";
      assert forall k :: 0 <= k < n ==> norm(parts[k]) != s;
      assert kj == n;
      assert norm(parts[k0]) == u[i];
    }
  }

  /** Kept values come in the order of their first occurrence: every
      occurrence of a later one follows an occurrence of each earlier one. */
  lemma UniqueOrder(parts: seq<string>, norm: string -> string)
    ensures var u := Unique(parts, norm);
      forall i, j, kj :: 0 <= i < j < |u| && 0 <= kj < |parts| && norm(parts[kj]) == u[j] ==>
        exists ki :: 0 <= ki < kj && norm(parts[ki]) == u[i]
  {
    var u := Unique(parts, norm);
    forall i, j, kj | 0 <= i < j < |u| && 0 <= kj < |parts| && norm(parts[kj]) == u[j]
      ensures exists ki :: 0 <= ki < kj && norm(parts[ki]) == u[i]
    {
      UniqueOrderAt(parts, norm, i, j, kj);
    }
  }

  /** The kept sentences are stripped. */
  lemma UniqueSentencesTrimmed(parts: seq<string>)
    ensures forall k :: 0 <= k < |UniqueSentences(parts)| ==> Trimmed(UniqueSentences(parts)[k])
  {
    var u := UniqueSentences(parts);
    UniqueMembers(parts, Strip);
    forall k | 0 <= k < |u| ensures Trimmed(u[k]) {
      assert u[k] in u;
      var m :| 0 <= m < |parts| && Strip(parts[m]) == u[k];
    }
  }

  /** Pieces without a full stop give sentences without one. */
  lemma UniqueNoStop(parts: seq<string>)
    requires forall k :: 0 <= k < |parts| ==> '.' !in parts[k]
    ensures forall k :: 0 <= k < |UniqueSentences(parts)| ==> '.' !in UniqueSentences(parts)[k]
  {
    var u := UniqueSentences(parts);
    UniqueMembers(parts, Strip);
    forall k | 0 <= k < |u| ensures '.' !in u[k] {
      assert u[k] in u;
      var m :| 0 <= m < |parts| && Strip(parts[m]) == u[k];
      StripNoChar(parts[m], '.');
    }
  }

  lemma StripNoChar(p: string, c: char)
    requires c !in p
    ensures c !in Strip(p)
  {
    SliceAt(p, |p| - |LStrip(p)|, Strip(p));
  }

  /** What `_clean_generated_text` of history_ai_ru.py returns. */
  function CleanRu(text: string): string {
    var joined := JoinWith(UniqueSentences(SplitOn(Strip(text), '.')), ". ");
    if joined != "" && !EndsWith(joined, ".") then joined + "." else joined
  }

  /** A blank text has no sentence to keep. */
  lemma BlankHasNoSentence(text: string)
    requires AllSpace(text)
    ensures UniqueSentences(SplitOn(Strip(text), '.')) == []
  {
    assert Strip(text) == "";
    assert SplitOn(Strip(text), '.') == [""];
    assert [""][..0] == [];
  }

  /** Sentences without a full stop, joined by ". ", do not end with one. */
  lemma JoinedSentencesOpen(u: seq<string>)
    requires u != []
    requires forall k :: 0 <= k < |u| ==> u[k] != "" && '.' !in u[k]
    ensures !EndsWith(JoinWith(u, ". "), ".")
  {
    var x := u[|u| - 1];
    var init := u[..|u| - 1];
    var front := if init == [] then "" else JoinWith(init, ". ") + ". ";
    assert JoinWith(u, ". ") == front + x by {
      SplitLast(u);
      JoinAppend(init, x, ". ");
    }
    EndsOpen(front, x);
  }

  lemma EndsOpen(front: string, x: string)
    requires x != "" && '.' !in x
    ensures !EndsWith(front + x, ".")
  {
    assert (front + x)[|front + x| - 1] == x[|x| - 1];
  }

  /** Blank input gives ""; otherwise the kept sentences joined by ". ",
      always followed by a final "." since no kept sentence has one. */
  lemma CleanRuMeans(text: string)
    ensures AllSpace(text) ==> CleanRu(text) == ""
    ensures var u := UniqueSentences(SplitOn(Strip(text), '.'));
      (u == [] ==> CleanRu(text) == "") &&
      (u != [] ==> CleanRu(text) == JoinWith(u, ". ") + "." && EndsWith(CleanRu(text), "."))
  {
    var parts := SplitOn(Strip(text), '.');
    var u := UniqueSentences(parts);
    if AllSpace(text) {
      BlankHasNoSentence(text);
    }
    if u != [] {
      UniqueDistinct(parts, Strip);
      UniqueNoStop(parts);
      JoinedSentencesOpen(u);
    }
  }

  /** One more piece looked at by the sentence loop. */
  lemma UniqueSnoc(parts: seq<string>, i: nat, norm: string -> string)
    requires i < |parts|
    ensures var u := Unique(parts[..i], norm);
      var s := norm(parts[i]);
      Unique(parts[..i + 1], norm) == if s != "" && s !in u then u + [s] else u
  {
    assert parts[..i + 1][..i] == parts[..i];
  }

  /** The sentence loop of `_clean_generated_text` in history_ai_ru.py,
      with its membership check. */
  method KeepUniqueSentences(sentences: seq<string>) returns (unique: seq<string>)
    ensures unique == UniqueSentences(sentences)
  {
    unique := [];
    for i := 0 to |sentences|
      invariant unique == Unique(sentences[..i], Strip)
    {
      UniqueSnoc(sentences, i, Strip);
      var sentence := Strip(sentences[i]);
      if sentence != "" && sentence !in unique {
        unique := unique + [sentence];
      }
    }
    TakeAll(sentences);
  }

  /** `_clean_generated_text` of history_ai_ru.py: the sentence loop, then
      the join and the final full stop. */
  method CleanRuText(text: string) returns (r: string)
    ensures r == CleanRu(text)
  {
    var unique := KeepUniqueSentences(SplitOn(Strip(text), '.'));
    var cleaned := JoinWith(unique, ". ");
    if cleaned != "" && !EndsWith(cleaned, ".") {
      cleaned := cleaned + ".";
    }
    r := cleaned;
  }

  /** What `generate_text` in history_ai_ru.py returns for a decoded output. */
  function FinishGenerationRu(decoded: string, prompt: string): (r: string)
    ensures StartsWith(decoded, prompt) && AllSpace(decoded[|prompt|..]) ==> r == ""
    ensures r == "" || EndsWith(r, ".")
  {
    CleanRuMeans(StripPrompt(decoded, prompt));
    CleanRu(StripPrompt(decoded, prompt))
  }
}
