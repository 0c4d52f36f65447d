/**
 * The question-answering front end over the extracted historical data
 * (src/simple_history_qa.py): keyword search, the table of canned answers,
 * the random fact and the category and period filters.
 */
module HistoryQa {
  import opened Text

  /** One record of the historical-data file: its text and its `category`
      and `period` entries, `None` when the record has no such key. */
  datatype Fact = Fact(text: string, category: Option<string>, period: Option<string>)

  // ---------------------------------------------------------------------
  // search_by_keywords

  /** The record's lower-cased text contains one of the whitespace-separated
      words of the lower-cased query. */
  predicate Matches(query: string, f: Fact) {
    ContainsAny(Lower(f.text), Words(Lower(query)))
  }

  function MatchesQuery(query: string): Fact -> bool {
    f => Matches(query, f)
  }

  /** What `search_by_keywords` returns. */
  function Search(data: seq<Fact>, query: string): seq<Fact> {
    Filter(data, MatchesQuery(query))
  }

  /** The hits are the matching records, all of them, in data order; a
      blank query matches nothing. */
  lemma SearchMeans(data: seq<Fact>, query: string)
    ensures IsSubsequence(Search(data, query), data)
    ensures forall f :: f in Search(data, query) <==> f in data && Matches(query, f)
    ensures AllSpace(query) ==> Search(data, query) == []
  {
    FilterIsSubsequence(data, MatchesQuery(query));
    FilterMembers(data, MatchesQuery(query));
    if AllSpace(query) {
      assert AllSpace(Lower(query));
      WordsOfBlank(Lower(query));
      FilterNone(data, MatchesQuery(query));
    }
  }

  /** `any(word in text for word in words)`. */
  method AnyOccurs(words: seq<string>, text: string) returns (found: bool)
    ensures found == ContainsAny(text, words)
  {
    for i := 0 to |words|
      invariant forall j :: 0 <= j < i ==> !Contains(text, words[j])
    {
      if Contains(text, words[i]) {
        return true;
      }
    }
    return false;
  }

  // ---------------------------------------------------------------------
  // answer_question

  /** The canned answers: for each topic key, its answers keyed by a
      second word, both in the order they are declared. */
  const Canned: seq<(string, seq<(string, string)>)> := [
    ("ленин", [
      ("рождение", "Владимир Ильич Ленин родился 22 апреля 1870 года в Симбирске."),
      ("смерть", "Владимир Ильич Ленин умер 21 января 1924 года в Горках."),
      ("дата рождения", "Владимир Ильич Ленин родился 22 апреля 1870 года."),
      ("когда родился", "Владимир Ильич Ленин родился 22 апреля 1870 года."),
      ("когда умер", "Владимир Ильич Ленин умер 21 января 1924 года.")]),
    ("петр", [
      ("рождение", "Петр I Великий родился 9 июня 1672 года."),
      ("смерть", "Петр I Великий умер 8 февраля 1725 года."),
      ("реформы", "Петр I провел масштабные реформы в России, включая создание регулярной армии и флота, основание Санкт-Петербурга в 1703 году."),
      ("известен", "Петр I известен своими реформами, созданием регулярной армии и флота, основанием Санкт-Петербурга.")]),
    ("1812", [
      ("война", "В 1812 году произошла Отечественная война между Россией и Францией под руководством Наполеона."),
      ("наполеон", "В 1812 году Наполеон Бонапарт вторгся в Россию с армией в 600 тысяч человек."),
      ("событие", "В 1812 году произошла Отечественная война - важное событие в истории России.")]),
    ("революция", [
      ("1917", "Революция 1917 года привела к свержению Временного правительства и установлению советской власти в России."),
      ("октябрьская", "Октябрьская революция 1917 года привела к установлению советской власти.")])
  ]

  const FoundPrefix: string := "Согласно историческим данным: "

  const Apology: string := "К сожалению, я не нашел информацию по вашему вопросу в доступных исторических данных. Попробуйте переформулировать вопрос или задать более конкретный вопрос."

  /** Both the topic key `i` and its answer key `j` occur in the question. */
  predicate Hits(lower: string, table: seq<(string, seq<(string, string)>)>, i: nat, j: nat) {
    i < |table| && j < |table[i].1| && Contains(lower, table[i].0) && Contains(lower, table[i].1[j].0)
  }

  /** The first answer, from position `j` on, whose key occurs in the question. */
  function AnswerFrom(lower: string, answers: seq<(string, string)>, j: nat): Option<string>
    decreases |answers| - j
  {
    if j >= |answers| then None
    else if Contains(lower, answers[j].0) then Some(answers[j].1)
    else AnswerFrom(lower, answers, j + 1)
  }

  /** The canned answer the nested loops return, looking at topics from `i` on. */
  function CannedFrom(lower: string, table: seq<(string, seq<(string, string)>)>, i: nat): Option<string>
    decreases |table| - i
  {
    if i >= |table| then None
    else if Contains(lower, table[i].0) && AnswerFrom(lower, table[i].1, 0).Some? then AnswerFrom(lower, table[i].1, 0)
    else CannedFrom(lower, table, i + 1)
  }

  /** The inner loop finds the first answer key, from `j` on, that occurs. */
  lemma {:induction false} AnswerFromMeans(lower: string, answers: seq<(string, string)>, j: nat)
    ensures AnswerFrom(lower, answers, j).None? <==> forall j2 :: j <= j2 < |answers| ==> !Contains(lower, answers[j2].0)
    ensures AnswerFrom(lower, answers, j).Some? ==>
              exists j2 :: j <= j2 < |answers| && Contains(lower, answers[j2].0) &&
                AnswerFrom(lower, answers, j).value == answers[j2].1 &&
                (forall j3 :: j <= j3 < j2 ==> !Contains(lower, answers[j3].0))
    decreases |answers| - j
  {
    if j < |answers| && !Contains(lower, answers[j].0) {
      AnswerFromMeans(lower, answers, j + 1);
    }
  }

  /** `(i, j)` is the first hit, in declaration order, from topic `i0` on. */
  ghost predicate FirstHit(lower: string, table: seq<(string, seq<(string, string)>)>, i0: nat, i: nat, j: nat) {
    i0 <= i && Hits(lower, table, i, j) &&
    forall i3: nat, j3: nat :: i0 <= i3 && Hits(lower, table, i3, j3) ==> i < i3 || (i == i3 && j <= j3)
  }

  /** The nested loops return the answer of the first pair, in declaration
      order, whose topic and answer keys both occur in the question, and
      nothing when there is no such pair. */
  lemma {:induction false} CannedFromMeans(lower: string, table: seq<(string, seq<(string, string)>)>, i: nat)
    ensures CannedFrom(lower, table, i).None? <==> forall i2: nat, j2: nat :: i <= i2 ==> !Hits(lower, table, i2, j2)
    ensures CannedFrom(lower, table, i).Some? ==>
              exists i2: nat, j2: nat :: FirstHit(lower, table, i, i2, j2) && CannedFrom(lower, table, i).value == table[i2].1[j2].1
    decreases |table| - i
  {
    if i < |table| {
      AnswerFromMeans(lower, table[i].1, 0);
      CannedFromMeans(lower, table, i + 1);
      if Contains(lower, table[i].0) && AnswerFrom(lower, table[i].1, 0).Some? {
        var j2: nat :| 0 <= j2 < |table[i].1| && Contains(lower, table[i].1[j2].0) &&
                  AnswerFrom(lower, table[i].1, 0).value == table[i].1[j2].1 &&
                  (forall j3 :: 0 <= j3 < j2 ==> !Contains(lower, table[i].1[j3].0));
        assert FirstHit(lower, table, i, i, j2);
      } else {
        assert forall j2: nat :: !Hits(lower, table, i, j2);
        if CannedFrom(lower, table, i + 1).Some? {
          var i2: nat, j2: nat :| FirstHit(lower, table, i + 1, i2, j2) && CannedFrom(lower, table, i + 1).value == table[i2].1[j2].1;
          assert FirstHit(lower, table, i, i2, j2);
        }
      }
    }
  }

  /** What `answer_question` returns. */
  function Answer(data: seq<Fact>, question: string): string {
    match CannedFrom(Lower(question), Canned, 0)
    case Some(a) => a
    case None =>
      var hits := Search(data, question);
      if hits != [] then FoundPrefix + hits[0].text else Apology
  }

  /** A canned answer wins, the first pair in declaration order; then the
      first matching record; then the apology. */
  lemma AnswerMeans(data: seq<Fact>, question: string)
    ensures (exists i: nat, j: nat :: Hits(Lower(question), Canned, i, j)) ==>
              exists i: nat, j: nat :: FirstHit(Lower(question), Canned, 0, i, j) && Answer(data, question) == Canned[i].1[j].1
    ensures (forall i: nat, j: nat :: !Hits(Lower(question), Canned, i, j)) && (exists k :: 0 <= k < |data| && Matches(question, data[k])) ==>
              exists k :: 0 <= k < |data| && Matches(question, data[k]) &&
                (forall k2 :: 0 <= k2 < k ==> !Matches(question, data[k2])) &&
                Answer(data, question) == FoundPrefix + data[k].text
    ensures (forall i: nat, j: nat :: !Hits(Lower(question), Canned, i, j)) && (forall k :: 0 <= k < |data| ==> !Matches(question, data[k])) ==>
              Answer(data, question) == Apology
  {
    var lower := Lower(question);
    CannedFromMeans(lower, Canned, 0);
    if forall i: nat, j: nat :: !Hits(lower, Canned, i, j) {
      if exists k :: 0 <= k < |data| && Matches(question, data[k]) {
        var k := FirstSatisfying(data, MatchesQuery(question));
        FilterFirst(data, MatchesQuery(question), k);
      } else {
        FilterNone(data, MatchesQuery(question));
      }
    }
  }

  // ---------------------------------------------------------------------
  // get_facts_by_category and get_facts_by_period

  /** `item.get('category', '').lower() == category.lower()`. */
  predicate InCategory(category: string, f: Fact) {
    Lower(f.category.GetOr("")) == Lower(category)
  }

  /** `period.lower() in item.get('period', '').lower()`. */
  predicate InPeriod(period: string, f: Fact) {
    Contains(Lower(f.period.GetOr("")), Lower(period))
  }

  function TextIf(keep: Fact -> bool): Fact -> Option<string> {
    f => if keep(f) then Some(f.text) else None
  }

  /** The texts of the records that `keep` accepts, in data order. */
  function FactsWhere(data: seq<Fact>, keep: Fact -> bool): seq<string> {
    Picked(data, TextIf(keep))
  }

  /** A text is listed exactly when some accepted record has it, and there
      are no more texts than records. */
  lemma FactsWhereMeans(data: seq<Fact>, keep: Fact -> bool)
    ensures |FactsWhere(data, keep)| <= |data|
    ensures forall t :: t in FactsWhere(data, keep) <==> exists k :: 0 <= k < |data| && keep(data[k]) && data[k].text == t
  {
    forall t | t in FactsWhere(data, keep)
      ensures exists k :: 0 <= k < |data| && keep(data[k]) && data[k].text == t
    {
      PickedSound(data, TextIf(keep), t);
    }
    forall k | 0 <= k < |data| && keep(data[k])
      ensures data[k].text in FactsWhere(data, keep)
    {
      PickedComplete(data, TextIf(keep), k);
    }
  }

  /** A record without a category is listed only for the empty category;
      one without a period is listed for the empty period only. */
  lemma MissingFields(f: Fact, category: string, period: string)
    ensures f.category.None? ==> (InCategory(category, f) <==> category == "")
    ensures f.period.None? ==> (InPeriod(period, f) <==> period == "")
  {
    if f.category.None? && category != "" {
      assert |Lower(category)| != |Lower("")|;
    }
    if f.period.None? {
      assert Lower("") == "";
      assert Contains("", Lower(period)) <==> StartsWith("", Lower(period));
    }
  }

  // ---------------------------------------------------------------------
  // The question-answering object

  const FactPrefix: string := "Интересный исторический факт: "

  const NoData: string := "Нет доступных исторических данных."

  class SimpleHistoryQa {
    var historicalData: seq<Fact>

    /** `__init__` followed by `load_data`: the records read from the data
        file, or none when the file is missing or cannot be read. */
    constructor (loaded: Option<seq<Fact>>)
      ensures historicalData == loaded.GetOr([])
    {
      historicalData := loaded.GetOr([]);
    }

    /** `search_by_keywords`. */
    method SearchByKeywords(query: string) returns (results: seq<Fact>)
      ensures results == Search(historicalData, query)
    {
      var queryLower := Lower(query);
      var words := Words(queryLower);
      results := [];
      for i := 0 to |historicalData|
        invariant results == Filter(historicalData[..i], MatchesQuery(query))
      {
        FilterSnoc(historicalData, i, MatchesQuery(query));
        var item := historicalData[i];
        var found := AnyOccurs(words, Lower(item.text));
        if found {
          results := results + [item];
        }
      }
      TakeAll(historicalData);
    }

    /** The topic loop of `answer_question` over the canned table. */
    method FindAnswer(answers: seq<(string, string)>, lower: string) returns (answer: Option<string>)
      ensures answer == AnswerFrom(lower, answers, 0)
    {
      for j := 0 to |answers|
        invariant AnswerFrom(lower, answers, j) == AnswerFrom(lower, answers, 0)
      {
        if Contains(lower, answers[j].0) {
          return Some(answers[j].1);
        }
      }
      return None;
    }

    /** `answer_question`. */
    method AnswerQuestion(question: string) returns (answer: string)
      ensures answer == Answer(historicalData, question)
    {
      var questionLower := Lower(question);
      for i := 0 to |Canned|
        invariant CannedFrom(questionLower, Canned, i) == CannedFrom(questionLower, Canned, 0)
      {
        if Contains(questionLower, Canned[i].0) {
          var found := FindAnswer(Canned[i].1, questionLower);
          if found.Some? {
            return found.value;
          }
        }
      }
      var searchResults := SearchByKeywords(question);
      if searchResults != [] {
        return FoundPrefix + searchResults[0].text;
      }
      return Apology;
    }

    /** `get_random_fact`, with the index `random.choice` draws given as
        `pick`: some record's text, any record being possible, or the fixed
        message when there is no data. */
    function RandomFact(pick: nat): (r: string)
      reads this
      ensures historicalData == [] ==> r == NoData
      ensures historicalData != [] ==> exists k :: 0 <= k < |historicalData| && r == FactPrefix + historicalData[k].text
      ensures pick < |historicalData| ==> r == FactPrefix + historicalData[pick].text
    {
      if historicalData != [] then FactPrefix + historicalData[pick % |historicalData|].text
      else NoData
    }

    /** `get_facts_by_category`. */
    method GetFactsByCategory(category: string) returns (facts: seq<string>)
      ensures facts == FactsWhere(historicalData, f => InCategory(category, f))
    {
      facts := [];
      for i := 0 to |historicalData|
        invariant facts == Picked(historicalData[..i], TextIf(f => InCategory(category, f)))
      {
        PickedSnoc(historicalData, i, TextIf(f => InCategory(category, f)));
        var item := historicalData[i];
        if Lower(item.category.GetOr("")) == Lower(category) {
          facts := facts + [item.text];
        }
      }
      TakeAll(historicalData);
    }

    /** `get_facts_by_period`. */
    method GetFactsByPeriod(period: string) returns (facts: seq<string>)
      ensures facts == FactsWhere(historicalData, f => InPeriod(period, f))
    {
      facts := [];
      for i := 0 to |historicalData|
        invariant facts == Picked(historicalData[..i], TextIf(f => InPeriod(period, f)))
      {
        PickedSnoc(historicalData, i, TextIf(f => InPeriod(period, f)));
        var item := historicalData[i];
        if Contains(Lower(item.period.GetOr("")), Lower(period)) {
          facts := facts + [item.text];
        }
      }
      TakeAll(historicalData);
    }
  }
}
