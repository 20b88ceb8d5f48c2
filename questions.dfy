/** The question lists a session plays, built from the content records
    (src/pages/Play.jsx, the `questions` object). Vocabulary, spelling and
    grammar records map one-to-one onto questions; word-match records are
    grouped by category into one match question per category. */
module Questions {

  datatype VocabularyItem = VocabularyItem(word: string, options: seq<string>, correct: int, definition: string)
  datatype SpellingItem = SpellingItem(word: string, phonetic: string, difficulty: string)
  datatype GrammarItem = GrammarItem(question: string, options: seq<string>, correct: int, explanation: string)
  datatype WordMatchItem = WordMatchItem(word: string, meaning: string, category: string)

  /** The content file: one record list per game. */
  datatype Data = Data(
    vocabulary: seq<VocabularyItem>,
    spelling: seq<SpellingItem>,
    grammar: seq<GrammarItem>,
    wordMatch: seq<WordMatchItem>)

  /** A question as the session shows it. Vocabulary and grammar both give
      multiple-choice questions; `target` is the word to spell. */
  datatype Question =
    | ChoiceQuestion(question: string, options: seq<string>, correct: int, explanation: string)
    | SpellingQuestion(question: string, target: string, phonetic: string, hint: string)
    | MatchQuestion(category: string, words: seq<string>, meanings: seq<string>)

  datatype GameType = Vocabulary | Spelling | Grammar | Match

  /** The question shape a game type plays. */
  predicate Fits(g: GameType, q: Question)
  {
    match g
    case Vocabulary => q.ChoiceQuestion?
    case Grammar => q.ChoiceQuestion?
    case Spelling => q.SpellingQuestion?
    case Match => q.MatchQuestion?
  }

  /** A vocabulary record asks for the meaning of its word, with the
      record's options, correct index and definition. */
  function VocabularyQuestion(item: VocabularyItem): (q: Question)
    ensures q.ChoiceQuestion? && q.options == item.options && q.correct == item.correct
    ensures q.explanation == item.definition
  {
    ChoiceQuestion("What does '" + item.word + "' mean?", item.options, item.correct, item.definition)
  }

  /** A spelling record asks for its own word, which is the target. */
  function SpellingQuestionOf(item: SpellingItem): (q: Question)
    ensures q.SpellingQuestion? && q.target == item.word && q.phonetic == item.phonetic
  {
    SpellingQuestion("Spell the word: '" + item.word + "'", item.word, item.phonetic, "Difficulty: " + item.difficulty)
  }

  /** A grammar record is already a multiple-choice question. */
  function GrammarQuestion(item: GrammarItem): (q: Question)
    ensures q.ChoiceQuestion? && q.question == item.question && q.options == item.options
    ensures q.correct == item.correct && q.explanation == item.explanation
  {
    ChoiceQuestion(item.question, item.options, item.correct, item.explanation)
  }

  // ---------------------------------------------------------------------
  // Category grouping, stated declaratively

  /** The distinct categories of `items`, in order of first appearance. */
  function CategoriesOf(items: seq<WordMatchItem>): (cs: seq<string>)
    ensures forall j, k :: 0 <= j < k < |cs| ==> cs[j] != cs[k]
    ensures forall c :: c in cs <==> exists i :: 0 <= i < |items| && items[i].category == c
  {
    if items == [] then []
    else
      var front := items[..|items| - 1];
      var c := items[|items| - 1].category;
      var cs := CategoriesOf(front);
      assert forall i :: 0 <= i < |front| ==> items[i] == front[i];
      if c in cs then cs else cs + [c]
  }

  /** The words of the records in category `c`, in record order. */
  function WordsIn(items: seq<WordMatchItem>, c: string): seq<string>
  {
    if items == [] then []
    else
      var last := items[|items| - 1];
      WordsIn(items[..|items| - 1], c) + (if last.category == c then [last.word] else [])
  }

  /** The meanings of the records in category `c`, in record order. */
  function MeaningsIn(items: seq<WordMatchItem>, c: string): seq<string>
  {
    if items == [] then []
    else
      var last := items[|items| - 1];
      MeaningsIn(items[..|items| - 1], c) + (if last.category == c then [last.meaning] else [])
  }

  /** The match questions: one per distinct category, in order of first
      appearance, holding that category's words and meanings in record
      order. */
  function Grouped(items: seq<WordMatchItem>): (g: seq<Question>)
    ensures |g| == |CategoriesOf(items)|
    ensures forall k :: 0 <= k < |g| ==> g[k].MatchQuestion? && g[k].category == CategoriesOf(items)[k]
  {
    var cs := CategoriesOf(items);
    seq(|cs|, k requires 0 <= k < |cs| => MatchQuestion(cs[k], WordsIn(items, cs[k]), MeaningsIn(items, cs[k])))
  }

  /** Index of the first record of category `c`. */
  function FirstIndexOf(items: seq<WordMatchItem>, c: string): (i: nat)
    requires c in CategoriesOf(items)
    ensures i < |items| && items[i].category == c
    ensures forall j :: 0 <= j < i ==> items[j].category != c
  {
    var front := items[..|items| - 1];
    assert forall j :: 0 <= j < |front| ==> items[j] == front[j];
    if c in CategoriesOf(front) then FirstIndexOf(front, c) else |items| - 1
  }

  /** The number of words across a list of match questions. */
  function TotalWords(qs: seq<Question>): nat
  {
    if qs == [] then 0
    else (if qs[0].MatchQuestion? then |qs[0].words| else 0) + TotalWords(qs[1..])
  }

  // ---------------------------------------------------------------------
  // Grouping lemmas

  lemma {:induction false} NoWordsOutsideCategories(items: seq<WordMatchItem>, c: string)
    requires c !in CategoriesOf(items)
    ensures WordsIn(items, c) == [] && MeaningsIn(items, c) == []
  {
    if items != [] {
      var front := items[..|items| - 1];
      assert forall i :: 0 <= i < |front| ==> items[i] == front[i];
      NoWordsOutsideCategories(front, c);
    }
  }

  /** One record more: only its own category gains its word and meaning. */
  lemma InSnoc(front: seq<WordMatchItem>, item: WordMatchItem, c: string)
    ensures WordsIn(front + [item], c) == WordsIn(front, c) + (if item.category == c then [item.word] else [])
    ensures MeaningsIn(front + [item], c) == MeaningsIn(front, c) + (if item.category == c then [item.meaning] else [])
  {
    var items := front + [item];
    assert items[..|items| - 1] == front;
  }

  /** `existingGroup.words.push(item.word)` and
      `existingGroup.meanings.push(item.meaning)`. */
  function Push(q: Question, item: WordMatchItem): Question
    requires q.MatchQuestion?
  {
    MatchQuestion(q.category, q.words + [item.word], q.meanings + [item.meaning])
  }

  /** Question m of the grouping is category m with its words and meanings. */
  lemma GroupedAt(items: seq<WordMatchItem>, m: nat)
    requires m < |CategoriesOf(items)|
    ensures |Grouped(items)| == |CategoriesOf(items)|
    ensures var c := CategoriesOf(items)[m];
      Grouped(items)[m] == MatchQuestion(c, WordsIn(items, c), MeaningsIn(items, c))
  {
  }

  /** Appending a record of a category already present extends that
      category's question by the record's word and meaning. */
  lemma GroupedSnocExisting(front: seq<WordMatchItem>, item: WordMatchItem, k: nat)
    requires k < |CategoriesOf(front)| && CategoriesOf(front)[k] == item.category
    ensures k < |Grouped(front)| && Grouped(front)[k].MatchQuestion?
    ensures Grouped(front + [item]) == Grouped(front)[k := Push(Grouped(front)[k], item)]
  {
    GroupedAt(front, k);
    var g' := Grouped(front)[k := Push(Grouped(front)[k], item)];
    forall m | 0 <= m < |CategoriesOf(front)|
      ensures |Grouped(front + [item])| == |g'| && Grouped(front + [item])[m] == g'[m]
    {
      GroupedSnocExistingAt(front, item, k, m);
    }
    GroupedSnocExistingAt(front, item, k, k);
  }

  /** Question by question: only the record's own category changes. */
  lemma GroupedSnocExistingAt(front: seq<WordMatchItem>, item: WordMatchItem, k: nat, m: nat)
    requires k < |CategoriesOf(front)| && CategoriesOf(front)[k] == item.category
    requires m < |CategoriesOf(front)|
    ensures |Grouped(front + [item])| == |Grouped(front)| == |CategoriesOf(front)|
    ensures Grouped(front)[m].MatchQuestion?
    ensures Grouped(front + [item])[m]
      == if m == k then Push(Grouped(front)[k], item) else Grouped(front)[m]
  {
    var items := front + [item];
    var cs := CategoriesOf(front);
    var c := cs[m];
    assert item.category in cs;
    CategoriesSnoc(front, item);
    assert CategoriesOf(items) == cs;
    GroupedAt(front, m);
    GroupedAt(items, m);
    InSnoc(front, item, c);
    if m != k {
      assert c != item.category by {
        if m < k { assert cs[m] != cs[k]; } else { assert cs[k] != cs[m]; }
      }
    }
  }

  /** Appending a record of a new category adds a one-pair question for it
      at the end. */
  lemma GroupedSnocNew(front: seq<WordMatchItem>, item: WordMatchItem)
    requires item.category !in CategoriesOf(front)
    ensures Grouped(front + [item])
      == Grouped(front) + [MatchQuestion(item.category, [item.word], [item.meaning])]
  {
    var items := front + [item];
    var cs := CategoriesOf(front);
    CategoriesSnoc(front, item);
    var g := Grouped(items);
    var g' := Grouped(front) + [MatchQuestion(item.category, [item.word], [item.meaning])];
    forall m | 0 <= m < |cs|
      ensures g[m] == g'[m]
    {
      InSnoc(front, item, cs[m]);
    }
    NoWordsOutsideCategories(front, item.category);
    InSnoc(front, item, item.category);
    assert g[|cs|] == g'[|cs|];
    assert g == g';
  }

  /** One record more adds its category at the end when it is new. */
  lemma CategoriesSnoc(front: seq<WordMatchItem>, item: WordMatchItem)
    ensures CategoriesOf(front + [item])
      == if item.category in CategoriesOf(front) then CategoriesOf(front) else CategoriesOf(front) + [item.category]
  {
    var items := front + [item];
    assert items[..|items| - 1] == front;
  }

  /** Every grouped question pairs its i-th word with its i-th meaning as
      some record of its category does. */
  lemma {:induction false} GroupPairsComeFromRecords(items: seq<WordMatchItem>, c: string)
    ensures |WordsIn(items, c)| == |MeaningsIn(items, c)|
    ensures forall i :: 0 <= i < |WordsIn(items, c)| ==>
      exists j :: 0 <= j < |items| && items[j] == WordMatchItem(WordsIn(items, c)[i], MeaningsIn(items, c)[i], c)
  {
    if items != [] {
      var front := items[..|items| - 1];
      var last := items[|items| - 1];
      GroupPairsComeFromRecords(front, c);
      forall i | 0 <= i < |WordsIn(items, c)|
        ensures exists j :: 0 <= j < |items| && items[j] == WordMatchItem(WordsIn(items, c)[i], MeaningsIn(items, c)[i], c)
      {
        if i < |WordsIn(front, c)| {
          var j :| 0 <= j < |front| && front[j] == WordMatchItem(WordsIn(front, c)[i], MeaningsIn(front, c)[i], c);
          assert items[j] == front[j];
        } else {
          assert items[|items| - 1] == WordMatchItem(WordsIn(items, c)[i], MeaningsIn(items, c)[i], c);
        }
      }
    }
  }

  /** One question per distinct category, in order of first appearance;
      each question's words and meanings are aligned record by record. */
  lemma GroupedShape(items: seq<WordMatchItem>)
    ensures var g := Grouped(items); var cs := CategoriesOf(items);
      && |g| == |cs|
      && (forall k :: 0 <= k < |g| ==> g[k].MatchQuestion? && g[k].category == cs[k])
      && (forall j, k :: 0 <= j < k < |g| ==> FirstIndexOf(items, cs[j]) < FirstIndexOf(items, cs[k]))
      && (forall k :: 0 <= k < |g| ==> |g[k].words| == |g[k].meanings|)
  {
    var cs := CategoriesOf(items);
    forall j, k | 0 <= j < k < |cs|
      ensures FirstIndexOf(items, cs[j]) < FirstIndexOf(items, cs[k])
    {
      FirstAppearanceOrder(items, j, k);
    }
    forall k | 0 <= k < |cs|
      ensures |WordsIn(items, cs[k])| == |MeaningsIn(items, cs[k])|
    {
      GroupPairsComeFromRecords(items, cs[k]);
    }
  }

  lemma {:induction false} FirstAppearanceOrder(items: seq<WordMatchItem>, j: nat, k: nat)
    requires j < k < |CategoriesOf(items)|
    ensures FirstIndexOf(items, CategoriesOf(items)[j]) < FirstIndexOf(items, CategoriesOf(items)[k])
  {
    var front := items[..|items| - 1];
    assert forall i :: 0 <= i < |front| ==> items[i] == front[i];
    var cs := CategoriesOf(items);
    var fcs := CategoriesOf(front);
    assert cs[j] in fcs;
    if k < |fcs| {
      assert cs[k] == fcs[k] && cs[j] == fcs[j];
      FirstAppearanceOrder(front, j, k);
    } else {
      assert cs[k] !in fcs;
      assert FirstIndexOf(items, cs[j]) == FirstIndexOf(front, cs[j]);
    }
  }

  lemma {:induction false} TotalWordsUpdate(qs: seq<Question>, k: nat, q: Question)
    requires k < |qs| && qs[k].MatchQuestion? && q.MatchQuestion?
    ensures TotalWords(qs[k := q]) == TotalWords(qs) - |qs[k].words| + |q.words|
  {
    if k > 0 {
      TotalWordsUpdate(qs[1..], k - 1, q);
      assert qs[k := q][1..] == qs[1..][k - 1 := q];
    } else {
      assert qs[k := q][1..] == qs[1..];
    }
  }

  lemma {:induction false} TotalWordsAppend(qs: seq<Question>, q: Question)
    requires q.MatchQuestion?
    ensures TotalWords(qs + [q]) == TotalWords(qs) + |q.words|
  {
    if qs == [] {
      assert [q][1..] == [];
    } else {
      TotalWordsAppend(qs[1..], q);
      assert (qs + [q])[1..] == qs[1..] + [q];
    }
  }

  /** Grouping neither loses nor invents a record: the question sizes add
      up to the number of records. */
  lemma {:induction false} GroupSizesSum(items: seq<WordMatchItem>)
    ensures TotalWords(Grouped(items)) == |items|
  {
    if items != [] {
      var front := items[..|items| - 1];
      var item := items[|items| - 1];
      assert items == front + [item];
      GroupSizesSum(front);
      var cs := CategoriesOf(front);
      if item.category in cs {
        var k :| 0 <= k < |cs| && cs[k] == item.category;
        GroupedSnocExisting(front, item, k);
        TotalWordsUpdate(Grouped(front), k,
          Push(Grouped(front)[k], item));
      } else {
        GroupedSnocNew(front, item);
        TotalWordsAppend(Grouped(front), MatchQuestion(item.category, [item.word], [item.meaning]));
      }
    }
  }

  // ---------------------------------------------------------------------
  // The grouping as the program runs it

  /** `acc.find(group => group.category === c)`: the first match question
      of category `c`, or |groups| when there is none. */
  function FindCategory(groups: seq<Question>, c: string): (k: nat)
    ensures k <= |groups|
    ensures k < |groups| ==> groups[k].MatchQuestion? && groups[k].category == c
    ensures forall j :: 0 <= j < k ==> !(groups[j].MatchQuestion? && groups[j].category == c)
  {
    if groups == [] then 0
    else if groups[0].MatchQuestion? && groups[0].category == c then 0
    else 1 + FindCategory(groups[1..], c)
  }

  /** The `reduce` over the word-match records: a record whose category
      already has a group is pushed onto that group's words and meanings,
      otherwise a new group is appended. */
  method GroupByCategory(items: seq<WordMatchItem>) returns (groups: seq<Question>)
    ensures groups == Grouped(items)
  {
    groups := [];
    var index := 0;
    while index < |items|
      invariant 0 <= index <= |items|
      invariant groups == Grouped(items[..index])
    {
      var item := items[index];
      assert items[..index + 1] == items[..index] + [item];
      var k := FindCategory(groups, item.category);
      if k < |groups| {
        GroupedSnocExisting(items[..index], item, k);
        var existing := groups[k];
        groups := groups[k := Push(existing, item)];
      } else {
        assert forall j :: 0 <= j < |groups| ==> groups[j].category == CategoriesOf(items[..index])[j];
        GroupedSnocNew(items[..index], item);
        groups := groups + [MatchQuestion(item.category, [item.word], [item.meaning])];
      }
      index := index + 1;
    }
    assert items[..index] == items;
  }

  // ---------------------------------------------------------------------
  // The question list of each game

  /** The records a game type is built from. */
  function RecordCount(data: Data, g: GameType): nat
  {
    match g
    case Vocabulary => |data.vocabulary|
    case Spelling => |data.spelling|
    case Grammar => |data.grammar|
    case Match => |data.wordMatch|
  }

  /** `questions[gameType]`. */
  function QuestionsFor(data: Data, g: GameType): (qs: seq<Question>)
    ensures forall k :: 0 <= k < |qs| ==> Fits(g, qs[k])
  {
    match g
    case Vocabulary =>
      seq(|data.vocabulary|, k requires 0 <= k < |data.vocabulary| => VocabularyQuestion(data.vocabulary[k]))
    case Spelling =>
      seq(|data.spelling|, k requires 0 <= k < |data.spelling| => SpellingQuestionOf(data.spelling[k]))
    case Grammar =>
      seq(|data.grammar|, k requires 0 <= k < |data.grammar| => GrammarQuestion(data.grammar[k]))
    case Match =>
      Grouped(data.wordMatch)
  }

  /** A game has questions exactly when it has records; the one-to-one
      games have one question per record, in record order. */
  lemma QuestionsForRecords(data: Data, g: GameType)
    ensures |QuestionsFor(data, g)| > 0 <==> RecordCount(data, g) > 0
    ensures g != Match ==> |QuestionsFor(data, g)| == RecordCount(data, g)
    ensures g == Vocabulary ==> forall k :: 0 <= k < |data.vocabulary| ==>
      QuestionsFor(data, g)[k].correct == data.vocabulary[k].correct
      && QuestionsFor(data, g)[k].options == data.vocabulary[k].options
    ensures g == Grammar ==> forall k :: 0 <= k < |data.grammar| ==>
      QuestionsFor(data, g)[k].correct == data.grammar[k].correct
      && QuestionsFor(data, g)[k].options == data.grammar[k].options
    ensures g == Spelling ==> forall k :: 0 <= k < |data.spelling| ==>
      QuestionsFor(data, g)[k].target == data.spelling[k].word
  {
    if g == Match && data.wordMatch != [] {
      assert data.wordMatch[0].category in CategoriesOf(data.wordMatch);
    }
  }

  /** Builds the question list of a game; the match list through the
      grouping loop. */
  method BuildQuestions(data: Data, g: GameType) returns (qs: seq<Question>)
    ensures qs == QuestionsFor(data, g)
  {
    if g == Match {
      qs := GroupByCategory(data.wordMatch);
    } else {
      qs := QuestionsFor(data, g);
    }
  }
}
