/** The drag-to-match round of src/components/WordMatchGame.jsx: two pools
    (the words and the meanings of one match question, each shuffled)
    that shrink as pairings are judged correct, and a per-word record of
    the latest judgment. */
module WordMatch {
  import opened Wrappers
  import opened Questions

  // ---------------------------------------------------------------------
  // The shuffle, as a permutation argument

  /** [0, 1, ..., n - 1]. */
  function Range(n: nat): (r: seq<nat>)
    ensures |r| == n
    ensures forall i :: 0 <= i < n ==> r[i] == i
    ensures forall x :: x in r ==> x < n
  {
    if n == 0 then [] else Range(n - 1) + [n - 1]
  }

  /** `order` lists each position of an n-element list exactly once. */
  predicate IsPermutation(order: seq<nat>, n: nat)
  {
    && |order| == n
    && (forall k :: 0 <= k < n ==> order[k] < n)
    && multiset(order) == multiset(Range(n))
  }

  /** `s` rearranged: position k receives `s[order[k]]`. */
  function Permute<T>(s: seq<T>, order: seq<nat>): (r: seq<T>)
    requires forall k :: 0 <= k < |order| ==> order[k] < |s|
    ensures |r| == |order|
  {
    seq(|order|, k requires 0 <= k < |order| => s[order[k]])
  }

  /** Dropping the entry that names the last position leaves a permutation
      of the positions before it. */
  lemma PermutationWithoutLast(order: seq<nat>, n: nat, k: nat)
    requires IsPermutation(order, n) && k < n && order[k] == n - 1
    ensures IsPermutation(order[..k] + order[k + 1..], n - 1)
    ensures forall m :: 0 <= m < n && m != k ==> order[m] < n - 1
  {
    var rest := order[..k] + order[k + 1..];
    RestMultiset(order, n, k);
    forall j | 0 <= j < n - 1
      ensures rest[j] < n - 1
    {
      assert rest[j] in multiset(Range(n - 1));
    }
    forall m | 0 <= m < n && m != k
      ensures order[m] < n - 1
    {
      assert rest[if m < k then m else m - 1] == order[m];
    }
  }

  /** The entries other than the one naming n - 1 are the positions below n - 1. */
  lemma RestMultiset(order: seq<nat>, n: nat, k: nat)
    requires |order| == n && multiset(order) == multiset(Range(n)) && k < n && order[k] == n - 1
    ensures multiset(order[..k] + order[k + 1..]) == multiset(Range(n - 1))
  {
    RemoveAtMultiset(order, k);
    RangeSnoc(n);
    MultisetCancel(multiset(order), multiset(Range(n - 1)), order[k]);
  }

  /** Taking back out an element just added. */
  lemma MultisetCancel<T>(a: multiset<T>, b: multiset<T>, x: T)
    requires a == b + multiset{x}
    ensures a - multiset{x} == b
  {
  }

  /** The positions below n are those below n - 1 and n - 1 itself. */
  lemma RangeSnoc(n: nat)
    requires n > 0
    ensures multiset(Range(n)) == multiset(Range(n - 1)) + multiset{(n - 1) as nat}
  {
  }

  /** Some entry of a permutation names the last position; without it the
      permutation is one of the positions before. */
  lemma LastPosition(order: seq<nat>, n: nat) returns (k: nat)
    requires IsPermutation(order, n) && n > 0
    ensures k < n && order[k] == n - 1
    ensures IsPermutation(order[..k] + order[k + 1..], n - 1)
    ensures forall m :: 0 <= m < n && m != k ==> order[m] < n - 1
  {
    assert Range(n)[n - 1] == n - 1;
    assert n - 1 in multiset(order);
    k :| 0 <= k < n && order[k] == n - 1;
    PermutationWithoutLast(order, n, k);
  }

  /** Shuffling with the last position placed at k: the last element sits
      at k between the shuffle of the others, so the shuffle keeps the
      elements whenever the shuffle of the others does. */
  lemma PermuteSplit<T>(s: seq<T>, order: seq<nat>, k: nat)
    requires |s| > 0 && k < |order| && order[k] == |s| - 1
    requires forall m :: 0 <= m < |order| && m != k ==> order[m] < |s| - 1
    requires multiset(Permute(s[..|s| - 1], order[..k] + order[k + 1..])) == multiset(s[..|s| - 1])
    ensures multiset(Permute(s, order)) == multiset(s)
  {
    var rest := order[..k] + order[k + 1..];
    var q := Permute(s[..|s| - 1], rest);
    var p := Permute(s, order);
    var r := q[..k] + [s[|s| - 1]] + q[k..];
    assert |p| == |r|;
    forall m | 0 <= m < |p|
      ensures p[m] == r[m]
    {
      if m < k {
        assert r[m] == q[m] && rest[m] == order[m];
      } else if m > k {
        assert r[m] == q[m - 1] && rest[m - 1] == order[m];
      }
    }
    assert p == r;
    InsertLast(s, q, k);
  }

  /** Inserting the last element of `s` anywhere into a rearrangement of
      the others gives a rearrangement of `s`. */
  lemma InsertLast<T>(s: seq<T>, q: seq<T>, k: nat)
    requires |s| > 0 && k <= |q|
    requires multiset(q) == multiset(s[..|s| - 1])
    ensures multiset(q[..k] + [s[|s| - 1]] + q[k..]) == multiset(s)
  {
    assert q == q[..k] + q[k..];
    assert s == s[..|s| - 1] + [s[|s| - 1]];
  }

  /** A shuffle keeps every element, as often as it occurs. */
  lemma {:induction false} PermuteKeepsMultiset<T>(s: seq<T>, order: seq<nat>)
    requires IsPermutation(order, |s|)
    ensures multiset(Permute(s, order)) == multiset(s)
  {
    if |s| > 0 {
      var k := PermuteStep(s, order);
      PermuteKeepsMultiset(s[..|s| - 1], order[..k] + order[k + 1..]);
    }
  }

  /** The inductive step of `PermuteKeepsMultiset`: without the entry
      naming the last position, the order shuffles the other elements, and
      the whole shuffle keeps the elements when that smaller one does. */
  lemma PermuteStep<T>(s: seq<T>, order: seq<nat>) returns (k: nat)
    requires IsPermutation(order, |s|) && |s| > 0
    ensures k < |order| && IsPermutation(order[..k] + order[k + 1..], |s[..|s| - 1]|)
    ensures multiset(Permute(s[..|s| - 1], order[..k] + order[k + 1..])) == multiset(s[..|s| - 1])
      ==> multiset(Permute(s, order)) == multiset(s)
  {
    k := LastPosition(order, |s|);
    var front, rest := s[..|s| - 1], order[..k] + order[k + 1..];
    assert |front| == |s| - 1 && forall j :: 0 <= j < |rest| ==> rest[j] < |front|;
    if multiset(Permute(s[..|s| - 1], order[..k] + order[k + 1..])) == multiset(s[..|s| - 1]) {
      PermuteSplit(s, order, k);
    }
  }

  // ---------------------------------------------------------------------
  // Judging a drop as the program does

  /** `Array.prototype.indexOf`: the first position of `x`, or -1. */
  function IndexOf(s: seq<string>, x: string): (r: int)
    ensures -1 <= r < |s|
    ensures r == -1 <==> x !in s
    ensures r >= 0 ==> s[r] == x && forall j :: 0 <= j < r ==> s[j] != x
  {
    if s == [] then -1
    else if s[0] == x then 0
    else
      var r := IndexOf(s[1..], x);
      if r == -1 then -1 else r + 1
  }

  /** `question.meanings.indexOf(question.meanings[question.words.indexOf(word)])`:
      the position, in the question's ORIGINAL meaning list, of the first
      occurrence of the word's meaning. An unknown word, or one without a
      meaning, gives -1 (`undefined` is never found). */
  function CorrectMeaningIndex(questionWords: seq<string>, questionMeanings: seq<string>, word: string): (r: int)
    ensures r == -1 <==> !(word in questionWords && IndexOf(questionWords, word) < |questionMeanings|)
    ensures r != -1 ==>
      var meaning := questionMeanings[IndexOf(questionWords, word)];
      && 0 <= r <= IndexOf(questionWords, word)
      && questionMeanings[r] == meaning
      && forall j :: 0 <= j < r ==> questionMeanings[j] != meaning
  {
    var wi := IndexOf(questionWords, word);
    if 0 <= wi < |questionMeanings| then IndexOf(questionMeanings, questionMeanings[wi]) else -1
  }

  /** With distinct meanings, a drop is judged correct exactly at the
      word's own position in the question: the judgment is by position. */
  lemma CorrectIndexIsWordPosition(questionWords: seq<string>, questionMeanings: seq<string>, word: string)
    requires forall a, b :: 0 <= a < b < |questionMeanings| ==> questionMeanings[a] != questionMeanings[b]
    requires word in questionWords && IndexOf(questionWords, word) < |questionMeanings|
    ensures CorrectMeaningIndex(questionWords, questionMeanings, word) == IndexOf(questionWords, word)
  {
  }

  /** The word-side item `word-i` or the meaning-side item `meaning-j`. */
  datatype ItemId = WordItem(index: nat) | MeaningItem(index: nat)

  /** A finished drag: the dragged item and the item it was dropped on, if any. */
  datatype DragEndEvent = DragEndEvent(active: ItemId, over: Option<ItemId>)

  /** Only a word dropped onto a meaning is judged. */
  predicate IsPairingDrop(event: DragEndEvent)
  {
    event.active.WordItem? && event.over.Some? && event.over.value.MeaningItem?
  }

  /** A `matchedPairs` entry. */
  datatype Pairing = Pairing(meaning: string, isCorrect: bool, meaningIndex: nat)

  /** `Object.values(matchedPairs).every(pair => pair.isCorrect)`. */
  predicate AllCorrect(pairs: map<string, Pairing>)
    ensures AllCorrect(pairs) <==> forall p :: p in pairs.Values ==> p.isCorrect
  {
    forall w :: w in pairs ==> pairs[w].isCorrect
  }

  /** `prev.filter((_, i) => i !== index)` for an index in range. */
  function RemoveAt<T>(s: seq<T>, index: nat): (r: seq<T>)
    requires index < |s|
    ensures |r| == |s| - 1
    ensures forall k :: 0 <= k < index ==> r[k] == s[k]
    ensures forall k :: index <= k < |r| ==> r[k] == s[k + 1]
  {
    s[..index] + s[index + 1..]
  }

  /** Removing a position takes out exactly that one element. */
  lemma RemoveAtMultiset<T>(s: seq<T>, index: nat)
    requires index < |s|
    ensures multiset(RemoveAt(s, index)) == multiset(s) - multiset{s[index]}
    ensures forall x :: x in s && x != s[index] ==> x in RemoveAt(s, index)
  {
    assert s == s[..index] + [s[index]] + s[index + 1..];
  }

  // ---------------------------------------------------------------------
  // The component state

  /** The pools only lose items of the question; they shrink together; a
      word that has left its pool was last judged correct; a scheduled
      removal is of a correctly judged pair still in the pools; a
      completed round has empty pools and some judgment. */
  ghost predicate Consistent(question: Question, words: seq<string>, meanings: seq<string>,
                             pairs: map<string, Pairing>, isComplete: bool, pending: Option<(nat, nat)>)
  {
    && question.MatchQuestion?
    && |words| - |meanings| == |question.words| - |question.meanings|
    && multiset(words) <= multiset(question.words)
    && multiset(meanings) <= multiset(question.meanings)
    && (forall w :: w in pairs && w !in words ==> pairs[w].isCorrect)
    && (pending.Some? ==>
          && pending.value.0 < |words|
          && pending.value.1 < |meanings|
          && pending.value.1 == CorrectMeaningIndex(question.words, question.meanings, words[pending.value.0])
          && words[pending.value.0] in pairs
          && pairs[words[pending.value.0]].isCorrect)
    && (isComplete ==> words == [] && meanings == [] && |pairs| > 0)
  }

  /** A word still in the pool whose correct position lies beyond the
      meaning pool: no drop of it can be judged correct. */
  predicate Stranded(question: Question, words: seq<string>, meanings: seq<string>, w: string)
  {
    question.MatchQuestion? && w in words && CorrectMeaningIndex(question.words, question.meanings, w) >= |meanings|
  }

  /** Removing a scheduled pair keeps the state consistent, and a stranded
      word stays stranded: it is not the removed word, and the meaning
      pool only shrinks. */
  lemma RemovalKeepsConsistent(question: Question, words: seq<string>, meanings: seq<string>,
                               pairs: map<string, Pairing>, isComplete: bool, i: nat, j: nat)
    requires Consistent(question, words, meanings, pairs, isComplete, Some((i, j)))
    ensures Consistent(question, RemoveAt(words, i), RemoveAt(meanings, j), pairs, isComplete, None)
    ensures forall w :: Stranded(question, words, meanings, w) ==> Stranded(question, RemoveAt(words, i), RemoveAt(meanings, j), w)
  {
    var removed := words[i];
    var ws := RemoveAt(words, i);
    var ms := RemoveAt(meanings, j);
    RemoveAtMultiset(words, i);
    RemoveAtMultiset(meanings, j);
    assert multiset(ws) <= multiset(words);
    assert multiset(ms) <= multiset(meanings);
    assert forall w :: w in pairs && w !in ws ==> pairs[w].isCorrect by {
      assert forall w :: w in words && w !in ws ==> w == removed;
    }
    forall w | Stranded(question, words, meanings, w)
      ensures Stranded(question, ws, ms, w)
    {
      assert w != removed;
    }
  }

  class WordMatchGame {
    const question: Question
    var words: seq<string>
    var meanings: seq<string>
    var matchedPairs: map<string, Pairing>
    var isComplete: bool
    /** The (wordIndex, meaningIndex) a correct drop has scheduled for removal. */
    var pendingRemoval: Option<(nat, nat)>

    ghost predicate Valid()
      reads this
    {
      Consistent(question, words, meanings, matchedPairs, isComplete, pendingRemoval)
    }

    /** The ids that are on screen. */
    predicate Rendered(id: ItemId)
      reads this
    {
      match id
      case WordItem(i) => i < |words|
      case MeaningItem(j) => j < |meanings|
    }

    /** A word of the pool that no drop can match. */
    predicate Unmatchable(w: string)
      reads this
    {
      Stranded(question, words, meanings, w)
    }

    /** Mounting with `question`: both pools shuffled independently. */
    constructor (question: Question, wordOrder: seq<nat>, meaningOrder: seq<nat>)
      requires question.MatchQuestion?
      requires IsPermutation(wordOrder, |question.words|)
      requires IsPermutation(meaningOrder, |question.meanings|)
      ensures Valid() && this.question == question
      ensures words == Permute(question.words, wordOrder)
      ensures meanings == Permute(question.meanings, meaningOrder)
      ensures multiset(words) == multiset(question.words)
      ensures multiset(meanings) == multiset(question.meanings)
      ensures matchedPairs == map[] && !isComplete && pendingRemoval.None?
    {
      this.question := question;
      words := Permute(question.words, wordOrder);
      meanings := Permute(question.meanings, meaningOrder);
      matchedPairs := map[];
      isComplete := false;
      pendingRemoval := None;
      PermuteKeepsMultiset(question.words, wordOrder);
      PermuteKeepsMultiset(question.meanings, meaningOrder);
    }

    /** `handleDragEnd`: a word dropped on a meaning is judged by position
        and recorded for that word, replacing any earlier entry; a correct
        pair is scheduled for removal. Any other drop changes nothing. */
    method HandleDragEnd(event: DragEndEvent)
      requires Valid() && pendingRemoval.None?
      requires Rendered(event.active) && (event.over.Some? ==> Rendered(event.over.value))
      modifies this
      ensures Valid()
      ensures !IsPairingDrop(event) ==> unchanged(this)
      ensures IsPairingDrop(event) ==>
        var i := event.active.index;
        var j := event.over.value.index;
        var word := old(words)[i];
        var correct := j == CorrectMeaningIndex(question.words, question.meanings, word);
        && matchedPairs == old(matchedPairs)[word := Pairing(old(meanings)[j], correct, j)]
        && words == old(words) && meanings == old(meanings) && isComplete == old(isComplete)
        && pendingRemoval == (if correct then Some((i, j)) else None)
      ensures forall w :: old(Unmatchable(w)) ==> Unmatchable(w)
    {
      if event.over.None? {
        return;
      }
      if event.active.WordItem? && event.over.value.MeaningItem? {
        var wordIndex := event.active.index;
        var meaningIndex := event.over.value.index;
        var word := words[wordIndex];
        var meaning := meanings[meaningIndex];
        var correctMeaningIndex := CorrectMeaningIndex(question.words, question.meanings, word);
        var isCorrect := meaningIndex == correctMeaningIndex;
        matchedPairs := matchedPairs[word := Pairing(meaning, isCorrect, meaningIndex)];
        if isCorrect {
          pendingRemoval := Some((wordIndex, meaningIndex));
        }
      }
    }

    /** The delayed removal after a correct drop: exactly the two judged
        positions leave their pools; the rest keep their order. */
    method RemovePair()
      requires Valid() && pendingRemoval.Some?
      modifies this
      ensures Valid()
      ensures words == RemoveAt(old(words), old(pendingRemoval).value.0)
      ensures meanings == RemoveAt(old(meanings), old(pendingRemoval).value.1)
      ensures matchedPairs == old(matchedPairs) && isComplete == old(isComplete)
      ensures pendingRemoval.None?
      ensures forall w :: old(Unmatchable(w)) ==> Unmatchable(w)
    {
      var (wordIndex, meaningIndex) := pendingRemoval.value;
      RemovalKeepsConsistent(question, words, meanings, matchedPairs, isComplete, wordIndex, meaningIndex);
      words := RemoveAt(words, wordIndex);
      meanings := RemoveAt(meanings, meaningIndex);
      pendingRemoval := None;
    }

    /** The completion effect: once both pools are empty and some drop was
        judged, the round is complete and reports whether every recorded
        judgment is correct. While a word is unmatchable it never fires,
        and when it fires the report is always "all correct". */
    method CheckCompletion() returns (outcome: Option<bool>)
      requires Valid()
      modifies this`isComplete
      ensures Valid()
      ensures outcome.Some? <==> words == [] && meanings == [] && |matchedPairs| > 0
      ensures outcome.Some? ==> isComplete && outcome.value == AllCorrect(matchedPairs)
      ensures outcome.None? ==> isComplete == old(isComplete)
      ensures outcome.Some? ==> outcome.value
      ensures (exists w :: Unmatchable(w)) ==> outcome.None?
    {
      if words == [] && meanings == [] && |matchedPairs| > 0 {
        var allCorrect := AllCorrect(matchedPairs);
        isComplete := true;
        outcome := Some(allCorrect);
      } else {
        outcome := None;
      }
    }
  }

  // ---------------------------------------------------------------------
  // The positional judgment can strand a word

  /** Words ["cat", "dog"] with meanings ["feline", "canine"], and the
      meaning pool shuffled to ["canine", "feline"]. Dropping "cat" on
      pool position 0 is judged correct although that item reads "canine";
      removing the pair leaves ["feline"], and "dog", whose correct
      position is 1, can then never be judged correct, so the round never
      completes. */
  lemma PositionalJudgementStrandsWord()
    ensures var qw := ["cat", "dog"];
      var qm := ["feline", "canine"];
      var pool := Permute(qm, [1, 0]);
      && IsPermutation([1, 0], 2)
      && pool == ["canine", "feline"]
      && CorrectMeaningIndex(qw, qm, "cat") == 0
      && pool[0] != qm[0]
      && RemoveAt(pool, 0) == ["feline"]
      && CorrectMeaningIndex(qw, qm, "dog") >= |RemoveAt(pool, 0)|
  {
    var qw := ["cat", "dog"];
    var qm := ["feline", "canine"];
    assert multiset([1, 0]) == multiset(Range(2)) by {
      assert Range(2) == [0, 1];
    }
    assert IndexOf(qw, "cat") == 0;
    assert IndexOf(qm, "feline") == 0;
    assert IndexOf(qw[1..], "dog") == 0;
    assert IndexOf(qw, "dog") == 1;
    assert IndexOf(qm[1..], "canine") == 0;
    assert IndexOf(qm, "canine") == 1;
  }

  /** No shuffle is needed: with the meaning pool in its original order,
      dropping "cat" on its own meaning at position 0 is right and judged
      correct, the pool shrinks to ["canine"], and "dog" still needs
      position 1. A round finishes only if each drop lands on the word's
      original index, which in practice means matching from the highest
      original index down. */
  lemma PositionalJudgementStrandsUnshuffled()
    ensures var qw := ["cat", "dog"];
      var qm := ["feline", "canine"];
      var pool := Permute(qm, [0, 1]);
      && IsPermutation([0, 1], 2)
      && pool == qm
      && CorrectMeaningIndex(qw, qm, "cat") == 0
      && IsCorrectDropByValue(qw, qm, "cat", pool[0])
      && RemoveAt(pool, 0) == ["canine"]
      && Stranded(MatchQuestion("animals", qw, qm), ["dog"], RemoveAt(pool, 0), "dog")
  {
    var qw := ["cat", "dog"];
    var qm := ["feline", "canine"];
    assert multiset([0, 1]) == multiset(Range(2)) by {
      assert Range(2) == [0, 1];
    }
    assert IndexOf(qw, "cat") == 0;
    assert IndexOf(qm, "feline") == 0;
    assert IndexOf(qw[1..], "dog") == 0;
    assert IndexOf(qw, "dog") == 1;
    assert IndexOf(qm[1..], "canine") == 0;
    assert IndexOf(qm, "canine") == 1;
  }

  // ---------------------------------------------------------------------
  // Judging by value, as intended

  /** The dropped meaning is the word's own meaning. */
  predicate IsCorrectDropByValue(questionWords: seq<string>, questionMeanings: seq<string>, word: string, meaning: string)
  {
    var wi := IndexOf(questionWords, word);
    0 <= wi < |questionMeanings| && questionMeanings[wi] == meaning
  }

  /** The positional judgment agrees with the value judgment when the
      meanings are distinct and read in their original, unshuffled order. */
  lemma PositionalIsValueInOriginalOrder(questionWords: seq<string>, questionMeanings: seq<string>, word: string, j: nat)
    requires forall a, b :: 0 <= a < b < |questionMeanings| ==> questionMeanings[a] != questionMeanings[b]
    requires j < |questionMeanings|
    ensures (j == CorrectMeaningIndex(questionWords, questionMeanings, word))
      <==> IsCorrectDropByValue(questionWords, questionMeanings, word, questionMeanings[j])
  {
  }

  /** Every word in `ws` has a meaning in the question. */
  predicate Known(questionWords: seq<string>, questionMeanings: seq<string>, ws: seq<string>)
  {
    forall k :: 0 <= k < |ws| ==> 0 <= IndexOf(questionWords, ws[k]) < |questionMeanings|
  }

  /** The meaning of each word of `ws`, in pool order. */
  function TrueMeanings(questionWords: seq<string>, questionMeanings: seq<string>, ws: seq<string>): seq<string>
    requires Known(questionWords, questionMeanings, ws)
  {
    seq(|ws|, k requires 0 <= k < |ws| => questionMeanings[IndexOf(questionWords, ws[k])])
  }

  /** The meaning pool holds exactly the meanings of the word pool. */
  predicate Aligned(questionWords: seq<string>, questionMeanings: seq<string>, ws: seq<string>, ms: seq<string>)
  {
    Known(questionWords, questionMeanings, ws)
    && multiset(TrueMeanings(questionWords, questionMeanings, ws)) == multiset(ms)
  }

  /** Freshly shuffled pools of a question with distinct words, one meaning
      per word, are aligned. */
  lemma InitialPoolsAligned(questionWords: seq<string>, questionMeanings: seq<string>, wordOrder: seq<nat>, meaningOrder: seq<nat>)
    requires |questionWords| == |questionMeanings|
    requires forall a, b :: 0 <= a < b < |questionWords| ==> questionWords[a] != questionWords[b]
    requires IsPermutation(wordOrder, |questionWords|) && IsPermutation(meaningOrder, |questionMeanings|)
    ensures Aligned(questionWords, questionMeanings, Permute(questionWords, wordOrder), Permute(questionMeanings, meaningOrder))
  {
    var ws := Permute(questionWords, wordOrder);
    forall k | 0 <= k < |ws|
      ensures IndexOf(questionWords, ws[k]) == wordOrder[k]
    {
    }
    assert TrueMeanings(questionWords, questionMeanings, ws) == Permute(questionMeanings, wordOrder);
    PermuteKeepsMultiset(questionMeanings, wordOrder);
    PermuteKeepsMultiset(questionMeanings, meaningOrder);
  }

  /** Judged by value, every word left in an aligned pool has a meaning in
      the meaning pool that is judged correct for it. */
  lemma ValueJudgementProgress(questionWords: seq<string>, questionMeanings: seq<string>, ws: seq<string>, ms: seq<string>, i: nat)
    requires Aligned(questionWords, questionMeanings, ws, ms) && i < |ws|
    ensures exists j :: 0 <= j < |ms| && IsCorrectDropByValue(questionWords, questionMeanings, ws[i], ms[j])
  {
    var t := TrueMeanings(questionWords, questionMeanings, ws);
    assert t[i] in multiset(ms);
    var j :| 0 <= j < |ms| && ms[j] == t[i];
  }

  /** Removing a pair judged correct by value keeps the pools aligned. */
  lemma ValueJudgementKeepsAligned(questionWords: seq<string>, questionMeanings: seq<string>, ws: seq<string>, ms: seq<string>, i: nat, j: nat)
    requires Aligned(questionWords, questionMeanings, ws, ms) && i < |ws| && j < |ms|
    requires IsCorrectDropByValue(questionWords, questionMeanings, ws[i], ms[j])
    ensures Aligned(questionWords, questionMeanings, RemoveAt(ws, i), RemoveAt(ms, j))
  {
    var t := TrueMeanings(questionWords, questionMeanings, ws);
    var ws' := RemoveAt(ws, i);
    assert TrueMeanings(questionWords, questionMeanings, ws') == RemoveAt(t, i);
    RemoveAtMultiset(t, i);
    RemoveAtMultiset(ms, j);
  }

  /** Aligned pools have the same size, so a round judged by value empties
      both pools after exactly one correct drop per word. */
  lemma AlignedPoolsSameSize(questionWords: seq<string>, questionMeanings: seq<string>, ws: seq<string>, ms: seq<string>)
    requires Aligned(questionWords, questionMeanings, ws, ms)
    ensures |ws| == |ms|
  {
    assert |multiset(TrueMeanings(questionWords, questionMeanings, ws))| == |ws|;
  }
}
