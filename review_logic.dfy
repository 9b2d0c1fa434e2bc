/** The pure helpers of the review screen: pagination, progress, scoring and
    the answer options offered for a card. Each takes the parts of the screen
    state it reads as parameters. */
module ReviewLogic {
  import opened Wrappers
  import opened Collections

  /** Cards per page. */
  const PageSize: nat := 12
  /** The two options of a self-graded deck. */
  const SelfGradeCorrect: string := "I was right"
  const SelfGradeIncorrect: string := "I was wrong"

  datatype Card = Card(id: int, front: string, back: string)

  /** A deck as far as the screen reads it: its id and its review mode. The
      empty deck `{}` the screen starts with is `Deck("", "")`. */
  datatype Deck = Deck(id: string, deckType: string)

  const NoDeck: Deck := Deck("", "")

  predicate IsSelfGraded(d: Deck) { d.deckType == "Self graded" }
  predicate IsMultiple(d: Deck) { d.deckType == "Multiple select" }
  predicate IsReversible(d: Deck) { d.deckType == "Reversible select" }

  /** One answer option, or a selected answer:
      - `Label`: a plain string, the self-graded options;
      - `Entry`: the `{ id, back }` records of a multiple-select deck;
      - `Face`: a whole card, the options of every other deck;
      - `Missing`: what `cards[p]` yields when `p` is past the end. */
  datatype Answer = Label(text: string) | Entry(id: int, back: string) | Face(card: Card) | Missing

  /** `option.id`, when the option has one. */
  function AnswerId(a: Answer): Option<int>
  {
    match a
    case Entry(id, _) => Some(id)
    case Face(c) => Some(c.id)
    case _ => None
  }

  /** `option.back`, when the option has one. */
  function AnswerBack(a: Answer): Option<string>
  {
    match a
    case Entry(_, back) => Some(back)
    case Face(c) => Some(c.back)
    case _ => None
  }

  // ---------------------------------------------------------------------
  // Pagination

  /** First position of page `page`. */
  function PageStart(page: nat): (r: nat)
    ensures r % PageSize == 0 && r / PageSize == page
  {
    page * PageSize
  }

  /** One past the last position of page `page` in a deck of `n` cards. */
  function PageEnd(page: nat, n: nat): (r: nat)
    ensures r <= n && r <= PageStart(page) + PageSize
    ensures r == n || r == PageStart(page) + PageSize
  {
    Min((page + 1) * PageSize, n)
  }

  /** Pages tile the deck: each ends where the next begins (or at the end of
      the deck), holds at most `PageSize` cards, and never ends past the deck. */
  lemma PagesTile(page: nat, n: nat)
    ensures PageEnd(page, n) <= n
    ensures PageEnd(page, n) == Min(PageStart(page + 1), n)
    ensures PageStart(page) <= n ==> PageStart(page) <= PageEnd(page, n) <= PageStart(page) + PageSize
    ensures PageEnd(page, n) <= PageEnd(page + 1, n)
  {
  }

  /** `index || this.state.index`: an argument of 0 (or none) stands for the
      current index. */
  function Effective(i: nat, index: nat): nat
  {
    if i == 0 then index else i
  }

  /** `isFinished(i)`: the (effective) index has reached the end of the page. */
  predicate IsFinished(i: nat, index: nat, page: nat, n: nat)
    ensures IsFinished(i, index, page, n) <==> Effective(i, index) >= PageEnd(page, n)
  {
    Effective(i, index) >= Min(PageEnd(page, n), n)
  }

  /** An explicit index is judged by itself, and 0 by the current index. */
  lemma FinishedAtPageEnd(i: nat, index: nat, page: nat, n: nat)
    ensures i != 0 ==> (IsFinished(i, index, page, n) <==> i >= PageEnd(page, n))
    ensures i == 0 ==> (IsFinished(i, index, page, n) <==> index >= PageEnd(page, n))
  {
  }

  /** A session that stopped at the end of a page before the end of the deck
      can go on: on the next page it is no longer finished. */
  lemma KeepGoingResumes(index: nat, page: nat, n: nat)
    requires index <= PageEnd(page, n)
    requires IsFinished(0, index, page, n)
    requires index < n
    ensures !IsFinished(0, index, page + 1, n)
  {
  }

  /** Once the whole deck has been seen, every page is finished. */
  lemma DeckEndFinishesEveryPage(page: nat, n: nat)
    ensures IsFinished(0, n, page, n)
  {
  }

  // ---------------------------------------------------------------------
  // Progress and results

  /** `getProgress(i)`: the effective index as a percentage of the deck,
      rounded to the nearest integer with halves rounded up, as `Math.round`
      does. */
  function Progress(i: nat, index: nat, n: nat): (r: int)
    requires n > 0
    ensures n * (2 * r - 1) <= 200 * Effective(i, index) < n * (2 * r + 1)
  {
    var e := Effective(i, index);
    var q := (200 * e + n) / (2 * n);
    assert 2 * n * q <= 200 * e + n < 2 * n * q + 2 * n;
    q
  }

  /** Multiplying by a positive number keeps the order. */
  lemma ScaleLe(n: int, a: int, b: int)
    requires n > 0 && a <= b
    ensures n * a <= n * b
  {
  }

  /** Progress through a deck that has not been overrun lies between 0 and
      100; it is 100 exactly at the end of the deck. */
  lemma ProgressBounds(i: nat, index: nat, n: nat)
    requires n > 0
    requires Effective(i, index) <= n
    ensures 0 <= Progress(i, index, n) <= 100
    ensures Effective(i, index) == n ==> Progress(i, index, n) == 100
  {
    var e, r := Effective(i, index), Progress(i, index, n);
    if r < 0 {
      ScaleLe(n, 2 * r + 1, 0);
    }
    if r > 100 {
      ScaleLe(n, 201, 2 * r - 1);
      ScaleLe(n, e, n);
    }
    if e == n && r < 100 {
      ScaleLe(n, 2 * r + 1, 199);
    }
  }

  /** Progress never falls as the effective index grows. */
  lemma ProgressMonotone(a: nat, b: nat, index: nat, n: nat)
    requires n > 0
    requires Effective(a, index) <= Effective(b, index)
    ensures Progress(a, index, n) <= Progress(b, index, n)
  {
    var ra, rb := Progress(a, index, n), Progress(b, index, n);
    if ra > rb {
      ScaleLe(n, 2 * rb + 1, 2 * ra - 1);
    }
  }

  /** The quirk of `index || this.state.index`: asking for the progress at
      index 0 reports the progress at the current index instead. */
  lemma ExplicitZeroMeansCurrent(index: nat, n: nat)
    requires n > 0
    ensures Progress(0, index, n) == Progress(index, index, n)
  {
  }

  /** For example, halfway through a 12-card deck, the progress at 0 is 50. */
  lemma ExplicitZeroExample()
    ensures Progress(0, 6, 12) == 50
  {
  }

  /** A labelled value of a chart. */
  datatype Datum = Datum(name: string, value: int)

  function Results(numCorrect: int, numIncorrect: int): (r: seq<Datum>)
    ensures |r| == 2 && r[0].name == "Correct" && r[1].name == "Incorrect"
    ensures r[0].value == numCorrect && r[1].value == numIncorrect
  {
    [Datum("Correct", numCorrect), Datum("Incorrect", numIncorrect)]
  }

  function ProgressData(index: nat, n: nat): (r: seq<Datum>)
    ensures |r| == 2 && r[0].name == "Seen" && r[1].name == "New"
    ensures r[0].value == index && r[0].value + r[1].value == n
  {
    [Datum("Seen", index), Datum("New", n - index)]
  }

  // ---------------------------------------------------------------------
  // Answer options

  /** What `chance` supplies to `getOptions`: `random` is the result of
      `chance.unique(chance.natural, ...)`, and `picks` drives the shuffle. */
  datatype Draw = Draw(random: seq<nat>, picks: seq<nat>)

  /** What `chance.unique` promises: `min(3, n)` distinct naturals between 0
      and `n - 1`. */
  ghost predicate FairDraw(d: Draw, n: nat)
  {
    && |d.random| == Min(3, n)
    && Distinct(d.random)
    && forall x :: x in d.random ==> x < n
  }

  /** `chance.shuffle`: at each step one of the remaining elements is chosen
      (the pick, reduced modulo the number left) and moved to the output.
      Every permutation arises from some sequence of picks. */
  function Shuffle<T>(s: seq<T>, picks: seq<nat>): (r: seq<T>)
    ensures multiset(r) == multiset(s)
    ensures |r| == |s|
  {
    if s == [] then []
    else
      var j := (if picks == [] then 0 else picks[0]) % |s|;
      var rest := s[..j] + s[j + 1..];
      assert s == s[..j] + [s[j]] + s[j + 1..];
      [s[j]] + Shuffle(rest, if picks == [] then [] else picks[1..])
  }

  /** Removing the element at position `j` removes one occurrence of it. */
  lemma RemoveAt<T>(s: seq<T>, j: nat)
    requires j < |s|
    ensures multiset(s[..j] + s[j + 1..]) == multiset(s) - multiset{s[j]}
  {
    assert s == s[..j] + [s[j]] + s[j + 1..];
  }

  lemma SmallRemainder(j: nat, n: nat)
    requires j < n
    ensures j % n == j
  {
  }

  /** A shuffle whose first pick is `j` starts with `s[j]` and shuffles the
      rest with the remaining picks. */
  lemma ShuffleFirstPick<T>(s: seq<T>, j: nat, tail: seq<nat>)
    requires j < |s|
    ensures Shuffle(s, [j] + tail) == [s[j]] + Shuffle(s[..j] + s[j + 1..], tail)
  {
    var picks := [j] + tail;
    assert picks != [] && picks[0] == j && picks[1..] == tail;
    SmallRemainder(j, |s|);
  }

  /** The first element of a permutation of `s` occurs in `s`, and the
      rest is a permutation of what remains of `s` without it. */
  lemma FirstOfPermutation<T>(s: seq<T>, r: seq<T>) returns (j: nat)
    requires multiset(r) == multiset(s) && s != []
    ensures j < |s| && r != [] && s[j] == r[0]
    ensures multiset(r[1..]) == multiset(s[..j] + s[j + 1..])
  {
    assert r != [] by {
      assert |r| == |multiset(r)| == |multiset(s)| == |s|;
    }
    assert r[0] in s by {
      assert r[0] in r;
      assert r[0] in multiset(s);
    }
    j :| 0 <= j < |s| && s[j] == r[0];
    assert multiset(r[1..]) == multiset(s[..j] + s[j + 1..]) by {
      RemoveAt(s, j);
      RemoveAt(r, 0);
      assert r[..0] + r[1..] == r[1..];
    }
  }

  /** Every permutation of `s` is the outcome of some sequence of picks. */
  lemma {:induction false} ShuffleReachesEveryPermutation<T>(s: seq<T>, r: seq<T>) returns (picks: seq<nat>)
    requires multiset(r) == multiset(s)
    ensures Shuffle(s, picks) == r
    decreases |s|
  {
    if s == [] {
      assert |r| == |multiset(r)| == 0;
      picks := [];
    } else {
      var j := FirstOfPermutation(s, r);
      var tail := ShuffleReachesEveryPermutation(s[..j] + s[j + 1..], r[1..]);
      picks := [j] + tail;
      ShuffleFirstPick(s, j, tail);
      assert r == [r[0]] + r[1..];
    }
  }

  /** `cards[p]`, which is `undefined` past the end of the deck. */
  function At(cards: seq<Card>, p: nat): Answer
  {
    if p < |cards| then Face(cards[p]) else Missing
  }

  /** The values in the order of their first occurrence, numbered from 0. */
  function Numbered(backs: seq<string>): (r: seq<Answer>)
    ensures |r| == |backs|
    ensures forall i :: 0 <= i < |r| ==> r[i] == Entry(i, backs[i])
  {
    seq(|backs|, i requires 0 <= i < |backs| => Entry(i, backs[i]))
  }

  function Backs(cards: seq<Card>): (r: seq<string>)
    ensures |r| == |cards|
    ensures forall i :: 0 <= i < |cards| ==> r[i] == cards[i].back
  {
    seq(|cards|, i requires 0 <= i < |cards| => cards[i].back)
  }

  /** The options of a multiple-select deck: its distinct backs, numbered. */
  function MultipleChoices(cards: seq<Card>): seq<Answer>
  {
    Numbered(Dedup(Backs(cards)))
  }

  /** Positions of the cards offered in a deck that is neither self-graded nor
      multiple-select: the random positions plus the current one, without
      repeats, shuffled. */
  function DefaultPositions(index: nat, draw: Draw): seq<nat>
  {
    Shuffle(Dedup(draw.random + [index]), draw.picks)
  }

  /** The options of any other deck: the cards at those positions. */
  function CardChoices(index: nat, cards: seq<Card>, draw: Draw): seq<Answer>
  {
    var positions := DefaultPositions(index, draw);
    seq(|positions|, k requires 0 <= k < |positions| => At(cards, positions[k]))
  }

  /** `getOptions(index, cards)`. */
  function GetOptions(deck: Deck, index: nat, cards: seq<Card>, draw: Draw): (r: seq<Answer>)
    ensures IsSelfGraded(deck) ==> |r| == 2
    ensures !IsSelfGraded(deck) && IsMultiple(deck) ==> |r| <= |cards|
    ensures !IsSelfGraded(deck) && !IsMultiple(deck) ==> 1 <= |r| <= |draw.random| + 1
  {
    if IsSelfGraded(deck) then
      [Label(SelfGradeCorrect), Label(SelfGradeIncorrect)]
    else if IsMultiple(deck) then
      MultipleChoices(cards)
    else
      DedupSpec(draw.random + [index]);
      assert index in draw.random + [index];
      CardChoices(index, cards, draw)
  }

  /** A self-graded deck always offers exactly the two self-grading labels. */
  lemma SelfGradedOptions(deck: Deck, index: nat, cards: seq<Card>, draw: Draw)
    requires IsSelfGraded(deck)
    ensures GetOptions(deck, index, cards, draw) == [Label(SelfGradeCorrect), Label(SelfGradeIncorrect)]
  {
  }

  /** The distinct backs of a deck are exactly the backs of its cards. */
  lemma DistinctBacks(cards: seq<Card>)
    ensures forall c :: c in cards ==> c.back in Dedup(Backs(cards))
    ensures forall x :: x in Dedup(Backs(cards)) ==> exists c :: c in cards && c.back == x
  {
    var backs := Backs(cards);
    DedupSpec(backs);
    forall c | c in cards ensures c.back in Dedup(backs) {
      var p :| 0 <= p < |cards| && cards[p] == c;
      assert backs[p] == c.back;
    }
    forall x | x in Dedup(backs) ensures exists c :: c in cards && c.back == x {
      var p :| 0 <= p < |backs| && backs[p] == x;
      assert cards[p] in cards;
    }
  }

  /** A multiple-select deck offers each back once, numbered 0, 1, 2, ...,
      in the order in which the backs first occur among the cards. */
  lemma MultipleOptions(cards: seq<Card>)
    ensures var r := MultipleChoices(cards);
      && |r| <= |cards|
      && (forall k :: 0 <= k < |r| ==> r[k].Entry? && r[k].id == k)
      && (forall k, l :: 0 <= k < l < |r| ==> r[k].back != r[l].back)
      && (forall k :: 0 <= k < |r| ==> r[k].back in Backs(cards))
      && (forall k, l :: 0 <= k < l < |r| ==>
            FirstIndex(Backs(cards), r[k].back) < FirstIndex(Backs(cards), r[l].back))
  {
    var backs := Backs(cards);
    var d := Dedup(backs);
    var r := MultipleChoices(cards);
    assert forall k :: 0 <= k < |r| ==> r[k] == Entry(k, d[k]);
    DedupSpec(backs);
    DedupOrder(backs);
  }

  /** A multiple-select deck offers the back of every card, and nothing
      else. */
  lemma MultipleOptionsCover(cards: seq<Card>)
    ensures var r := MultipleChoices(cards);
      && (forall c :: c in cards ==> exists k :: 0 <= k < |r| && r[k].back == c.back)
      && (forall k :: 0 <= k < |r| ==> exists c :: c in cards && c.back == r[k].back)
  {
    var d := Dedup(Backs(cards));
    var r := MultipleChoices(cards);
    DistinctBacks(cards);
    forall c | c in cards ensures exists k :: 0 <= k < |r| && r[k].back == c.back {
      var k :| 0 <= k < |d| && d[k] == c.back;
      assert r[k].back == c.back;
    }
    forall k | 0 <= k < |r| ensures exists c :: c in cards && c.back == r[k].back {
      assert d[k] in d;
    }
  }

  /** Any other deck offers the cards at the drawn positions and at the
      current one, each position once: `min(3, n)` cards, plus the current
      card when it was not drawn. Every position but the current one lies in
      the deck. */
  lemma DefaultOptions(index: nat, cards: seq<Card>, draw: Draw)
    requires FairDraw(draw, |cards|)
    ensures var r := CardChoices(index, cards, draw);
      var ps := DefaultPositions(index, draw);
      && |r| == |ps| <= 4
      && |ps| == Min(3, |cards|) + (if index in draw.random then 0 else 1)
      && (forall k :: 0 <= k < |r| ==> r[k] == At(cards, ps[k]))
      && Distinct(ps)
      && (forall p :: p in ps <==> p in draw.random || p == index)
      && (forall p :: p in ps ==> p == index || p < |cards|)
  {
    var u := Dedup(draw.random + [index]);
    var ps := DefaultPositions(index, draw);
    DedupSpec(draw.random + [index]);
    DedupAppendDistinct(draw.random, index);
    PermutationOfDistinct(ps, u);
  }

  /** `isCorrect(option, card)`. */
  predicate IsCorrect(deck: Deck, option: Answer, card: Card)
    ensures option == Face(card) ==> IsCorrect(deck, option, card)
    ensures IsSelfGraded(deck) ==> IsCorrect(deck, option, card)
    ensures IsMultiple(deck) && option.Entry? ==> (IsCorrect(deck, option, card) <==> option.back == card.back)
    ensures IsMultiple(deck) && option.Face? ==> (IsCorrect(deck, option, card) <==> option.card.back == card.back)
    ensures !IsSelfGraded(deck) && !IsMultiple(deck) && option.Face? ==>
              (IsCorrect(deck, option, card) <==> option.card.id == card.id)
    ensures !IsSelfGraded(deck) && !IsMultiple(deck) && option.Entry? ==>
              (IsCorrect(deck, option, card) <==> option.id == card.id)
    ensures !IsSelfGraded(deck) && (option.Label? || option.Missing?) ==> !IsCorrect(deck, option, card)
  {
    if IsMultiple(deck) then AnswerBack(option) == Some(card.back)
    else AnswerId(option) == Some(card.id) || IsSelfGraded(deck)
  }

  /** When the cards of a deck have distinct ids, a deck that is neither
      self-graded nor multiple-select has exactly one correct option for the
      current card: the card itself. */
  lemma OnlyCurrentCardCorrect(deck: Deck, index: nat, cards: seq<Card>, draw: Draw)
    requires !IsSelfGraded(deck) && !IsMultiple(deck)
    requires index < |cards|
    requires FairDraw(draw, |cards|)
    requires forall i, j :: 0 <= i < j < |cards| ==> cards[i].id != cards[j].id
    ensures var r := GetOptions(deck, index, cards, draw);
      && (forall k :: 0 <= k < |r| ==> (IsCorrect(deck, r[k], cards[index]) <==> r[k] == Face(cards[index])))
      && (forall k, l ::
            0 <= k < |r| && 0 <= l < |r| && IsCorrect(deck, r[k], cards[index]) && IsCorrect(deck, r[l], cards[index])
            ==> k == l)
  {
    var r := GetOptions(deck, index, cards, draw);
    var ps := DefaultPositions(index, draw);
    DefaultOptions(index, cards, draw);
    assert r == CardChoices(index, cards, draw);
    forall k | 0 <= k < |r|
      ensures IsCorrect(deck, r[k], cards[index]) <==> ps[k] == index
    {
      assert ps[k] in ps;
      assert r[k] == Face(cards[ps[k]]);
      if ps[k] != index {
        if ps[k] < index {
          assert cards[ps[k]].id != cards[index].id;
        } else {
          assert cards[index].id != cards[ps[k]].id;
        }
      }
    }
  }

  /** The multiple-select options include the back of the current card. */
  lemma MultipleOffersBack(index: nat, cards: seq<Card>)
    requires index < |cards|
    ensures var r := MultipleChoices(cards);
      exists k :: 0 <= k < |r| && AnswerBack(r[k]) == Some(cards[index].back)
  {
    var r := MultipleChoices(cards);
    MultipleOptions(cards);
    MultipleOptionsCover(cards);
    assert cards[index] in cards;
    var k :| 0 <= k < |r| && r[k].back == cards[index].back;
    assert AnswerBack(r[k]) == Some(cards[index].back);
  }

  /** The options of any other deck include the current card itself. */
  lemma DefaultOffersCard(index: nat, cards: seq<Card>, draw: Draw)
    requires index < |cards|
    requires FairDraw(draw, |cards|)
    ensures var r := CardChoices(index, cards, draw);
      exists k :: 0 <= k < |r| && r[k] == Face(cards[index])
  {
    DefaultOptions(index, cards, draw);
    var ps := DefaultPositions(index, draw);
    var k :| 0 <= k < |ps| && ps[k] == index;
    assert CardChoices(index, cards, draw)[k] == Face(cards[index]);
  }

  /** Whatever the deck, the options built for a card of the deck include a
      correct answer for it. */
  lemma CorrectOptionOffered(deck: Deck, index: nat, cards: seq<Card>, draw: Draw)
    requires index < |cards|
    requires FairDraw(draw, |cards|)
    ensures var r := GetOptions(deck, index, cards, draw);
      exists k :: 0 <= k < |r| && IsCorrect(deck, r[k], cards[index])
  {
    var r := GetOptions(deck, index, cards, draw);
    var card := cards[index];
    if IsSelfGraded(deck) {
      assert IsCorrect(deck, r[0], card);
    } else if IsMultiple(deck) {
      MultipleOffersBack(index, cards);
      var k :| 0 <= k < |r| && AnswerBack(r[k]) == Some(card.back);
      assert IsCorrect(deck, r[k], card);
    } else {
      DefaultOffersCard(index, cards, draw);
      var k :| 0 <= k < |r| && r[k] == Face(card);
      assert IsCorrect(deck, r[k], card);
    }
  }

  /** `isSelected(option)`: an option with a non-zero id is selected when the
      selection carries the same id; any other option when it is the
      selection itself. */
  predicate IsSelected(option: Answer, selected: Option<Answer>)
    ensures selected == Some(option) ==> IsSelected(option, selected)
    ensures selected == None ==> !IsSelected(option, selected)
    ensures (AnswerId(option).None? || AnswerId(option) == Some(0)) && IsSelected(option, selected) ==>
              selected == Some(option)
  {
    match AnswerId(option)
    case Some(id) =>
      if id != 0 then selected.Some? && AnswerId(selected.value) == Some(id)
      else selected == Some(option)
    case None => selected == Some(option)
  }

  /** Selection goes by id: an option shown as selected carries the id of
      the selected answer, and an option with a non-zero id is shown as
      selected whenever the selected answer has that id. So among options
      with distinct ids, at most one is shown as selected. */
  lemma SelectionById(option: Answer, other: Answer, chosen: Answer)
    ensures IsSelected(option, Some(chosen)) ==> AnswerId(option) == AnswerId(chosen)
    ensures AnswerId(option) == AnswerId(chosen) != Some(0) && AnswerId(option).Some? ==>
              IsSelected(option, Some(chosen))
    ensures IsSelected(option, Some(chosen)) && IsSelected(other, Some(chosen)) ==>
              AnswerId(option) == AnswerId(other)
  {
  }
}
