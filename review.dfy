/** The review screen's state and its event handlers. The handlers update the
    state in place; the pure helpers they use live in `ReviewLogic`.

    Randomness is passed in: `coin` is the result of `chance.bool()` and
    `draw` what `chance.unique` and `chance.shuffle` produce inside
    `getOptions`. A continuation the source schedules with `setTimeout`
    runs at the end of the handler that schedules it. */
module ReviewScreen {
  import opened Wrappers
  import opened Keys
  import opened ReviewLogic

  class Review {
    var deck: Deck
    var cards: seq<Card>
    var options: seq<Answer>
    var index: nat
    var isWrong: bool
    var isLoading: bool
    var isError: bool
    var isReversed: bool
    var isRevealed: bool
    var numCorrect: int
    var numIncorrect: int
    var selected: Option<Answer>
    var page: nat

    /** The session invariant: the index stays within the deck, no card is
        present while a fetch is pending, the counters are non-negative, and
        no card counts as seen without an answer having been given for it. */
    ghost predicate Valid()
      reads this
    {
      && index <= |cards|
      && (isLoading ==> cards == [])
      && 0 <= numCorrect
      && 0 <= numIncorrect
      && index <= numCorrect + numIncorrect
    }

    /** Every field except the deck holds its value in `initialState`. */
    ghost predicate AtStart()
      reads this
    {
      && cards == []
      && options == []
      && index == 0
      && !isWrong
      && isLoading
      && !isError
      && !isReversed
      && !isRevealed
      && numCorrect == 0
      && numIncorrect == 0
      && selected == None
      && page == 0
    }

    /** Nothing an answer can change has changed. */
    twostate predicate AnswerStateUnchanged()
      reads this
    {
      && index == old(index)
      && options == old(options)
      && isReversed == old(isReversed)
      && numCorrect == old(numCorrect)
      && numIncorrect == old(numIncorrect)
      && selected == old(selected)
      && isRevealed == old(isRevealed)
      && isWrong == old(isWrong)
    }

    /** The effect of `onSelect(answer, card)`:
        - a self-graded deck ignores the answer until the back is revealed;
          afterwards it moves to the next card and hides the back again, and
          counts the answer as correct unless it is "I was wrong";
        - in any other deck a correct answer moves to the next card and an
          incorrect one is counted and flagged. */
    twostate predicate Answered(answer: Answer, card: Card, coin: bool, draw: Draw)
      reads this
    {
      if IsSelfGraded(deck) then
        if !old(isRevealed) then AnswerStateUnchanged()
        else
          var wrong := answer == Label(SelfGradeIncorrect);
          && index == Min(old(index) + 1, |cards|)
          && numCorrect == old(numCorrect) + (if wrong then 0 else 1)
          && numIncorrect == old(numIncorrect) + (if wrong then 1 else 0)
          && !isRevealed
          && selected == None
          && options == GetOptions(deck, index, cards, draw)
          && !isReversed
          && isWrong == old(isWrong)
      else if IsCorrect(deck, answer, card) then
        && index == Min(old(index) + 1, |cards|)
        && numCorrect == old(numCorrect) + 1
        && numIncorrect == old(numIncorrect)
        && selected == None
        && options == GetOptions(deck, index, cards, draw)
        && isReversed == (IsReversible(deck) && coin)
        && isRevealed == old(isRevealed)
        && isWrong == old(isWrong)
      else
        && numIncorrect == old(numIncorrect) + 1
        && isWrong
        && selected == Some(answer)
        && index == old(index)
        && numCorrect == old(numCorrect)
        && options == old(options)
        && isReversed == old(isReversed)
        && isRevealed == old(isRevealed)
    }

    /** The screen as first mounted: `initialState`, with the empty deck. */
    constructor ()
      ensures AtStart() && deck == NoDeck
      ensures Valid()
    {
      deck := NoDeck;
      cards := [];
      options := [];
      index := 0;
      isWrong := false;
      isLoading := true;
      isError := false;
      isReversed := false;
      isRevealed := false;
      numCorrect := 0;
      numIncorrect := 0;
      selected := None;
      page := 0;
    }

    /** The deck request succeeded. */
    method DeckArrived(d: Deck)
      requires Valid()
      modifies this`deck
      ensures Valid()
      ensures deck == d
    {
      deck := d;
    }

    /** The cards request succeeded; `arrived` is the response in the order
        `chance.shuffle` gave it. The pending request was made at the index
        the screen had then, which is still the current one. */
    method CardsArrived(arrived: seq<Card>, draw: Draw)
      requires Valid() && isLoading
      modifies this`cards, this`options, this`isLoading
      ensures Valid()
      ensures cards == arrived && !isLoading
      ensures options == GetOptions(deck, index, cards, draw)
      ensures index == 0
    {
      cards := arrived;
      options := GetOptions(deck, index, arrived, draw);
      isLoading := false;
    }

    /** A request failed. */
    method FetchFailed()
      requires Valid()
      modifies this`isError, this`isLoading
      ensures Valid()
      ensures isError && !isLoading
    {
      isError := true;
      isLoading := false;
    }

    /** `onCorrectAnswer`: move to the next card (never past the end of the
        deck), count one correct answer, clear the selection and build the
        options for the new card. */
    method CorrectAnswer(coin: bool, draw: Draw)
      modifies this`index, this`options, this`isReversed, this`numCorrect, this`selected
      ensures index == Min(old(index) + 1, |cards|)
      ensures numCorrect == old(numCorrect) + 1
      ensures selected == None
      ensures options == GetOptions(deck, index, cards, draw)
      ensures isReversed == (IsReversible(deck) && coin)
      ensures old(Valid()) ==> Valid()
    {
      var next := Min(index + 1, |cards|);
      var reversed := IsReversible(deck) && coin;
      var opts := GetOptions(deck, next, cards, draw);
      var correct := numCorrect + 1;
      index, options, isReversed, numCorrect, selected := next, opts, reversed, correct, None;
    }

    /** `onIncorrectAnswer`: count one incorrect answer and flag it. */
    method IncorrectAnswer()
      requires Valid()
      modifies this`isWrong, this`numIncorrect
      ensures Valid()
      ensures numIncorrect == old(numIncorrect) + 1
      ensures isWrong
    {
      numIncorrect := numIncorrect + 1;
      isWrong := true;
    }

    /** `onToggleReveal`: show or hide the back, then rebuild the options for
        the current card. */
    method ToggleReveal(draw: Draw)
      requires Valid()
      modifies this`isRevealed, this`options
      ensures Valid()
      ensures isRevealed == !old(isRevealed)
      ensures options == GetOptions(deck, index, cards, draw)
    {
      isRevealed := !isRevealed;
      options := GetOptions(deck, index, cards, draw);
    }

    /** `onSelect(answer, card)`. */
    method Select(answer: Answer, card: Card, coin: bool, draw: Draw)
      requires Valid()
      modifies this`index, this`options, this`isReversed, this`numCorrect,
               this`numIncorrect, this`selected, this`isRevealed, this`isWrong
      ensures Valid()
      ensures Answered(answer, card, coin, draw)
    {
      if IsSelfGraded(deck) {
        if isRevealed {
          selected := Some(answer);
          if answer == Label(SelfGradeIncorrect) {
            numCorrect, numIncorrect := numCorrect - 1, numIncorrect + 1;
          }
          CorrectAnswer(coin, draw);
          ToggleReveal(draw);
        }
      } else if IsCorrect(deck, answer, card) {
        selected := Some(answer);
        CorrectAnswer(coin, draw);
      } else {
        selected := Some(answer);
        IncorrectAnswer();
      }
    }

    /** `onKeepGoing`: move on to the next page. */
    method KeepGoing()
      requires Valid()
      modifies this`page
      ensures Valid()
      ensures page == old(page) + 1
      ensures old(index <= PageEnd(page, |cards|) && IsFinished(0, index, page, |cards|)
                  && index < |cards|)
              ==> !IsFinished(0, index, page, |cards|)
    {
      ghost var was := page;
      page := page + 1;
      if index <= PageEnd(was, |cards|) && IsFinished(0, index, was, |cards|) && index < |cards| {
        KeepGoingResumes(index, was, |cards|);
      }
    }

    /** `onReset`: back to `initialState`, keeping the deck. The request for
        the deck's cards that follows is `CardsArrived` or `FetchFailed`. */
    method Reset()
      modifies this
      ensures Valid()
      ensures AtStart() && deck == old(deck)
    {
      cards := [];
      options := [];
      index := 0;
      isWrong := false;
      isLoading := true;
      isError := false;
      isReversed := false;
      isRevealed := false;
      numCorrect := 0;
      numIncorrect := 0;
      selected := None;
      page := 0;
    }

    /** `onKeyPress(e)`: while the page is finished, space moves on to the
        next page; otherwise the key of an option selects that option for the
        current card, and in a self-graded deck whose back is hidden space
        reveals it. No key press takes the index past the end of the page. */
    method KeyPress(e: KeyEvent, coin: bool, draw: Draw)
      requires Valid()
      modifies this`index, this`options, this`isReversed, this`numCorrect,
               this`numIncorrect, this`selected, this`isRevealed, this`isWrong, this`page
      ensures Valid()
      ensures old(index <= PageEnd(page, |cards|)) ==> index <= PageEnd(page, |cards|)
      ensures old(IsFinished(0, index, page, |cards|)) ==>
                page == old(page) + (if e.keyCode == Space then 1 else 0) && AnswerStateUnchanged()
      ensures !old(IsFinished(0, index, page, |cards|)) ==> page == old(page)
      ensures !old(IsFinished(0, index, page, |cards|)) ==>
                forall k :: 0 <= k < |old(options)| && e.key == OptionKey(k) ==>
                  Answered(old(options)[k], old(cards)[old(index)], coin, draw)
      ensures !old(IsFinished(0, index, page, |cards|)) &&
              !(exists k :: 0 <= k < |old(options)| && e.key == OptionKey(k)) ==>
                if IsSelfGraded(deck) && !old(isRevealed) && e.keyCode == Space then
                  isRevealed && options == GetOptions(deck, index, cards, draw)
                  && index == old(index) && numCorrect == old(numCorrect)
                  && numIncorrect == old(numIncorrect) && selected == old(selected)
                  && isReversed == old(isReversed) && isWrong == old(isWrong)
                else AnswerStateUnchanged()
    {
      var finished := IsFinished(0, index, page, |cards|);
      if finished && e.keyCode == Space {
        KeepGoing();
      } else if !finished {
        if exists k :: 0 <= k < |options| && e.key == OptionKey(k) {
          ghost var k :| 0 <= k < |options| && e.key == OptionKey(k);
          var answer := ParseDigits(e.key) - 1;
          assert answer == k;
          assert forall j :: 0 <= j < |options| && e.key == OptionKey(j) ==> j == answer;
          var currentCard := cards[index];
          Select(options[answer], currentCard, coin, draw);
        } else if IsSelfGraded(deck) && !isRevealed {
          if e.keyCode == Space {
            ToggleReveal(draw);
          }
        }
      }
    }

    /** The results table never shows more cards seen than answers given, and
        the chart never shows a negative number of new cards. */
    lemma ResultsCoverSeen()
      requires Valid()
      ensures ProgressData(index, |cards|)[0].value
              <= Results(numCorrect, numIncorrect)[0].value + Results(numCorrect, numIncorrect)[1].value
      ensures ProgressData(index, |cards|)[1].value >= 0
    {
    }
  }
}
