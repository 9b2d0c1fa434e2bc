# Review screen of a flashcard application, in Dafny

This project models the review session of the flashcards-for-developers web
application (`src/app/Review.js`). A user works through a deck of cards.
Each card is answered in one of three ways:

- In a **self-graded** deck the user reveals the back and then grades
  themself with "I was right" or "I was wrong".
- In a **multiple-select** deck the user picks one of the deck's distinct
  backs.
- In **any other** deck the user picks among up to four cards, one of which
  is the current card.

The screen counts correct and incorrect answers, pages through the deck
twelve cards at a time, and reports progress as a percentage.

Modules, one concern each:

- `Wrappers`: `Option` (the screen's empty object `{}` / `undefined`) and `Min`.
- `Collections`: `[...new Set(xs)]` as `Dedup`, with its properties: it keeps
  each value once and follows first-occurrence order. It also holds the
  multiset facts used for shuffles.
- `Keys`: `String(k + 1)` and `parseInt(key, 10)` for the number keys that
  pick options, with their round trip.
- `ReviewLogic`: the pure helpers. These are pagination (`getPageStart`,
  `getPageEnd`, `isFinished`), progress and charts (`getProgress`,
  `getResults`, `getProgressData`), option building (`getOptions`) and
  answer checking (`isCorrect`, `isSelected`).
- `ReviewScreen`: class `Review`. Its fields are the component's state and its
  methods are the event handlers, which update that state in place.

Randomness comes in as parameters:

- `coin` stands for `chance.bool()`.
- A `Draw` stands for what `chance.unique` and `chance.shuffle` return inside
  `getOptions`. The shuffle of the fetched cards is the order of the cards
  passed to `CardsArrived`.
- `FairDraw` states what `chance.unique` promises. Only the lemmas about
  options assume it.
- `chance.shuffle` is a Fisher–Yates shuffle driven by arbitrary picks.
  Both directions are proved: every outcome is a permutation of the input,
  and every permutation is the outcome of some picks.

Continuations scheduled with `setTimeout` run at the end of the handler that
schedules them.

## Model

| member | source | states |
|---|---|---|
| `ReviewScreen.Review.constructor` | src/app/Review.js:20-38 | the screen starts in `initialState`: empty deck and cards, index, page and both counters 0, loading, nothing revealed or selected |
| `ReviewScreen.Review.DeckArrived` | src/app/Review.js:151-155 | a successful deck request stores the deck and changes nothing else |
| `ReviewScreen.Review.CardsArrived` | src/app/Review.js:160-167 | arriving cards replace the empty card list, the options are built for the current index (0), loading ends, and the session invariant still holds |
| `ReviewScreen.Review.FetchFailed` | src/app/Review.js:156-168 | a failed request sets the error flag and ends loading, nothing else; it models both error callbacks, that of the deck request (line 156) and that of the cards request (line 168) |
| `ReviewScreen.Review.CorrectAnswer` | src/app/Review.js:98-119 | index becomes `min(index + 1, cards.length)`, `numCorrect` grows by exactly 1, the selection is cleared, options are rebuilt for the new index, `isReversed` holds only for a reversible deck and a true coin; `numIncorrect`, `page`, `isRevealed` and the deck are untouched; the session invariant is kept |
| `ReviewScreen.Review.IncorrectAnswer` | src/app/Review.js:121-126 | `numIncorrect` grows by exactly 1 and `isWrong` is set; index, `numCorrect` and everything else are untouched |
| `ReviewScreen.Review.ToggleReveal` | src/app/Review.js:128-134 | `isRevealed` flips and the options are rebuilt for the current index; counters and index are untouched |
| `ReviewScreen.Review.Select` | src/app/Review.js:54-78 | self-graded and hidden: nothing changes; self-graded and revealed: index advances (capped at the deck), "I was wrong" gives net `numCorrect + 0` and `numIncorrect + 1` (the decrement is undone by the correct-answer step), any other label net `numCorrect + 1`, the back is hidden again and the selection cleared; other decks: a correct answer advances and counts as correct, an incorrect one is counted, flagged and stays selected |
| `ReviewScreen.Review.KeepGoing` | src/app/Review.js:146-149 | `page` grows by exactly 1 and nothing else changes; a session that had finished its page before the end of the deck is no longer finished |
| `ReviewScreen.Review.Reset` | src/app/Review.js:136-144 | every field returns to `initialState` except the deck, which is kept |
| `ReviewScreen.Review.KeyPress` | src/app/Review.js:80-96 | when the page is finished, space moves to the next page and other keys do nothing; otherwise the key `String(k + 1)` selects option `k` for the current card (with exactly the effect of `Select`), space reveals a hidden self-graded back, other keys do nothing; no key moves the index past the end of the page |
| `ReviewScreen.Review.ResultsCoverSeen` | src/app/Review.js:199-206 | under the session invariant, cards seen never exceed correct plus incorrect answers, and the "New" slice is never negative |
| `Keys.Decimal` | src/app/Review.js:85 | `String(n)` is a non-empty string of decimal digits with no leading zero (only `"0"` starts with `0`), so option 0's key is `"1"` |
| `Keys.ParseDecimal` | src/app/Review.js:85-86 | `parseInt(String(n), 10) == n` |
| `Keys.DecimalInjective` | src/app/Review.js:85-86 | two option keys are equal only for the same option, so a key picks at most one option |
| `Keys.OptionKey` | src/app/Review.js:85-86 | the key of option `k` is made of digits and parses back to `k + 1`, so `parseInt(key) - 1` is `k` |
| `Collections.Dedup` | src/app/Review.js:176 | `[...new Set(s)]` (also at line 182) is never longer than `s` and holds only values of `s`; `DedupSpec` and `DedupOrder` pin it down fully |
| `Keys.ParseDigits` | src/app/Review.js:86 | `parseInt(key, 10)` of a string of `k` digits is below `10^k`, and of one digit is that digit's value; `ParseDecimal` gives its round trip with `String` |
| `Collections.DedupSpec` | src/app/Review.js:176 | `[...new Set(s)]` contains exactly the values of `s`, each once, and is no longer than `s` |
| `Collections.DedupOrder` | src/app/Review.js:176 | `[...new Set(s)]` lists values in the order of their first occurrence in `s` |
| `ReviewLogic.Shuffle` | src/app/Review.js:183 | the shuffled sequence is a permutation (same multiset) of its input |
| `ReviewLogic.ShuffleReachesEveryPermutation` | src/app/Review.js:183 | every permutation of the input is the outcome of some sequence of picks, so the model leaves out no order `chance.shuffle` can produce |
| `ReviewLogic.GetOptions` | src/app/Review.js:172-186 | a self-graded deck gets 2 options, a multiple-select deck no more than its cards, any other deck at least 1 and at most one more than the values drawn (`min(3, cards.length)` for a fair draw); `SelfGradedOptions`, `MultipleOptions`, `MultipleOptionsCover`, `DefaultOptions` and `CorrectOptionOffered` give each branch exactly |
| `ReviewLogic.SelfGradedOptions` | src/app/Review.js:173-174 | a self-graded deck offers exactly "I was right" and "I was wrong" |
| `ReviewLogic.MultipleOptions` | src/app/Review.js:175-176 | multiple-select options are `{id: k, back}` with `id` equal to the position, distinct backs, in first-occurrence order, no more than the cards |
| `ReviewLogic.MultipleOptionsCover` | src/app/Review.js:176 | every card's back is offered and every offered back belongs to some card |
| `ReviewLogic.DefaultOptions` | src/app/Review.js:177-185 | other decks offer the cards at exactly the drawn positions and the current index, each position once: `min(3, cards.length)` options, plus one when the current index was not drawn; every position but the current one lies inside the deck |
| `ReviewLogic.MultipleOffersBack` | src/app/Review.js:175-176 | the multiple-select options include the current card's back |
| `ReviewLogic.DefaultOffersCard` | src/app/Review.js:177-185 | the options of other decks include the current card |
| `ReviewLogic.IsCorrect` | src/app/Review.js:214-215 | every answer is correct in a self-graded deck; in a multiple-select deck an entry or card is correct exactly when its back is the card's back; in any other deck a card or entry is correct exactly when its id is the card's id, so a wrong pick is judged wrong; a label or a missing option is never correct outside a self-graded deck |
| `ReviewLogic.OnlyCurrentCardCorrect` | src/app/Review.js:177-185 | when card ids are distinct, the options of a deck that is neither self-graded nor multiple-select hold exactly one correct answer: the current card |
| `ReviewLogic.CorrectOptionOffered` | src/app/Review.js:214-215 | for a card within the deck, the options built for it always contain an option `isCorrect` accepts, in every deck mode |
| `ReviewLogic.PageStart` | src/app/Review.js:195 | the start of page `p` is the multiple of 12 whose quotient is `p` |
| `ReviewLogic.PageEnd` | src/app/Review.js:196-197 | the end of a page lies within the deck and at most 12 past the page start, and is one of the two: the deck end or 12 past the start |
| `ReviewLogic.PagesTile` | src/app/Review.js:195-197 | a page ends at `min((page + 1) * 12, cards.length) <= cards.length`, where the next page starts (or at the deck end), and holds at most 12 cards |
| `ReviewLogic.IsFinished` | src/app/Review.js:212-213 | `isFinished(i)` holds iff the effective index (`i`, or the current index when `i` is 0) reaches the page end; the inner `min` with the deck length changes nothing |
| `ReviewLogic.FinishedAtPageEnd` | src/app/Review.js:212-213 | an explicit index `i` is finished iff `i` reaches the page end, and `isFinished(0)` iff the current index does |
| `ReviewLogic.KeepGoingResumes` | src/app/Review.js:146-149 | a page finished exactly at its end, before the deck's end, is unfinished on the next page |
| `ReviewLogic.DeckEndFinishesEveryPage` | src/app/Review.js:212-213 | once the index reaches the deck length the session is finished on any page |
| `ReviewLogic.Progress` | src/app/Review.js:194 | `getProgress` is `100 * e / cards.length` rounded to nearest, halves up, for the effective index `e` |
| `ReviewLogic.ProgressBounds` | src/app/Review.js:194 | progress lies in 0..100 when the effective index is within the deck, and is 100 at the deck end |
| `ReviewLogic.ProgressMonotone` | src/app/Review.js:194 | progress never decreases as the effective index grows |
| `ReviewLogic.ExplicitZeroMeansCurrent` | src/app/Review.js:194 | for every index and non-empty deck, `getProgress(0)` equals the progress at the current index, not 0 |
| `ReviewLogic.ExplicitZeroExample` | src/app/Review.js:194 | halfway through a 12-card deck, `getProgress(0)` is 50 |
| `ReviewLogic.Results` | src/app/Review.js:199-202 | the results chart has a "Correct" slice holding the correct count and an "Incorrect" slice holding the incorrect count |
| `ReviewLogic.ProgressData` | src/app/Review.js:203-206 | the progress chart has a "Seen" slice equal to the index and a "New" slice, adding up to the deck length |
| `ReviewLogic.IsSelected` | src/app/Review.js:216-217 | the selection itself is always shown as selected and nothing is shown for an empty selection; an option without a non-zero id (a self-grading label, or id 0) is shown as selected only when it is the selection |
| `ReviewLogic.SelectionById` | src/app/Review.js:216-217 | an option shown as selected carries the selected answer's id, and an option with a non-zero id is shown as selected whenever the selected answer has that id, so of options with distinct ids at most one is shown |

## Left out

- Rendering is not modelled: `render()`, JSX, `cx`, and markdown through `marked` (`getOptionHTML`, `getCardHTML`). Neither are `getDeckType`, `getCategoryUrl` and `isImageSelect`, which only rendering uses. `getCurrentCard` is inlined into `KeyPress`.
- Analytics calls and `localStorage.setItem` are side effects with no state in the screen. So are the `isFinished(index)` and `getProgress(index)` calls in `onCorrectAnswer` and `onReset` whose results only feed them.
- Network requests are not modelled. Their outcomes are `DeckArrived`, `CardsArrived` and `FetchFailed`. A successful deck request is followed by a cards request.
- CardsArrived: requires a pending request (`isLoading`). The screen requests cards only at mount and on reset, when the index is 0, so the index it captures is the current one.
- Timers are not modelled. Continuations run at once. The 500 ms reset of `isWrong` to false is dropped, and so is `clearTimeout`.
- Adding and removing the window key listener is lifecycle plumbing and is not modelled.
- `chance` is modelled only through its results, passed in. `coin` is `chance.bool()`. A `Draw` is what `chance.unique` and `chance.shuffle` give inside `getOptions`. The shuffle of the fetched cards at line 164 is the order of the `arrived` argument of `CardsArrived`.
- Progress: uses exact integer rounding in place of floating-point division plus `Math.round`, and requires a non-empty deck (the source would produce `NaN`).
- The `isFinished: false` entry of `initialState` is not modelled. Nothing reads it; `isFinished` is the method.
- IncorrectAnswer: takes no card. The source's `card` parameter is unused.
- React may batch `setState` calls. Here each update is applied in order.
- Card ids are integers. Object identity (`selected === option`) is value equality.
- IsCorrect: for a `Missing` option (JavaScript `undefined`), it is true in a self-graded deck and false otherwise, where the source throws on reading `option.id` or `option.back`. This cannot happen on screen: options are rendered and keys handled only while the page is not finished, and then the current card exists.
- ParseDigits: models `parseInt` only on strings of decimal digits, the only strings it receives. On the empty string it gives 0 where `parseInt` gives `NaN`; a key is parsed only when it equals some `OptionKey`, which is never empty.
