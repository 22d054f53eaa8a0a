# Flashcard scheduler and deck list, modelled in Dafny

This project models two parts of a spaced-repetition flashcard front end.

**The review scheduler** (`app/utils/sm2.algorithm.ts`) is a variant of the
SuperMemo-2 algorithm (module `Sm2`, file `sm2.dfy`):

- `CalculateSm2` maps a card's memory state and the quality of an answer to a
  new memory state and the instant of the next review. The state is the
  repetitions, the ease factor and the interval in days. The quality is on the
  0..5 scale.
  - A quality outside 0..5 is the error `QualityOutOfRange`.
  - The ease factor is updated for every answer and never drops below 1.3.
  - A failed answer (quality below 3) resets the card to relearning with
    interval 0.
  - Passed answers give intervals of 1 day, then 3 days (SM-2 uses 6 here),
    then the previous interval times the ease factor, rounded.
  - Interval 0 means "again in ten minutes". Any other interval means local
    midnight of the day that many days ahead.
- `RatingToQuality` maps the four buttons (Again, Hard, Good, Easy) onto the
  quality scale.
- `IsDue` decides whether a card is due.
- `InitialSm2Values` is the state of a new card.

The ghost predicate `Consistent` states the invariant of a card's memory state.
`InitialSm2Values` establishes it and every accepted answer keeps it
(`ReviewPreservesConsistency`):

- the ease factor is at least 1.3;
- with no successes the interval is 0;
- the first two successes give intervals 1 and 3;
- from the third success on, the card is in review and its interval exceeds
  its repetition count, because each later success adds at least a day.

Time is an integer count of milliseconds since the epoch. "Now" and the local
time zone are passed in as a `Clock`, and the zone is a fixed offset from UTC.
`StartOfLocalDay` plays the role of `setHours(0, 0, 0, 0)`. Adding n days
(`setDate(getDate() + n)`) adds n times 86 400 000 ms.

**The deck list page** (`app/deck/components/DeckPageClient.tsx`) is module
`DeckPage`, file `deck_page.dfy`:

- `NextReviewLabel` and `LabelText` give the label under each deck. It reads
  "No cards due", "Cards due now!", or the wait rounded down to whole minutes,
  hours or days.
- The class `DeckPageState` holds the page's state: the list of decks, the id
  of the open options menu, the selected deck and the two dialog flags. Its
  methods are the page's handlers.
- A handler receives the deck service's reply as a parameter. Success is
  `Success`/`Pass`, a rejected call is `Failure`/`Fail`. The handler applies
  the list update that the page makes after the call: append, replace by id or
  filter by id. The pure functions `Appended`, `ReplacedById` and
  `RemovedById` specify those updates.

`outcomes.dfy` holds the `Option`, `Result` and `Outcome` datatypes that both
modules use.

A card's due-ness could be read as `nextReviewAt <= now`. The code's `isDue`
instead compares the date with the local midnight that began today, and the
model follows the code. So a card that a failed answer sends back for ten
minutes is not due, under `isDue`, before the next local midnight
(`AnsweredCardDueDate`).

## Model

| member | source | states |
|---|---|---|
| `Sm2.CalculateSm2` | app/utils/sm2.algorithm.ts:34-99 | The result is the error exactly when the quality is below 0 or above 5. Every accepted answer, passed or failed, sets the ease factor to the update of the prior factor by the quality, which is at least 1.3. The repetitions are 0 or one more than before. |
| `Sm2.NewEaseFactor` | app/utils/sm2.algorithm.ts:47-55 | The updated ease factor is never below 1.3, whatever the prior factor and quality. |
| `Sm2.EaseFactorTable` | app/utils/sm2.algorithm.ts:48-55 | For each quality 0..5 the formula equals the table of changes -0.8, -0.54, -0.32, -0.14, 0, +0.1, followed by the clamp at 1.3. |
| `Sm2.EaseFactorByQuality` | app/utils/sm2.algorithm.ts:49-55 | From a factor of at least 1.3: quality 5 raises it by exactly 0.1, quality 4 leaves it unchanged, and a failed quality lowers it or leaves it at the floor 1.3. |
| `Sm2.EaseFactorMonotone` | app/utils/sm2.algorithm.ts:49-55 | A better quality never gives a smaller ease factor. |
| `Sm2.Round` | app/utils/sm2.algorithm.ts:73 | `Math.round` gives an integer r with x - 1/2 < r <= x + 1/2, so halves round up. |
| `Sm2.FailedAnswerResets` | app/utils/sm2.algorithm.ts:58-62 | Any quality 0..2 gives repetitions 0, interval 0 and state relearning, due ten minutes from now, whatever the prior state. |
| `Sm2.FirstTwoPassesFixedIntervals` | app/utils/sm2.algorithm.ts:64-77 | A pass with prior repetitions 0 gives interval 1 and a pass with prior repetitions 1 gives interval 3. Both give state learning and one more repetition. The review is at local midnight that many days after today's. |
| `Sm2.LaterPassMultipliesInterval` | app/utils/sm2.algorithm.ts:72-90 | A pass with any other prior repetitions gives the updated ease factor, interval round(interval × that factor), state review and one more repetition, with the review instant computed from that interval. |
| `Sm2.IntervalGrowth` | app/utils/sm2.algorithm.ts:73 | With a factor of at least 1.3, multiplying and rounding never shrinks a non-negative interval. It grows an interval of 2 or more days by at least one day. |
| `Sm2.NextReviewDate` | app/utils/sm2.algorithm.ts:80-90 | Interval 0 gives now + 10 minutes. Any other interval gives a local midnight. For an interval of 1 or more that instant is after now and at most interval days ahead. |
| `Sm2.NextReviewDateSpec` | app/utils/sm2.algorithm.ts:80-90 | Interval 0 gives now + 10 minutes, not aligned to midnight. Any other interval gives a local midnight, namely today's midnight plus that many days. For an interval of 1 or more that instant is after now and at most interval days ahead. |
| `Sm2.StartOfLocalDay` | app/utils/sm2.algorithm.ts:89 | The result is a local midnight, at most the given instant and less than a day before it. |
| `Sm2.StartOfLocalDayIdempotent` | app/utils/sm2.algorithm.ts:89 | Truncating a local midnight to midnight leaves it unchanged. |
| `Sm2.StartOfLocalDayMonotone` | app/utils/sm2.algorithm.ts:127 | A later instant never truncates to an earlier midnight. |
| `Sm2.StartOfLocalDayShift` | app/utils/sm2.algorithm.ts:87-89 | Moving n days ahead and then truncating equals truncating and then adding n days. |
| `Sm2.ReviewPreservesConsistency` | app/utils/sm2.algorithm.ts:34-99 | From a consistent memory state and a quality 0..5, the result exists and is again consistent: the invariant on ease factor, repetitions, interval and stage holds. |
| `Sm2.ScheduleIndependentOfClock` | app/utils/sm2.algorithm.ts:34-99 | Only the review instant depends on the clock. At any two clocks the same input is accepted or rejected alike and gets the same interval, repetitions, ease factor and state, so an interval computed earlier for display still holds later. |
| `Sm2.WorkedExamples` | app/utils/sm2.algorithm.ts:34-99 | A new card rated Good gets interval 1 at EF 2.5. Repetitions 2, interval 3, EF 2.5 rated Easy gets EF 2.6 and interval 8. Repetitions 3, EF 2.2 rated Again gets EF 1.4 and a reset. |
| `Sm2.RatingToQuality` | app/utils/sm2.algorithm.ts:107-116 | Every rating, valid or not, maps to a quality in 0..5. |
| `Sm2.Rating.Code` | app/utils/sm2.algorithm.ts:104 | The four buttons carry the ratings 1..4. |
| `Sm2.RatingTable` | app/utils/sm2.algorithm.ts:107-116 | The mapping is Again→0, Hard→3, Good→4, Easy→5, and any other rating maps to 3. |
| `Sm2.RatedReviewNeverRejected` | app/utils/sm2.algorithm.ts:107-116 | Only "Again" gives a failing quality. A quality from any rating never triggers the range error of calculateSM2. |
| `Sm2.InitialSm2Values` | app/utils/sm2.algorithm.ts:135-142 | A new card is in state new with ease factor 2.5, and its state is consistent. |
| `Sm2.IsDue` | app/utils/sm2.algorithm.ts:123-130 | A card without a date is due. A date later than now is not due. A date at least a day before now is due. |
| `Sm2.IsDueSpec` | app/utils/sm2.algorithm.ts:123-130 | No date means due. A dated card is due exactly when some local midnight lies between its date and now, that is, once a new local day has begun since the date. |
| `Sm2.IsDueMonotone` | app/utils/sm2.algorithm.ts:123-130 | A card that is due stays due at every later instant. |
| `Sm2.MidnightDueFromThen` | app/utils/sm2.algorithm.ts:123-130 | A date at local midnight is due exactly from that instant on. |
| `Sm2.AnsweredCardDueDate` | app/utils/sm2.algorithm.ts:83-90 | A just-answered card is not due at the moment of answering. With interval n ≥ 1 it becomes due exactly at the local midnight n days after today's. With interval 0 it is not due before the next local midnight. |
| `DeckPage.NextReviewLabel` | app/deck/components/DeckPageClient.tsx:184-206 | No date gives "No cards due". A wait of 0 or less gives "due now". Below an hour the label is whole minutes in 0..59, below a day whole hours in 1..23, otherwise whole days of at least 1. Each count c satisfies c·unit ≤ wait < (c+1)·unit. |
| `DeckPage.NatToString` | app/deck/components/DeckPageClient.tsx:198 | A count prints as a non-empty string of digits with no leading zero. |
| `DeckPage.NatToStringRoundTrip` | app/deck/components/DeckPageClient.tsx:198 | Reading the printed digits back gives the count. |
| `DeckPage.LabelText` | app/deck/components/DeckPageClient.tsx:190-206 | The text is "No cards due" exactly for no date and "Cards due now!" exactly for a due deck. It starts with "Next review in " exactly for a wait. |
| `DeckPage.LabelTextWait` | app/deck/components/DeckPageClient.tsx:197-204 | A wait label is "Next review in ", then the count printed without leading zeros, whose digits read back as the count, then the unit m, h or d. |
| `DeckPage.Appended` | app/deck/components/DeckPageClient.tsx:46 | Creation adds exactly one element, at the end, and keeps all earlier decks in order. |
| `DeckPage.ReplacedById` | app/deck/components/DeckPageClient.tsx:57 | The length is unchanged. Every deck with the id becomes the returned deck and every other deck stays as it was. |
| `DeckPage.UpdateKeepsIds` | app/deck/components/DeckPageClient.tsx:57 | When the returned deck keeps the id, the ids stay in place, updating again changes nothing, and deleting afterwards equals deleting directly. |
| `DeckPage.RemovedById` | app/deck/components/DeckPageClient.tsx:93 | The list never grows. A deck remains exactly when it was present and has a different id. |
| `DeckPage.RemovedByIdConcat` | app/deck/components/DeckPageClient.tsx:93 | Deletion distributes over concatenation, so the remaining decks keep their relative order. |
| `DeckPage.RemovedByIdMultiplicity` | app/deck/components/DeckPageClient.tsx:93 | Every copy of a deck with the id is removed, and every other deck keeps its number of copies. |
| `DeckPage.RemovedByAbsentId` | app/deck/components/DeckPageClient.tsx:93 | Deleting an id that no deck has leaves the list unchanged. |
| `DeckPage.CreateThenDelete` | app/deck/components/DeckPageClient.tsx:42-101 | Deleting a just-created deck whose id was new gives back the list from before the creation. |
| `DeckPage.FindById` | app/deck/components/DeckPageClient.tsx:74 | The result is absent exactly when no deck has the id. A found deck has the id and is in the list. |
| `DeckPage.FindByIdFirst` | app/deck/components/DeckPageClient.tsx:104 | The deck found is the first one with the id. |
| `DeckPage.Toggled` | app/deck/components/DeckPageClient.tsx:65-71 | The menu closes exactly when it was open on this deck. Otherwise it opens on this deck. |
| `DeckPage.ToggleTwice` | app/deck/components/DeckPageClient.tsx:65-71 | Toggling the same deck twice from a closed menu closes it again. |
| `DeckPage.DeckPageState.constructor` | app/deck/components/DeckPageClient.tsx:21-26 | The page starts with no decks, no open menu, no selection and both dialogs closed. |
| `DeckPage.DeckPageState.LoadDecks` | app/deck/components/DeckPageClient.tsx:28-40 | With a user and a successful reply the list becomes the reply. Otherwise it is unchanged. |
| `DeckPage.DeckPageState.HandleCreateDeck` | app/deck/components/DeckPageClient.tsx:42-52 | With a user and a created deck the list is the old list with that deck appended. A rejected call rethrows its error and leaves the list unchanged. Without a user nothing happens. |
| `DeckPage.DeckPageState.HandleUpdateDeck` | app/deck/components/DeckPageClient.tsx:54-63 | A successful reply replaces every deck with the id. A rejected call rethrows and leaves the list unchanged. |
| `DeckPage.DeckPageState.ToggleDropdown` | app/deck/components/DeckPageClient.tsx:65-71 | The open-menu id becomes the toggle of its old value. |
| `DeckPage.DeckPageState.CloseDropdown` | app/deck/components/DeckPageClient.tsx:243 | The menu is closed. |
| `DeckPage.DeckPageState.HandleUpdate` | app/deck/components/DeckPageClient.tsx:73-80 | If a deck has the id, the first such deck is selected and the update dialog opens. Otherwise the selection is unchanged. The menu closes either way. |
| `DeckPage.DeckPageState.HandleBrowse` | app/deck/components/DeckPageClient.tsx:82-87 | The menu closes and the route is /deck/{id}. |
| `DeckPage.DeckPageState.HandleDelete` | app/deck/components/DeckPageClient.tsx:89-101 | If confirmed and successful, the list is the old list with the id filtered out. Otherwise the list is unchanged. The menu closes either way. |
| `DeckPage.DeckPageState.HandleCustomStudy` | app/deck/components/DeckPageClient.tsx:103-110 | If a deck has the id, the first such deck is selected and the custom-study dialog opens. Otherwise the selection is unchanged. The menu closes either way. |
| `DeckPage.DeckPageState.HandleCreateCustomStudy` | app/deck/components/DeckPageClient.tsx:112-132 | A route is returned exactly when there is a user, a selected deck and a created custom deck, and it is /deck/{new id}/review. |

## Left out

- Time zones are a fixed UTC offset. Daylight-saving changes, where a local day is not 24 hours long, are not modelled. Adding days to a date is exact millisecond arithmetic.
- The ease factor is a `real`. IEEE-754 rounding of `0.08`, `0.02` and of the product in `Math.round` is not reproduced. For example, 3 × 2.6 is exactly 7.8 here.
- Quality, rating, repetitions and interval are integers. The source types them as JavaScript `number`, and fractional values are not modelled. For a fractional rating, the source falls back to quality 3.
- `new Date()` is the `Clock` parameter. Parsing the `next_review_at` string into a date is left out: the deck holds the parsed timestamp.
- NextReviewLabel: an unparseable `next_review_at` string makes the source show "Next review in NaNd". The model cannot express this because it holds only parsed timestamps.
- The deck service calls, `confirm`, toasts, console output and `router.push` are left out. Service replies and the confirmation are parameters. Navigation is returned as the route string.
- The success toast of `handleCreateCustomStudy`, which quotes the new deck's card counts, is not modelled.
- React's asynchronous state updates are modelled as immediate assignments. A handler that reads a stale `decks` after another update is not modelled.
- The create-deck modal flag and the dialogs' close callbacks (`setIsModalOpen` and the `onClose` props) are not modelled. Only the state that the handlers set is.
- The rendering of the deck list (markup, styling) is not modelled.
- The review session, daily quotas and undo in `app/deck/[id]/components/FlashcardReviewer.tsx` are not part of this model. They are built from service calls and `localStorage`.
- The HTTP service wrappers, authentication, theming, modals, forms, layouts and navigation components are not part of this model. They are I/O or interface glue.
