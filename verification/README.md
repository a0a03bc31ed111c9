# Leitner flashcards in Dafny

A model of the logic of a browser flashcard app. The app keeps decks and
cards in `localStorage` and schedules reviews with a three-box Leitner
system.

- **Scheduler** (`js/learning.js`). A correct answer promotes a card one
  level, at most to level 3. A wrong answer sends it back to level 1.
  The next review is 1, 3 or 7 days away, according to the *new* level.
- **Due set.** A card is due from the start of the day its review date
  falls on. The due set of a deck is its due cards, level 1 first, with
  cards of equal level in stored order.
- **Study session** (`js/app.js`).
  - It starts on the due set.
  - Each card is flipped and then answered. The answer is written back to
    the stored cards and counted.
  - The session closes after the last card, or on a confirmed Escape.
  - Opening another deck hides the study view but leaves its keyboard
    shortcuts attached, so they still answer the hidden session.
- **Card and deck operations** (`js/cards.js`, `js/decks.js`).
  - Creation, validation, lookup, update, delete and cascade delete.
  - Search and the list filter.
  - Per-deck card counts.
- **Export and import** (`js/storage.js`). An import is renamed away from
  every existing deck name, as `name (k)` with the smallest free `k >= 2`,
  and its cards are re-homed under fresh ids.

Modules:

| module | file | what it holds |
|---|---|---|
| `Wrappers` | `wrappers.dfy` | `Option` and `Result` |
| `Seqs` | `seqs.dfy` | `Filter` with its specification lemmas, `Find`, `FindIndex`, `ReplaceWhere`, subsequences |
| `Text` | `text.dfy` | `trim`, lower-casing, substring search, decimal rendering |
| `DateMath` | `datemath.dfy` | timestamps, days, `normalizeDate`, `addDays` |
| `Cards` | `cards.dfy` | `js/cards.js` |
| `Learning` | `learning.dfy` | `js/learning.js` |
| `Decks` | `decks.dfy` | `js/decks.js`, over an in-memory `Store` of decks and cards |
| `Study` | `study.dfy` | the study session of `js/app.js` |
| `Storage` | `storage.dfy` | `exportDeck` and `importDeck` of `js/storage.js` |

Modelling conventions:

- **Time.** A timestamp is an integer count of milliseconds on a local
  time line whose days all last 86 400 000 ms. `Day(t)` is the day number,
  rounded towards the past.
- **Clock.** Every transition reads the clock once, as a `now` parameter.
  The source reads it several times within one call.
- **Fresh ids.** `crypto.randomUUID` is replaced by fresh-id parameters.
- **Storage.** `localStorage` is replaced by an in-memory `Store` of decks
  and cards, passed in and returned.
- **Missing values.** A `null` field is `None`. An absent property of an
  edit is `None` too.
- **Errors.** Error results are datatypes rather than `{ valid, error }`
  objects or exceptions.

## Model

| member | source | states |
|---|---|---|
| DateMath.NormalizeDate | js/learning.js:13-17 | the result is the midnight that starts `t`'s day: at most `t`, less than a day before it, on the same day |
| DateMath.AddDays | js/learning.js:25-29 | the result falls `n` days after `t`'s day, at the same time of day |
| Learning.NextReview | js/learning.js:40-59 | the next review falls 1, 3 or 7 days on for levels 1, 2 and 3, one day on for any other level, at the same time of day |
| Learning.MarkCorrect | js/learning.js:66-82 | the level rises by one and stops at 3; the correct count rises by one, with a missing count read as 0; the last review is now; the next review is 1, 3 or 7 days on according to the new level, at the same time of day; id, deck, text and creation time are kept |
| Learning.MarkIncorrect | js/learning.js:89-104 | the level becomes 1 from any level; the correct count is kept; the last review is now; the next review is one day on at the same time of day; id, deck, text and creation time are kept |
| Learning.LevelStaysInRange | js/learning.js:66-104 | a card with level 1..3 keeps its level in 1..3 under either answer, and a correct answer never lowers it |
| Learning.CorrectAnswersSaturate | js/learning.js:70 | two correct answers take a level-1 card to level 3, and a third keeps it at 3 |
| Learning.IsCardDue | js/learning.js:115-123 | a card is due iff it has no review date or the date's day is not after today |
| Learning.DueIffNotInFuture | js/learning.js:115-123 | a card whose review is `n` days from today is due iff `n <= 0` |
| Learning.ReviewedCardDueAfterInterval | js/learning.js:66-123 | after an answer, the card is due on a later date iff that date's day is at least the new level's interval after the answer's day |
| Learning.NewCardIsDue | js/cards.js:5-17 | a new card is due from its creation on |
| Learning.ListDueFilterIsStricter | js/cards.js:91-94 | the card list's raw "due" comparison implies due-ness but not conversely: a review later today, or a `null` review date before the epoch, is due yet filtered out |
| Learning.InsertKeepsSorted | js/learning.js:134 | inserting into a level-sorted sequence keeps it sorted |
| Learning.InsertIsStable | js/learning.js:134 | an inserted card goes before every card of its own level |
| Learning.SortIsSorted | js/learning.js:134 | the sort orders cards by non-decreasing level |
| Learning.SortIsStable | js/learning.js:134 | for every level, the sorted cards of that level are those of the input, in input order |
| Learning.GetDueCards | js/learning.js:131-135 | the result holds exactly the deck's due cards, with their multiplicities, sorted by level, and each level's cards in stored order |
| Learning.GetDueCount | js/learning.js:143-145 | the count is the number of due cards in the deck, at most the deck's size, and zero iff no card of the deck is due |
| Cards.CreateCard | js/cards.js:5-17 | a new card has trimmed sides, level 1, no correct answers, no last review, and is due at creation |
| Cards.ValidateCard | js/cards.js:20-33 | valid iff both sides hold a non-whitespace character; a blank front is reported first, then a blank back |
| Cards.ValidatedCardHasText | js/cards.js:5-33 | a card created from validated text has non-empty, trimmed sides that validate again |
| Cards.GetCard | js/cards.js:36-38 | absent iff no card has the id; otherwise the first card with it |
| Cards.GetCardsByDeck | js/cards.js:41-43 | exactly the deck's cards, with their multiplicities, in stored order |
| Cards.UpdateCard | js/cards.js:46-64 | absent iff the id is unknown; otherwise the stored card with each supplied side trimmed in, and id, deck, creation time and all scheduling fields kept |
| Cards.UpdateCardIdempotent | js/cards.js:46-64 | applying the same edit again after persisting it changes nothing |
| Cards.ReplaceById | js/app.js:768 | every card with the id becomes the replacement; every other card is kept in place |
| Cards.ReplaceKeepsDeckCounts | js/app.js:768 | a replacement within the same deck keeps every deck's size |
| Cards.DeleteCard | js/cards.js:67-69 | every card with the id is removed; the rest are kept with their multiplicities, in order |
| Cards.DeleteCardCount | js/cards.js:67-69 | the deletion removes exactly the cards carrying the id, and deleting an unknown id changes nothing |
| Cards.DeleteCardsByDeckId | js/cards.js:72-74 | every card of the deck is removed and nothing else: the rest are kept with their multiplicities, in order, and the result is shorter by exactly the deck's size |
| Cards.DeckCardsPartition | js/cards.js:41-74 | a deck's cards and the cards left after deleting them together make up the whole collection |
| Cards.SearchCards | js/cards.js:77-85 | a blank query returns the input; otherwise a card is kept iff the lower-cased query occurs in its lower-cased front or back, with every copy of it kept; the result is a subsequence of the input |
| Cards.FilterCardsByLevel | js/cards.js:88-97 | an unset filter or "all" returns the input; "due" keeps the cards whose review time is reached and a number keeps the cards of that level, each with every copy of it; a value that is not a number keeps nothing |
| Decks.CreateDeck | js/decks.js:5-13 | a new deck has a trimmed name and description, and no cards |
| Decks.ValidateDeckName | js/decks.js:16-34 | blank iff the name is all whitespace; taken iff some other deck's name equals the trimmed name ignoring case; valid otherwise |
| Decks.GetDeck | js/decks.js:37-39 | absent iff no deck has the id; otherwise the first deck with it |
| Decks.UpdateDeck | js/decks.js:42-57 | absent iff the id is unknown; otherwise id, creation time and count are kept, a non-empty name is trimmed in, and a supplied description is trimmed in |
| Decks.ReplaceDeckById | js/app.js:231 | every deck with the id becomes the replacement; every other deck is kept in place |
| Decks.DeleteDeck | js/decks.js:60-62 | every deck with the id is removed; the rest are kept with their multiplicities, in order |
| Decks.DeleteDeckWithCards | js/decks.js:65-77 | the deck and every card of it are removed; every other deck and card is kept with its multiplicity, in order |
| Decks.CascadeKeepsOtherCounts | js/decks.js:65-77 | the cascade keeps the card count of every other deck |
| Decks.GetDecksWithCounts | js/decks.js:80-91 | the decks keep their order and fields, and every count equals the number of cards in that deck |
| Decks.UpdateDeckCardCount | js/decks.js:94-106 | false iff no deck has the id; otherwise only the first deck with it changes, and only its count, which becomes the number of its cards |
| Decks.RecountAccurateIsIdentity | js/decks.js:94-106 | recounting a deck whose counts are accurate changes nothing |
| Decks.CreateValidatedKeepsNamesDistinct | js/decks.js:16-34 | adding a deck whose name passed validation keeps all names distinct, ignoring case |
| Decks.RenameValidatedKeepsNamesDistinct | js/app.js:219-231 | the edit dialog's validate, update and persist steps keep all names distinct, ignoring case |
| Study.InitialIsValid | js/app.js:657-668 | the initial session satisfies the session invariant |
| Study.StartStudySession | js/app.js:671-705 | with no due card in the deck nothing changes, a running session included; otherwise a session on the due cards replaces any previous one, unflipped at the first card, with a zero tally whose total is the number of due cards, and the study view shows with the keyboard listener attached |
| Study.FlipCard | js/app.js:738-748 | the answer side shows afterwards, nothing else changes, and a second flip has no effect |
| Study.HandleReviewAnswer | js/app.js:751-780 | before the flip, or with no card left, nothing changes; otherwise the snapshot card's review replaces every stored card with its id, one counter rises, the cursor advances, and exactly when the last card was answered the listener is detached and the study view closes, leaving the card flipped; before that the view and the listener are left as they were |
| Study.Abandon | js/app.js:848-854 | a confirmed Escape detaches the listener and closes the study view; an unconfirmed one changes nothing; the session and the cards stay as they are |
| Study.LeaveStudyView | js/app.js:584-598 | opening another view hides the study view but keeps the listener, the session and the cards |
| Study.StepPreservesValid | js/app.js:657-780 | every event keeps the session invariant: cursor within the snapshot, total equal to the snapshot's size, one count per card passed, the study view shown only while the listener is attached, and the listener attached only while a card remains |
| Study.StepKeepsSnapshot | js/app.js:738-780 | no event but a start replaces the session's cards or deck |
| Study.StartReplacesRunningSession | js/app.js:671-705 | a start with due cards resets the cursor and the tally whatever session was running |
| Study.HiddenSessionStillAnswers | js/app.js:823-846 | after the study view is left for another deck, an arrow key still answers the hidden session's card and stores the review, exactly as with the view shown |
| Study.AbandonChangesNoCard | js/app.js:848-854 | leaving a session with Escape changes no card and no part of the session, and a confirmed Escape detaches the listener |
| Study.RunCompletes | js/app.js:751-780 | flipping and answering every remaining card from the keyboard closes the session and detaches the listener, whether or not the view shows, with one correct count per positive answer and the tally adding up to the total |
| Study.NewCardKnownOnce | js/app.js:671-780 | a lone due card studied once and known gives a one-card session, then a closed session with tally 1 correct out of 1 and the card promoted |
| Study.KnownOnceSchedule | js/learning.js:66-82 | a level-1 card answered correctly moves to level 2, next shown three days on |
| Study.MasteredCardMissedResets | js/learning.js:89-104 | a level-3 card answered wrong in a session is stored at level 1, next shown the following day |
| Storage.ExportDeck | js/storage.js:163-180 | fails iff no deck has the id; otherwise version "1.0", the first deck with the id, and exactly that deck's stored cards in stored order |
| Storage.CandidateInjective | js/storage.js:203 | different counters give different `name (k)` candidates |
| Storage.CandidatesBound | js/storage.js:202-205 | if the candidates 2 to `k - 1` are all taken, there are at least `k - 2` names |
| Storage.FirstFree | js/storage.js:202-205 | the counter found is free and every counter before it is taken, so the search terminates |
| Storage.DedupName | js/storage.js:198-205 | the name is taken by no deck; it is the imported name if that is free, else `name (k)` for the smallest free `k >= 2` |
| Storage.SmallestFreeIsUnique | js/storage.js:198-205 | a free candidate preceded only by taken ones is the one chosen |
| Storage.DedupNameLoop | js/storage.js:198-205 | the source's while loop computes the chosen name |
| Storage.Rehome | js/storage.js:221-231 | each imported card gets its fresh id, the new deck and the import time, and keeps its text and every scheduling field |
| Storage.ImportDeck | js/storage.js:187-249 | fails iff the deck is missing or the cards are not an array; otherwise the renamed deck, with fresh id, import time and imported card count, is appended, and the re-homed cards follow the stored cards |
| Storage.ImportKeepsCountsAccurate | js/storage.js:209-238 | an import under an unused deck id keeps every deck's count accurate |
| Storage.ImportedDeckHoldsImportedCards | js/storage.js:221-238 | the new deck holds exactly the imported cards, re-homed, in file order |
| Storage.ImportKeepsOtherDecks | js/storage.js:234-238 | every other deck's cards are unchanged |
| Storage.ExportImportRoundTrip | js/storage.js:163-249 | importing a deck's export into the same store adds a copy named `name (k)`, holding the exported cards re-homed in order, and leaves the original deck's cards unchanged |
| Storage.ImportMayClashIgnoringCase | js/storage.js:198-205 | the import's exact name comparison lets in a deck whose name differs from an existing one only in case, which `validateDeckName` would have refused |

## Left out

- Rendering, modals, `showView`, button wiring, `escapeHtml` and the
  progress text: these are UI, not logic. The views are reduced to whether
  the study view shows, and the keyboard wiring to whether the study
  listener is attached.
- `alert` and `confirm`: the user's answer to the Escape confirmation is
  the `confirmed` parameter.
- Key dispatch in `handleStudyKeyboard`: Space, the arrows and Escape are
  the `FlipKey`, `AnswerKey` and `EscapeKey` events of `Study.Step`. A key
  typed into an input field is ignored by the source, so it is no event.
- The page markup (index.html) is not part of this model. Which controls
  can be clicked while the study view shows is read from js/app.js alone.
  `Study.Step` lets the Study button start a session at any time, and
  lets the deck list be opened at any time.
- Edits made between study events, through the deck view, are not events
  of `Study.Step`: a session's stored cards change only by its own answers.
- `localStorage` I/O: loading, saving, JSON parsing, quota handling and
  `getStorageUsage`. The store is an in-memory value.
- `downloadJSON` and `setupStorageSync`: browser file download and
  cross-tab events.
- `debounce` and `getLevelDisplay`: a timer and presentation.
- Session duration and the correct percentage of `endStudySession`: these
  use wall-clock time and floating-point rounding.
- Real `Date` semantics: time zones, daylight-saving days of 23 or 25
  hours, and ISO-8601 formatting and parsing. Every day lasts 86 400 000
  ms.
- `crypto.randomUUID`: fresh ids are parameters, and their freshness is a
  precondition where a lemma needs it.
- `Text.Lower`: folds only the ASCII letters A-Z. Unicode case mapping is
  not modelled.
- Cards.UpdateCard: models edits of `front` and `back` only. The source
  also copies any other key of the edit into the card, a moved `deckId`
  included.
- Decks.UpdateDeck: models edits of `name` and `description` only, for the
  same reason.
- Cards.FilterCardsByLevel: takes the select element's value as a
  `LevelFilter`. Every falsy argument, the number `0` included, maps to
  `Unset` and returns every card, as in the source. Numbers and numeric
  strings that `parseInt` reads map to `ExactLevel`.
- Storage.ImportDeck: takes a well-formed `Deck` and `Card` records. JSON
  with missing or mistyped fields inside the deck or the cards is not
  modelled, and neither are the extra keys the source copies through.
- Storage.ImportDeck: the source's `catch` of unexpected exceptions is not
  modelled. None can arise from the modelled inputs.
- Study.HandleReviewAnswer: with no current card, the source throws a
  `TypeError` before changing anything. The model returns the state
  unchanged. `Study.Step` cannot reach that case from a valid state.
