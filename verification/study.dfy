/** The study session of js/app.js with the DOM, dialogs and timers taken
    out: a session record and the transitions the user drives (start,
    flip, answer, leave). The page-wide `studySession` variable, the stored
    cards, whether the study view is showing and whether the study keyboard
    listener is attached form one explicit `App` value that every
    transition takes and returns. */
module Study {
  import opened Wrappers
  import opened Seqs
  import opened DateMath
  import opened Cards
  import opened Learning

  datatype Stats = Stats(correct: nat, incorrect: nat, total: nat, startTime: Option<Timestamp>)

  /** `studySession`: the cards fixed at start, the cursor, whether the answer
      side of the current card is showing, and the running tally. */
  datatype Session = Session(deckId: Option<Id>, cards: seq<Card>, currentIndex: nat, isFlipped: bool, stats: Stats)

  /** The value `studySession` holds before any session was started. */
  const InitialSession: Session := Session(None, [], 0, false, Stats(0, 0, 0, None))

  /** `studyShown`: the study view, and so its buttons, is the view showing.
      `listening`: `handleStudyKeyboard` is attached to the document. The
      two part ways when the user opens a deck from the deck list during a
      session: the view changes but the listener stays. */
  datatype App = App(studyShown: bool, listening: bool, session: Session, cards: seq<Card>)

  /** The page as it loads: no session, no study view, no listener. */
  function InitialApp(cards: seq<Card>): App {
    App(false, false, InitialSession, cards)
  }

  /** Every card has been answered. */
  predicate Completed(s: Session) {
    s.currentIndex >= |s.cards|
  }

  /** The invariant of a session: the cursor stays within the snapshot, the
      total is the snapshot's size, every card passed has been counted once,
      the study view only shows while the listener is attached, and the
      listener is only attached while a card remains. */
  predicate Valid(app: App) {
    var s := app.session;
    && s.currentIndex <= |s.cards|
    && s.stats.total == |s.cards|
    && s.stats.correct + s.stats.incorrect == s.currentIndex
    && (app.studyShown ==> app.listening)
    && (app.listening ==> s.currentIndex < |s.cards|)
  }

  lemma InitialIsValid(cards: seq<Card>)
    ensures Valid(InitialApp(cards))
  {
  }

  /** `startStudySession`: with no due cards nothing changes (the source
      shows an alert and returns), not even a running session; otherwise a
      fresh session over the due cards replaces whatever session there was,
      and the study view shows with the listener attached (attaching it
      twice attaches it once). */
  function StartStudySession(app: App, deckId: Id, now: Timestamp): (r: App)
    ensures r.cards == app.cards
    ensures (forall c :: c in app.cards && c.deckId == deckId ==> !IsCardDue(c, now)) ==> r == app
    ensures (exists c :: c in app.cards && c.deckId == deckId && IsCardDue(c, now)) ==>
      && r.studyShown && r.listening
      && r.session.deckId == Some(deckId)
      && r.session.cards == GetDueCards(deckId, app.cards, now)
      && r.session.currentIndex == 0
      && !r.session.isFlipped
      && r.session.stats == Stats(0, 0, |r.session.cards|, Some(now))
      && |r.session.cards| > 0
  {
    var due := GetDueCards(deckId, app.cards, now);
    if |due| == 0 then
      app
    else
      App(true, true, Session(Some(deckId), due, 0, false, Stats(0, 0, |due|, Some(now))), app.cards)
  }

  /** `flipCard`: reveals the answer; a second flip does nothing. */
  function FlipCard(app: App): (r: App)
    ensures r.session.isFlipped
    ensures r.session == app.session.(isFlipped := true)
    ensures r.studyShown == app.studyShown && r.listening == app.listening && r.cards == app.cards
    ensures app.session.isFlipped ==> r == app
  {
    if app.session.isFlipped then app else app.(session := app.session.(isFlipped := true))
  }

  /** `handleReviewAnswer`. Before the flip it is ignored. With no current
      card the source throws before changing anything, so nothing changes.
      Otherwise the current card of the snapshot is reviewed, written back
      over every stored card with its id, counted, and the cursor advances.
      Past the last card `endStudySession` detaches the listener and shows
      the deck view, leaving `isFlipped` set; else the next card is set up
      unflipped, and the view is left as it was. */
  function HandleReviewAnswer(app: App, isCorrect: bool, now: Timestamp): (r: App)
    ensures !app.session.isFlipped || Completed(app.session) ==> r == app
    ensures app.session.isFlipped && !Completed(app.session) ==>
      var s := app.session;
      var card := s.cards[s.currentIndex];
      && r.session.cards == s.cards
      && r.session.deckId == s.deckId
      && r.session.currentIndex == s.currentIndex + 1
      && r.session.stats.total == s.stats.total
      && r.session.stats.startTime == s.stats.startTime
      && (isCorrect ==> r.session.stats.correct == s.stats.correct + 1 && r.session.stats.incorrect == s.stats.incorrect)
      && (!isCorrect ==> r.session.stats.incorrect == s.stats.incorrect + 1 && r.session.stats.correct == s.stats.correct)
      && |r.cards| == |app.cards|
      && (forall i :: 0 <= i < |app.cards| && app.cards[i].id != card.id ==> r.cards[i] == app.cards[i])
      && (forall i :: 0 <= i < |app.cards| && app.cards[i].id == card.id ==> r.cards[i] == Review(card, isCorrect, now))
      && (Completed(r.session) ==> !r.listening && !r.studyShown && r.session.isFlipped)
      && (!Completed(r.session) ==>
            r.listening == app.listening && r.studyShown == app.studyShown && !r.session.isFlipped)
  {
    var s := app.session;
    if !s.isFlipped then app
    else if s.currentIndex >= |s.cards| then app
    else
      var card := s.cards[s.currentIndex];
      var updated := Review(card, isCorrect, now);
      var stats := if isCorrect then s.stats.(correct := s.stats.correct + 1)
                   else s.stats.(incorrect := s.stats.incorrect + 1);
      var cards := ReplaceById(app.cards, card.id, updated);
      var next := s.(currentIndex := s.currentIndex + 1, stats := stats);
      if next.currentIndex >= |next.cards| then
        App(false, false, next, cards)
      else
        app.(session := next.(isFlipped := false), cards := cards)
  }

  /** The Escape branch of `handleStudyKeyboard`: when the user confirms, the
      listener is detached and the deck view shows; the session record and
      the cards are left as they are. */
  function Abandon(app: App, confirmed: bool): (r: App)
    ensures r.session == app.session && r.cards == app.cards
    ensures confirmed ==> !r.studyShown && !r.listening
    ensures !confirmed ==> r == app
  {
    if confirmed then app.(studyShown := false, listening := false) else app
  }

  /** Opening a deck from the deck list (`selectDeck`, or the welcome view
      after a deck is deleted): `showView` hides the study view but leaves
      the listener attached. */
  function LeaveStudyView(app: App): (r: App)
    ensures !r.studyShown
    ensures r.listening == app.listening && r.session == app.session && r.cards == app.cards
  {
    app.(studyShown := false)
  }

  /** What the user can do. The Study button of the selected deck is
      modelled as always available; the study view's buttons act only
      while it shows; the keys act while the listener is attached, whatever
      view shows. Space flips only an unflipped card, the arrows answer only
      a flipped one. */
  datatype Event =
    | Start(deckId: Id, now: Timestamp)
    | LeaveView
    | FlipButton
    | AnswerButton(isCorrect: bool, now: Timestamp)
    | FlipKey
    | AnswerKey(isCorrect: bool, now: Timestamp)
    | EscapeKey(confirmed: bool)

  function Step(app: App, e: Event): App {
    match e
    case Start(deckId, now) => StartStudySession(app, deckId, now)
    case LeaveView => LeaveStudyView(app)
    case FlipButton => if app.studyShown then FlipCard(app) else app
    case AnswerButton(isCorrect, now) => if app.studyShown then HandleReviewAnswer(app, isCorrect, now) else app
    case FlipKey => if app.listening && !app.session.isFlipped then FlipCard(app) else app
    case AnswerKey(isCorrect, now) =>
      if app.listening && app.session.isFlipped then HandleReviewAnswer(app, isCorrect, now) else app
    case EscapeKey(confirmed) => if app.listening then Abandon(app, confirmed) else app
  }

  /** Every event keeps the session invariant. */
  lemma StepPreservesValid(app: App, e: Event)
    requires Valid(app)
    ensures Valid(Step(app, e))
  {
    match e
    case Start(deckId, now) =>
      var due := GetDueCards(deckId, app.cards, now);
      if |due| > 0 { assert due[0] in due; }
    case _ =>
  }

  /** Only a start replaces the snapshot of cards. */
  lemma StepKeepsSnapshot(app: App, e: Event)
    requires !e.Start?
    ensures Step(app, e).session.cards == app.session.cards
    ensures Step(app, e).session.deckId == app.session.deckId
  {
  }

  /** A start with due cards replaces a running session, however far it got. */
  lemma StartReplacesRunningSession(app: App, deckId: Id, now: Timestamp)
    requires exists c :: c in app.cards && c.deckId == deckId && IsCardDue(c, now)
    ensures var r := Step(app, Start(deckId, now));
      && r.session.currentIndex == 0
      && r.session.stats.correct == 0 && r.session.stats.incorrect == 0
      && r.session.cards == GetDueCards(deckId, app.cards, now)
  {
  }

  /** Leaving the session with Escape changes no card and keeps the
      session's tally. */
  lemma AbandonChangesNoCard(app: App, confirmed: bool)
    ensures Step(app, EscapeKey(confirmed)).cards == app.cards
    ensures Step(app, EscapeKey(confirmed)).session == app.session
    ensures app.listening && confirmed ==> !Step(app, EscapeKey(confirmed)).listening
  {
  }

  /** Opening another deck during a session leaves the listener attached, so
      an arrow key still answers the hidden session's card and stores the
      review, exactly as it would have with the study view showing. */
  lemma HiddenSessionStillAnswers(app: App, isCorrect: bool, now: Timestamp)
    requires Valid(app) && app.listening && app.session.isFlipped
    ensures var hidden := Step(app, LeaveView);
      && !hidden.studyShown
      && Step(hidden, AnswerKey(isCorrect, now)).cards == Step(app, AnswerKey(isCorrect, now)).cards
      && Step(hidden, AnswerKey(isCorrect, now)).session == Step(app, AnswerKey(isCorrect, now)).session
      && var card := app.session.cards[app.session.currentIndex];
         forall i :: 0 <= i < |app.cards| && app.cards[i].id == card.id ==>
           Step(hidden, AnswerKey(isCorrect, now)).cards[i] == Review(card, isCorrect, now)
  {
  }

  /** Flipping and answering every remaining card: the user's answers in order. */
  function Run(app: App, answers: seq<bool>, now: Timestamp): App
    decreases |answers|
  {
    if |answers| == 0 then app
    else Run(Step(Step(app, FlipKey), AnswerKey(answers[0], now)), answers[1..], now)
  }

  function CountTrue(s: seq<bool>): nat {
    if |s| == 0 then 0 else (if s[0] then 1 else 0) + CountTrue(s[1..])
  }

  /** Answering every remaining card of a session from the keyboard,
      flipping each first, completes it whether or not the study view shows:
      the listener is detached, the deck view shows, and the tally adds up
      to the total, one count per answer. */
  lemma {:induction false} RunCompletes(app: App, answers: seq<bool>, now: Timestamp)
    requires Valid(app) && app.listening
    requires |answers| == |app.session.cards| - app.session.currentIndex
    ensures var r := Run(app, answers, now);
      && Valid(r)
      && !r.listening && !r.studyShown
      && Completed(r.session)
      && r.session.cards == app.session.cards
      && r.session.stats.correct == app.session.stats.correct + CountTrue(answers)
      && r.session.stats.correct + r.session.stats.incorrect == r.session.stats.total
    decreases |answers|
  {
    var next := Step(Step(app, FlipKey), AnswerKey(answers[0], now));
    StepPreservesValid(app, FlipKey);
    StepPreservesValid(Step(app, FlipKey), AnswerKey(answers[0], now));
    if |answers| > 1 {
      RunCompletes(next, answers[1..], now);
    } else {
      assert answers[1..] == [];
    }
  }

  /** A fresh card studied once and known: one card in the session, level 2,
      next review three days on, session complete with one correct answer. */
  lemma NewCardKnownOnce(card: Card, now: Timestamp)
    requires card.level == 1 && IsCardDue(card, now)
    ensures var started := Step(InitialApp([card]), Start(card.deckId, now));
      var done := Step(Step(started, FlipButton), AnswerButton(true, now));
      && started.session.cards == [card]
      && !done.studyShown && !done.listening
      && done.cards == [MarkCorrect(card, now)]
      && done.session.stats == Stats(1, 0, 1, Some(now))
  {
    StartOne(card, now);
    var started := App(true, true, Session(Some(card.deckId), [card], 0, false, Stats(0, 0, 1, Some(now))), [card]);
    var flipped := started.(session := started.session.(isFlipped := true));
    assert Step(started, FlipButton) == flipped;
    AnswerOnly(flipped, now);
  }

  /** Starting on a lone due card opens a session of that card. */
  lemma StartOne(card: Card, now: Timestamp)
    requires IsCardDue(card, now)
    ensures Step(InitialApp([card]), Start(card.deckId, now))
            == App(true, true, Session(Some(card.deckId), [card], 0, false, Stats(0, 0, 1, Some(now))), [card])
  {
    DueOfOne(card, now);
  }

  lemma AnswerOnly(app: App, now: Timestamp)
    requires app.studyShown && app.session.isFlipped
    requires app.cards == app.session.cards && |app.cards| == 1 && app.session.currentIndex == 0
    ensures var done := Step(app, AnswerButton(true, now));
      && !done.studyShown && !done.listening
      && done.cards == [MarkCorrect(app.cards[0], now)]
      && done.session.stats == app.session.stats.(correct := app.session.stats.correct + 1)
  {
    var card := app.cards[0];
    assert ReplaceById([card], card.id, MarkCorrect(card, now)) == [MarkCorrect(card, now)];
  }

  /** The card of the run above ends at level 2, next shown three days on. */
  lemma KnownOnceSchedule(card: Card, now: Timestamp)
    requires card.level == 1
    ensures var r := MarkCorrect(card, now);
      r.level == 2 && Day(r.nextReview.value) == Day(now) + 3
  {
  }

  /** A lone due card is the whole session. */
  lemma DueOfOne(card: Card, now: Timestamp)
    requires IsCardDue(card, now)
    ensures GetDueCards(card.deckId, [card], now) == [card]
  {
    var p := (c: Card) => IsDueIn(c, card.deckId, now);
    FilterCons([card], p);
    assert Filter([card], p) == [card];
    assert SortByLevel([card]) == InsertByLevel(card, SortByLevel([]));
  }

  /** A level-3 card answered wrong drops to level 1, due the next day. */
  lemma MasteredCardMissedResets(app: App, now: Timestamp)
    requires Valid(app) && app.listening && app.session.isFlipped
    requires app.session.cards[app.session.currentIndex].level == 3
    ensures var card := app.session.cards[app.session.currentIndex];
      var r := Step(app, AnswerKey(false, now));
      forall i :: 0 <= i < |r.cards| && app.cards[i].id == card.id ==>
        r.cards[i].level == 1 && Day(r.cards[i].nextReview.value) == Day(now) + 1
  {
  }
}
