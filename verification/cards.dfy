/** js/cards.js: the card record and the pure operations on a collection of
    cards. The collection is the sequence the source keeps in storage; each
    operation returns a new sequence or card and never changes its input.
    Identifiers that the source draws from `crypto.randomUUID` and the
    current time are parameters. */
module Cards {
  import opened Wrappers
  import opened Seqs
  import opened Text
  import opened DateMath

  type Id = string

  /** A reviewable card. `correctCount`, `lastReviewed` and `nextReview` may be
      absent in stored data; `level` is any integer, although the scheduler
      only ever produces 1, 2 or 3. */
  datatype Card = Card(
    id: Id,
    deckId: Id,
    front: string,
    back: string,
    level: int,
    correctCount: Option<nat>,
    lastReviewed: Option<Timestamp>,
    nextReview: Option<Timestamp>,
    created: Timestamp)

  /** `createCard`: a new card at level 1, never reviewed, due immediately,
      holding the trimmed text. */
  function CreateCard(id: Id, deckId: Id, front: string, back: string, now: Timestamp): (c: Card)
    ensures c.id == id && c.deckId == deckId && c.created == now
    ensures c.level == 1 && c.correctCount == Some(0) && c.lastReviewed == None
    ensures c.nextReview == Some(now)
    ensures c.front == Trim(front) && c.back == Trim(back)
  {
    Card(id, deckId, Trim(front), Trim(back), 1, Some(0), None, Some(now), now)
  }

  datatype CardError = FrontEmpty | BackEmpty

  datatype CardValidation = ValidCard | InvalidCard(error: CardError)

  /** `validateCard`: both sides must hold something besides whitespace; an
      empty front is reported before an empty back. */
  function ValidateCard(front: string, back: string): (r: CardValidation)
    ensures r == ValidCard <==> !AllWhitespace(front) && !AllWhitespace(back)
    ensures r == InvalidCard(FrontEmpty) <==> AllWhitespace(front)
    ensures r == InvalidCard(BackEmpty) <==> !AllWhitespace(front) && AllWhitespace(back)
  {
    if |Trim(front)| == 0 then InvalidCard(FrontEmpty)
    else if |Trim(back)| == 0 then InvalidCard(BackEmpty)
    else ValidCard
  }

  /** A card created from text that passed validation has non-empty,
      already-trimmed sides. */
  lemma ValidatedCardHasText(id: Id, deckId: Id, front: string, back: string, now: Timestamp)
    requires ValidateCard(front, back) == ValidCard
    ensures var c := CreateCard(id, deckId, front, back, now);
      && |c.front| > 0 && |c.back| > 0
      && Trim(c.front) == c.front && Trim(c.back) == c.back
      && ValidateCard(c.front, c.back) == ValidCard
  {
    TrimIdempotent(front);
    TrimIdempotent(back);
  }

  /** `getCard`: the first card with the given id, if any. */
  function GetCard(id: Id, cards: seq<Card>): (r: Option<Card>)
    ensures r.None? <==> forall c :: c in cards ==> c.id != id
    ensures r.Some? ==> r.value in cards && r.value.id == id
    ensures r.Some? ==> exists i :: 0 <= i < |cards| && cards[i] == r.value
                                    && forall j :: 0 <= j < i ==> cards[j].id != id
  {
    Find(cards, (c: Card) => c.id == id)
  }

  /** `getCardsByDeck`: the cards of one deck, in stored order. */
  function GetCardsByDeck(deckId: Id, cards: seq<Card>): (r: seq<Card>)
    ensures forall c :: c in r <==> c in cards && c.deckId == deckId
    ensures forall c :: multiset(r)[c] == if c.deckId == deckId then multiset(cards)[c] else 0
    ensures IsSubseq(r, cards)
  {
    FilterSpec(cards, (c: Card) => c.deckId == deckId);
    Filter(cards, (c: Card) => c.deckId == deckId)
  }

  /** The number of cards in a deck, as the deck list and `updateDeckCardCount` compute it. */
  function CountInDeck(deckId: Id, cards: seq<Card>): nat {
    |GetCardsByDeck(deckId, cards)|
  }

  /** The fields an edit may supply; an absent field is `undefined`. */
  datatype CardEdit = CardEdit(front: Option<string>, back: Option<string>)

  /** `updateCard`: the stored card with the supplied text trimmed in; every
      scheduling field, the id and the creation time are kept. Absent id gives
      `null`. */
  function UpdateCard(id: Id, edit: CardEdit, cards: seq<Card>): (r: Option<Card>)
    ensures r.None? <==> GetCard(id, cards).None?
    ensures r.Some? ==> var prior := GetCard(id, cards).value;
      && r.value.id == prior.id == id
      && r.value.deckId == prior.deckId
      && r.value.created == prior.created
      && r.value.level == prior.level
      && r.value.correctCount == prior.correctCount
      && r.value.lastReviewed == prior.lastReviewed
      && r.value.nextReview == prior.nextReview
      && r.value.front == (if edit.front.Some? then Trim(edit.front.value) else prior.front)
      && r.value.back == (if edit.back.Some? then Trim(edit.back.value) else prior.back)
  {
    match GetCard(id, cards)
    case None => None
    case Some(c) =>
      Some(c.(
        front := if edit.front.Some? then Trim(edit.front.value) else c.front,
        back := if edit.back.Some? then Trim(edit.back.value) else c.back))
  }

  /** `cards.map(c => c.id === id ? updated : c)`: the persistence step after
      an edit or a review. */
  function ReplaceById(cards: seq<Card>, id: Id, updated: Card): (r: seq<Card>)
    ensures |r| == |cards|
    ensures forall i :: 0 <= i < |cards| && cards[i].id != id ==> r[i] == cards[i]
    ensures forall i :: 0 <= i < |cards| && cards[i].id == id ==> r[i] == updated
  {
    ReplaceWhere(cards, (c: Card) => c.id == id, updated)
  }

  /** Replacing a card by one with the same id and deck keeps every deck's size. */
  lemma {:induction false} ReplaceKeepsDeckCounts(cards: seq<Card>, id: Id, updated: Card, deckId: Id)
    requires forall i :: 0 <= i < |cards| && cards[i].id == id ==> cards[i].deckId == updated.deckId
    ensures CountInDeck(deckId, ReplaceById(cards, id, updated)) == CountInDeck(deckId, cards)
    decreases |cards|
  {
    if |cards| > 0 {
      var r := ReplaceById(cards, id, updated);
      var p := (c: Card) => c.deckId == deckId;
      assert r[0].deckId == cards[0].deckId;
      ReplaceKeepsDeckCounts(cards[1..], id, updated, deckId);
      assert ReplaceById(cards[1..], id, updated) == r[1..];
      FilterCons(cards, p);
      FilterCons(r, p);
    }
  }

  /** Editing a card's text neither moves it between decks nor changes its
      schedule, and editing twice with the same text is editing once. */
  lemma UpdateCardIdempotent(id: Id, edit: CardEdit, cards: seq<Card>)
    requires UpdateCard(id, edit, cards).Some?
    ensures var c := UpdateCard(id, edit, cards).value;
      UpdateCard(id, edit, ReplaceById(cards, id, c)) == Some(c)
  {
    var c := UpdateCard(id, edit, cards).value;
    var r := ReplaceById(cards, id, c);
    var i := FindIndex(cards, (x: Card) => x.id == id).value;
    assert r[i] == c;
    assert GetCard(id, r) == Some(c);
    if edit.front.Some? { TrimIdempotent(edit.front.value); }
    if edit.back.Some? { TrimIdempotent(edit.back.value); }
  }

  /** `deleteCard`: every card with that id goes, all others stay in order. */
  function DeleteCard(id: Id, cards: seq<Card>): (r: seq<Card>)
    ensures forall c :: c in r <==> c in cards && c.id != id
    ensures forall c :: multiset(r)[c] == if c.id != id then multiset(cards)[c] else 0
    ensures IsSubseq(r, cards)
  {
    FilterSpec(cards, (c: Card) => c.id != id);
    Filter(cards, (c: Card) => c.id != id)
  }

  /** `deleteCardsByDeckId`: the cascade half of deleting a deck; exactly the
      deck's cards go. */
  function DeleteCardsByDeckId(deckId: Id, cards: seq<Card>): (r: seq<Card>)
    ensures forall c :: c in r <==> c in cards && c.deckId != deckId
    ensures forall c :: multiset(r)[c] == if c.deckId != deckId then multiset(cards)[c] else 0
    ensures IsSubseq(r, cards)
    ensures |r| + CountInDeck(deckId, cards) == |cards|
  {
    FilterSpec(cards, (c: Card) => c.deckId != deckId);
    FilterPartition(cards, (c: Card) => c.deckId == deckId, (c: Card) => c.deckId != deckId);
    Filter(cards, (c: Card) => c.deckId != deckId)
  }

  /** The cards of a deck and the cards left after deleting that deck's cards
      partition the collection. */
  lemma DeckCardsPartition(deckId: Id, cards: seq<Card>)
    ensures multiset(GetCardsByDeck(deckId, cards)) + multiset(DeleteCardsByDeckId(deckId, cards)) == multiset(cards)
    ensures |GetCardsByDeck(deckId, cards)| + |DeleteCardsByDeckId(deckId, cards)| == |cards|
  {
    FilterPartition(cards, (c: Card) => c.deckId == deckId, (c: Card) => c.deckId != deckId);
  }

  /** Deleting one card removes exactly the copies that carry its id. */
  lemma DeleteCardCount(id: Id, cards: seq<Card>)
    ensures |DeleteCard(id, cards)| + |Filter(cards, (c: Card) => c.id == id)| == |cards|
    ensures (forall c :: c in cards ==> c.id != id) ==> DeleteCard(id, cards) == cards
  {
    FilterPartition(cards, (c: Card) => c.id != id, (c: Card) => c.id == id);
    if forall c :: c in cards ==> c.id != id {
      FilterKeepsAll(cards, (c: Card) => c.id != id);
    }
  }

  /** The case-insensitive substring test of `searchCards`. */
  predicate MatchesQuery(c: Card, query: string) {
    Contains(Lower(c.front), Lower(query)) || Contains(Lower(c.back), Lower(query))
  }

  /** `searchCards`: a blank query returns the input; otherwise the cards in
      whose lower-cased front or back the lower-cased (untrimmed) query occurs. */
  function SearchCards(cards: seq<Card>, query: string): (r: seq<Card>)
    ensures AllWhitespace(query) ==> r == cards
    ensures !AllWhitespace(query) ==> forall c :: c in r <==> (c in cards &&
      (   (exists i :: OccursAt(Lower(c.front), Lower(query), i))
       || (exists i :: OccursAt(Lower(c.back), Lower(query), i))))
    ensures !AllWhitespace(query) ==> forall c ::
      multiset(r)[c] == if MatchesQuery(c, query) then multiset(cards)[c] else 0
    ensures multiset(r) <= multiset(cards)
    ensures IsSubseq(r, cards)
  {
    if |Trim(query)| == 0 then
      assert IsSubseq(cards, cards) by {
        FilterKeepsAll(cards, (c: Card) => true);
        FilterSpec(cards, (c: Card) => true);
      }
      cards
    else
      var r := Filter(cards, (c: Card) => MatchesQuery(c, query));
      FilterSpec(cards, (c: Card) => MatchesQuery(c, query));
      assert forall c :: multiset(r)[c] <= multiset(cards)[c];
      r
  }

  /** The choices of the level filter select element; `Unset` is the falsy
      value, `NotANumber` a value `parseInt` cannot read. */
  datatype LevelFilter = Unset | AllLevels | DueOnly | ExactLevel(level: int) | NotANumber

  /** The raw (not day-normalised) due test of the list filter. A `null`
      review date becomes the epoch, timestamp 0, as `new Date(null)` does. */
  predicate ReviewTimeReached(c: Card, now: Timestamp) {
    c.nextReview.GetOr(0) <= now
  }

  /** `filterCardsByLevel`. */
  function FilterCardsByLevel(cards: seq<Card>, f: LevelFilter, now: Timestamp): (r: seq<Card>)
    ensures f.Unset? || f.AllLevels? ==> r == cards
    ensures f.DueOnly? ==> forall c :: c in r <==> c in cards && ReviewTimeReached(c, now)
    ensures f.DueOnly? ==> forall c ::
      multiset(r)[c] == if ReviewTimeReached(c, now) then multiset(cards)[c] else 0
    ensures f.ExactLevel? ==> forall c :: c in r <==> c in cards && c.level == f.level
    ensures f.ExactLevel? ==> forall c ::
      multiset(r)[c] == if c.level == f.level then multiset(cards)[c] else 0
    ensures f.NotANumber? ==> r == []
    ensures IsSubseq(r, cards)
  {
    match f
    case Unset =>
      FilterKeepsAll(cards, (c: Card) => true);
      FilterSpec(cards, (c: Card) => true);
      cards
    case AllLevels =>
      FilterKeepsAll(cards, (c: Card) => true);
      FilterSpec(cards, (c: Card) => true);
      cards
    case DueOnly =>
      FilterSpec(cards, (c: Card) => ReviewTimeReached(c, now));
      Filter(cards, (c: Card) => ReviewTimeReached(c, now))
    case ExactLevel(n) =>
      FilterSpec(cards, (c: Card) => c.level == n);
      Filter(cards, (c: Card) => c.level == n)
    case NotANumber =>
      FilterSpec(cards, (c: Card) => false);
      Filter(cards, (c: Card) => false)
  }
}
