/** js/decks.js: the deck record, name validation and the deck operations,
    including the cascade delete and the card counts, over the two
    collections the source keeps in storage. */
module Decks {
  import opened Wrappers
  import opened Seqs
  import opened Text
  import opened DateMath
  import opened Cards

  datatype Deck = Deck(id: Id, name: string, description: string, created: Timestamp, cardCount: int)

  /** The stored data: every deck and every card. */
  datatype Store = Store(decks: seq<Deck>, cards: seq<Card>)

  /** `createDeck`: trimmed name and description, no cards yet. */
  function CreateDeck(id: Id, name: string, description: string, now: Timestamp): (d: Deck)
    ensures d.id == id && d.created == now && d.cardCount == 0
    ensures d.name == Trim(name) && d.description == Trim(description)
  {
    Deck(id, Trim(name), Trim(description), now, 0)
  }

  datatype DeckNameError = NameEmpty | NameTaken

  datatype NameValidation = ValidName | InvalidName(error: DeckNameError)

  /** Some deck other than `excludeId` already carries `name`, ignoring case. */
  predicate NameTakenBy(decks: seq<Deck>, name: string, excludeId: Option<Id>) {
    exists d :: d in decks && Some(d.id) != excludeId && Lower(d.name) == Lower(name)
  }

  /** `validateDeckName`: the trimmed name must be non-empty and differ, ignoring
      case, from the name of every deck except the one being edited. */
  function ValidateDeckName(name: string, decks: seq<Deck>, excludeId: Option<Id>): (r: NameValidation)
    ensures r == InvalidName(NameEmpty) <==> AllWhitespace(name)
    ensures r == InvalidName(NameTaken) <==> !AllWhitespace(name) && NameTakenBy(decks, Trim(name), excludeId)
    ensures r == ValidName <==> !AllWhitespace(name) && !NameTakenBy(decks, Trim(name), excludeId)
  {
    var trimmed := Trim(name);
    if |trimmed| == 0 then InvalidName(NameEmpty)
    else
      match Find(decks, (d: Deck) => Some(d.id) != excludeId && Lower(d.name) == Lower(trimmed))
      case Some(_) => InvalidName(NameTaken)
      case None => ValidName
  }

  /** `getDeck`: the first deck with the given id, if any. */
  function GetDeck(id: Id, decks: seq<Deck>): (r: Option<Deck>)
    ensures r.None? <==> forall d :: d in decks ==> d.id != id
    ensures r.Some? ==> r.value in decks && r.value.id == id
    ensures r.Some? ==> exists i :: 0 <= i < |decks| && decks[i] == r.value
                                    && forall j :: 0 <= j < i ==> decks[j].id != id
  {
    Find(decks, (d: Deck) => d.id == id)
  }

  /** The fields an edit may supply; an absent field is `undefined`. */
  datatype DeckEdit = DeckEdit(name: Option<string>, description: Option<string>)

  /** `updateDeck`: id, creation time and card count are kept; an absent or
      empty name keeps the old one, a supplied description is trimmed in.
      Absent id gives `null`. */
  function UpdateDeck(id: Id, edit: DeckEdit, decks: seq<Deck>): (r: Option<Deck>)
    ensures r.None? <==> GetDeck(id, decks).None?
    ensures r.Some? ==> var prior := GetDeck(id, decks).value;
      && r.value.id == prior.id == id
      && r.value.created == prior.created
      && r.value.cardCount == prior.cardCount
      && r.value.name == (if edit.name.Some? && edit.name.value != "" then Trim(edit.name.value) else prior.name)
      && r.value.description == (if edit.description.Some? then Trim(edit.description.value) else prior.description)
  {
    match GetDeck(id, decks)
    case None => None
    case Some(d) =>
      Some(d.(
        name := if edit.name.Some? && edit.name.value != "" then Trim(edit.name.value) else d.name,
        description := if edit.description.Some? then Trim(edit.description.value) else d.description))
  }

  /** `decks.map(d => d.id === id ? updated : d)`, as the edit dialog persists an update. */
  function ReplaceDeckById(decks: seq<Deck>, id: Id, updated: Deck): (r: seq<Deck>)
    ensures |r| == |decks|
    ensures forall i :: 0 <= i < |decks| && decks[i].id != id ==> r[i] == decks[i]
    ensures forall i :: 0 <= i < |decks| && decks[i].id == id ==> r[i] == updated
  {
    ReplaceWhere(decks, (d: Deck) => d.id == id, updated)
  }

  /** `deleteDeck`: every deck with that id goes, all others stay in order. */
  function DeleteDeck(id: Id, decks: seq<Deck>): (r: seq<Deck>)
    ensures forall d :: d in r <==> d in decks && d.id != id
    ensures forall d :: multiset(r)[d] == if d.id != id then multiset(decks)[d] else 0
    ensures IsSubseq(r, decks)
  {
    FilterSpec(decks, (d: Deck) => d.id != id);
    Filter(decks, (d: Deck) => d.id != id)
  }

  /** `deleteDeckWithCards`: the deck and every card in it are removed;
      every other deck and card is kept, in order. */
  function DeleteDeckWithCards(deckId: Id, store: Store): (r: Store)
    ensures forall d :: d in r.decks <==> d in store.decks && d.id != deckId
    ensures forall c :: c in r.cards <==> c in store.cards && c.deckId != deckId
    ensures forall d :: multiset(r.decks)[d] == if d.id != deckId then multiset(store.decks)[d] else 0
    ensures forall c :: multiset(r.cards)[c] == if c.deckId != deckId then multiset(store.cards)[c] else 0
    ensures IsSubseq(r.decks, store.decks) && IsSubseq(r.cards, store.cards)
  {
    Store(DeleteDeck(deckId, store.decks), DeleteCardsByDeckId(deckId, store.cards))
  }

  /** The cascade leaves the card count of every remaining deck unchanged. */
  lemma CascadeKeepsOtherCounts(deckId: Id, store: Store, other: Id)
    requires other != deckId
    ensures CountInDeck(other, DeleteDeckWithCards(deckId, store).cards) == CountInDeck(other, store.cards)
  {
    FilterFilter(store.cards, (c: Card) => c.deckId != deckId, (c: Card) => c.deckId == other,
                 (c: Card) => c.deckId == other);
  }

  /** Every deck's stored count agrees with the cards. */
  predicate CountsAccurate(decks: seq<Deck>, cards: seq<Card>) {
    forall i :: 0 <= i < |decks| ==> decks[i].cardCount == CountInDeck(decks[i].id, cards)
  }

  /** `a` and `b` agree on every field but the card count. */
  predicate SameDeckButCount(a: Deck, b: Deck) {
    a.id == b.id && a.name == b.name && a.description == b.description && a.created == b.created
  }

  /** `getDecksWithCounts`: the decks in order, each with its card count recomputed. */
  function GetDecksWithCounts(decks: seq<Deck>, cards: seq<Card>): (r: seq<Deck>)
    ensures |r| == |decks|
    ensures forall i :: 0 <= i < |decks| ==> SameDeckButCount(r[i], decks[i])
    ensures CountsAccurate(r, cards)
  {
    seq(|decks|, i requires 0 <= i < |decks| => decks[i].(cardCount := CountInDeck(decks[i].id, cards)))
  }

  /** `updateDeckCardCount`: recounts the first deck with that id; `false`
      (here `None`) when there is none. */
  function UpdateDeckCardCount(deckId: Id, decks: seq<Deck>, cards: seq<Card>): (r: Option<seq<Deck>>)
    ensures r.None? <==> forall d :: d in decks ==> d.id != deckId
    ensures r.Some? ==> |r.value| == |decks|
    ensures r.Some? ==>
      exists i ::
        && 0 <= i < |decks| && decks[i].id == deckId
        && (forall j :: 0 <= j < i ==> decks[j].id != deckId)
        && r.value[i] == decks[i].(cardCount := CountInDeck(deckId, cards))
        && (forall j :: 0 <= j < |decks| && j != i ==> r.value[j] == decks[j])
  {
    match FindIndex(decks, (d: Deck) => d.id == deckId)
    case None => None
    case Some(i) =>
      var r := decks[i := decks[i].(cardCount := CountInDeck(deckId, cards))];
      assert decks[i] in decks;
      Some(r)
  }

  /** Recounting a deck whose count is already accurate changes nothing. */
  lemma RecountAccurateIsIdentity(deckId: Id, decks: seq<Deck>, cards: seq<Card>)
    requires CountsAccurate(decks, cards)
    requires exists d :: d in decks && d.id == deckId
    ensures UpdateDeckCardCount(deckId, decks, cards) == Some(decks)
  {
    var i := FindIndex(decks, (d: Deck) => d.id == deckId).value;
    assert decks[i := decks[i].(cardCount := CountInDeck(deckId, cards))] == decks;
  }

  /** No two decks share a name, ignoring case. */
  predicate DistinctNames(decks: seq<Deck>) {
    forall i, j :: 0 <= i < j < |decks| ==> Lower(decks[i].name) != Lower(decks[j].name)
  }

  predicate UniqueIds(decks: seq<Deck>) {
    forall i, j :: 0 <= i < j < |decks| ==> decks[i].id != decks[j].id
  }

  /** Adding a deck whose name passed validation keeps names distinct. */
  lemma CreateValidatedKeepsNamesDistinct(decks: seq<Deck>, id: Id, name: string, description: string, now: Timestamp)
    requires DistinctNames(decks)
    requires ValidateDeckName(name, decks, None) == ValidName
    ensures DistinctNames(decks + [CreateDeck(id, name, description, now)])
  {
    var r := decks + [CreateDeck(id, name, description, now)];
    forall i, j | 0 <= i < j < |r| ensures Lower(r[i].name) != Lower(r[j].name) {
      if j == |decks| {
        assert r[i] == decks[i] && decks[i] in decks;
      } else {
        assert r[i] == decks[i] && r[j] == decks[j];
      }
    }
  }

  /** Renaming a deck to a name that passed validation (with the deck itself
      excluded) keeps names distinct, as the edit dialog does it. */
  lemma RenameValidatedKeepsNamesDistinct(decks: seq<Deck>, id: Id, name: string, description: string)
    requires DistinctNames(decks) && UniqueIds(decks)
    requires ValidateDeckName(name, decks, Some(id)) == ValidName
    requires UpdateDeck(id, DeckEdit(Some(name), Some(description)), decks).Some?
    ensures var updated := UpdateDeck(id, DeckEdit(Some(name), Some(description)), decks).value;
      DistinctNames(ReplaceDeckById(decks, id, updated))
  {
    var updated := UpdateDeck(id, DeckEdit(Some(name), Some(description)), decks).value;
    var r := ReplaceDeckById(decks, id, updated);
    assert name != "";
    assert updated.name == Trim(name);
    forall i, j | 0 <= i < j < |r| ensures Lower(r[i].name) != Lower(r[j].name) {
      if decks[i].id == id {
        assert decks[j].id != id;
        assert decks[j] in decks;
      } else if decks[j].id == id {
        assert decks[i] in decks;
      }
    }
  }
}
