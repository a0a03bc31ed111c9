/** js/storage.js: exporting one deck with its cards, and importing such an
    export as a new deck. The store is the in-memory pair of deck and card
    sequences; the fresh UUIDs and the clock come in as parameters. */
module Storage {
  import opened Wrappers
  import opened Seqs
  import opened Text
  import opened DateMath
  import opened Cards
  import opened Decks

  /** `STORAGE_VERSION`. */
  const StorageVersion: string := "1.0"

  datatype ExportData = ExportData(version: string, exportDate: Timestamp, deck: Deck, cards: seq<Card>)

  datatype ExportError = DeckNotFound

  /** `exportDeck`: the first deck with the id and, in stored order, exactly
      the stored cards that belong to it; an unknown id is an error. */
  function ExportDeck(deckId: Id, store: Store, now: Timestamp): (r: Result<ExportData, ExportError>)
    ensures r.Failure? <==> forall d :: d in store.decks ==> d.id != deckId
    ensures r.Success? ==>
      && r.value.version == StorageVersion
      && r.value.exportDate == now
      && r.value.deck in store.decks && r.value.deck.id == deckId
      && GetDeck(deckId, store.decks) == Some(r.value.deck)
      && (forall c :: c in r.value.cards <==> c in store.cards && c.deckId == deckId)
      && (forall c :: multiset(r.value.cards)[c] == if c.deckId == deckId then multiset(store.cards)[c] else 0)
      && IsSubseq(r.value.cards, store.cards)
  {
    match GetDeck(deckId, store.decks)
    case None => Failure(DeckNotFound)
    case Some(deck) => Success(ExportData(StorageVersion, now, deck, GetCardsByDeck(deckId, store.cards)))
  }

  /** The names of the decks, in order. */
  function Names(decks: seq<Deck>): (r: seq<string>)
    ensures |r| == |decks|
    ensures forall n :: n in r <==> exists d :: d in decks && d.name == n
  {
    var r := seq(|decks|, i requires 0 <= i < |decks| => decks[i].name);
    assert forall i :: 0 <= i < |decks| ==> r[i] == decks[i].name;
    r
  }

  /** The `k`-th alternative to a taken name: `${base} (${k})`. */
  function Candidate(base: string, k: nat): string {
    base + " (" + NatToString(k) + ")"
  }

  /** Distinct counters give distinct candidates. */
  lemma CandidateInjective(base: string, j: nat, k: nat)
    requires Candidate(base, j) == Candidate(base, k)
    ensures j == k
  {
    var a := Candidate(base, j);
    var b := Candidate(base, k);
    assert |NatToString(j)| == |NatToString(k)|;
    assert a[|base| + 2 .. |a| - 1] == NatToString(j);
    assert b[|base| + 2 .. |b| - 1] == NatToString(k);
    NatToStringInjective(j, k);
  }

  /** The candidates with counters 2 up to `k - 1`. */
  ghost function CandidatesBelow(base: string, k: nat): (r: set<string>)
    decreases k
  {
    if k <= 2 then {} else CandidatesBelow(base, k - 1) + {Candidate(base, k - 1)}
  }

  lemma {:induction false} CandidatesBelowSize(base: string, k: nat)
    requires k >= 2
    ensures |CandidatesBelow(base, k)| == k - 2
    ensures forall x :: x in CandidatesBelow(base, k) <==> exists j :: 2 <= j < k && x == Candidate(base, j)
    decreases k
  {
    if k > 2 {
      CandidatesBelowSize(base, k - 1);
      if Candidate(base, k - 1) in CandidatesBelow(base, k - 1) {
        var j :| 2 <= j < k - 1 && Candidate(base, k - 1) == Candidate(base, j);
        CandidateInjective(base, j, k - 1);
      }
    }
  }

  /** A sequence has at most as many distinct elements as it is long. */
  lemma {:induction false} DistinctElementsBound<T>(s: seq<T>)
    ensures |set x | x in s| <= |s|
    decreases |s|
  {
    if |s| > 0 {
      DistinctElementsBound(s[1..]);
      assert (set x | x in s) == (set x | x in s[1..]) + {s[0]};
    }
  }

  /** Only finitely many candidates can be taken: if those with counters
      2 up to `k - 1` all are, there are at least `k - 2` names. */
  lemma CandidatesBound(base: string, names: seq<string>, k: nat)
    requires k >= 2
    requires forall j :: 2 <= j < k ==> Candidate(base, j) in names
    ensures k - 2 <= |names|
  {
    CandidatesBelowSize(base, k);
    DistinctElementsBound(names);
    var below := CandidatesBelow(base, k);
    var present := set x | x in names;
    assert below <= present;
    assert |below| <= |present| by {
      assert present == below + (present - below);
    }
  }

  /** The smallest free counter from `k` on. */
  function FirstFree(base: string, names: seq<string>, k: nat): (r: nat)
    requires k >= 2
    requires forall j :: 2 <= j < k ==> Candidate(base, j) in names
    ensures r >= k && Candidate(base, r) !in names
    ensures forall j :: 2 <= j < r ==> Candidate(base, j) in names
    decreases |names| + 2 - k
  {
    if Candidate(base, k) !in names then k
    else
      CandidatesBound(base, names, k + 1);
      FirstFree(base, names, k + 1)
  }

  /** The name `importDeck` gives the new deck: the imported name if no deck
      has it, else the candidate with the smallest counter from 2 that no
      deck has. The comparison is exact, case included. */
  function DedupName(base: string, names: seq<string>): (r: string)
    ensures r !in names
    ensures base !in names ==> r == base
    ensures base in names ==>
      exists k :: k >= 2 && r == Candidate(base, k) && forall j :: 2 <= j < k ==> Candidate(base, j) in names
  {
    if base !in names then base else Candidate(base, FirstFree(base, names, 2))
  }

  /** A free candidate preceded only by taken ones is the one `DedupName` picks. */
  lemma SmallestFreeIsUnique(base: string, names: seq<string>, k: nat)
    requires base in names && k >= 2 && Candidate(base, k) !in names
    requires forall j :: 2 <= j < k ==> Candidate(base, j) in names
    ensures DedupName(base, names) == Candidate(base, k)
  {
    var f := FirstFree(base, names, 2);
    assert Candidate(base, k) !in names && Candidate(base, f) !in names;
  }

  /** The dedup loop of `importDeck` as the source writes it. */
  method DedupNameLoop(base: string, names: seq<string>) returns (name: string)
    ensures name == DedupName(base, names)
  {
    name := base;
    var counter: nat := 2;
    while name in names
      invariant counter >= 2
      invariant counter > 2 ==> base in names && name == Candidate(base, counter - 1)
      invariant counter == 2 ==> name == base
      invariant forall j :: 2 <= j < counter - 1 ==> Candidate(base, j) in names
      decreases |names| + 2 - counter
    {
      CandidatesBound(base, names, counter);
      name := Candidate(base, counter);
      counter := counter + 1;
    }
    if counter > 2 {
      SmallestFreeIsUnique(base, names, counter - 1);
    }
  }

  /** What the import reads from the file: `deck` is `None` when absent or
      falsy, `cards` is `None` when not an array. */
  datatype ImportData = ImportData(deck: Option<Deck>, cards: Option<seq<Card>>)

  datatype ImportError = InvalidFormat

  /** The updated store, the new deck and the number of cards imported. */
  datatype Imported = Imported(store: Store, deck: Deck, cardCount: nat)

  /** `r` is `c` moved into the deck `deckId` under the id `id` at time
      `now`: its text and every scheduling field are kept. */
  predicate Rehomed(r: Card, c: Card, id: Id, deckId: Id, now: Timestamp) {
    && r.id == id && r.deckId == deckId && r.created == now
    && r.front == c.front && r.back == c.back
    && r.level == c.level && r.correctCount == c.correctCount
    && r.lastReviewed == c.lastReviewed && r.nextReview == c.nextReview
  }

  /** The imported cards, each with its fresh id, in the new deck. */
  function Rehome(cards: seq<Card>, deckId: Id, ids: seq<Id>, now: Timestamp): (r: seq<Card>)
    requires |ids| == |cards|
    ensures |r| == |cards|
    ensures forall i :: 0 <= i < |cards| ==> Rehomed(r[i], cards[i], ids[i], deckId, now)
  {
    seq(|cards|, i requires 0 <= i < |cards| => cards[i].(id := ids[i], deckId := deckId, created := now))
  }

  /** `importDeck`: a file without a deck or without a card array is
      rejected; otherwise the deck, renamed away from every existing name,
      gets the fresh id, the import time and the number of imported cards,
      and is appended; the cards, re-homed, are appended after the stored ones. */
  function ImportDeck(data: ImportData, store: Store, newDeckId: Id, newCardIds: seq<Id>, now: Timestamp): (r: Result<Imported, ImportError>)
    requires data.cards.Some? ==> |newCardIds| == |data.cards.value|
    ensures r.Failure? <==> data.deck.None? || data.cards.None?
    ensures r.Success? ==>
      var src := data.deck.value;
      var cards := data.cards.value;
      var res := r.value;
      && res.store.decks == store.decks + [res.deck]
      && res.deck.id == newDeckId
      && res.deck.name == DedupName(src.name, Names(store.decks))
      && (forall d :: d in store.decks ==> d.name != res.deck.name)
      && res.deck.description == src.description
      && res.deck.created == now
      && res.deck.cardCount == |cards| == res.cardCount
      && |res.store.cards| == |store.cards| + |cards|
      && res.store.cards[..|store.cards|] == store.cards
      && forall i :: 0 <= i < |cards| ==>
           Rehomed(res.store.cards[|store.cards| + i], cards[i], newCardIds[i], newDeckId, now)
  {
    if data.deck.None? || data.cards.None? then
      Failure(InvalidFormat)
    else
      var src := data.deck.value;
      var cards := data.cards.value;
      var deck := src.(id := newDeckId, name := DedupName(src.name, Names(store.decks)),
                       created := now, cardCount := |cards|);
      var added := Rehome(cards, newDeckId, newCardIds, now);
      Success(Imported(Store(store.decks + [deck], store.cards + added), deck, |added|))
  }

  /** An import keeps every deck's count accurate when the new deck id is
      unused, and the new deck's count is the number of cards it brought. */
  lemma ImportKeepsCountsAccurate(data: ImportData, store: Store, newDeckId: Id, newCardIds: seq<Id>, now: Timestamp)
    requires data.cards.Some? ==> |newCardIds| == |data.cards.value|
    requires CountsAccurate(store.decks, store.cards)
    requires forall d :: d in store.decks ==> d.id != newDeckId
    requires forall c :: c in store.cards ==> c.deckId != newDeckId
    requires ImportDeck(data, store, newDeckId, newCardIds, now).Success?
    ensures var res := ImportDeck(data, store, newDeckId, newCardIds, now).value;
      CountsAccurate(res.store.decks, res.store.cards)
  {
    var res := ImportDeck(data, store, newDeckId, newCardIds, now).value;
    var added := Rehome(data.cards.value, newDeckId, newCardIds, now);
    assert res.store.cards == store.cards + added;
    forall i | 0 <= i < |res.store.decks|
      ensures res.store.decks[i].cardCount == CountInDeck(res.store.decks[i].id, res.store.cards)
    {
      var id := res.store.decks[i].id;
      FilterConcat(store.cards, added, (c: Card) => c.deckId == id);
      if i < |store.decks| {
        assert store.decks[i] in store.decks;
        FilterKeepsNone(added, (c: Card) => c.deckId == id);
      } else {
        FilterKeepsNone(store.cards, (c: Card) => c.deckId == id) by {
          forall k | 0 <= k < |store.cards| ensures store.cards[k].deckId != id {
            assert store.cards[k] in store.cards;
          }
        }
        FilterKeepsAll(added, (c: Card) => c.deckId == id);
      }
    }
  }

  /** After an import into a store where no card uses the new deck id, the
      new deck holds exactly the imported cards, re-homed, in file order. */
  lemma ImportedDeckHoldsImportedCards(data: ImportData, store: Store, newDeckId: Id, newCardIds: seq<Id>, now: Timestamp)
    requires data.cards.Some? ==> |newCardIds| == |data.cards.value|
    requires forall c :: c in store.cards ==> c.deckId != newDeckId
    requires ImportDeck(data, store, newDeckId, newCardIds, now).Success?
    ensures var res := ImportDeck(data, store, newDeckId, newCardIds, now).value;
      GetCardsByDeck(newDeckId, res.store.cards) == Rehome(data.cards.value, newDeckId, newCardIds, now)
  {
    var res := ImportDeck(data, store, newDeckId, newCardIds, now).value;
    var added := Rehome(data.cards.value, newDeckId, newCardIds, now);
    assert res.store.cards == store.cards + added;
    FilterConcat(store.cards, added, (c: Card) => c.deckId == newDeckId);
    FilterKeepsNone(store.cards, (c: Card) => c.deckId == newDeckId) by {
      forall k | 0 <= k < |store.cards| ensures store.cards[k].deckId != newDeckId {
        assert store.cards[k] in store.cards;
      }
    }
    FilterKeepsAll(added, (c: Card) => c.deckId == newDeckId);
  }

  /** An import leaves the cards of every other deck as they were. */
  lemma ImportKeepsOtherDecks(data: ImportData, store: Store, newDeckId: Id, newCardIds: seq<Id>, now: Timestamp, deckId: Id)
    requires data.cards.Some? ==> |newCardIds| == |data.cards.value|
    requires deckId != newDeckId
    requires ImportDeck(data, store, newDeckId, newCardIds, now).Success?
    ensures var res := ImportDeck(data, store, newDeckId, newCardIds, now).value;
      GetCardsByDeck(deckId, res.store.cards) == GetCardsByDeck(deckId, store.cards)
  {
    var res := ImportDeck(data, store, newDeckId, newCardIds, now).value;
    var added := Rehome(data.cards.value, newDeckId, newCardIds, now);
    assert res.store.cards == store.cards + added;
    FilterConcat(store.cards, added, (c: Card) => c.deckId == deckId);
    FilterKeepsNone(added, (c: Card) => c.deckId == deckId);
  }

  /** Exporting a deck and importing the export into the same store adds a
      copy: the deck comes back under the first free `name (k)`, its cards in
      the same order and with the same schedule, and the original deck's
      cards are untouched. */
  lemma ExportImportRoundTrip(deckId: Id, store: Store, exportTime: Timestamp,
                              newDeckId: Id, newCardIds: seq<Id>, now: Timestamp)
    requires ExportDeck(deckId, store, exportTime).Success?
    requires |newCardIds| == |ExportDeck(deckId, store, exportTime).value.cards|
    requires forall c :: c in store.cards ==> c.deckId != newDeckId
    ensures var exp := ExportDeck(deckId, store, exportTime).value;
      var r := ImportDeck(ImportData(Some(exp.deck), Some(exp.cards)), store, newDeckId, newCardIds, now);
      && r.Success?
      && (exists k :: k >= 2 && r.value.deck.name == Candidate(exp.deck.name, k))
      && GetCardsByDeck(newDeckId, r.value.store.cards) == Rehome(exp.cards, newDeckId, newCardIds, now)
      && (deckId != newDeckId ==> GetCardsByDeck(deckId, r.value.store.cards) == exp.cards)
  {
    var exp := ExportDeck(deckId, store, exportTime).value;
    var data := ImportData(Some(exp.deck), Some(exp.cards));
    assert exp.deck.name in Names(store.decks);
    ImportedDeckHoldsImportedCards(data, store, newDeckId, newCardIds, now);
    if deckId != newDeckId {
      ImportKeepsOtherDecks(data, store, newDeckId, newCardIds, now, deckId);
    }
  }

  /** The dedup compares names exactly while `validateDeckName` ignores case,
      so an import can add a deck whose name differs from an existing one
      only in case. */
  lemma ImportMayClashIgnoringCase()
    ensures var store := Store([Deck("d1", "Spanish", "", 0, 0)], []);
      var r := ImportDeck(ImportData(Some(Deck("x", "spanish", "", 0, 0)), Some([])), store, "d2", [], 0);
      && r.Success?
      && r.value.deck.name == "spanish"
      && !DistinctNames(r.value.store.decks)
  {
    var store := Store([Deck("d1", "Spanish", "", 0, 0)], []);
    assert Names(store.decks) == ["Spanish"];
    assert "spanish" != "Spanish" by { assert "spanish"[0] != "Spanish"[0]; }
    assert DedupName("spanish", ["Spanish"]) == "spanish";
    var r := ImportDeck(ImportData(Some(Deck("x", "spanish", "", 0, 0)), Some([])), store, "d2", [], 0);
    assert r.value.store.decks[0].name == "Spanish" && r.value.store.decks[1].name == "spanish";
    assert Lower("Spanish") == Lower("spanish") by {
      assert forall k :: 0 <= k < 7 ==> LowerChar("Spanish"[k]) == LowerChar("spanish"[k]);
    }
  }
}
