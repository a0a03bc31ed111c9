/** js/learning.js: the Leitner scheduler (a correct answer promotes a card
    one level, at most to 3; a wrong answer sends it back to level 1; the
    next review is 1, 3 or 7 days away according to the new level) and the
    selection of the cards due for review. The clock is read once per
    transition and passed in as `now`. */
module Learning {
  import opened Wrappers
  import opened Seqs
  import opened DateMath
  import opened Cards

  const MaxLevel: int := 3

  /** The review interval, in days, of a level; levels outside 1..3 fall back to one day. */
  function IntervalDays(level: int): (d: int)
    ensures d == 1 || d == 3 || d == 7
  {
    match level
    case 1 => 1
    case 2 => 3
    case 3 => 7
    case _ => 1
  }

  /** `calculateNextReview`: the moment, `IntervalDays(level)` days after
      `now`, at which a card of that level is next shown. */
  function NextReview(level: int, now: Timestamp): (r: Timestamp)
    ensures Day(r) - Day(now) == IntervalDays(level)
    ensures r - NormalizeDate(r) == now - NormalizeDate(now)
  {
    AddDays(now, IntervalDays(level))
  }

  /** The fields a review never touches. */
  predicate SameContent(a: Card, b: Card) {
    a.id == b.id && a.deckId == b.deckId && a.front == b.front && a.back == b.back && a.created == b.created
  }

  /** `markCorrect`. */
  function MarkCorrect(card: Card, now: Timestamp): (r: Card)
    ensures r.level == if card.level < MaxLevel then card.level + 1 else MaxLevel
    ensures r.correctCount == Some(card.correctCount.GetOr(0) + 1)
    ensures r.lastReviewed == Some(now)
    ensures r.nextReview.Some?
    ensures r.level == 1 ==> Day(r.nextReview.value) == Day(now) + 1
    ensures r.level == 2 ==> Day(r.nextReview.value) == Day(now) + 3
    ensures r.level == 3 ==> Day(r.nextReview.value) == Day(now) + 7
    ensures r.level < 1 ==> Day(r.nextReview.value) == Day(now) + 1
    ensures r.nextReview.value - NormalizeDate(r.nextReview.value) == now - NormalizeDate(now)
    ensures SameContent(r, card)
  {
    var newLevel := if card.level + 1 < MaxLevel then card.level + 1 else MaxLevel;
    card.(
      level := newLevel,
      correctCount := Some(card.correctCount.GetOr(0) + 1),
      lastReviewed := Some(now),
      nextReview := Some(NextReview(newLevel, now)))
  }

  /** `markIncorrect`. */
  function MarkIncorrect(card: Card, now: Timestamp): (r: Card)
    ensures r.level == 1
    ensures r.correctCount == card.correctCount
    ensures r.lastReviewed == Some(now)
    ensures r.nextReview.Some? && Day(r.nextReview.value) == Day(now) + 1
    ensures r.nextReview.value - NormalizeDate(r.nextReview.value) == now - NormalizeDate(now)
    ensures SameContent(r, card)
  {
    card.(
      level := 1,
      lastReviewed := Some(now),
      nextReview := Some(NextReview(1, now)))
  }

  /** The answer of one review, as the session applies it. */
  function Review(card: Card, isCorrect: bool, now: Timestamp): Card {
    if isCorrect then MarkCorrect(card, now) else MarkIncorrect(card, now)
  }

  /** `isCardDue`: a card without a review date is due; otherwise it is due
      from the start of the day its review date falls on. */
  predicate IsCardDue(card: Card, now: Timestamp)
    ensures IsCardDue(card, now) <==> card.nextReview.None? || Day(card.nextReview.value) <= Day(now)
  {
    card.nextReview.None? || NormalizeDate(card.nextReview.value) <= NormalizeDate(now)
  }

  /** Levels stay within 1..3 under both transitions. */
  lemma LevelStaysInRange(card: Card, isCorrect: bool, now: Timestamp)
    requires 1 <= card.level <= MaxLevel
    ensures 1 <= Review(card, isCorrect, now).level <= MaxLevel
    ensures isCorrect ==> Review(card, isCorrect, now).level >= card.level
  {
  }

  /** Two correct answers take a new card from level 1 to level 3, and a third keeps it there. */
  lemma CorrectAnswersSaturate(card: Card, t1: Timestamp, t2: Timestamp, t3: Timestamp)
    requires card.level == 1
    ensures MarkCorrect(card, t1).level == 2
    ensures MarkCorrect(MarkCorrect(card, t1), t2).level == 3
    ensures MarkCorrect(MarkCorrect(MarkCorrect(card, t1), t2), t3).level == 3
  {
  }

  /** A card whose review date is `n` days from today is due iff `n <= 0`:
      yesterday and today are due, tomorrow is not. */
  lemma DueIffNotInFuture(card: Card, now: Timestamp, n: int)
    ensures IsCardDue(card.(nextReview := Some(AddDays(now, n))), now) <==> n <= 0
  {
  }

  /** A card just reviewed is not due again until the day its interval ends,
      and is due from that day on. */
  lemma ReviewedCardDueAfterInterval(card: Card, isCorrect: bool, now: Timestamp, later: Timestamp)
    ensures var r := Review(card, isCorrect, now);
      IsCardDue(r, later) <==> Day(later) >= Day(now) + IntervalDays(r.level)
  {
    var r := Review(card, isCorrect, now);
    assert r.nextReview == Some(NextReview(r.level, now));
  }

  /** A new card is due from the moment it is created. */
  lemma NewCardIsDue(id: Id, deckId: Id, front: string, back: string, now: Timestamp, later: Timestamp)
    requires now <= later
    ensures IsCardDue(CreateCard(id, deckId, front, back, now), later)
  {
  }

  /** The raw comparison of the card list's "due" filter implies `isCardDue`,
      but not conversely: a review date later today is due for study yet
      hidden by the filter, and so is a card without one before the epoch. */
  lemma ListDueFilterIsStricter(card: Card, now: Timestamp)
    ensures ReviewTimeReached(card, now) ==> IsCardDue(card, now)
    ensures var later := card.(nextReview := Some(NormalizeDate(now) + MsPerDay - 1));
      IsCardDue(later, now) && (now < NormalizeDate(now) + MsPerDay - 1 ==> !ReviewTimeReached(later, now))
    ensures var unset := card.(nextReview := None);
      IsCardDue(unset, now) && (ReviewTimeReached(unset, now) <==> now >= 0)
  {
  }

  /** Belongs to the deck and is due. */
  predicate IsDueIn(c: Card, deckId: Id, now: Timestamp) {
    c.deckId == deckId && IsCardDue(c, now)
  }

  predicate SortedByLevel(s: seq<Card>) {
    forall i, j :: 0 <= i < j < |s| ==> s[i].level <= s[j].level
  }

  /** The cards of one level, in order. */
  function OfLevel(s: seq<Card>, v: int): seq<Card> {
    Filter(s, (c: Card) => c.level == v)
  }

  /** Inserts `x` before the first card whose level is at least `x`'s. */
  function InsertByLevel(x: Card, s: seq<Card>): (r: seq<Card>)
    ensures multiset(r) == multiset(s) + multiset{x}
    ensures forall k :: 0 <= k < |r| ==> r[k] == x || r[k] in s
  {
    if |s| == 0 || x.level <= s[0].level then
      [x] + s
    else
      assert s == [s[0]] + s[1..];
      [s[0]] + InsertByLevel(x, s[1..])
  }

  lemma {:induction false} InsertKeepsSorted(x: Card, s: seq<Card>)
    requires SortedByLevel(s)
    ensures SortedByLevel(InsertByLevel(x, s))
    decreases |s|
  {
    if |s| > 0 && x.level > s[0].level {
      var rest := InsertByLevel(x, s[1..]);
      InsertKeepsSorted(x, s[1..]);
      assert s == [s[0]] + s[1..];
      forall k | 0 <= k < |rest| ensures s[0].level <= rest[k].level {
        assert rest[k] == x || rest[k] in s[1..];
      }
    }
  }

  /** `x` goes in front of every card of its own level already in `s`. */
  lemma {:induction false} InsertIsStable(x: Card, s: seq<Card>, v: int)
    ensures OfLevel(InsertByLevel(x, s), v) == (if x.level == v then [x] else []) + OfLevel(s, v)
    decreases |s|
  {
    var r := InsertByLevel(x, s);
    var p := (c: Card) => c.level == v;
    if |s| == 0 || x.level <= s[0].level {
      assert r[0] == x && r[1..] == s;
      FilterCons(r, p);
    } else {
      var rest := InsertByLevel(x, s[1..]);
      InsertIsStable(x, s[1..], v);
      assert r[0] == s[0] && r[1..] == rest;
      FilterCons(r, p);
      FilterCons(s, p);
      assert !(p(x) && p(s[0]));
    }
  }

  /** The stable insertion sort by level that `Array.prototype.sort` with
      `(a, b) => a.level - b.level` performs. */
  function SortByLevel(s: seq<Card>): (r: seq<Card>)
    ensures multiset(r) == multiset(s)
  {
    if |s| == 0 then []
    else
      assert s == [s[0]] + s[1..];
      InsertByLevel(s[0], SortByLevel(s[1..]))
  }

  /** The sort puts level 1 first, then 2, then 3. */
  lemma {:induction false} SortIsSorted(s: seq<Card>)
    ensures SortedByLevel(SortByLevel(s))
    decreases |s|
  {
    if |s| > 0 {
      SortIsSorted(s[1..]);
      InsertKeepsSorted(s[0], SortByLevel(s[1..]));
    }
  }

  /** The sort keeps the cards of each level in their input order. */
  lemma {:induction false} SortIsStable(s: seq<Card>, v: int)
    ensures OfLevel(SortByLevel(s), v) == OfLevel(s, v)
    decreases |s|
  {
    if |s| > 0 {
      SortIsStable(s[1..], v);
      InsertIsStable(s[0], SortByLevel(s[1..]), v);
      FilterCons(s, (c: Card) => c.level == v);
    }
  }

  /** `getDueCards`: the due cards of the deck, level 1 first, cards of equal
      level in stored order. */
  function GetDueCards(deckId: Id, cards: seq<Card>, now: Timestamp): (r: seq<Card>)
    ensures forall c :: c in r <==> c in cards && c.deckId == deckId && IsCardDue(c, now)
    ensures forall c :: multiset(r)[c] == if c.deckId == deckId && IsCardDue(c, now) then multiset(cards)[c] else 0
    ensures SortedByLevel(r)
    ensures forall v :: OfLevel(r, v) == Filter(cards, (c: Card) => IsDueIn(c, deckId, now) && c.level == v)
  {
    var due := Filter(cards, (c: Card) => IsDueIn(c, deckId, now));
    var r := SortByLevel(due);
    FilterSpec(cards, (c: Card) => IsDueIn(c, deckId, now));
    SortIsSorted(due);
    assert forall c :: c in r <==> c in multiset(due);
    forall v ensures OfLevel(r, v) == Filter(cards, (c: Card) => IsDueIn(c, deckId, now) && c.level == v) {
      SortIsStable(due, v);
      FilterFilter(cards, (c: Card) => IsDueIn(c, deckId, now), (c: Card) => c.level == v,
                   (c: Card) => IsDueIn(c, deckId, now) && c.level == v);
    }
    r
  }

  /** `getDueCount`: how many cards of the deck are due, at most the deck's size. */
  function GetDueCount(deckId: Id, cards: seq<Card>, now: Timestamp): (n: nat)
    ensures n == |Filter(cards, (c: Card) => IsDueIn(c, deckId, now))|
    ensures n <= CountInDeck(deckId, cards)
    ensures n == 0 <==> forall c :: c in cards && c.deckId == deckId ==> !IsCardDue(c, now)
  {
    var due := Filter(cards, (c: Card) => IsDueIn(c, deckId, now));
    var r := SortByLevel(due);
    assert |r| == |due| by {
      assert |multiset(r)| == |multiset(due)|;
    }
    FilterStronger(cards, (c: Card) => IsDueIn(c, deckId, now), (c: Card) => c.deckId == deckId);
    assert |due| == 0 <==> forall c :: c in cards && c.deckId == deckId ==> !IsCardDue(c, now) by {
      FilterSpec(cards, (c: Card) => IsDueIn(c, deckId, now));
      if |due| > 0 { assert due[0] in due; }
    }
    |GetDueCards(deckId, cards, now)|
  }
}
