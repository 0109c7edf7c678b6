/** The 52-card deck: its canonical construction, drawing from the top and
    shuffling. A deck lists its cards bottom first, so the top card is the last. */
module Decks {
  import opened Outcomes
  import opened Cards

  type Deck = seq<Card>

  const DeckSize := 52

  /** Rank order of the Spades, Hearts and Diamonds runs of a fresh deck. */
  const RankOrder: seq<Rank> := [Ace, Two, Three, Four, Five, Six, Seven, Eight, Nine, Ten, Jacks, Queen, King]

  /** Rank order of the Clubs run of a fresh deck, which lists Two before Ace. */
  const ClubsOrder: seq<Rank> := [Two, Ace, Three, Four, Five, Six, Seven, Eight, Nine, Ten, Jacks, Queen, King]

  /** The cards of suit `s` in the rank order `ranks`. */
  function Run(s: Suit, ranks: seq<Rank>): (r: seq<Card>)
    ensures |r| == |ranks|
    ensures forall i :: 0 <= i < |r| ==> r[i].suit == s && r[i].rank == ranks[i]
  {
    seq(|ranks|, i requires 0 <= i < |ranks| => Card(ranks[i], s))
  }

  /** The fresh deck: Clubs, Spades, Hearts, Diamonds, thirteen cards each. */
  function CreateDeck(): (d: Deck)
    ensures |d| == DeckSize
  {
    Run(Clubs, ClubsOrder) + Run(Spades, RankOrder) + Run(Hearts, RankOrder) + Run(Diamonds, RankOrder)
  }

  /** Index of a rank in declaration order, Ace first. */
  function Ordinal(r: Rank): (k: nat)
    ensures k < 13
  {
    match r
    case Ace => 0
    case Two => 1
    case Three => 2
    case Four => 3
    case Five => 4
    case Six => 5
    case Seven => 6
    case Eight => 7
    case Nine => 8
    case Ten => 9
    case Jacks => 10
    case Queen => 11
    case King => 12
  }

  /** Index of the first card of a suit's run in a fresh deck. */
  function SuitBase(s: Suit): nat
  {
    match s
    case Clubs => 0
    case Spades => 13
    case Hearts => 26
    case Diamonds => 39
  }

  /** The place a card occupies in a fresh deck, computed from the card alone. */
  function Position(c: Card): (p: nat)
    ensures p < DeckSize
  {
    SuitBase(c.suit) +
      if c.suit == Clubs && c.rank == Ace then 1
      else if c.suit == Clubs && c.rank == Two then 0
      else Ordinal(c.rank)
  }

  /** No card occurs twice. */
  predicate Distinct(d: Deck)
  {
    forall i, j :: 0 <= i < j < |d| ==> d[i] != d[j]
  }

  lemma RankOrderOrdinals()
    ensures forall k :: 0 <= k < 13 ==> Ordinal(RankOrder[k]) == k
  {
    forall k | 0 <= k < 13
      ensures Ordinal(RankOrder[k]) == k
    {
      assert k == 0 || k == 1 || k == 2 || k == 3 || k == 4 || k == 5 || k == 6
        || k == 7 || k == 8 || k == 9 || k == 10 || k == 11 || k == 12;
    }
  }

  lemma ClubsOrderSlots()
    ensures forall k :: 0 <= k < 13 ==> Position(Card(ClubsOrder[k], Clubs)) == k
  {
    forall k | 0 <= k < 13
      ensures Position(Card(ClubsOrder[k], Clubs)) == k
    {
      assert k == 0 || k == 1 || k == 2 || k == 3 || k == 4 || k == 5 || k == 6
        || k == 7 || k == 8 || k == 9 || k == 10 || k == 11 || k == 12;
    }
  }

  /** The card at each index of a fresh deck sits at its own `Position`:
      every index holds a different card. */
  lemma CreateDeckPositions()
    ensures forall i :: 0 <= i < DeckSize ==> Position(CreateDeck()[i]) == i
  {
    var d := CreateDeck();
    RankOrderOrdinals();
    ClubsOrderSlots();
    forall i | 0 <= i < DeckSize
      ensures Position(d[i]) == i
    {
      if i < 13 {
        assert d[i] == Card(ClubsOrder[i], Clubs);
      } else if i < 26 {
        assert d[i] == Card(RankOrder[i - 13], Spades);
      } else if i < 39 {
        assert d[i] == Card(RankOrder[i - 26], Hearts);
      } else {
        assert d[i] == Card(RankOrder[i - 39], Diamonds);
      }
    }
  }

  /** Every (rank, suit) pair occurs in a fresh deck, at its `Position`. */
  lemma CreateDeckComplete(c: Card)
    ensures CreateDeck()[Position(c)] == c
  {
    var d := CreateDeck();
    var p := Position(c);
    if c.suit == Clubs {
      assert d[p] == Card(ClubsOrder[p], Clubs);
    } else {
      assert d[p] == Card(RankOrder[p - SuitBase(c.suit)], c.suit);
    }
  }

  /** A fresh deck has 52 cards, no two alike, and contains every card. */
  lemma CreateDeckIsFullDeck()
    ensures |CreateDeck()| == DeckSize
    ensures Distinct(CreateDeck())
    ensures forall c: Card :: c in CreateDeck()
  {
    var d := CreateDeck();
    CreateDeckPositions();
    forall c: Card
      ensures c in d
    {
      CreateDeckComplete(c);
    }
  }

  /** In a deck without duplicates each card occurs once or not at all. */
  lemma {:induction false} DistinctCounts(d: Deck, c: Card)
    requires Distinct(d)
    ensures multiset(d)[c] == if c in d then 1 else 0
  {
    if d != [] {
      var rest := d[..|d| - 1];
      assert d == rest + [d[|d| - 1]];
      assert Distinct(rest);
      DistinctCounts(rest, c);
      assert d[|d| - 1] !in rest;
    }
  }

  /** Each of the 52 cards occurs exactly once in a fresh deck. */
  lemma CreateDeckCounts(c: Card)
    ensures multiset(CreateDeck())[c] == 1
  {
    CreateDeckIsFullDeck();
    DistinctCounts(CreateDeck(), c);
  }

  /** Removes and returns the top (last) card; fails on an empty deck. */
  function Draw(d: Deck): (r: Result<(Card, Deck)>)
    ensures r.Failure? <==> |d| == 0
    ensures r.Failure? ==> r.error == DeckEmpty
    ensures r.Success? ==> r.value.1 + [r.value.0] == d
  {
    if |d| == 0 then Failure(DeckEmpty) else Success((d[|d| - 1], d[..|d| - 1]))
  }

  /** Drawing moves one card out of the deck and loses nothing else. */
  lemma DrawConserves(d: Deck)
    requires d != []
    ensures |Draw(d).value.1| == |d| - 1
    ensures multiset(Draw(d).value.1) + multiset{Draw(d).value.0} == multiset(d)
  {
    var (c, rest) := Draw(d).value;
    assert d == rest + [c];
  }

  /** Exchanges the cards at indices `i` and `j`. */
  function Swap(d: Deck, i: nat, j: nat): (r: Deck)
    requires i < |d| && j < |d|
    ensures |r| == |d|
    ensures multiset(r) == multiset(d)
  {
    d[i := d[j]][j := d[i]]
  }

  /** The Fisher-Yates passes for positions `i` down to 1: position `i` is
      exchanged with a position in 0..i chosen by the random draw `rolls[i]`. */
  function ShuffleDown(d: Deck, i: nat, rolls: seq<nat>): (r: Deck)
    requires i < |d| && |rolls| == |d|
    ensures |r| == |d|
    ensures multiset(r) == multiset(d)
    decreases i
  {
    if i == 0 then d else ShuffleDown(Swap(d, i, rolls[i] % (i + 1)), i - 1, rolls)
  }

  /** Returns the deck shuffled by the random draws `rolls`, one draw per
      position. Whatever the draws, the result is a permutation. */
  function Shuffle(d: Deck, rolls: seq<nat>): (r: Deck)
    requires |rolls| == |d|
    ensures |r| == |d|
    ensures multiset(r) == multiset(d)
  {
    if |d| == 0 then d else ShuffleDown(d, |d| - 1, rolls)
  }

  /** A card that sits at two different indices occurs at least twice. */
  lemma RepeatCounts(d: Deck, i: nat, j: nat)
    requires i < j < |d| && d[i] == d[j]
    ensures multiset(d)[d[i]] >= 2
  {
    assert d == d[..j] + [d[j]] + d[j + 1..];
    assert d[i] == d[..j][i];
    assert d[i] in multiset(d[..j]);
  }

  /** A shuffled fresh deck still holds every card exactly once. */
  lemma ShuffledDeckIsFull(rolls: seq<nat>)
    requires |rolls| == DeckSize
    ensures Distinct(Shuffle(CreateDeck(), rolls))
    ensures forall c: Card :: c in Shuffle(CreateDeck(), rolls)
  {
    var d := Shuffle(CreateDeck(), rolls);
    forall c: Card
      ensures c in d
    {
      CreateDeckCounts(c);
      assert c in multiset(d);
    }
    forall i, j | 0 <= i < j < |d|
      ensures d[i] != d[j]
    {
      CreateDeckCounts(d[i]);
      if d[i] == d[j] {
        RepeatCounts(d, i, j);
      }
    }
  }
}
