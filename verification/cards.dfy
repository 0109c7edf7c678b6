/** Card identity and the two values derived from it, colour and numeric value. */
module Cards {
  import opened Outcomes

  /** The thirteen ranks, in the order in which the game declares them. */
  datatype Rank = Ace | Two | Three | Four | Five | Six | Seven | Eight | Nine | Ten | Jacks | Queen | King

  /** The four suits, in the order in which the game declares them. */
  datatype Suit = Spades | Diamonds | Hearts | Clubs

  datatype Color = Red | Black

  /** A card is its rank and suit and nothing more: equal pairs are equal cards. */
  datatype Card = Card(rank: Rank, suit: Suit)

  /** Colour of a card: Spades and Clubs are black, Diamonds and Hearts red. */
  function ColorOf(c: Card): (r: Color)
    ensures r == Black <==> c.suit == Spades || c.suit == Clubs
    ensures r == Red <==> c.suit == Diamonds || c.suit == Hearts
  {
    match c.suit
    case Spades => Black
    case Diamonds => Red
    case Hearts => Red
    case Clubs => Black
  }

  /** Numeric value of a card: Ace counts 11, Two to Ten their face value,
      Jack 12, Queen 13 and King 14. */
  function Value(c: Card): (v: int)
    ensures 2 <= v <= 14
  {
    match c.rank
    case Ace => 11
    case Two => 2
    case Three => 3
    case Four => 4
    case Five => 5
    case Six => 6
    case Seven => 7
    case Eight => 8
    case Nine => 9
    case Ten => 10
    case Jacks => 12
    case Queen => 13
    case King => 14
  }

  /** The rank that has value `v`, if any: the inverse of `Value` on ranks. */
  function RankOfValue(v: int): (r: Option<Rank>)
    ensures r.Some? <==> 2 <= v <= 14
  {
    match v
    case 2 => Some(Two)
    case 3 => Some(Three)
    case 4 => Some(Four)
    case 5 => Some(Five)
    case 6 => Some(Six)
    case 7 => Some(Seven)
    case 8 => Some(Eight)
    case 9 => Some(Nine)
    case 10 => Some(Ten)
    case 11 => Some(Ace)
    case 12 => Some(Jacks)
    case 13 => Some(Queen)
    case 14 => Some(King)
    case _ => None
  }

  /** A card's value determines its rank. */
  lemma ValueRoundTrip(c: Card)
    ensures RankOfValue(Value(c)) == Some(c.rank)
  {
  }

  /** Every value in 2..14 is the value of exactly the rank `RankOfValue` names. */
  lemma RankOfValueSound(v: int, s: Suit)
    requires 2 <= v <= 14
    ensures Value(Card(RankOfValue(v).value, s)) == v
  {
  }

  /** Value is injective on ranks: two cards have the same value exactly when
      they have the same rank. */
  lemma ValueInjective(c: Card, d: Card)
    ensures Value(c) == Value(d) <==> c.rank == d.rank
  {
    ValueRoundTrip(c);
    ValueRoundTrip(d);
  }
}
