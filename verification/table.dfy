/** Players and the board: dealing cards from the deck into the players'
    hands and the middle area, and looking hands up by player name. */
module Table {
  import opened Outcomes
  import opened Cards
  import opened Decks

  /** Chips every new player starts with. */
  const StartingBalance := 10000

  /** The settle-flag array has room for exactly this many seats. */
  const Seats := 4

  /** Cards each player is dealt, and cards put in the middle. */
  const HandSize := 2
  const MiddleSize := 5

  /** Settle flags with no seat settled. */
  const NoneDone: seq<bool> := [false, false, false, false]

  /** Lower-case form of a character; only the ASCII letters A-Z change. */
  function LowerChar(ch: char): (r: char)
    ensures !('A' <= r <= 'Z')
    ensures !('A' <= ch <= 'Z') ==> r == ch
    ensures 'A' <= ch <= 'Z' ==> 'a' <= r <= 'z' && r as int - 'a' as int == ch as int - 'A' as int
  {
    if 'A' <= ch <= 'Z' then (ch as int - 'A' as int + 'a' as int) as char else ch
  }

  /** Lower-case form of a name, character by character. */
  function Lower(s: string): (r: string)
    ensures |r| == |s|
    ensures forall i :: 0 <= i < |s| ==> r[i] == LowerChar(s[i])
    ensures forall i :: 0 <= i < |r| ==> !('A' <= r[i] <= 'Z')
  {
    seq(|s|, i requires 0 <= i < |s| => LowerChar(s[i]))
  }

  /** A name that lower-casing leaves as it is. */
  predicate IsLower(s: string)
  {
    Lower(s) == s
  }

  /** Lower-casing twice is lower-casing once. */
  lemma LowerIdempotent(s: string)
    ensures IsLower(Lower(s))
  {
  }

  datatype Player = Player(name: string, cards: seq<Card>, balance: int, bet: int)

  /** A new player: lower-cased name, empty hand, starting balance, no bet. */
  function NewPlayer(name: string): (p: Player)
    ensures p.cards == [] && p.balance == StartingBalance && p.bet == 0
    ensures p.name == Lower(name) && IsLower(p.name)
  {
    LowerIdempotent(name);
    Player(Lower(name), [], StartingBalance, 0)
  }

  /** Index of the first player from `k` on whose name is `key`. */
  function FindFrom(ps: seq<Player>, key: string, k: nat): (r: Option<nat>)
    requires k <= |ps|
    ensures r.Some? ==> k <= r.value < |ps| && ps[r.value].name == key
    ensures r.Some? ==> forall j :: k <= j < r.value ==> ps[j].name != key
    ensures r.None? ==> forall j :: k <= j < |ps| ==> ps[j].name != key
    decreases |ps| - k
  {
    if k == |ps| then None
    else if ps[k].name == key then Some(k)
    else FindFrom(ps, key, k + 1)
  }

  /** Index of the first seated player whose name equals the lower-cased query. */
  function FindPlayer(ps: seq<Player>, name: string): (r: Option<nat>)
    ensures r.Some? ==> r.value < |ps| && ps[r.value].name == Lower(name)
    ensures r.Some? ==> forall j :: 0 <= j < r.value ==> ps[j].name != Lower(name)
    ensures r.None? <==> forall j :: 0 <= j < |ps| ==> ps[j].name != Lower(name)
  {
    FindFrom(ps, Lower(name), 0)
  }

  /** A player created from `name` answers to every spelling of it that
      differs only in the case of its letters, and to no other. */
  lemma NewPlayerFoundByAnyCase(name: string, query: string)
    ensures FindPlayer([NewPlayer(name)], query).Some? <==> Lower(query) == Lower(name)
  {
  }

  /** The seating's names, in order. */
  function Names(ps: seq<Player>): (r: seq<string>)
    ensures |r| == |ps|
    ensures forall i :: 0 <= i < |ps| ==> r[i] == ps[i].name
  {
    seq(|ps|, i requires 0 <= i < |ps| => ps[i].name)
  }

  /** Lookups depend only on the names, never on hands or balances. */
  lemma FindDependsOnNames(ps: seq<Player>, qs: seq<Player>, name: string)
    requires Names(ps) == Names(qs)
    ensures FindPlayer(ps, name) == FindPlayer(qs, name)
  {
    var a, b := FindPlayer(ps, name), FindPlayer(qs, name);
    assert |ps| == |qs|;
    assert forall j :: 0 <= j < |ps| ==> ps[j].name == Names(ps)[j] == Names(qs)[j] == qs[j].name;
    if a.Some? && b.Some? {
      assert !(a.value < b.value) && !(b.value < a.value);
    }
  }

  /** Lower-case names, no two alike. */
  predicate DistinctLowerNames(ns: seq<string>)
  {
    && (forall i :: 0 <= i < |ns| ==> IsLower(ns[i]))
    && (forall i, j :: 0 <= i < j < |ns| ==> ns[i] != ns[j])
  }

  /** The seatings `Player::new` produces from names that stay distinct
      once lower-cased. */
  predicate WellNamed(ps: seq<Player>)
  {
    DistinctLowerNames(Names(ps))
  }

  /** In a well-named seating every player's own name finds that player. */
  lemma FindSeated(ps: seq<Player>, k: nat)
    requires WellNamed(ps) && k < |ps|
    ensures FindPlayer(ps, ps[k].name) == Some(k)
  {
    assert Names(ps)[k] == ps[k].name;
    assert ps[k].name == Lower(ps[k].name);
    forall j | 0 <= j < k
      ensures ps[j].name != ps[k].name
    {
      assert Names(ps)[j] == ps[j].name;
    }
  }

  /** The table: betting stage, seated players, settle flags, deck and middle cards. */
  datatype Board = Board(round: nat, players: seq<Player>, done: seq<bool>, deck: Deck, middle: seq<Card>)

  /** Top card of a non-empty deck. */
  function Top(d: Deck): Card
    requires d != []
  {
    d[|d| - 1]
  }

  /** Draws the top card into the hand of the first player named `name`
      (compared lower-cased). Fails if no player has that name, and
      otherwise if the deck is empty. What it does is stated by
      `DrawPlayerEffect`; keeping the function itself free of a contract
      keeps proofs about the deal, which unfold it many times, small. */
  function DrawPlayer(b: Board, name: string): Result<Board>
  {
    match FindPlayer(b.players, name)
    case None => Failure(PlayerNotFound)
    case Some(i) =>
      match Draw(b.deck)
      case Failure(e) => Failure(e)
      case Success((card, rest)) =>
        var p := b.players[i];
        Success(b.(players := b.players[i := p.(cards := p.cards + [card])], deck := rest))
  }

  /** A draw for a player fails with `PlayerNotFound` when no name matches,
      else with `DeckEmpty` on an empty deck, and succeeds exactly when both
      checks pass. On success exactly the first matching seat's hand gains
      the top card, the deck loses it, and nothing else changes. */
  lemma DrawPlayerEffect(b: Board, name: string)
    ensures FindPlayer(b.players, name).None? ==> DrawPlayer(b, name) == Failure(PlayerNotFound)
    ensures FindPlayer(b.players, name).Some? && b.deck == [] ==> DrawPlayer(b, name) == Failure(DeckEmpty)
    ensures DrawPlayer(b, name).Success? <==> FindPlayer(b.players, name).Some? && b.deck != []
    ensures DrawPlayer(b, name).Success? ==>
      var i := FindPlayer(b.players, name).value;
      var b' := DrawPlayer(b, name).value;
      && Names(b'.players) == Names(b.players)
      && b'.players[i] == b.players[i].(cards := b.players[i].cards + [Top(b.deck)])
      && (forall j :: 0 <= j < |b.players| && j != i ==> b'.players[j] == b.players[j])
      && b'.deck + [Top(b.deck)] == b.deck
      && b'.middle == b.middle && b'.round == b.round && b'.done == b.done
  {
  }

  /** Draws the top card into the middle area; fails if the deck is empty. */
  function DrawMiddle(b: Board): (r: Result<Board>)
    ensures r.Failure? <==> b.deck == []
    ensures r.Failure? ==> r.error == DeckEmpty
    ensures r.Success? ==>
      && r.value.middle == b.middle + [Top(b.deck)]
      && r.value.deck + [Top(b.deck)] == b.deck
      && r.value.players == b.players && r.value.round == b.round && r.value.done == b.done
  {
    match Draw(b.deck)
    case Failure(e) => Failure(e)
    case Success((card, rest)) => Success(b.(middle := b.middle + [card], deck := rest))
  }

  /** The hand of the first player named `name` (compared lower-cased). */
  function GetCards(b: Board, name: string): (r: Result<seq<Card>>)
    ensures r.Failure? <==> forall j :: 0 <= j < |b.players| ==> b.players[j].name != Lower(name)
    ensures r.Failure? ==> r.error == PlayerNotFound
    ensures r.Success? ==>
      FindPlayer(b.players, name).Some? && r.value == b.players[FindPlayer(b.players, name).value].cards
  {
    match FindPlayer(b.players, name)
    case None => Failure(PlayerNotFound)
    case Some(i) => Success(b.players[i].cards)
  }

  /** Drawing for a player grows exactly the hand that `GetCards` then reports. */
  lemma DrawPlayerThenGetCards(b: Board, name: string)
    requires DrawPlayer(b, name).Success?
    ensures GetCards(DrawPlayer(b, name).value, name) == Success(GetCards(b, name).value + [Top(b.deck)])
  {
    FindDependsOnNames(b.players, DrawPlayer(b, name).value.players, name);
  }

  /** Every card held in some player's hand, with multiplicity. */
  function HandCards(ps: seq<Player>): multiset<Card>
  {
    if ps == [] then multiset{} else multiset(ps[0].cards) + HandCards(ps[1..])
  }

  /** Every card on the table: deck, hands and middle, with multiplicity. */
  function AllCards(b: Board): multiset<Card>
  {
    multiset(b.deck) + HandCards(b.players) + multiset(b.middle)
  }

  /** Players with empty hands hold no cards. */
  lemma {:induction false} EmptyHands(ps: seq<Player>)
    requires forall j :: 0 <= j < |ps| ==> ps[j].cards == []
    ensures HandCards(ps) == multiset{}
  {
    if ps != [] {
      EmptyHands(ps[1..]);
    }
  }

  /** Adding a card to one hand adds exactly that card to the cards in hands. */
  lemma {:induction false} HandCardsGain(ps: seq<Player>, i: nat, c: Card)
    requires i < |ps|
    ensures HandCards(ps[i := ps[i].(cards := ps[i].cards + [c])]) == HandCards(ps) + multiset{c}
  {
    var qs := ps[i := ps[i].(cards := ps[i].cards + [c])];
    if i == 0 {
      assert qs[1..] == ps[1..];
    } else {
      HandCardsGain(ps[1..], i - 1, c);
      assert qs[1..] == ps[1..][i - 1 := ps[i].(cards := ps[i].cards + [c])];
    }
  }

  /** Drawing for a player moves a card from the deck to a hand: no card is
      created or lost. */
  lemma DrawPlayerConserves(b: Board, name: string)
    requires DrawPlayer(b, name).Success?
    ensures AllCards(DrawPlayer(b, name).value) == AllCards(b)
  {
    var i := FindPlayer(b.players, name).value;
    var b' := DrawPlayer(b, name).value;
    assert b'.players == b.players[i := b.players[i].(cards := b.players[i].cards + [Top(b.deck)])];
    HandCardsGain(b.players, i, Top(b.deck));
    assert b.deck == b'.deck + [Top(b.deck)];
  }

  /** Drawing to the middle moves a card from the deck to the middle. */
  lemma DrawMiddleConserves(b: Board)
    requires DrawMiddle(b).Success?
    ensures AllCards(DrawMiddle(b).value) == AllCards(b)
  {
    var b' := DrawMiddle(b).value;
    assert b.deck == b'.deck + [Top(b.deck)];
  }

  /** Deals two cards to each named player in turn: both cards to one player
      before the next player gets any. */
  function DealHands(b: Board, names: seq<string>): (r: Result<Board>)
    ensures r.Failure? ==> r.error == PlayerNotFound || r.error == DeckEmpty
    decreases |names|
  {
    if names == [] then Success(b)
    else
      match DrawPlayer(b, names[0])
      case Failure(e) => Failure(e)
      case Success(b1) =>
        match DrawPlayer(b1, names[0])
        case Failure(e) => Failure(e)
        case Success(b2) => DealHands(b2, names[1..])
  }

  /** A successful deal takes two cards from the deck per name and changes
      no name, the middle, the stage or the flags. */
  lemma {:induction false} DealHandsKeeps(b: Board, names: seq<string>)
    ensures var r := DealHands(b, names);
      r.Success? ==>
        && |r.value.deck| + HandSize * |names| == |b.deck|
        && Names(r.value.players) == Names(b.players)
        && r.value.middle == b.middle && r.value.round == b.round && r.value.done == b.done
    decreases |names|
  {
    if names != [] && DrawPlayer(b, names[0]).Success? {
      var b1 := DrawPlayer(b, names[0]).value;
      DrawPlayerEffect(b, names[0]);
      if DrawPlayer(b1, names[0]).Success? {
        DrawPlayerEffect(b1, names[0]);
        DealHandsKeeps(DrawPlayer(b1, names[0]).value, names[1..]);
      }
    }
  }

  /** Draws `k` cards into the middle, one at a time. */
  function DealMiddle(b: Board, k: nat): (r: Result<Board>)
    ensures r.Success? <==> k <= |b.deck|
    ensures r.Failure? ==> r.error == DeckEmpty
    ensures r.Success? ==> |r.value.deck| + k == |b.deck| && |r.value.middle| == |b.middle| + k
    ensures r.Success? ==> r.value.players == b.players && r.value.round == b.round && r.value.done == b.done
    decreases k
  {
    if k == 0 then Success(b)
    else
      match DrawMiddle(b)
      case Failure(e) => Failure(e)
      case Success(b1) => DealMiddle(b1, k - 1)
  }

  /** A board over an already shuffled `deck`: stage 0, no seat settled,
      two cards dealt to each player in seating order, then five cards to
      the middle. */
  function DealBoard(players: seq<Player>, deck: Deck): (r: Result<Board>)
    ensures r.Failure? ==> r.error == PlayerNotFound || r.error == DeckEmpty
    ensures r.Success? ==> r.value.round == 0 && r.value.done == NoneDone && Names(r.value.players) == Names(players)
    ensures r.Success? ==> |r.value.middle| == MiddleSize
    ensures r.Success? ==> |r.value.deck| + HandSize * |players| + MiddleSize == |deck|
  {
    DealHandsKeeps(Board(0, players, NoneDone, deck, []), Names(players));
    match DealHands(Board(0, players, NoneDone, deck, []), Names(players))
    case Failure(e) => Failure(e)
    case Success(b) => DealMiddle(b, MiddleSize)
  }

  /** A new board: the fresh deck, shuffled with the random draws `rolls`,
      dealt out by `DealBoard`. */
  function NewBoard(players: seq<Player>, rolls: seq<nat>): (r: Result<Board>)
    requires |rolls| == DeckSize
    ensures r.Failure? ==> r.error == PlayerNotFound || r.error == DeckEmpty
    ensures r.Success? ==> r.value.round == 0 && r.value.done == NoneDone && Names(r.value.players) == Names(players)
    ensures r.Success? ==> |r.value.middle| == MiddleSize
    ensures r.Success? ==> |r.value.deck| == DeckSize - HandSize * |players| - MiddleSize
  {
    DealBoard(players, Shuffle(CreateDeck(), rolls))
  }

  lemma {:induction false} DealHandsConserves(b: Board, names: seq<string>)
    requires DealHands(b, names).Success?
    ensures AllCards(DealHands(b, names).value) == AllCards(b)
    decreases |names|
  {
    if names != [] {
      var b1 := DrawPlayer(b, names[0]).value;
      DrawPlayerConserves(b, names[0]);
      var b2 := DrawPlayer(b1, names[0]).value;
      DrawPlayerConserves(b1, names[0]);
      DealHandsConserves(b2, names[1..]);
    }
  }

  lemma {:induction false} DealMiddleConserves(b: Board, k: nat)
    requires DealMiddle(b, k).Success?
    ensures AllCards(DealMiddle(b, k).value) == AllCards(b)
    decreases k
  {
    if k != 0 {
      DrawMiddleConserves(b);
      DealMiddleConserves(DrawMiddle(b).value, k - 1);
    }
  }

  /** Dealing a board neither creates nor loses a card: the deck, the hands
      and the middle together hold the dealt deck plus whatever the players
      brought to the table. */
  lemma DealBoardConserves(players: seq<Player>, deck: Deck)
    requires DealBoard(players, deck).Success?
    ensures AllCards(DealBoard(players, deck).value) == multiset(deck) + HandCards(players)
  {
    var start := Board(0, players, NoneDone, deck, []);
    DealHandsConserves(start, Names(players));
    DealMiddleConserves(DealHands(start, Names(players)).value, MiddleSize);
  }

  /** Building a new board neither creates nor loses a card. */
  lemma NewBoardConserves(players: seq<Player>, rolls: seq<nat>)
    requires |rolls| == DeckSize
    ensures NewBoard(players, rolls).Success? ==>
      AllCards(NewBoard(players, rolls).value) == multiset(CreateDeck()) + HandCards(players)
  {
    if NewBoard(players, rolls).Success? {
      DealBoardConserves(players, Shuffle(CreateDeck(), rolls));
    }
  }

  /** Reference for per-player dealing: seats before `k` keep their hands,
      and seat `j` from `k` on receives the cards 2(j-k) and 2(j-k)+1 from
      the top of `d`, in that order. */
  function DealtFrom(ps: seq<Player>, k: nat, d: Deck): (r: seq<Player>)
    requires k <= |ps| && 2 * (|ps| - k) <= |d|
    ensures |r| == |ps|
  {
    seq(|ps|, j requires 0 <= j < |ps| =>
      if j < k then ps[j]
      else ps[j].(cards := ps[j].cards + [d[|d| - 1 - 2 * (j - k)], d[|d| - 2 - 2 * (j - k)]]))
  }

  /** Drawing for the player a lookup finds at seat `k` grows that seat's
      hand by the top card. */
  lemma DrawAt(b: Board, name: string, k: nat)
    requires FindPlayer(b.players, name) == Some(k) && b.deck != []
    ensures DrawPlayer(b, name) ==
      Success(b.(players := b.players[k := b.players[k].(cards := b.players[k].cards + [Top(b.deck)])],
                 deck := b.deck[..|b.deck| - 1]))
  {
  }

  lemma DealtFromStep(ps: seq<Player>, k: nat, d: Deck)
    requires k < |ps| && 2 * (|ps| - k) <= |d|
    ensures var ps2 := ps[k := ps[k].(cards := ps[k].cards + [d[|d| - 1], d[|d| - 2]])];
      DealtFrom(ps2, k + 1, d[..|d| - 2]) == DealtFrom(ps, k, d)
  {
  }

  /** Dealing fails with `DeckEmpty` when the deck holds fewer than two
      cards for each well-named player from seat `k` on. */
  lemma {:induction false} DealHandsFails(b: Board, k: nat, names: seq<string>)
    requires WellNamed(b.players) && k <= |b.players|
    requires names == Names(b.players)[k..]
    requires 2 * (|b.players| - k) > |b.deck|
    ensures DealHands(b, names) == Failure(DeckEmpty)
    decreases |b.players| - k
  {
    assert names[0] == b.players[k].name;
    FindSeated(b.players, k);
    if |b.deck| >= 1 {
      DrawAt(b, names[0], k);
      var b1 := DrawPlayer(b, names[0]).value;
      assert Names(b1.players) == Names(b.players);
      FindDependsOnNames(b.players, b1.players, names[0]);
      if |b.deck| >= 2 {
        DrawAt(b1, names[0], k);
        var b2 := DrawPlayer(b1, names[0]).value;
        assert Names(b2.players) == Names(b.players);
        assert names[1..] == Names(b2.players)[k + 1..];
        DealHandsFails(b2, k + 1, names[1..]);
      }
    }
  }

  /** Changing a hand leaves the seating's names as they are. */
  lemma NamesKeep(ps: seq<Player>, k: nat, cards: seq<Card>)
    requires k < |ps|
    ensures Names(ps[k := ps[k].(cards := cards)]) == Names(ps)
  {
  }

  /** One step of the deal: the player at seat `k` draws the top two cards. */
  lemma DealStep(b: Board, k: nat, names: seq<string>)
    requires names != [] && FindPlayer(b.players, names[0]) == Some(k) && |b.deck| >= 2
    ensures var d, p := b.deck, b.players[k];
      DealHands(b, names) ==
      DealHands(b.(players := b.players[k := p.(cards := p.cards + [d[|d| - 1], d[|d| - 2]])], deck := d[..|d| - 2]), names[1..])
  {
    var d, p := b.deck, b.players[k];
    DrawAt(b, names[0], k);
    var b1 := b.(players := b.players[k := p.(cards := p.cards + [d[|d| - 1]])], deck := d[..|d| - 1]);
    assert DrawPlayer(b, names[0]) == Success(b1);
    NamesKeep(b.players, k, p.cards + [d[|d| - 1]]);
    FindDependsOnNames(b.players, b1.players, names[0]);
    DrawAt(b1, names[0], k);
    assert Top(b1.deck) == d[|d| - 2];
    assert b1.deck[..|b1.deck| - 1] == d[..|d| - 2];
    assert p.cards + [d[|d| - 1]] + [d[|d| - 2]] == p.cards + [d[|d| - 1], d[|d| - 2]];
    var b2 := b.(players := b.players[k := p.(cards := p.cards + [d[|d| - 1], d[|d| - 2]])], deck := d[..|d| - 2]);
    assert b1.players[k := b1.players[k].(cards := b1.players[k].cards + [Top(b1.deck)])] == b2.players;
    assert DrawPlayer(b1, names[0]) == Success(b2);
  }

  /** With enough cards, dealing to the well-named players from seat `k` on
      deals them exactly as `DealtFrom` says, removes those cards from the
      top of the deck, and leaves stage, flags and middle alone. The deal's
      outcome is passed in as `r`, so the proof reasons about it only
      through the step equation and the induction hypothesis. */
  lemma {:induction false} DealHandsExact(b: Board, k: nat, names: seq<string>, r: Result<Board>)
    requires WellNamed(b.players) && k <= |b.players|
    requires names == Names(b.players)[k..]
    requires 2 * (|b.players| - k) <= |b.deck|
    requires r == DealHands(b, names)
    ensures r.Success?
    ensures r.value.players == DealtFrom(b.players, k, b.deck)
    ensures r.value.deck == b.deck[..|b.deck| - 2 * (|b.players| - k)]
    ensures r.value.round == b.round && r.value.done == b.done && r.value.middle == b.middle
    decreases |b.players| - k
  {
    var d := b.deck;
    if k == |b.players| {
      assert names == [];
      assert DealtFrom(b.players, k, d) == b.players;
      assert d[..|d|] == d;
    } else {
      var p := b.players[k];
      var ps2 := b.players[k := p.(cards := p.cards + [d[|d| - 1], d[|d| - 2]])];
      var d2 := d[..|d| - 2];
      var b2 := b.(players := ps2, deck := d2);
      assert WellNamed(ps2) && names[1..] == Names(ps2)[k + 1..] by {
        NamesKeep(b.players, k, p.cards + [d[|d| - 1], d[|d| - 2]]);
      }
      assert r == DealHands(b2, names[1..]) by {
        assert names[0] == b.players[k].name;
        FindSeated(b.players, k);
        DealStep(b, k, names);
      }
      DealHandsExact(b2, k + 1, names[1..], r);
      DealtOneMore(b, k, b2, r);
    }
  }

  /** One seat more: a board dealt as `DealtFrom` says from seat `k + 1` of
      the board after seat `k`'s two draws is dealt as it says from seat `k`. */
  lemma DealtOneMore(b: Board, k: nat, b2: Board, r: Result<Board>)
    requires k < |b.players| && 2 * (|b.players| - k) <= |b.deck|
    requires var d, p := b.deck, b.players[k];
      b2 == b.(players := b.players[k := p.(cards := p.cards + [d[|d| - 1], d[|d| - 2]])], deck := d[..|d| - 2])
    requires r.Success?
    requires r.value.players == DealtFrom(b2.players, k + 1, b2.deck)
    requires r.value.deck == b2.deck[..|b2.deck| - 2 * (|b2.players| - (k + 1))]
    requires r.value.round == b2.round && r.value.done == b2.done && r.value.middle == b2.middle
    ensures r.value.players == DealtFrom(b.players, k, b.deck)
    ensures r.value.deck == b.deck[..|b.deck| - 2 * (|b.players| - k)]
    ensures r.value.round == b.round && r.value.done == b.done && r.value.middle == b.middle
  {
    DealtFromStep(b.players, k, b.deck);
    PrefixOfPrefix(b.deck, |b.deck| - 2, |b.deck| - 2 * (|b.players| - k));
  }

  /** Dealing the hands of a fresh board, as `DealtFrom` says. */
  lemma DealHandsFromStart(players: seq<Player>, D: Deck)
    requires WellNamed(players) && 2 * |players| <= |D|
    ensures DealHands(Board(0, players, NoneDone, D, []), Names(players)) ==
      Success(Board(0, DealtFrom(players, 0, D), NoneDone, D[..|D| - 2 * |players|], []))
  {
    var b := Board(0, players, NoneDone, D, []);
    assert Names(players)[0..] == Names(players);
    DealHandsExact(b, 0, Names(players), DealHands(b, Names(players)));
  }

  /** The top `k` cards of a deck, top first: the order in which `k` draws
      return them. */
  function TopCards(d: Deck, k: nat): (r: seq<Card>)
    requires k <= |d|
    ensures |r| == k
  {
    seq(k, t requires 0 <= t < k => d[|d| - 1 - t])
  }

  lemma TopCardsStep(d: Deck, k: nat)
    requires 1 <= k <= |d|
    ensures TopCards(d, k) == [Top(d)] + TopCards(d[..|d| - 1], k - 1)
  {
  }

  /** Drawing `k` cards to the middle fails with `DeckEmpty` when the deck
      holds fewer than `k` cards. */
  lemma {:induction false} DealMiddleFails(b: Board, k: nat)
    requires k > |b.deck|
    ensures DealMiddle(b, k) == Failure(DeckEmpty)
    decreases k
  {
    if b.deck != [] {
      DealMiddleFails(DrawMiddle(b).value, k - 1);
    }
  }

  /** Drawing `k` cards to the middle appends the deck's top `k` cards, top
      first, removes them from the deck and touches nothing else. */
  lemma {:induction false} DealMiddleExact(b: Board, k: nat)
    requires k <= |b.deck|
    ensures DealMiddle(b, k).Success?
    ensures DealMiddle(b, k).value.middle == b.middle + TopCards(b.deck, k)
    ensures DealMiddle(b, k).value.deck == b.deck[..|b.deck| - k]
    ensures DealMiddle(b, k).value == b.(middle := b.middle + TopCards(b.deck, k), deck := b.deck[..|b.deck| - k])
    decreases k
  {
    if k > 0 {
      var b1 := DrawMiddle(b).value;
      DealMiddleExact(b1, k - 1);
      TopCardsStep(b.deck, k);
      assert b1.deck == b.deck[..|b.deck| - 1];
      assert b1.deck[..|b1.deck| - (k - 1)] == b.deck[..|b.deck| - k];
    }
  }

  /** Drawing `k` cards into an empty middle leaves exactly the deck's top
      `k` cards there. */
  lemma DealMiddleFromEmpty(b: Board, k: nat)
    requires b.middle == [] && k <= |b.deck|
    ensures DealMiddle(b, k) == Success(b.(middle := TopCards(b.deck, k), deck := b.deck[..|b.deck| - k]))
  {
    DealMiddleExact(b, k);
    assert [] + TopCards(b.deck, k) == TopCards(b.deck, k);
  }

  /** Fresh, well-named players: the seatings built by `Player::new`. */
  predicate FreshSeating(players: seq<Player>)
  {
    WellNamed(players) && forall j :: 0 <= j < |players| ==> players[j].cards == []
  }

  lemma PrefixOfPrefix(d: Deck, i: nat, j: nat)
    requires j <= i <= |d|
    ensures d[..i][..j] == d[..j]
  {
  }

  /** The board dealt from a 52-card deck to well-named players, as a value. */
  lemma DealBoardValue(players: seq<Player>, D: Deck)
    requires |D| == DeckSize
    requires WellNamed(players)
    requires HandSize * |players| + MiddleSize <= DeckSize
    ensures DealBoard(players, D).Success?
    ensures var b := DealBoard(players, D).value;
      b.round == 0 && b.done == NoneDone && b.players == DealtFrom(players, 0, D)
    ensures DealBoard(players, D).value.deck == D[..47 - 2 * |players|]
    ensures DealBoard(players, D).value.middle == TopCards(D[..52 - 2 * |players|], MiddleSize)
  {
    var n := |players|;
    DealHandsFromStart(players, D);
    DealBoardAfterHands(players, D, DealtFrom(players, 0, D), D[..|D| - 2 * n]);
    PrefixOfPrefix(D, 52 - 2 * n, 47 - 2 * n);
  }

  /** Once the hands are dealt, the middle takes the next five cards from
      the top and the deck keeps the rest. */
  lemma DealBoardAfterHands(players: seq<Player>, D: Deck, hands: seq<Player>, rest: Deck)
    requires MiddleSize <= |rest|
    requires DealHands(Board(0, players, NoneDone, D, []), Names(players)) == Success(Board(0, hands, NoneDone, rest, []))
    ensures DealBoard(players, D) == Success(Board(0, hands, NoneDone, rest[..|rest| - MiddleSize], TopCards(rest, MiddleSize)))
  {
    DealMiddleOfDealtHands(hands, rest);
    DealBoardComposes(players, D, Board(0, hands, NoneDone, rest, []),
      Board(0, hands, NoneDone, rest[..|rest| - MiddleSize], TopCards(rest, MiddleSize)));
  }

  /** The middle of a board whose hands are dealt: the next five cards. */
  lemma DealMiddleOfDealtHands(hands: seq<Player>, rest: Deck)
    requires MiddleSize <= |rest|
    ensures DealMiddle(Board(0, hands, NoneDone, rest, []), MiddleSize) ==
      Success(Board(0, hands, NoneDone, rest[..|rest| - MiddleSize], TopCards(rest, MiddleSize)))
  {
    DealMiddleFromEmpty(Board(0, hands, NoneDone, rest, []), MiddleSize);
  }

  /** A board is dealt by dealing the hands and then the middle. */
  lemma DealBoardComposes(players: seq<Player>, D: Deck, b1: Board, b2: Board)
    requires DealHands(Board(0, players, NoneDone, D, []), Names(players)) == Success(b1)
    requires DealMiddle(b1, MiddleSize) == Success(b2)
    ensures DealBoard(players, D) == Success(b2)
  {
  }

  /** The five cards below depth `i` of a deck, top first. */
  lemma TopFive(d: Deck, i: nat)
    requires 5 <= i <= |d|
    ensures TopCards(d[..i], 5) == [d[i - 1], d[i - 2], d[i - 3], d[i - 4], d[i - 5]]
  {
  }

  /** Dealt from seat 0 to an empty hand, seat j holds exactly the cards
      2j and 2j + 1 from the top. */
  lemma DealtToEmptyHand(ps: seq<Player>, d: Deck, j: nat)
    requires 2 * |ps| <= |d| && j < |ps| && ps[j].cards == []
    ensures DealtFrom(ps, 0, d)[j] == ps[j].(cards := [d[|d| - 1 - 2 * j], d[|d| - 2 - 2 * j]])
  {
    assert ps[j].cards + [d[|d| - 1 - 2 * j], d[|d| - 2 - 2 * j]] == [d[|d| - 1 - 2 * j], d[|d| - 2 - 2 * j]];
  }

  /** Dealt from a 52-card deck D to empty hands, seat j holds D's cards
      51 - 2j and 50 - 2j. */
  lemma DealtFromFullDeck(ps: seq<Player>, D: Deck)
    requires |D| == DeckSize && 2 * |ps| <= DeckSize
    requires forall j :: 0 <= j < |ps| ==> ps[j].cards == []
    ensures forall j :: 0 <= j < |ps| ==> DealtFrom(ps, 0, D)[j] == ps[j].(cards := [D[51 - 2 * j], D[50 - 2 * j]])
  {
    forall j | 0 <= j < |ps|
      ensures DealtFrom(ps, 0, D)[j] == ps[j].(cards := [D[51 - 2 * j], D[50 - 2 * j]])
    {
      DealtToEmptyHand(ps, D, j);
    }
  }

  /** Dealing a 52-card deck D to n fresh, well-named players with
      2n + 5 <= 52 succeeds at stage 0 with no seat settled; player j holds
      D's cards 51 - 2j and 50 - 2j: both of one player's cards are dealt
      before the next player gets any. */
  lemma DealBoardHands(players: seq<Player>, D: Deck)
    requires |D| == DeckSize
    requires FreshSeating(players)
    requires HandSize * |players| + MiddleSize <= DeckSize
    ensures DealBoard(players, D).Success?
    ensures DealBoard(players, D).value.round == 0 && DealBoard(players, D).value.done == NoneDone
    ensures var b, n := DealBoard(players, D).value, |players|;
      |b.players| == n && forall j :: 0 <= j < n ==> b.players[j] == players[j].(cards := [D[51 - 2 * j], D[50 - 2 * j]])
  {
    DealBoardValue(players, D);
    DealtFromFullDeck(players, D);
  }

  /** After the hands, the middle receives the next five cards from the top
      of D and the deck keeps the remaining 47 - 2n, in their order. */
  lemma DealBoardMiddle(players: seq<Player>, D: Deck)
    requires |D| == DeckSize
    requires FreshSeating(players)
    requires HandSize * |players| + MiddleSize <= DeckSize
    ensures DealBoard(players, D).Success?
    ensures var b, n := DealBoard(players, D).value, |players|;
      b.middle == [D[51 - 2 * n], D[50 - 2 * n], D[49 - 2 * n], D[48 - 2 * n], D[47 - 2 * n]]
    ensures DealBoard(players, D).value.deck == D[..47 - 2 * |players|]
  {
    DealBoardValue(players, D);
    TopFive(D, 52 - 2 * |players|);
  }

  /** Dealing to fresh players leaves deck, hands and middle holding exactly
      the cards of D. */
  lemma DealBoardFromFresh(players: seq<Player>, D: Deck)
    requires FreshSeating(players)
    requires DealBoard(players, D).Success?
    ensures AllCards(DealBoard(players, D).value) == multiset(D)
  {
    DealBoardConserves(players, D);
    EmptyHands(players);
  }

  /** A new board for n fresh, well-named players with 2n + 5 <= 52 deals
      the shuffled deck as `DealBoardHands` and `DealBoardMiddle` say, and its deck, hands and
      middle together are exactly the 52 cards of the fresh deck. */
  lemma NewBoardDeals(players: seq<Player>, rolls: seq<nat>)
    requires |rolls| == DeckSize
    requires FreshSeating(players)
    requires HandSize * |players| + MiddleSize <= DeckSize
    ensures NewBoard(players, rolls).Success?
    ensures NewBoard(players, rolls).value.round == 0 && NewBoard(players, rolls).value.done == NoneDone
    ensures var b, D, n := NewBoard(players, rolls).value, Shuffle(CreateDeck(), rolls), |players|;
      |b.players| == n && forall j :: 0 <= j < n ==> b.players[j] == players[j].(cards := [D[51 - 2 * j], D[50 - 2 * j]])
    ensures var b, D, n := NewBoard(players, rolls).value, Shuffle(CreateDeck(), rolls), |players|;
      b.middle == [D[51 - 2 * n], D[50 - 2 * n], D[49 - 2 * n], D[48 - 2 * n], D[47 - 2 * n]]
    ensures NewBoard(players, rolls).value.deck == Shuffle(CreateDeck(), rolls)[..47 - 2 * |players|]
    ensures AllCards(NewBoard(players, rolls).value) == multiset(CreateDeck())
  {
    var D := Shuffle(CreateDeck(), rolls);
    DealBoardHands(players, D);
    DealBoardMiddle(players, D);
    DealBoardFromFresh(players, D);
  }

  /** Consequently every hand has two cards, the middle five and the deck 52 - 2n - 5. */
  lemma NewBoardSizes(players: seq<Player>, rolls: seq<nat>)
    requires |rolls| == DeckSize
    requires FreshSeating(players)
    requires HandSize * |players| + MiddleSize <= DeckSize
    ensures NewBoard(players, rolls).Success?
    ensures var b := NewBoard(players, rolls).value;
      && (forall j :: 0 <= j < |b.players| ==> |b.players[j].cards| == HandSize)
      && |b.middle| == MiddleSize
      && |b.deck| == DeckSize - HandSize * |players| - MiddleSize
  {
    NewBoardDeals(players, rolls);
  }

  /** More fresh players than a 52-card deck can serve (2n + 5 > 52): the
      deal runs out of cards and fails with `DeckEmpty`. */
  lemma DealBoardExhausts(players: seq<Player>, D: Deck)
    requires |D| == DeckSize
    requires FreshSeating(players)
    requires HandSize * |players| + MiddleSize > DeckSize
    ensures DealBoard(players, D) == Failure(DeckEmpty)
  {
    var n := |players|;
    var start := Board(0, players, NoneDone, D, []);
    if HandSize * n <= DeckSize {
      assert Names(players)[0..] == Names(players);
      DealHandsExact(start, 0, Names(players), DealHands(start, Names(players)));
      DealHandsKeeps(start, Names(players));
      DealBoardStopsInMiddle(players, D);
    } else {
      assert Names(players)[0..] == Names(players);
      DealHandsFails(start, 0, Names(players));
    }
  }

  /** A board whose middle cannot be dealt is not dealt. */
  lemma DealBoardStopsInMiddle(players: seq<Player>, D: Deck)
    requires DealHands(Board(0, players, NoneDone, D, []), Names(players)).Success?
    requires |DealHands(Board(0, players, NoneDone, D, []), Names(players)).value.deck| < MiddleSize
    ensures DealBoard(players, D) == Failure(DeckEmpty)
  {
    DealMiddleFails(DealHands(Board(0, players, NoneDone, D, []), Names(players)).value, MiddleSize);
  }

  lemma NewBoardExhausts(players: seq<Player>, rolls: seq<nat>)
    requires |rolls| == DeckSize
    requires FreshSeating(players)
    requires HandSize * |players| + MiddleSize > DeckSize
    ensures NewBoard(players, rolls) == Failure(DeckEmpty)
  {
    DealBoardExhausts(players, Shuffle(CreateDeck(), rolls));
  }

  /** Lookups go to the first player with a matching name, so when two
      players share a name the first is dealt all four of their cards and
      the second none. */
  lemma DuplicateNamesDealToFirst(p: Player, q: Player, D: Deck)
    requires |D| == DeckSize
    requires p.cards == [] && q.cards == []
    requires IsLower(p.name) && q.name == p.name
    ensures DealBoard([p, q], D).Success?
    ensures DealBoard([p, q], D).value.players == [p.(cards := [D[51], D[50], D[49], D[48]]), q]
  {
    DuplicateFirstDraws(p, q, D);
    DuplicateSecondDraws(p, q, D);
    DealBoardAfterHands([p, q], D, [p.(cards := [D[51], D[50], D[49], D[48]]), q], D[..48]);
  }

  /** A player whose stored name is not lower-case is never found by its own
      name: the lookup lower-cases the query, so a draw for that name goes to
      the next seat whose name is the lower-cased form. */
  lemma UpperNameDrawsForOther(b: Board, p: Player, q: Player)
    requires b.players == [p, q] && b.deck != []
    requires !IsLower(p.name) && q.name == Lower(p.name)
    ensures DrawPlayer(b, p.name).Success?
    ensures DrawPlayer(b, p.name).value.players == [p, q.(cards := q.cards + [Top(b.deck)])]
  {
    assert b.players[0].name != Lower(p.name) && b.players[1].name == Lower(p.name);
    assert FindPlayer(b.players, p.name) == Some(1);
  }

  /** The first name's two draws go to the first of two same-named players. */
  lemma DuplicateFirstDraws(p: Player, q: Player, D: Deck)
    requires |D| == DeckSize
    requires p.cards == [] && IsLower(p.name) && q.name == p.name
    ensures DealHands(Board(0, [p, q], NoneDone, D, []), Names([p, q])) ==
      DealHands(Board(0, [p.(cards := [D[51], D[50]]), q], NoneDone, D[..50], []), [p.name])
  {
    var name := p.name;
    var start := Board(0, [p, q], NoneDone, D, []);
    assert Names([p, q]) == [name, name];
    assert FindPlayer([p, q], name) == Some(0);
    DealStep(start, 0, [name, name]);
    FirstOfTwo(p, q, p.cards + [D[51], D[50]]);
    assert p.cards + [D[51], D[50]] == [D[51], D[50]];
    assert [name, name][1..] == [name];
  }

  /** Changing the first of two seats. */
  lemma FirstOfTwo(x: Player, q: Player, cards: seq<Card>)
    ensures [x, q][0 := x.(cards := cards)] == [x.(cards := cards), q]
  {
  }

  /** So do the second name's two draws. */
  lemma DuplicateSecondDraws(p: Player, q: Player, D: Deck)
    requires |D| == DeckSize
    requires IsLower(p.name) && q.name == p.name
    ensures DealHands(Board(0, [p.(cards := [D[51], D[50]]), q], NoneDone, D[..50], []), [p.name]) ==
      Success(Board(0, [p.(cards := [D[51], D[50], D[49], D[48]]), q], NoneDone, D[..48], []))
  {
    var name := p.name;
    var b1 := Board(0, [p.(cards := [D[51], D[50]]), q], NoneDone, D[..50], []);
    assert FindPlayer(b1.players, name) == Some(0);
    DealStep(b1, 0, [name]);
    assert b1.deck[49] == D[49] && b1.deck[48] == D[48];
    assert [D[51], D[50]] + [D[49], D[48]] == [D[51], D[50], D[49], D[48]];
    FirstOfTwo(b1.players[0], q, b1.players[0].cards + [D[49], D[48]]);
    assert D[..50][..48] == D[..48];
  }

  /** `Player::new` with names that differ only in letter case yields two
      players with the same name. */
  lemma CaseVariantsCollide()
    ensures NewPlayer("Bob").name == NewPlayer("BOB").name
  {
    assert Lower("Bob") == "bob";
    assert Lower("BOB") == "bob";
  }
}
