# Texas Hold'em dealing and betting-stage engine, in Dafny

This project models the core of a single-file terminal Texas Hold'em game
(`src/main.rs`). It covers four parts:

- **Cards.** A card is a rank and a suit. Its colour depends on the suit alone. Its
  numeric value uses the game's own scale: Ace 11, Two to Ten face value, Jack 12,
  Queen 13, King 14.
- **Deck.** `create_deck` builds the canonical 52-card deck in a fixed order.
  `draw` pops the top card, which is the last one, and aborts on an empty deck.
  `shuffle_deck` permutes the deck with a random generator.
- **Board.** `Player::new` lower-cases the player's name and starts them with
  10000 chips and no bet. `Board::new` shuffles a fresh deck. It then deals two
  cards to each player in seating order, both to one player before the next, and
  then five cards to the middle. `draw_player` and `get_cards` look a player up by
  lower-cased name, and the first match wins.
- **Betting stage.** This logic sits inside `main`'s input loop, and here it is
  lifted into pure functions. A raise by seat *i* clears every settle flag and
  sets seat *i*'s. A call sets seat *i*'s flag. When every flag is set, the flags
  are cleared and the round counter goes up by one.

Modules: `Outcomes` (errors and results), `Cards`, `Decks`, `Table` (players and
board) and `Betting` (the stage state machine). Every operation is a pure
function. The source's aborts become `Result` errors: `DeckEmpty`,
`PlayerNotFound`, and `SeatOutOfRange` for an index past the four settle flags.

The random generator is a parameter. `Shuffle(d, rolls)` is a Fisher–Yates
shuffle driven by `rolls`: at position `i` it exchanges the card with position
`rolls[i] % (i + 1)`. Nothing is assumed about `rolls`, so
every property proved holds for every shuffle.

The settle-flag array has a fixed size of four (`players_done: [bool; 4]`), and
the model keeps it that way: every betting operation requires a flag table of
length four, which is the only length the source's type allows. With fewer than four players the stage never
settles (`ShortTableNeverAdvances`). With more than four, the fifth seat's turn
fails (`PassFrom`).

Behaviour worth knowing:

- Dealing is per player: both of a player's cards are dealt before the next player gets any. Player *j* receives the shuffled deck's
  cards 51−2j and 50−2j.
- The round counter has no last stage. Every settled stage
  advances it again (`AllCallAdvances` holds at every round).
- Advancing from an unsettled stage is impossible, because the loop only advances
  after the settle check.
- Player names are not required to be unique. Two players whose names are equal
  once lower-cased share one lookup. The first of them receives all four cards
  and the second none (`DuplicateNamesDealToFirst`, `CaseVariantsCollide`).

## Model

| member | source | states |
|---|---|---|
| Cards.ColorOf | src/main.rs:223-230 | Spades and Clubs are black; Diamonds and Hearts are red; both directions |
| Cards.Value | src/main.rs:231-247 | Every card's value lies between 2 and 14. |
| Cards.ValueRoundTrip | src/main.rs:231-247 | the rank can be recovered from the value: `RankOfValue(Value(c))` is `c`'s rank |
| Cards.RankOfValueSound | src/main.rs:231-247 | every value in 2..14 is the value of the rank `RankOfValue` names, whatever the suit |
| Cards.ValueInjective | src/main.rs:231-247 | two cards have equal values exactly when they have equal ranks |
| Decks.CreateDeck | src/main.rs:256-313 | the fresh deck has exactly 52 cards |
| Decks.CreateDeckPositions | src/main.rs:256-313 | the card at every index i of the fresh deck has canonical position i, so no card occurs twice |
| Decks.CreateDeckComplete | src/main.rs:256-313 | every (rank, suit) pair occurs in the fresh deck, at its canonical position |
| Decks.CreateDeckIsFullDeck | src/main.rs:256-313 | the fresh deck has 52 cards, has no duplicates and contains every card |
| Decks.CreateDeckCounts | src/main.rs:256-313 | every card occurs exactly once in the fresh deck |
| Decks.Draw | src/main.rs:317-319 | fails with `DeckEmpty` exactly on the empty deck; otherwise the rest followed by the drawn card is the old deck, so the top card comes out and the rest keep their order |
| Decks.DrawConserves | src/main.rs:317-319 | a draw shortens the deck by one and moves exactly one card out of it |
| Decks.Swap | src/main.rs:314-316 | an exchange keeps the deck's length and multiset |
| Decks.ShuffleDown | src/main.rs:314-316 | the Fisher–Yates passes keep the deck's length and multiset, whatever the random draws |
| Decks.Shuffle | src/main.rs:314-316 | a shuffle is a permutation of its input for every random source |
| Decks.ShuffledDeckIsFull | src/main.rs:181-184 | a shuffled fresh deck still has no duplicates and contains every card |
| Table.LowerChar | src/main.rs:162 | lower-casing leaves no upper-case ASCII letter; it maps A–Z to a–z and fixes every other character |
| Table.Lower | src/main.rs:162 | lower-casing keeps the name's length, lower-cases each character on its own, and leaves no upper-case ASCII letter |
| Table.NewPlayer | src/main.rs:160-167 | a new player's name is the lower-cased argument, and the player has an empty hand, 10000 chips and no bet |
| Table.NewPlayerFoundByAnyCase | src/main.rs:160-167 | a lookup finds a new player exactly when the query equals the player's name once both are lower-cased |
| Table.FindPlayer | src/main.rs:204 | the lookup returns the first seat whose name equals the lower-cased query, and `None` exactly when no seat has that name |
| Table.FindDependsOnNames | src/main.rs:204 | the lookup depends only on the seating's names, not on hands or chips |
| Table.FindSeated | src/main.rs:193-196 | when names are lower-case and distinct, each player's own name finds that player's seat |
| Table.DrawPlayerEffect | src/main.rs:203-206 | `DrawPlayer` fails with `PlayerNotFound` when no name matches, else with `DeckEmpty` on an empty deck, and succeeds exactly when a name matches and the deck is not empty; on success exactly the matched seat's hand gains the top card, the deck loses it, and names, middle, round and flags stay unchanged |
| Table.DrawMiddle | src/main.rs:207-210 | fails with `DeckEmpty` exactly on an empty deck; otherwise the top card moves to the end of the middle and nothing else changes |
| Table.GetCards | src/main.rs:211-213 | fails with `PlayerNotFound` exactly when no name matches; otherwise returns the hand of the first seat whose name equals the lower-cased query |
| Table.DrawPlayerThenGetCards | src/main.rs:203-213 | after drawing for a name, `get_cards` on that name returns the previous hand plus the drawn card |
| Table.DrawPlayerConserves | src/main.rs:203-206 | drawing for a player neither creates nor loses a card across deck, hands and middle |
| Table.DrawMiddleConserves | src/main.rs:207-210 | drawing to the middle neither creates nor loses a card |
| Table.DealHands | src/main.rs:193-197 | dealing the hands fails only with `PlayerNotFound` or `DeckEmpty` |
| Table.DealHandsKeeps | src/main.rs:193-197 | a successful deal leaves the deck two cards shorter per name and keeps the names, middle, round and flags |
| Table.DealMiddle | src/main.rs:198-200 | drawing k middle cards succeeds exactly when the deck holds at least k, fails with `DeckEmpty` otherwise, moves k cards from the deck to the middle and leaves players, round and flags unchanged |
| Table.DealBoard | src/main.rs:180-202 | dealing a board fails only with `PlayerNotFound` or `DeckEmpty`; a dealt board is at round 0 with no flag set, keeps the players' names, has five middle cards and a deck shorter by 2n + 5 |
| Table.NewBoard | src/main.rs:180-202 | a new board fails only with `PlayerNotFound` or `DeckEmpty`; once built it is at round 0 with no flag set, keeps the players' names, has five middle cards and 52 − 2n − 5 cards left in the deck |
| Table.DealHandsConserves | src/main.rs:193-197 | dealing the hands neither creates nor loses a card |
| Table.DealMiddleConserves | src/main.rs:198-200 | dealing the middle neither creates nor loses a card |
| Table.DealBoardConserves | src/main.rs:180-202 | a dealt board holds exactly the shuffled deck plus the cards the players brought |
| Table.NewBoardConserves | src/main.rs:180-202 | a new board holds exactly the fresh deck plus the cards the players brought |
| Table.DealHandsExact | src/main.rs:193-197 | with enough cards, seat j receives the cards 2j and 2j+1 from the top, both before the next seat gets any; the deck loses exactly those cards |
| Table.DealHandsFails | src/main.rs:193-197 | with fewer than two cards per remaining player, the deal fails with `DeckEmpty` |
| Table.DealMiddleExact | src/main.rs:198-200 | drawing k middle cards appends the top k cards, top first, and removes them from the deck |
| Table.DealMiddleFails | src/main.rs:198-200 | drawing more middle cards than the deck holds fails with `DeckEmpty` |
| Table.DealBoardHands | src/main.rs:180-202 | for n fresh players with 2n+5 ≤ 52: round 0, no flag set, and player j holds exactly the deck's cards 51−2j and 50−2j |
| Table.DealBoardMiddle | src/main.rs:180-202 | for n fresh players with 2n+5 ≤ 52: the middle holds the five cards below the hands, top first, and the deck keeps the bottom 47−2n cards in order |
| Table.DealBoardFromFresh | src/main.rs:180-202 | for fresh players, the deck, hands and middle together are exactly the dealt deck |
| Table.NewBoardDeals | src/main.rs:180-202 | a new board for n fresh players (2n+5 ≤ 52) is dealt per player from the shuffled deck, and its deck, hands and middle form exactly the 52-card fresh deck |
| Table.NewBoardSizes | src/main.rs:180-202 | every hand has 2 cards, the middle has 5, and the deck has 52−2n−5 |
| Table.DealBoardExhausts | src/main.rs:193-200 | with 2n+5 > 52, dealing a 52-card deck fails with `DeckEmpty` |
| Table.NewBoardExhausts | src/main.rs:180-202 | with 2n+5 > 52, building the board fails with `DeckEmpty` |
| Table.DuplicateNamesDealToFirst | src/main.rs:193-206 | two players with the same name: the first is dealt all four cards and the second none |
| Table.UpperNameDrawsForOther | src/main.rs:203-206 | a draw for a seated name that is not lower-case goes to the other seat whose name is its lower-cased form, since the lookup lower-cases the query |
| Table.CaseVariantsCollide | src/main.rs:162 | `Player::new("Bob")` and `Player::new("BOB")` get the same name |
| Betting.Apply | src/main.rs:21-32 | the move's flags keep the table's length and always have the mover's flag set |
| Betting.CountDone | src/main.rs:37 | the number of settled seats never exceeds the number of flags |
| Betting.SettledIffAll | src/main.rs:37 | `Settled`, the count check "settled seats = number of flags", holds exactly when every flag is set |
| Betting.AfterRaise | src/main.rs:22-27 | after a raise by seat i, exactly flag i is set, whatever the previous flags |
| Betting.AfterCall | src/main.rs:28-32 | a call sets flag i and leaves every other flag unchanged |
| Betting.RaiseLeavesOneSettled | src/main.rs:24-25 | after a raise, exactly one seat is counted as settled |
| Betting.CallIdempotent | src/main.rs:30 | calling twice is the same as calling once |
| Betting.CallCount | src/main.rs:30 | a call adds one settled seat, or none if the caller had already settled |
| Betting.Advance | src/main.rs:37-40 | a settled stage clears the flags and moves the round up by exactly one; an unsettled board is returned unchanged; cards are never touched |
| Betting.AdvanceReopens | src/main.rs:39 | right after an advance the stage is not settled |
| Betting.Turn | src/main.rs:14-56 | on the four-flag table, a seat from 4 on fails with `SeatOutOfRange`; otherwise the round rises by at most one, and it rises exactly when a call comes from the last unsettled seat, never on a raise; the new flags are cleared on an advance and are the move's flags otherwise; the table stays four flags long and no card moves |
| Betting.PassFrom | src/main.rs:14-57 | a pass of turns from a seat succeeds exactly when it stays within the four flags, and fails with `SeatOutOfRange` otherwise; it moves no card and raises the round by at most the number of turns |
| Betting.Pass | src/main.rs:14-56 | one pass over the seated players succeeds exactly when at most four are seated, fails with `SeatOutOfRange` otherwise, moves no card and raises the round by at most the number of players |
| Betting.NewBoardValid | src/main.rs:180-202 | a new board for fresh players that fit the deck satisfies the invariant: four flags, and the cards form the fresh deck |
| Betting.TurnPreservesValid | src/main.rs:14-56 | every successful turn keeps that invariant |
| Betting.PassFromPreservesValid | src/main.rs:14-57 | every successful pass keeps that invariant |
| Betting.CallsInOrder | src/main.rs:28-37 | starting with no seat settled, after the first k seats call exactly those k are settled, and the stage is settled exactly when k reaches the number of seats |
| Betting.AllCallAdvances | src/main.rs:13-40 | from a fresh stage at any round, four calls move the round up by one and clear the flags |
| Betting.RaiseThenCallsAdvances | src/main.rs:13-40 | from any flags, a raise by seat 0 then calls by the other three seats advance the round by exactly one and leave every flag clear |
| Betting.LateRaiseReopens | src/main.rs:22-37 | three calls then a raise by the last seat leave only the raiser settled, at the same round |
| Betting.StageClosesMidPass | src/main.rs:13-40 | after a late raise, the next pass closes the stage at the third seat's call, and the fourth seat's call counts towards the new stage |
| Betting.ShortTableNeverAdvances | src/main.rs:22-40 | while the fourth flag is clear, any move by seats 0 to 2 succeeds, leaves the round where it is and keeps the fourth flag clear, so a table of three or fewer never advances |

## Left out

- Console input and output are not modelled: reading stdin, trimming and lower-casing the token, re-prompting on an unknown token, and every `println!`. A turn takes its decision as an abstract `Move`, either `Raise` or `Call`.
- Quitting is not modelled: the `panic!` on the quit tokens is process termination.
- The `Debug` and `Display` formatting of cards is not modelled, because it is presentation only.
- The stage announcements after an advance are output only and are not modelled. At round 1 the code prints all five middle cards.
- `Card::new` is the `Card` datatype constructor.
- Decks.Shuffle: proves only that the result is a permutation of the input. It does not prove that every permutation is reachable or that the distribution is uniform. The random draws are the parameter `rolls`, one per position.
- Table.NewBoard: takes the random draws as its `rolls` argument, which has one entry per card, in place of the thread-local generator.
- Betting.Advance: the round counter is an unbounded `nat`. The source's `u8` overflows after 255 advances, and that overflow is not modelled.
- Table.LowerChar: lower-cases ASCII letters only. Rust's `to_lowercase` also maps non-ASCII letters.
- Table.Lower: lower-cases character by character over ASCII only; Rust's `to_lowercase` maps non-ASCII letters and can change a name's length.
- Balance and bet are set by `Player::new` and never changed by the code, so no operation updates them.
- Players built without `Player::new` may have names with upper-case letters. A draw for such a name returns `PlayerNotFound` unless another seat's name equals the lower-cased name, in which case that seat is dealt the card, as in the source (`UpperNameDrawsForOther`).
