/** The betting-stage state machine that drives a round: per-seat settle
    flags, the effect of a raise or a call, and the advance to the next
    stage once every seat has settled. */
module Betting {
  import opened Outcomes
  import opened Decks
  import opened Table

  /** A player's decision on their turn. */
  datatype Move = Raise | Call

  /** Number of settled seats. */
  function CountDone(flags: seq<bool>): (r: nat)
    ensures r <= |flags|
  {
    if flags == [] then 0 else (if flags[0] then 1 else 0) + CountDone(flags[1..])
  }

  /** The stage is settled when the count of settled seats equals the
      number of flags. */
  predicate Settled(flags: seq<bool>)
  {
    CountDone(flags) == |flags|
  }

  /** Settled by count means every single seat is settled. */
  lemma {:induction false} SettledIffAll(flags: seq<bool>)
    ensures Settled(flags) <==> forall j :: 0 <= j < |flags| ==> flags[j]
  {
    if flags != [] {
      SettledIffAll(flags[1..]);
      assert forall j :: 1 <= j < |flags| ==> flags[j] == flags[1..][j - 1];
    }
  }

  /** A count of zero means no seat is settled. */
  lemma {:induction false} CountNone(flags: seq<bool>)
    requires forall j :: 0 <= j < |flags| ==> !flags[j]
    ensures CountDone(flags) == 0
  {
    if flags != [] {
      CountNone(flags[1..]);
    }
  }

  /** Flags with exactly seat `i` set count one settled seat. */
  lemma {:induction false} CountSingle(flags: seq<bool>, i: nat)
    requires i < |flags|
    requires forall j :: 0 <= j < |flags| ==> (flags[j] <==> j == i)
    ensures CountDone(flags) == 1
  {
    if i == 0 {
      CountNone(flags[1..]);
    } else {
      CountSingle(flags[1..], i - 1);
    }
  }

  /** A raise by seat `i`: every flag is cleared and then seat `i` is set,
      whatever the flags were before. */
  function AfterRaise(flags: seq<bool>, i: nat): (r: seq<bool>)
    requires i < |flags|
    ensures |r| == |flags|
    ensures forall j :: 0 <= j < |r| ==> (r[j] <==> j == i)
  {
    seq(|flags|, _ => false)[i := true]
  }

  /** A call by seat `i` sets its flag and leaves every other flag alone. */
  function AfterCall(flags: seq<bool>, i: nat): (r: seq<bool>)
    requires i < |flags|
    ensures |r| == |flags| && r[i]
    ensures forall j :: 0 <= j < |r| && j != i ==> r[j] == flags[j]
  {
    flags[i := true]
  }

  /** After a raise exactly one seat, the raiser's, is settled. */
  lemma RaiseLeavesOneSettled(flags: seq<bool>, i: nat)
    requires i < |flags|
    ensures CountDone(AfterRaise(flags, i)) == 1
  {
    CountSingle(AfterRaise(flags, i), i);
  }

  /** Calling twice is calling once. */
  lemma CallIdempotent(flags: seq<bool>, i: nat)
    requires i < |flags|
    ensures AfterCall(AfterCall(flags, i), i) == AfterCall(flags, i)
  {
  }

  /** A call adds one settled seat, unless the caller had already settled. */
  lemma {:induction false} CallCount(flags: seq<bool>, i: nat)
    requires i < |flags|
    ensures CountDone(AfterCall(flags, i)) == CountDone(flags) + (if flags[i] then 0 else 1)
  {
    if i > 0 {
      CallCount(flags[1..], i - 1);
      assert AfterCall(flags, i)[1..] == AfterCall(flags[1..], i - 1);
    } else {
      assert AfterCall(flags, i)[1..] == flags[1..];
    }
  }

  /** The flags after seat `i` plays `m`. */
  function Apply(flags: seq<bool>, i: nat, m: Move): (r: seq<bool>)
    requires i < |flags|
    ensures |r| == |flags| && r[i]
  {
    match m
    case Raise => AfterRaise(flags, i)
    case Call => AfterCall(flags, i)
  }

  /** Closes the stage when every seat has settled: the flags are cleared and
      the round counter goes up by one. An unsettled stage is left as it is. */
  function Advance(b: Board): (r: Board)
    requires |b.done| == Seats
    ensures Settled(b.done) ==> r.round == b.round + 1 && r.done == NoneDone
    ensures !Settled(b.done) ==> r == b
    ensures r.players == b.players && r.deck == b.deck && r.middle == b.middle
  {
    if Settled(b.done) then b.(done := NoneDone, round := b.round + 1) else b
  }

  /** A freshly advanced stage is not settled: no two advances in a row. */
  lemma AdvanceReopens(b: Board)
    requires |b.done| == Seats && Settled(b.done)
    ensures !Settled(Advance(b).done)
  {
    SettledIffAll(NoneDone);
    assert !NoneDone[0];
  }

  /** One turn: seat `i` plays `m`, then the stage advances if that settled it.
      The flag table always has four entries; seats past it fail with
      `SeatOutOfRange`. A call completes the stage exactly when every other
      seat had already settled; a raise never completes it, because it
      clears the other three flags. */
  function Turn(b: Board, i: nat, m: Move): (r: Result<Board>)
    requires |b.done| == Seats
    ensures r.Failure? <==> i >= Seats
    ensures r.Failure? ==> r.error == SeatOutOfRange
    ensures r.Success? ==> |r.value.done| == Seats
    ensures r.Success? ==>
      r.value.players == b.players && r.value.deck == b.deck && r.value.middle == b.middle
    ensures r.Success? ==>
      (r.value.round == b.round + 1 <==>
        match m
        case Call => forall j :: 0 <= j < Seats && j != i ==> b.done[j]
        case Raise => false)
    ensures r.Success? ==> r.value.round == b.round || r.value.round == b.round + 1
    ensures r.Success? && r.value.round == b.round + 1 ==> r.value.done == NoneDone
    ensures r.Success? && r.value.round == b.round ==> r.value.done == Apply(b.done, i, m)
  {
    if i >= |b.done| then Failure(SeatOutOfRange)
    else
      var flags := Apply(b.done, i, m);
      SettledIffAll(flags);
      assert m == Raise ==> !flags[if i == 0 then 1 else 0];
      Success(Advance(b.(done := flags)))
  }

  /** Turns for seats `seat`, `seat + 1`, ... with one move each, in order.
      The pass succeeds exactly when it stays within the four flags. */
  function PassFrom(b: Board, seat: nat, moves: seq<Move>): (r: Result<Board>)
    requires |b.done| == Seats
    ensures r.Success? <==> moves == [] || seat + |moves| <= Seats
    ensures r.Failure? ==> r.error == SeatOutOfRange
    ensures r.Success? ==> |r.value.done| == Seats
    ensures r.Success? ==>
      r.value.players == b.players && r.value.deck == b.deck && r.value.middle == b.middle
    ensures r.Success? ==> b.round <= r.value.round <= b.round + |moves|
    decreases |moves|
  {
    if moves == [] then Success(b)
    else
      match Turn(b, seat, moves[0])
      case Failure(e) => Failure(e)
      case Success(b1) => PassFrom(b1, seat + 1, moves[1..])
  }

  /** One pass of the game loop: every seated player, in seating order,
      plays one move. */
  function Pass(b: Board, moves: seq<Move>): (r: Result<Board>)
    requires |b.done| == Seats && |moves| == |b.players|
    ensures r.Success? <==> |b.players| <= Seats
    ensures r.Failure? ==> r.error == SeatOutOfRange
    ensures r.Success? ==>
      r.value.players == b.players && r.value.deck == b.deck && r.value.middle == b.middle
    ensures r.Success? ==> b.round <= r.value.round <= b.round + |b.players|
  {
    PassFrom(b, 0, moves)
  }

  /** The board invariant: the settle-flag table has one flag per seat of
      the fixed table, and deck, hands and middle together are the 52 cards
      of the fresh deck. */
  predicate Valid(b: Board)
  {
    |b.done| == Seats && AllCards(b) == multiset(CreateDeck())
  }

  /** A new board for fresh, well-named players that fit the deck is valid. */
  lemma NewBoardValid(players: seq<Player>, rolls: seq<nat>)
    requires |rolls| == DeckSize
    requires FreshSeating(players)
    requires HandSize * |players| + MiddleSize <= DeckSize
    ensures NewBoard(players, rolls).Success? && Valid(NewBoard(players, rolls).value)
  {
    NewBoardDeals(players, rolls);
  }

  /** Turns and passes keep the board valid. */
  lemma TurnPreservesValid(b: Board, i: nat, m: Move)
    requires Valid(b) && Turn(b, i, m).Success?
    ensures Valid(Turn(b, i, m).value)
  {
  }

  lemma {:induction false} PassFromPreservesValid(b: Board, seat: nat, moves: seq<Move>)
    requires Valid(b) && PassFrom(b, seat, moves).Success?
    ensures Valid(PassFrom(b, seat, moves).value)
    decreases |moves|
  {
    if moves != [] {
      TurnPreservesValid(b, seat, moves[0]);
      PassFromPreservesValid(Turn(b, seat, moves[0]).value, seat + 1, moves[1..]);
    }
  }

  /** Seats 0 .. k-1 call, in order. */
  function CallSeats(flags: seq<bool>, k: nat): (r: seq<bool>)
    requires k <= |flags|
    ensures |r| == |flags|
  {
    if k == 0 then flags else AfterCall(CallSeats(flags, k - 1), k - 1)
  }

  /** From no seat settled, after the first k seats have called exactly
      those k are settled, so the stage is settled exactly after the last
      seat's call and not before. */
  lemma {:induction false} CallsInOrder(flags: seq<bool>, k: nat)
    requires k <= |flags|
    requires forall j :: 0 <= j < |flags| ==> !flags[j]
    ensures forall j :: 0 <= j < |flags| ==> (CallSeats(flags, k)[j] <==> j < k)
    ensures CountDone(CallSeats(flags, k)) == k
    ensures Settled(CallSeats(flags, k)) <==> k == |flags|
  {
    if k == 0 {
      CountNone(flags);
    } else {
      CallsInOrder(flags, k - 1);
      CallCount(CallSeats(flags, k - 1), k - 1);
    }
  }

  /** A call that leaves some other seat unsettled only sets the caller's flag. */
  lemma CallStep(b: Board, i: nat, k: nat)
    requires |b.done| == Seats && i < Seats && k < Seats && k != i && !b.done[k]
    ensures Turn(b, i, Call) == Success(b.(done := b.done[i := true]))
  {
  }

  /** A raise only resets the flags. */
  lemma RaiseStep(b: Board, i: nat)
    requires |b.done| == Seats && i < Seats
    ensures Turn(b, i, Raise) == Success(b.(done := AfterRaise(b.done, i)))
  {
  }

  /** Four seats all calling from a fresh stage close it: the round goes up
      by one and the flags are cleared. This holds at every round: nothing
      stops the counter after the third stage. */
  lemma AllCallAdvances(b: Board)
    requires b.done == NoneDone && |b.players| == Seats
    ensures Pass(b, [Call, Call, Call, Call]) == Success(b.(round := b.round + 1))
  {
    var b1 := b.(done := [true, false, false, false]);
    var b2 := b.(done := [true, true, false, false]);
    var b3 := b.(done := [true, true, true, false]);
    CallStep(b, 0, 1);
    assert NoneDone[0 := true] == b1.done;
    CallStep(b1, 1, 2);
    assert b1.done[1 := true] == b2.done;
    CallStep(b2, 2, 3);
    assert b2.done[2 := true] == b3.done;
    assert Turn(b3, 3, Call) == Success(b.(round := b.round + 1));
  }

  /** A raise by the first seat followed by three calls closes the stage
      whatever the flags were before: only after the fourth seat's call. */
  lemma RaiseThenCallsAdvances(b: Board)
    requires |b.done| == Seats && |b.players| == Seats
    ensures Pass(b, [Raise, Call, Call, Call]) == Success(b.(round := b.round + 1, done := NoneDone))
  {
    var b1 := b.(done := [true, false, false, false]);
    var b2 := b.(done := [true, true, false, false]);
    var b3 := b.(done := [true, true, true, false]);
    RaiseStep(b, 0);
    assert AfterRaise(b.done, 0) == b1.done;
    CallStep(b1, 1, 2);
    assert b1.done[1 := true] == b2.done;
    CallStep(b2, 2, 3);
    assert b2.done[2 := true] == b3.done;
    assert Turn(b3, 3, Call) == Success(b.(round := b.round + 1, done := NoneDone));
  }

  /** A raise by the last seat after three calls reopens the stage: only
      the raiser is left settled and the round does not move. */
  lemma LateRaiseReopens(b: Board)
    requires b.done == NoneDone && |b.players| == Seats
    ensures Pass(b, [Call, Call, Call, Raise]) == Success(b.(done := [false, false, false, true]))
  {
    CallStep(b, 0, 1);
    assert NoneDone[0 := true] == [true, false, false, false];
    CallStep(b.(done := [true, false, false, false]), 1, 2);
    assert [true, false, false, false][1 := true] == [true, true, false, false];
    CallStep(b.(done := [true, true, false, false]), 2, 3);
    assert [true, true, false, false][2 := true] == [true, true, true, false];
    RaiseStep(b.(done := [true, true, true, false]), 3);
    assert AfterRaise([true, true, true, false], 3) == [false, false, false, true];
  }

  /** In the pass after a late raise the stage closes at the third seat's
      call, and the fourth seat's call then counts towards the new stage. */
  lemma StageClosesMidPass(b: Board)
    requires b.done == [false, false, false, true] && |b.players| == Seats
    ensures Pass(b, [Call, Call, Call, Call]) == Success(b.(round := b.round + 1))
  {
    CallStep(b, 0, 1);
    assert b.done[0 := true] == [true, false, false, true];
    CallStep(b.(done := [true, false, false, true]), 1, 2);
    assert [true, false, false, true][1 := true] == [true, true, false, true];
    var c := b.(round := b.round + 1, done := NoneDone);
    assert Turn(b.(done := [true, true, false, true]), 2, Call) == Success(c);
    CallStep(c, 3, 0);
    assert NoneDone[3 := true] == b.done;
  }

  /** With fewer than four seated players the fourth flag is never set, so
      no turn ever advances the stage. */
  lemma ShortTableNeverAdvances(b: Board, i: nat, m: Move)
    requires |b.done| == Seats && !b.done[3] && i < 3
    ensures Turn(b, i, m).Success?
    ensures Turn(b, i, m).value.round == b.round && !Turn(b, i, m).value.done[3]
  {
  }
}
