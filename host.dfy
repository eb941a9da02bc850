/**
 * The interactive host (src/main.rs): it plays a game against the human,
 * choosing the computer's moves with the same board and generator rules as
 * the verifier, records the seed and the human's moves, and serialises
 * them as the transcript the verifier replays.
 */
module Host {
  import opened Wrappers
  import opened Rng
  import opened TicTacToe
  import opened Transcript
  import opened Guest

  /** What the host keeps of a game: the seed and the human's moves in order. */
  datatype GameRound = GameRound(seed: U64, playerMoves: seq<nat>)

  /** The opponent rule: one draw in [0, #empty - 1] indexes the ascending empty-cell list. */
  method GetComputerMove(board: Board, rng: SimpleRng) returns (position: nat)
    requires board.Valid() && board.GetEmptyCells() != []
    modifies rng
    ensures (position, rng.state) == ComputerMove(board.cells[..], old(rng.state))
    ensures position < 9 && board.cells[position] == Empty
  {
    var emptyCells := board.GetEmptyCells();
    var randomIndex := rng.RandRange(0, |emptyCells| - 1);
    position := emptyCells[randomIndex];
  }

  /** The transcript text: the decimal seed, then ",m" for each move in order. */
  method FormatSeedAndMoves(seed: U64, moves: seq<nat>) returns (result: string)
    ensures result == Encode(seed, moves)
    ensures Split(result, SEP) == [ToDecimal(seed)] + Tokens(moves)
  {
    result := ToDecimal(seed);
    for i := 0 to |moves|
      invariant result == Join([ToDecimal(seed)] + Tokens(moves[..i]), SEP)
    {
      JoinSnoc([ToDecimal(seed)] + Tokens(moves[..i]), ToDecimal(moves[i]), SEP);
      assert Tokens(moves[..i + 1]) == Tokens(moves[..i]) + [ToDecimal(moves[i])];
      assert [ToDecimal(seed)] + Tokens(moves[..i + 1]) == ([ToDecimal(seed)] + Tokens(moves[..i])) + [ToDecimal(moves[i])];
      result := result + [SEP];
      result := result + ToDecimal(moves[i]);
    }
    assert moves[..|moves|] == moves;
    EncodeRoundTrip(seed, moves);
  }

  /**
   * The checks the host runs after every move, whoever made it: any
   * winner ends the game ("You win!" only if it is Z), then a full board.
   */
  function HostAfterMove(b: Grid, s: U64): (r: Outcome)
    ensures r != Invalid
  {
    match Winner(b)
    case Some(w) => if w == Z then HumanWin else OpponentWin
    case None => if Full(b) then Draw else InProgress(b, s)
  }

  /** The computer's move on a board that is not full, then the checks. */
  function HostComputerTurn(b: Grid, s: U64): (r: Outcome)
    requires !Full(b)
    ensures r != Invalid
  {
    FullIffNoEmptyCells(b);
    var (p, s') := ComputerMove(b, s);
    HostAfterMove(b[p := K], s')
  }

  /** The host's turn for a legal human move `m`: the checks after each of the two moves. */
  function HostTurn(b: Grid, s: U64, m: Pos): (r: Outcome)
    requires b[m] == Empty
    ensures r != Invalid
  {
    var r := HostAfterMove(b[m := Z], s);
    if r.InProgress? then HostComputerTurn(r.board, r.rng) else r
  }

  /**
   * The human's input: each move, when asked for, is on the board and
   * Empty, and the game ends before the moves run out.
   */
  predicate Supplies(st: Outcome, ms: seq<nat>)
    decreases |ms|
  {
    match st
    case InProgress(b, s) =>
      |ms| > 0 && ms[0] < 9 && b[ms[0]] == Empty && Supplies(HostTurn(b, s, ms[0]), ms[1..])
    case _ => true
  }

  /** The human moves the host records: those read before the game ended. */
  function Consumed(st: Outcome, ms: seq<nat>): (played: seq<nat>)
    requires Supplies(st, ms)
    decreases |ms|
    ensures |played| <= |ms| && played == ms[..|played|]
    ensures st.InProgress? ==> |played| >= 1
    ensures forall i :: 0 <= i < |played| ==> played[i] < 9
  {
    match st
    case InProgress(b, s) => [ms[0]] + Consumed(HostTurn(b, s, ms[0]), ms[1..])
    case _ => []
  }

  /** How the host's game ends. */
  function HostResult(st: Outcome, ms: seq<nat>): (r: Outcome)
    requires Supplies(st, ms)
    decreases |ms|
    ensures !r.InProgress?
    ensures st != Invalid ==> r != Invalid
  {
    match st
    case InProgress(b, s) => HostResult(HostTurn(b, s, ms[0]), ms[1..])
    case _ => st
  }

  /**
   * On a reachable board the host's checks and the verifier's checks
   * agree: the host's any-winner test after the computer's move can only
   * see K, and its full-board test there never fires.
   */
  lemma TurnsAgree(b: Grid, s: U64, m: Pos)
    requires Reachable(b) && b[m] == Empty
    ensures HostTurn(b, s, m) == Turn(b, s, m)
  {
    var b1 := b[m := Z];
    EmptyCellsPlace(b, m, Z);
    FullIffNoEmptyCells(b1);
    if Winner(b1) == None && !Full(b1) {
      assert HostTurn(b, s, m) == HostComputerTurn(b1, s);
      var mv := ComputerMove(b1, s);
      var b2 := b1[mv.0 := K];
      EmptyCellsPlace(b1, mv.0, K);
      FullIffNoEmptyCells(b2);
      WinnerAfterPlace(b1, mv.0, K);
    }
  }

  /** Replaying the recorded moves as tokens ends exactly as the host's game ended. */
  lemma {:induction false} ReplayAgreesWithHost(b: Grid, s: U64, ms: seq<nat>)
    requires Reachable(b) && Supplies(InProgress(b, s), ms)
    decreases |ms|
    ensures Run(InProgress(b, s), Tokens(Consumed(InProgress(b, s), ms))) == HostResult(InProgress(b, s), ms)
  {
    var m: Pos := ms[0];
    TurnsAgree(b, s, m);
    DecimalRoundTrip(m);
    var st' := HostTurn(b, s, m);
    var rest := Consumed(st', ms[1..]);
    assert Consumed(InProgress(b, s), ms) == [m] + rest;
    assert Tokens([m] + rest) == [ToDecimal(m)] + Tokens(rest);
    assert Step(InProgress(b, s), ToDecimal(m)) == st';
    assert ([ToDecimal(m)] + Tokens(rest))[1..] == Tokens(rest);
    if st'.InProgress? {
      TurnKeepsReachable(b, s, m);
      ReplayAgreesWithHost(st'.board, st'.rng, ms[1..]);
    }
  }

  /**
   * The cross-program property: the verifier accepts the transcript of a
   * game exactly when the host's game ended with the human winning.
   */
  lemma HostWinIffGuestAccepts(seed: U64, ms: seq<nat>)
    requires Supplies(Start(seed), ms)
    ensures Verdict(Encode(seed, Consumed(Start(seed), ms))) <==> HostResult(Start(seed), ms) == HumanWin
  {
    var played := Consumed(Start(seed), ms);
    EncodeRoundTrip(seed, played);
    assert MoveTokens(Encode(seed, played)) == Tokens(played);
    StartReachable(seed);
    ReplayAgreesWithHost(InitialGrid, seed, ms);
  }

  /** The rest of the game from `pending` is what remains of the whole game from `start`. */
  ghost predicate Continues(pending: Outcome, rest: seq<nat>, played: seq<nat>, start: Outcome, all: seq<nat>) {
    && Supplies(pending, rest)
    && Supplies(start, all)
    && played + Consumed(pending, rest) == Consumed(start, all)
    && HostResult(pending, rest) == HostResult(start, all)
  }

  /** The human's next move is legal, and after it the game continues from the host's turn result. */
  lemma HumanMoveRead(b: Grid, s: U64, rest: seq<nat>, played: seq<nat>, start: Outcome, all: seq<nat>)
    requires Continues(InProgress(b, s), rest, played, start, all)
    ensures |rest| > 0 && rest[0] < 9 && b[rest[0]] == Empty
    ensures Continues(HostTurn(b, s, rest[0]), rest[1..], played + [rest[0]], start, all)
  {
    var st := InProgress(b, s);
    assert Supplies(st, rest);
    var m: Pos := rest[0];
    var t := HostTurn(b, s, m);
    assert Supplies(t, rest[1..]);
    assert HostResult(st, rest) == HostResult(t, rest[1..]);
    assert Consumed(st, rest) == [m] + Consumed(t, rest[1..]);
    assert (played + [m]) + Consumed(t, rest[1..]) == played + Consumed(st, rest);
  }

  /** A game that has ended has recorded all its moves and has its result. */
  lemma GameOver(t: Outcome, rest: seq<nat>, played: seq<nat>, start: Outcome, all: seq<nat>)
    requires !t.InProgress? && Continues(t, rest, played, start, all)
    ensures Consumed(start, all) == played && HostResult(start, all) == t
  {
    assert played + [] == played;
  }

  /**
   * One move followed by the host's two checks: an occupied or off-board
   * position changes nothing; otherwise any winner or a full board ends
   * the game, and if neither, it goes on from the new board.
   */
  method MoveAndCheck(board: Board, position: nat, player: Cell, s: U64) returns (ok: bool, outcome: Outcome)
    requires board.Valid()
    modifies board.cells
    ensures ok <==> position < 9 && old(board.cells[..])[position] == Empty
    ensures board.cells[..] == if ok then old(board.cells[..])[position := player] else old(board.cells[..])
    ensures outcome == if ok then HostAfterMove(board.cells[..], s) else InProgress(board.cells[..], s)
  {
    ok := board.MakeMove(position, player);
    outcome := InProgress(board.cells[..], s);
    if ok {
      var winner := board.CheckWinner();
      if winner.Some? {
        outcome := if winner.value == Z then HumanWin else OpponentWin;
      } else if board.IsFull() {
        outcome := Draw;
      }
    }
  }

  /**
   * The game loop with the human's input given as `humanMoves`: the human
   * and the computer alternate, each move is followed by the winner check
   * and the full-board check, and the human's moves are recorded.
   */
  method PlayGame(rng: SimpleRng, humanMoves: seq<nat>) returns (round: GameRound, outcome: Outcome)
    requires Supplies(Start(rng.state), humanMoves)
    modifies rng
    ensures round.seed == old(rng.state)
    ensures round.playerMoves == Consumed(Start(round.seed), humanMoves)
    ensures outcome == HostResult(Start(round.seed), humanMoves)
    ensures outcome == HumanWin <==> Verdict(Encode(round.seed, round.playerMoves))
  {
    var board := new Board();
    var currentPlayer := Z;
    var seed := rng.state;
    var playerMoves := [];
    var input := humanMoves;
    ghost var start := Start(seed);
    // the host's turn result the game is heading for
    ghost var pending := start;
    while true
      invariant board.Valid() && fresh(board.cells)
      invariant Continues(pending, input, playerMoves, start, humanMoves)
      invariant currentPlayer == Z || currentPlayer == K
      invariant currentPlayer == Z ==> pending == InProgress(board.cells[..], rng.state)
      invariant currentPlayer == K ==> !Full(board.cells[..]) && pending == HostComputerTurn(board.cells[..], rng.state)
      decreases 2 * |EmptyCells(board.cells[..])| + if currentPlayer == Z then 1 else 0
    {
      ghost var b := board.cells[..];
      var position;
      if currentPlayer == Z {
        HumanMoveRead(b, rng.state, input, playerMoves, start, humanMoves);
        position := input[0];
        pending := HostTurn(b, rng.state, position);
        input := input[1..];
        playerMoves := playerMoves + [position];
      } else {
        FullIffNoEmptyCells(b);
        position := GetComputerMove(board, rng);
      }
      var ok, after := MoveAndCheck(board, position, currentPlayer, rng.state);
      if !after.InProgress? {
        outcome := after;
        GameOver(outcome, input, playerMoves, start, humanMoves);
        break;
      }
      if ok {
        EmptyCellsPlace(b, position, currentPlayer);
        currentPlayer := if currentPlayer == Z then K else Z;
      }
    }
    round := GameRound(seed, playerMoves);
    HostWinIffGuestAccepts(seed, humanMoves);
  }
}
