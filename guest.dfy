/**
 * The replay verifier (src/guest/src/main.rs): it parses "seed,m0,m1,...",
 * replays the human's moves, re-derives every computer reply from the seed
 * and answers one fail-closed boolean: did the human complete a line?
 */
module Guest {
  import opened Wrappers
  import opened Rng
  import opened TicTacToe
  import opened Transcript

  /** Where a replay stands: still running, or one of its final states. */
  datatype Outcome = InProgress(board: Grid, rng: U64) | HumanWin | OpponentWin | Draw | Invalid

  /** A fresh board and a generator holding the seed. */
  function Start(seed: U64): Outcome {
    InProgress(InitialGrid, seed)
  }

  /**
   * The computer's reply: one draw, reduced modulo the number of empty
   * cells, indexes the ascending list of empty cells.
   */
  function ComputerMove(b: Grid, s: U64): (mv: (Pos, U64))
    requires EmptyCells(b) != []
    ensures b[mv.0] == Empty
    ensures mv.1 == NextState(s)
  {
    var e := EmptyCells(b);
    EmptyFromSpec(b, 0);
    var s' := NextState(s);
    (e[s' % |e|], s')
  }

  /** The computer's half of a turn: a draw if no cell is left, else its move and the K-line check. */
  function ComputerTurn(b: Grid, s: U64): (r: Outcome)
    ensures r != HumanWin && r != Invalid
    ensures r == Draw <==> Full(b)
  {
    FullIffNoEmptyCells(b);
    if EmptyCells(b) == [] then Draw
    else
      var (p, s') := ComputerMove(b, s);
      var b' := b[p := K];
      if Winner(b') == Some(K) then OpponentWin else InProgress(b', s')
  }

  /** One pass of the replay loop for the human's move `m`. */
  function Turn(b: Grid, s: U64, m: nat): (r: Outcome)
    ensures r == Invalid <==> !(m < 9 && b[m] == Empty)
    ensures r == HumanWin <==> m < 9 && b[m] == Empty && Winner(b[m := Z]) == Some(Z)
    ensures r.InProgress? ==> forall i :: 0 <= i < 9 && b[i] != Empty ==> r.board[i] == b[i]
  {
    if !(m < 9 && b[m] == Empty) then Invalid
    else
      var b1 := b[m := Z];
      match Winner(b1)
      case Some(w) => if w == Z then HumanWin else OpponentWin
      case None => ComputerTurn(b1, s)
  }

  /** A move token: a decimal numeral below 9 (out-of-range and malformed tokens alike fail). */
  function ParseMove(t: string): (r: Option<Pos>)
    ensures r.Some? <==> ParseDecimal(t).Some? && ParseDecimal(t).value < 9
  {
    match ParseDecimal(t)
    case Some(m) => if m < 9 then Some(m) else None
    case None => None
  }

  /** The move parser reads a rendered number back exactly when it names a cell. */
  lemma ParseMoveRendered(n: nat)
    ensures ParseMove(ToDecimal(n)) == if n < 9 then Some(n) else None
  {
    DecimalRoundTrip(n);
  }

  /** One token of an ongoing replay. */
  function Step(st: Outcome, t: string): Outcome
    requires st.InProgress?
  {
    match ParseMove(t)
    case None => Invalid
    case Some(m) => Turn(st.board, st.rng, m)
  }

  /** The replay of a token list; a final state ignores the tokens after it. */
  function Run(st: Outcome, ts: seq<string>): Outcome
    decreases |ts|
  {
    if !st.InProgress? || ts == [] then st else Run(Step(st, ts[0]), ts[1..])
  }

  /** The seed token's value, if it is a valid u64. */
  function SeedOf(input: string): Option<U64> {
    ParseU64(Split(input, SEP)[0])
  }

  /** The tokens after the seed. */
  function MoveTokens(input: string): seq<string> {
    Split(input, SEP)[1..]
  }

  /** The verdict: true exactly when the replay ends in a human win. */
  function Verdict(input: string): bool {
    match SeedOf(input)
    case None => false
    case Some(seed) => Run(Start(seed), MoveTokens(input)) == HumanWin
  }

  /** A pass is invalid exactly when its token is not a cell index or names an occupied cell. */
  lemma StepInvalidIff(st: Outcome, t: string)
    requires st.InProgress?
    ensures Step(st, t) == Invalid <==> ParseMove(t).None? || st.board[ParseMove(t).value] != Empty
  {
  }

  /** Acceptance needs a valid seed and at least one move token. */
  lemma VerdictNeedsSeedAndMove(input: string)
    ensures Verdict(input) ==> SeedOf(input).Some? && |MoveTokens(input)| >= 1
  {
    if SeedOf(input).Some? && MoveTokens(input) == [] {
      assert Run(Start(SeedOf(input).value), MoveTokens(input)) == Start(SeedOf(input).value);
    }
  }

  /** The verifier reads a transcript built by `Encode` as its seed and its rendered moves. */
  lemma ReadEncoded(seed: U64, ms: seq<nat>)
    ensures SeedOf(Encode(seed, ms)) == Some(seed)
    ensures MoveTokens(Encode(seed, ms)) == Tokens(ms)
  {
    EncodeRoundTrip(seed, ms);
  }

  /** Replaying one more token continues from where the shorter replay stood. */
  lemma {:induction false} RunSnoc(st: Outcome, ts: seq<string>, t: string)
    decreases |ts|
    ensures Run(st, ts + [t]) == if Run(st, ts).InProgress? then Step(Run(st, ts), t) else Run(st, ts)
  {
    if st.InProgress? && ts != [] {
      assert (ts + [t])[1..] == ts[1..] + [t];
      RunSnoc(Step(st, ts[0]), ts[1..], t);
    } else if st.InProgress? {
      assert ts + [t] == [t];
    }
  }

  /** Once a prefix of the tokens has decided the game, the rest are never looked at. */
  lemma {:induction false} RunDecidedByPrefix(st: Outcome, ts: seq<string>, k: nat)
    requires k <= |ts|
    requires !Run(st, ts[..k]).InProgress?
    decreases k
    ensures Run(st, ts) == Run(st, ts[..k])
  {
    if st.InProgress? {
      assert ts[..0] == [];
      var st' := Step(st, ts[0]);
      assert ts[..k][1..] == ts[1..][..k - 1];
      assert Run(st, ts[..k]) == Run(st', ts[1..][..k - 1]);
      RunDecidedByPrefix(st', ts[1..], k - 1);
    }
  }

  /** A human win is the result of some single move token taken while the game was running. */
  lemma {:induction false} HumanWinIff(st: Outcome, ts: seq<string>)
    requires st.InProgress?
    decreases |ts|
    ensures Run(st, ts) == HumanWin <==>
            exists k :: 0 <= k < |ts| && Run(st, ts[..k]).InProgress? && Step(Run(st, ts[..k]), ts[k]) == HumanWin
  {
    if ts != [] {
      var st' := Step(st, ts[0]);
      assert Run(st, ts[..0]) == st;
      forall k | 0 < k <= |ts|
        ensures Run(st, ts[..k]) == Run(st', ts[1..][..k - 1])
      {
        assert ts[..k][1..] == ts[1..][..k - 1];
      }
      if st'.InProgress? {
        HumanWinIff(st', ts[1..]);
        if Run(st, ts) == HumanWin {
          var k :| 0 <= k < |ts| - 1 && Run(st', ts[1..][..k]).InProgress? && Step(Run(st', ts[1..][..k]), ts[1..][k]) == HumanWin;
          assert Run(st, ts[..k + 1]) == Run(st', ts[1..][..k]);
        }
      }
    }
  }

  /**
   * Every failure collapses into `false`: a malformed seed, and at any
   * point of a running replay a malformed or out-of-range move token, a
   * move onto an occupied cell, a draw after the human's move, or a
   * computer move that completes a line.
   */
  lemma FailClosed(input: string, k: nat)
    requires SeedOf(input).Some? ==> k < |MoveTokens(input)| && Run(Start(SeedOf(input).value), MoveTokens(input)[..k]).InProgress?
    ensures SeedOf(input) == None ==> !Verdict(input)
    ensures SeedOf(input).Some? ==>
      var ts := MoveTokens(input);
      var st := Run(Start(SeedOf(input).value), ts[..k]);
      var m := ParseMove(ts[k]);
      && (m == None ==> !Verdict(input))
      && (m.Some? && st.board[m.value] != Empty ==> !Verdict(input))
      && ((m.Some? && st.board[m.value] == Empty && Winner(st.board[m.value := Z]) == None &&
           EmptyCells(st.board[m.value := Z]) == []) ==> !Verdict(input))
      && ((m.Some? && st.board[m.value] == Empty && Winner(st.board[m.value := Z]) == None &&
           EmptyCells(st.board[m.value := Z]) != [] &&
           Winner(st.board[m.value := Z][ComputerMove(st.board[m.value := Z], st.rng).0 := K]) == Some(K)) ==> !Verdict(input))
  {
    if SeedOf(input).Some? {
      var ts := MoveTokens(input);
      var st := Run(Start(SeedOf(input).value), ts[..k]);
      StepRejects(st, ts[k]);
      if !Step(st, ts[k]).InProgress? {
        DecidedAtStep(Start(SeedOf(input).value), ts, k);
      }
    }
  }

  /** A replay that is still running after `k` tokens and decided by token `k` ends as that step does. */
  lemma DecidedAtStep(start: Outcome, ts: seq<string>, k: nat)
    requires k < |ts| && Run(start, ts[..k]).InProgress?
    requires !Step(Run(start, ts[..k]), ts[k]).InProgress?
    ensures Run(start, ts) == Step(Run(start, ts[..k]), ts[k])
  {
    var pre := ts[..k];
    assert ts[..k + 1] == pre + [ts[k]];
    RunSnoc(start, pre, ts[k]);
    assert Run(start, ts[..k + 1]) == Step(Run(start, pre), ts[k]);
    RunDecidedByPrefix(start, ts, k + 1);
  }

  /** The final state each failing pass ends in. */
  lemma StepRejects(st: Outcome, t: string)
    requires st.InProgress?
    ensures var m := ParseMove(t);
      && (m == None ==> Step(st, t) == Invalid)
      && (m.Some? && st.board[m.value] != Empty ==> Step(st, t) == Invalid)
      && ((m.Some? && st.board[m.value] == Empty && Winner(st.board[m.value := Z]) == None &&
           EmptyCells(st.board[m.value := Z]) == []) ==> Step(st, t) == Draw)
      && ((m.Some? && st.board[m.value] == Empty && Winner(st.board[m.value := Z]) == None &&
           EmptyCells(st.board[m.value := Z]) != [] &&
           Winner(st.board[m.value := Z][ComputerMove(st.board[m.value := Z], st.rng).0 := K]) == Some(K)) ==> Step(st, t) == OpponentWin)
  {
    var m := ParseMove(t);
    if m.Some? && st.board[m.value] == Empty && Winner(st.board[m.value := Z]) == None {
      var b1 := st.board[m.value := Z];
      assert Step(st, t) == ComputerTurn(b1, st.rng);
      FullIffNoEmptyCells(b1);
    }
  }

  /** After the human's first move on cell 0, the empty cells are 1 to 8 in order. */
  lemma EmptyAfterCornerMove()
    ensures EmptyCells(InitialGrid[0 := Z]) == [1, 2, 3, 4, 5, 6, 7, 8]
  {
    var b1 := InitialGrid[0 := Z];
    assert EmptyFrom(b1, 9) == [];
    assert EmptyFrom(b1, 8) == [8];
    assert EmptyFrom(b1, 7) == [7, 8];
    assert EmptyFrom(b1, 6) == [6, 7, 8];
    assert EmptyFrom(b1, 5) == [5, 6, 7, 8];
    assert EmptyFrom(b1, 4) == [4, 5, 6, 7, 8];
    assert EmptyFrom(b1, 3) == [3, 4, 5, 6, 7, 8];
    assert EmptyFrom(b1, 2) == [2, 3, 4, 5, 6, 7, 8];
    assert EmptyFrom(b1, 1) == [1, 2, 3, 4, 5, 6, 7, 8];
  }

  /** The transcript "1,0" holds seed 1 and the single move token "0". */
  lemma ExampleTokens()
    ensures SeedOf("1,0") == Some(1) && MoveTokens("1,0") == ["0"]
  {
    assert "1,0" == "1" + [SEP] + "0";
    SplitAtFirstSep("1", "0", SEP);
    SplitNoSep("0", SEP);
  }

  /**
   * A worked transcript: with seed 1 the first draw is 4 (mod 8), so after
   * the human takes cell 0 the computer takes cell 5, the fifth of the
   * eight empty cells; the replay is unfinished and the verdict is false.
   */
  lemma ExampleUnfinished()
    ensures Run(Start(1), ["0"]) == InProgress(InitialGrid[0 := Z][5 := K], NextState(1))
    ensures !Verdict("1,0")
  {
    ExampleTokens();
    var b1 := InitialGrid[0 := Z];
    assert Winner(b1) == None;
    EmptyAfterCornerMove();
    FirstDrawFromSeedOne();
    assert Winner(b1[5 := K]) == None;
  }

  /** A running board has no won line and an odd number of empty cells. */
  predicate Reachable(b: Grid) {
    Winner(b) == None && |EmptyCells(b)| % 2 == 1
  }

  /** A turn that leaves the game running fills exactly two cells and keeps it reachable. */
  lemma TurnKeepsReachable(b: Grid, s: U64, m: nat)
    requires Reachable(b)
    ensures Turn(b, s, m).InProgress? ==>
              Reachable(Turn(b, s, m).board) && |EmptyCells(Turn(b, s, m).board)| == |EmptyCells(b)| - 2
  {
    var r := Turn(b, s, m);
    if r.InProgress? {
      assert m < 9 && b[m] == Empty;
      var b1 := b[m := Z];
      assert Winner(b1) == None;
      assert r == ComputerTurn(b1, s);
      EmptyCellsPlace(b, m, Z);
      assert EmptyCells(b1) != [];
      var mv := ComputerMove(b1, s);
      var b2 := b1[mv.0 := K];
      assert r == InProgress(b2, mv.1) && Winner(b2) != Some(K);
      EmptyCellsPlace(b1, mv.0, K);
      WinnerAfterPlace(b1, mv.0, K);
      assert Winner(b2) == None && |EmptyCells(b2)| == |EmptyCells(b)| - 2;
    }
  }

  lemma StartReachable(seed: U64)
    ensures Reachable(Start(seed).board) && |EmptyCells(Start(seed).board)| == 9
  {
    InitialNoWinner();
    InitialEmptyCount();
  }

  /** From a reachable board with 2n+1 empty cells, n+1 tokens always end the game. */
  lemma {:induction false} RunEndsWithin(b: Grid, s: U64, ts: seq<string>)
    requires Reachable(b)
    requires |ts| >= |EmptyCells(b)| / 2 + 1
    decreases |ts|
    ensures !Run(InProgress(b, s), ts).InProgress?
  {
    var st' := Step(InProgress(b, s), ts[0]);
    if st'.InProgress? {
      var m :| ParseMove(ts[0]) == Some(m);
      TurnKeepsReachable(b, s, m);
      RunEndsWithin(st'.board, st'.rng, ts[1..]);
    }
  }

  /** At most five move tokens are ever consumed; the verdict depends on those alone. */
  lemma AtMostFiveMoveTokens(seed: U64, ts: seq<string>)
    requires |ts| >= 5
    ensures !Run(Start(seed), ts[..5]).InProgress?
    ensures Run(Start(seed), ts) == Run(Start(seed), ts[..5])
  {
    StartReachable(seed);
    RunEndsWithin(InitialGrid, seed, ts[..5]);
    RunDecidedByPrefix(Start(seed), ts, 5);
  }

  /**
   * One pass of the replay loop: parse the token, play the human's move,
   * check for a winner, then draw and play the computer's reply.
   * `decided` is set where the loop returns, with the value it returns.
   */
  method ReplayTurn(board: Board, rng: SimpleRng, token: string) returns (decided: bool, accepted: bool)
    requires board.Valid()
    modifies board.cells, rng
    ensures board.Valid()
    ensures var next := Step(InProgress(old(board.cells[..]), old(rng.state)), token);
            && (decided <==> !next.InProgress?)
            && (decided ==> accepted == (next == HumanWin))
            && (!decided ==> next == InProgress(board.cells[..], rng.state))
  {
    ghost var b, s := board.cells[..], rng.state;
    ghost var next := Step(InProgress(b, s), token);
    var currentPlayer := Z;
    var playerMove := ParseMove(token);
    if playerMove.None? {
      assert next == Invalid;
      return true, false;
    }
    var ok := board.MakeMove(playerMove.value, currentPlayer);
    if !ok {
      assert next == Invalid;
      return true, false;
    }
    ghost var b1 := board.cells[..];
    assert next == Turn(b, s, playerMove.value);
    var winner := board.CheckWinner();
    if winner.Some? {
      assert next == if winner.value == Z then HumanWin else OpponentWin;
      return true, winner.value == Z;
    }
    assert next == ComputerTurn(b1, s);
    decided := ComputerReply(board, rng);
    accepted := false;
  }

  /**
   * The computer's half of a pass: a draw when no cell is left, otherwise
   * its move and the K-line check. `decided` is set where the loop returns
   * (always with false).
   */
  method ComputerReply(board: Board, rng: SimpleRng) returns (decided: bool)
    requires board.Valid()
    modifies board.cells, rng
    ensures board.Valid()
    ensures var next := ComputerTurn(old(board.cells[..]), old(rng.state));
            && (decided <==> !next.InProgress?)
            && (!decided ==> next == InProgress(board.cells[..], rng.state))
  {
    ghost var b, s := board.cells[..], rng.state;
    var emptyCells := board.GetEmptyCells();
    if |emptyCells| == 0 {
      assert ComputerTurn(b, s) == Draw;
      return true;
    }
    var index := rng.RandRange(0, |emptyCells| - 1);
    var computerMove := emptyCells[index];
    assert (computerMove, rng.state) == ComputerMove(b, s);
    var placed := board.MakeMove(computerMove, K);
    assert placed;
    if board.CheckWinner() == Some(K) {
      assert ComputerTurn(b, s) == OpponentWin;
      return true;
    }
    assert ComputerTurn(b, s) == InProgress(board.cells[..], rng.state);
    return false;
  }

  /**
   * The replay loop over the move tokens, with a board object and a
   * generator object seeded with `seed`, returning at the first decision.
   */
  method ReplayMoves(seed: U64, ts: seq<string>) returns (accepted: bool)
    ensures accepted == (Run(Start(seed), ts) == HumanWin)
  {
    var rng := new SimpleRng(seed);
    var board := new Board();
    var i := 0;
    while i < |ts|
      invariant 0 <= i <= |ts|
      invariant board.Valid()
      invariant Run(Start(seed), ts[..i]) == InProgress(board.cells[..], rng.state)
    {
      assert ts[..i + 1] == ts[..i] + [ts[i]];
      RunSnoc(Start(seed), ts[..i], ts[i]);
      var decided, verdict := ReplayTurn(board, rng, ts[i]);
      if decided {
        RunDecidedByPrefix(Start(seed), ts, i + 1);
        return verdict;
      }
      i := i + 1;
    }
    assert ts[..i] == ts;
    return false;
  }

  /** Parses the seed, then replays the move tokens; a malformed seed is rejected. */
  method VerifyPlayerWin(input: string) returns (accepted: bool)
    ensures accepted == Verdict(input)
  {
    var parts := Split(input, SEP);
    var seedToken := ParseU64(parts[0]);
    if seedToken.None? {
      return false;
    }
    accepted := ReplayMoves(seedToken.value, parts[1..]);
  }
}
