# Verifiable tic-tac-toe: game host and replay verifier

This project models the two halves of a provable tic-tac-toe game.

- **The host** (`src/main.rs`) plays a game between a human (`Z`) and the computer (`K`).
  - The computer's moves come from a 64-bit linear congruential generator seeded with the clock.
  - The host records the seed and the human's moves.
  - It serialises them as the transcript `"seed,m0,m1,..."`.
- **The guest** (`src/guest/src/main.rs`) is the program whose run is proved.
  - It parses the transcript and replays the human's moves.
  - It re-derives every computer reply from the seed.
  - It answers one fail-closed boolean: did the human complete a line?

The model has five modules:

- `Rng` holds the generator as a class with a `u64` state that wraps modulo 2^64.
- `TicTacToe` holds:
  - the cells and the eight winning lines;
  - the ascending empty-cell list;
  - the `Board` class, whose nine-cell array is updated in place.
- `Transcript` holds:
  - splitting on `','`;
  - decimal rendering and `from_str`-style parsing;
  - the transcript encoding.
- `Guest` holds:
  - the replay as a pure fold (`Run`) over the move tokens, ending in one of the final states `HumanWin`, `OpponentWin`, `Draw` or `Invalid`;
  - the imperative `VerifyPlayerWin`, proved equal to that fold.
- `Host` holds:
  - the host's game as pure functions (`HostTurn`, `HostResult`);
  - the imperative `PlayGame` loop, proved against them.

The host's stdin is the sequence `humanMoves`. The predicate `Supplies` requires two things of it: each entry is a legal move when it is read, and the sequence lasts until the game ends.

The main result ties the two programs together. `Host.HostWinIffGuestAccepts` and the last `ensures` of `Host.PlayGame` state it: the guest accepts the transcript the host writes exactly when the host's game ended with "You win!".

The Board and SimpleRNG code appears twice in the source, once in `src/main.rs` and once in `src/guest/src/main.rs`. One class models both copies. They differ in two ways: the host obtains its seed from the clock, and the host's `Board` also has `is_full` (src/main.rs:79-81), which the guest's copy lacks.

## Model

| member | source | states |
|---|---|---|
| Rng.NextState | src/guest/src/main.rs:35-39 | the next state is `(s * 6364136223846793005 + 1442695040888963407) mod 2^64`, i.e. the wrapping multiply and then the wrapping add equal one affine step taken modulo 2^64 |
| Rng.FirstDrawFromSeedOne | src/main.rs:52-56 | from seed 1 the first draw is 7806831264735756412, which is 4 modulo 8 |
| Rng.SimpleRng.constructor | src/guest/src/main.rs:31-33 | a new generator's state is the seed |
| Rng.SimpleRng.Next | src/main.rs:52-56 | the state advances by one LCG step and the new state is returned |
| Rng.SimpleRng.RandRange | src/guest/src/main.rs:41-43 | advances the state once; the result lies in `[min, max]` and equals `min` plus the new state modulo `max - min + 1` |
| TicTacToe.WinnerFrom | src/guest/src/main.rs:69-85 | the winner scan never reports `Empty` as a winner |
| TicTacToe.WinnerFromSpec | src/guest/src/main.rs:69-85 | `Winner` is this scan from line 0. No winner iff no line from `k` on is a non-empty, three-equal line; a reported winner owns the first such line in the fixed row/column/diagonal order |
| TicTacToe.EmptyFromSpec | src/guest/src/main.rs:62-67 | `EmptyCells` is this list from index 0. The list holds exactly the indices of Empty cells, in strictly ascending order |
| TicTacToe.FullIffNoEmptyCells | src/main.rs:79-81 | `Full` (no Empty cell) holds iff the empty-cell list is empty |
| TicTacToe.EmptyCellsPlace | src/main.rs:70-77 | after a successful move onto an Empty cell the empty-cell list is one entry shorter |
| TicTacToe.EmptyCellsPlaceMembers | src/main.rs:70-77 | after a successful move onto Empty cell `p`, the empty-cell list holds exactly the old entries other than `p` |
| TicTacToe.WinnerAfterPlace | src/guest/src/main.rs:69-85 | a board with no winner that gets one more mark for `c` has either no winner or winner `c` |
| TicTacToe.InitialNoWinner | src/guest/src/main.rs:47-51 | the new board has no winner |
| TicTacToe.InitialEmptyCount | src/guest/src/main.rs:47-51 | the new board has nine empty cells |
| TicTacToe.Board.constructor | src/guest/src/main.rs:47-51 | a fresh nine-cell array, all Empty |
| TicTacToe.Board.MakeMove | src/guest/src/main.rs:53-60 | succeeds iff the position is below 9 and Empty; on success exactly that cell becomes the player's, otherwise the board is unchanged |
| TicTacToe.Board.CheckWinner | src/main.rs:83-99 | `None` exactly when no line of the board object is won; otherwise the owner of the first won line in table order |
| TicTacToe.Board.GetEmptyCells | src/main.rs:101-106 | lists exactly the indices of the object's Empty cells, in strictly ascending order |
| TicTacToe.Board.IsFull | src/main.rs:79-81 | true exactly when the object's empty-cell list is empty |
| Transcript.Split | src/guest/src/main.rs:89 | splitting yields at least one piece, no piece contains the separator, and joining the pieces gives back the input |
| Transcript.SplitJoin | src/guest/src/main.rs:89 | splitting a join of separator-free pieces gives back the pieces |
| Transcript.JoinSnoc | src/main.rs:197-204 | appending `','` and a token to a joined string is the join of the extended list |
| Transcript.ToDecimal | src/main.rs:197-204 | `to_string` is a non-empty digit string without a leading zero |
| Transcript.DecimalRoundTrip | src/guest/src/main.rs:92 | `ParseDecimal`, the model of `from_str`, reads the decimal rendering of `n` back as `n` |
| Transcript.PlusSign | src/guest/src/main.rs:92 | like `from_str`, parsing accepts a leading `+` before digits and rejects a lone `+`, a doubled `+`, a `-` sign and the empty token |
| Transcript.ParseU64Rendered | src/guest/src/main.rs:92-95 | the seed parser reads the rendering of any `n` back as `n` when `n` is below 2^64, and rejects it otherwise |
| Transcript.EncodeRoundTrip | src/main.rs:197-204 | `Encode` is the transcript layout. Splitting the host's transcript gives the seed token and then one token per move; the seed and every move parse back to their values |
| Guest.ComputerMove | src/guest/src/main.rs:118-122 | the computer's choice is an Empty cell and the generator advances exactly one step |
| Guest.ComputerTurn | src/guest/src/main.rs:117-127 | after the human's move: `Draw` (the guest returns false) iff the board is full; never a human win or an invalid input |
| Guest.Turn | src/guest/src/main.rs:99-128 | one loop pass is `Invalid` iff the move is off the board or occupied; it is `HumanWin` iff the move is legal and completes a Z line; a continuing game keeps every occupied cell |
| Guest.ParseMoveRendered | src/guest/src/main.rs:103-106 | the move parser reads the rendering of any `n` back as `n` when `n` is below 9, and rejects it otherwise |
| Guest.StepInvalidIff | src/guest/src/main.rs:103-111 | `Step`, one pass of the loop, is `Invalid` exactly when its token is not a cell index or names an occupied cell |
| Guest.StepRejects | src/guest/src/main.rs:103-127 | `Step` ends as `Invalid` for a bad token or an occupied cell, as `Draw` when no cell is left after the human's move, and as `OpponentWin` when the computer completes a line |
| Guest.RunSnoc | src/guest/src/main.rs:99-128 | `Run` is the loop over the tokens. Replaying one more token continues from where the shorter replay stood, or leaves a decided replay unchanged |
| Guest.RunDecidedByPrefix | src/guest/src/main.rs:99-128 | once a prefix of the tokens decides the replay, the tokens after it are ignored (the early returns) |
| Guest.HumanWinIff | src/guest/src/main.rs:113-115 | the replay ends in a human win iff some token, reached while the game is running, is a legal move that completes a Z line |
| Guest.DecidedAtStep | src/guest/src/main.rs:102-128 | a replay still running after `k` tokens and decided by token `k` ends exactly as that pass does |
| Guest.VerdictNeedsSeedAndMove | src/guest/src/main.rs:91-130 | `Verdict` is true only for a valid seed followed by at least one move token |
| Guest.ReadEncoded | src/guest/src/main.rs:89-95 | `SeedOf` and `MoveTokens` read a transcript built by `Encode` as its seed and the rendering of each move |
| Guest.FailClosed | src/guest/src/main.rs:91-130 | a bad seed, a malformed or out-of-range token, an occupied cell, a draw after the human's move and a computer line each make the verdict false |
| Guest.TurnKeepsReachable | src/guest/src/main.rs:99-128 | a pass that leaves the game running fills exactly two cells and keeps the board winner-free with an odd number of empty cells |
| Guest.StartReachable | src/guest/src/main.rs:96-98 | the start board is winner-free with nine empty cells |
| Guest.RunEndsWithin | src/guest/src/main.rs:99-128 | from a reachable board, half the number of empty cells plus one tokens are enough to decide the replay |
| Guest.AtMostFiveMoveTokens | src/guest/src/main.rs:99-130 | every replay is decided by its first five move tokens; later tokens never change the verdict |
| Guest.EmptyAfterCornerMove | src/guest/src/main.rs:62-67 | after a first move on cell 0 the empty-cell list is 1..8 |
| Guest.ExampleTokens | src/guest/src/main.rs:89-95 | `"1,0"` splits into seed 1 and the single move token `"0"` |
| Guest.ExampleUnfinished | src/guest/src/main.rs:88-131 | for `"1,0"` the computer answers on cell 5; the game is unfinished and the verdict is false |
| Guest.ReplayTurn | src/guest/src/main.rs:103-127 | one pass over the board object and the generator performs exactly the pure `Step`: it stops with that verdict when `Step` decides, and otherwise leaves the board and state of the continuing game |
| Guest.ComputerReply | src/guest/src/main.rs:117-127 | the computer's half of a pass over the board object and the generator performs exactly `ComputerTurn`: it stops where that turn ends the game, and otherwise leaves the board and state of the continuing game |
| Guest.ReplayMoves | src/guest/src/main.rs:96-130 | the loop over the move tokens, with a fresh board and a generator seeded with `seed`, returns true exactly when the pure replay of the tokens ends in a human win |
| Guest.VerifyPlayerWin | src/guest/src/main.rs:88-131 | the imperative verifier returns exactly the verdict of the pure replay |
| Host.GetComputerMove | src/main.rs:191-195 | the host's computer move is the guest's `ComputerMove` on the same board and state: an Empty cell, with the generator one step on |
| Host.FormatSeedAndMoves | src/main.rs:197-204 | the loop builds the transcript `Encode(seed, moves)`, which splits back into the seed token and the move tokens |
| Host.HostAfterMove | src/main.rs:126-141 | the host's checks after a move never produce an invalid outcome |
| Host.HostComputerTurn | src/main.rs:122-141 | the computer's move and the checks after it never produce an invalid outcome |
| Host.HostTurn | src/main.rs:115-147 | a host turn for a legal human move never produces an invalid outcome |
| Host.Consumed | src/main.rs:118-121 | the recorded moves are a prefix of the human's input, and each is a cell index below 9 |
| Host.HostResult | src/main.rs:115-147 | with the human's input supplied, the host's game always ends, and never as invalid |
| Host.TurnsAgree | src/main.rs:126-141 | on a reachable board the host's checks (any winner, then a full board) and the guest's checks (Z winner, empty list, K winner) give the same turn result |
| Host.ReplayAgreesWithHost | src/main.rs:109-153 | replaying the host's recorded moves as tokens ends exactly as the host's game ended |
| Host.HostWinIffGuestAccepts | src/main.rs:109-153 | the guest accepts the host's transcript iff the host's game ended with the human winning |
| Host.HumanMoveRead | src/main.rs:117-121 | each human move read is on the board and Empty, and recording it keeps the game on its way to the same result |
| Host.GameOver | src/main.rs:127-139 | when the game stops, the recorded moves and the outcome are those of the host's game |
| Host.MoveAndCheck | src/main.rs:126-145 | an illegal move changes nothing; a legal one places the mark, and the result is the outcome of the host's checks on the new board |
| Host.PlayGame | src/main.rs:109-153 | the round holds the original seed and the human moves the game consumed; the game's outcome is the host's result; the human won iff the guest accepts the round's transcript |

## Left out

- Proof generation is left out: compiling the guest, Nova public parameters, proving and verifying a run, and reading the journal (src/main.rs:1-16, src/main.rs:206-248). They are foreign calls into the zkVM.
- The guest's I/O is left out: `read_private_input` and `write_output` (src/guest/src/main.rs:132-141). `VerifyPlayerWin` takes the input string and returns the boolean.
- `display_board` and every `println!` are left out: they are console output.
- Reading a move from stdin (`get_human_move`, src/main.rs:176-189) is left out. Its loop only returns a number below 9 that names an Empty cell. The model takes the human's moves as the sequence `humanMoves`, and `Supplies` requires each move to meet that condition when it is read. Rejected attempts are never recorded, so they leave no trace in the model.
- Host.PlayGame: requires (through `Supplies`) that the input lasts until the game ends, so it does not model running out of input. In the source, at the end of stdin `read_line` returns an empty line, the empty string does not parse, and `get_human_move` loops forever (src/main.rs:177-187), so `play_game` never returns. The loop's termination measure relies on this requirement.
- The seed taken from the wall clock (`SimpleRNG::new` in src/main.rs:44-50) is left out. `PlayGame` takes the generator as it is and records its state as the seed.
- Host.PlayGame: does not state the generator's final state, only the round and the outcome.
- Host.GetComputerMove: requires a non-empty empty-cell list. On a full board `empty_cells.len() - 1` underflows and panics. The host never calls it there, because it stops on a full board first.
- Rng.SimpleRng.RandRange: `max - min + 1` is unbounded here. In the source it is `usize` arithmetic, which could overflow for `max == usize::MAX`, but the callers only pass `max <= 8`.
- Move tokens are parsed to an unbounded natural number. `usize::from_str` on a 32-bit target rejects values of 2^32 and above, but the model already rejects every value of 9 and above, so the verdict is the same.
