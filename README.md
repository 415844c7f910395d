# ZiK-ZaK-Zoo replay engine in Dafny

ZiK-ZaK-Zoo is tic-tac-toe between a human (`Z`) and a computer (`K`). The
computer's moves come from a seeded 64-bit linear congruential generator.
A host script plays the game on the console and records it as the text
`"seed,m0,m1,..."`. A zkVM guest program replays that record and answers one
bit: did the human win a legal game? The guest replays the human moves and
re-derives every computer reply from the seed.

This project models that engine and proves its properties. It has four
modules.

- `Engine` (`engine.dfy`):
  - the board of nine cells, as a `Board` class over a 9-element array;
  - the generator, as a `SimpleRng` class with a `u64` state;
  - the value functions that specify them (`Place`, `Full`, `EmptyCells`, `Winner`, `Lcg`, `Pick`).

  The repository carries three copies of `Board` and `SimpleRNG`: in
  `lib/src/lib.rs`, in `program/src/main.rs:16-87` and in
  `script/src/bin/main.rs:32-120`. Every method present in more than one
  copy has the same body in each, so the engine is modelled once. The copies
  differ in which members they carry and in their annotations:
  - the guest's `Board` (`program/src/main.rs:47-87`) has no `is_full`;
  - the library's `Cell` also derives `Eq`, `Serialize` and `Deserialize` (`lib/src/lib.rs:3`);
  - the library's items are `pub`;
  - the script's `SimpleRNG::new` takes no seed and reads the wall clock (see Left out).
- `Text` (`text.dfy`): the parts of Rust's standard library the record and the console input use:
  - `str::split` on one character;
  - `to_string` of an unsigned integer;
  - `from_str` for `u64` and `usize` (an optional `+`, then ASCII digits, with overflow rejected);
  - `str::trim` (the Unicode White_Space set).
- `Verifier` (`verify_player_win`, `verifier.dfy`):
  - the replay is a state machine on values (`Turn`, `Run`, `Replay`, `Verdict`);
  - the guest's loop over a `Board` and a `SimpleRng` is the method `VerifyPlayerWin`, proved to compute `Verdict`.

  The guest targets 32-bit RISC-V, so its `usize` is 32 bits.
- `Simulator` (`simulator.dfy`): the host script's `get_human_move`, `get_computer_move`, `format_seed_and_moves` and `play_game`.
  - The console is a sequence of input lines.
  - The host's `usize` is 64 bits.
  - The end-to-end theorem sits in `PlayGame`'s contract: the guest reports a human win on the recorded game exactly when the human won it.

## Model

| member | source | states |
|---|---|---|
| Engine.Board.constructor | lib/src/lib.rs:23-27 | a new board is nine Empty cells in a fresh array |
| Engine.Board.MakeMove | lib/src/lib.rs:29-36 | succeeds iff the position is below 9 and its cell is Empty; on success only that cell becomes `player`; on failure, including positions of 9 and more, no cell changes |
| Engine.FullIffNoEmptyCells | lib/src/lib.rs:38-40 | `is_full` holds exactly when `get_empty_cells` is empty |
| Engine.EmptyCellsBelowSpec | lib/src/lib.rs:60-65 | the Empty positions below n are listed, each once, in strictly ascending order, and nothing else is listed |
| Engine.EmptyCellsSpec | lib/src/lib.rs:60-65 | `get_empty_cells` lists exactly the Empty positions, each below 9, in strictly ascending order |
| Engine.PlaceSpec | lib/src/lib.rs:29-36 | `make_move` on values (`Place`): accepted iff the position is below 9 and Empty; then that cell holds `player` and the other eight are unchanged |
| Engine.EmptyCellsAfterPlace | lib/src/lib.rs:29-33 | an accepted move of a real mark removes exactly that position from the empty-cell list, keeping every other entry, so the list gets one shorter |
| Engine.Board.IsFull | lib/src/lib.rs:38-40 | `is_full` on the board object is true exactly when its `get_empty_cells` is empty |
| Engine.Board.GetEmptyCells | lib/src/lib.rs:60-65 | `get_empty_cells` on the board object lists exactly its Empty positions, each below 9, in strictly ascending order |
| Engine.WinnerFrom | lib/src/lib.rs:49-57 | the scan from line k never reports Empty |
| Engine.WinnerFromSpec | lib/src/lib.rs:49-57 | the scan from line k reports a mark iff some later line is complete, and then the mark of the first complete one |
| Engine.Winner | lib/src/lib.rs:42-57 | `check_winner` never returns `Some(Empty)` |
| Engine.WinnerSpec | lib/src/lib.rs:42-57 | `check_winner` returns Some iff one of the eight lines holds three equal non-Empty marks, and then the mark of the first such line in the listed order |
| Engine.Board.CheckWinner | lib/src/lib.rs:42-57 | the scan loop with its early return computes `Winner` of the cells |
| Engine.PlaceCompletesOnlyOwnLine | program/src/main.rs:109-128 | on a board with no complete line, one accepted move can complete only a line of the mover's mark, so a winner found right after a human move is `Z` and right after a computer move is `K` |
| Engine.WrappingStepIsLcg | lib/src/lib.rs:73-77 | `wrapping_mul` followed by `wrapping_add` is state × 6364136223846793005 + 1442695040888963407 mod 2^64 |
| Engine.SimpleRng.constructor | lib/src/lib.rs:69-71 | the state is the seed |
| Engine.SimpleRng.Next | lib/src/lib.rs:73-77 | the state advances by one LCG step and the new state is returned |
| Engine.Pick | lib/src/lib.rs:79-81 | a draw reduced into [min, max] lies in [min, max] |
| Engine.SimpleRng.RandRange | lib/src/lib.rs:79-81 | advances the state exactly once and returns next() mod (max − min + 1) + min, which lies in [min, max] |
| Text.Split | program/src/main.rs:90-96 | `split` always yields at least one field, so `parts.next()` always has a seed token to parse (empty input gives one empty field) |
| Text.SplitFieldsHaveNoSeparator | program/src/main.rs:90 | no field of `split(',')` contains a comma |
| Text.SplitJoinsBack | program/src/main.rs:90 | joining the fields of `split` with the separator gives the input back |
| Text.SplitJoin | program/src/main.rs:90 | splitting comma-free fields joined by commas gives those fields back |
| Text.JoinCount | script/src/bin/main.rs:272-279 | joining k comma-free fields puts exactly k − 1 commas in the text |
| Text.ToDecimal | script/src/bin/main.rs:273-276 | `to_string` gives a non-empty digit string with no leading zero whose value is the number |
| Text.ParseUnsigned | program/src/main.rs:93 | a value `from_str` returns is below the type's bound |
| Text.ParseUnsignedShape | program/src/main.rs:93 | `from_str` succeeds only on an optional `+` followed by one or more digits, and then returns the value of those digits; a lone `+`, a `-`, whitespace or the empty string fail |
| Text.ParseSignedDigits | program/src/main.rs:104 | every optional `+` followed by one or more digits, leading zeros included (`"+5"`, `"05"`), parses to the digits' value when it fits and fails on overflow |
| Text.ParseToDecimal | program/src/main.rs:93-105 | `from_str` of `to_string(n)` gives n back whenever n fits the type |
| Text.LeadingWhitespaceSpec | script/src/bin/main.rs:259 | the leading run is all whitespace and stops at the first non-whitespace character |
| Text.TrailingWhitespaceSpec | script/src/bin/main.rs:259 | the trailing run is all whitespace and stops at the last non-whitespace character |
| Text.TrimSpec | script/src/bin/main.rs:259 | `trim` (`Trim`) leaves a substring with only whitespace around it, neither starting nor ending with whitespace, and empty exactly when the line is all whitespace |
| Verifier.MoveIndex | program/src/main.rs:104-107 | an accepted move token names a position below 9 |
| Verifier.ComputerChoice | program/src/main.rs:119-124 | the computer's draw always picks an Empty cell on the board, so the `make_move` on line 124 always succeeds |
| Verifier.ComputerReplySpec | program/src/main.rs:119-128 | the computer's reply (`ComputerReply`) on a board with no complete line: a draw iff the board is full; a computer win iff its mark completes a line; otherwise the game goes on with that mark placed, no complete line and the generator advanced once; never a human win or Invalid |
| Verifier.HumanTurnSpec | program/src/main.rs:104-128 | the human's move (`HumanTurn`) on a board with no complete line: Invalid iff the cell is off the board or taken; a human win iff the move completes a line; a draw iff it completes none and fills the board; a computer win only through the computer's reply |
| Verifier.TurnOutcomes | program/src/main.rs:103-128 | one loop pass (`Turn`): a finished game ignores tokens; a malformed or off-board token ends it Invalid; so does an occupied cell; the human wins iff the move completes a `Z` line; a pass that leaves the game in play advances the generator exactly once |
| Verifier.RunAfterOver | program/src/main.rs:103-131 | after a terminal outcome, further tokens change nothing |
| Verifier.VerdictDependsOnPrefix | program/src/main.rs:103-131 | the verdict depends only on the tokens up to the first terminal outcome |
| Verifier.ReplayInvariant | program/src/main.rs:98-128 | at the top of every pass no line is complete, 2n cells are taken after n moves, and the generator has advanced once per move |
| Verifier.EmptyGridHasNoWinner | program/src/main.rs:99 | a new board has no complete line |
| Verifier.EmptyCellsOfEmptyGrid | program/src/main.rs:99 | a new board has nine Empty cells below 9 |
| Verifier.TurnKeepsInvariant | program/src/main.rs:109-128 | a pass that leaves the game in play completes no line and fills exactly two cells |
| Verifier.DecidedWithinFiveMoves | program/src/main.rs:103-129 | every record is decided within five move tokens |
| Verifier.WinningMoveDecides | program/src/main.rs:114-115 | a winning token reached while the game is in play makes the verdict a human win |
| Verifier.HumanWinHasWinningMove | program/src/main.rs:114-115 | a replay that ends in a human win reached a winning token while in play |
| Verifier.HumanWinIffWinningMove | program/src/main.rs:114-128 | a replay ends in a human win exactly when some token, reached while in play, completes a `Z` line, so every other ending (a draw, a computer win, an invalid move, tokens running out) gives `false` |
| Verifier.VerdictIffWinningMove | program/src/main.rs:89-132 | the answer (`Verdict`) is true exactly when the seed parses and some move token, reached while the game is in play, completes a line of `Z` |
| Verifier.ProcessMove | program/src/main.rs:103-128 | one pass over the board and generator objects ends exactly where one `Turn` of the replay ends, returning the function's value when that is terminal |
| Verifier.VerifyPlayerWin | program/src/main.rs:89-132 | returns exactly `Verdict(input)`: false for an unparsable seed (including empty input), and otherwise whether the replay of the move tokens is a human win |
| Simulator.RecordPushesMove | script/src/bin/main.rs:272-279 | the record (`Record`) starts as the decimal seed, and each further move appends a comma and its decimal text |
| Simulator.RecordFieldsHaveNoComma | script/src/bin/main.rs:272-279 | no field of a record holds a comma |
| Simulator.RecordRoundTrip | script/src/bin/main.rs:272-279 | a record splits back into its fields and holds one comma per move; the guest parses the seed back, and every move below 9 back |
| Simulator.VerdictOfRecord | program/src/main.rs:89-132 | the guest's verdict on a record is whether replaying its moves from its seed ends in a human win |
| Simulator.FormatSeedAndMoves | script/src/bin/main.rs:272-279 | builds the decimal seed followed by ',' and the decimal move for each move, in order; the result splits back into those fields and holds one comma per move |
| Simulator.AcceptedMove | script/src/bin/main.rs:259-260 | a line `get_human_move` accepts names an Empty cell below 9 |
| Simulator.AcceptsPaddedDecimal | script/src/bin/main.rs:259-260 | the decimal text of any Empty cell, with whitespace around it, is accepted as that cell |
| Simulator.GetHumanMove | script/src/bin/main.rs:251-264 | returns the first acceptable line's cell and skips only rejected lines; returns None only when every remaining line is rejected |
| Simulator.GetComputerMove | script/src/bin/main.rs:266-270 | on a board with an Empty cell, advances the generator once and returns the Empty cell the guest's replay would pick from the same state |
| Simulator.HumanMoveReplays | script/src/bin/main.rs:193-201 | recording an accepted human move extends the guest's replay by exactly that move |
| Simulator.HumanStep | script/src/bin/main.rs:193-218 | after the human's move, a winner can only be `Z` and gives a human win; a full board gives a draw; otherwise the computer moves next, with one Empty cell fewer |
| Simulator.ComputerStep | script/src/bin/main.rs:197-218 | after the computer's move, a winner can only be `K`; otherwise the human moves next, with the generator advanced once; the board is never full after a computer move |
| Simulator.PlayTurn | script/src/bin/main.rs:190-221 | one loop pass: the move is applied to exactly one cell; the game either finishes with the outcome the replay reaches or goes on with the other player |
| Simulator.PlayGame | script/src/bin/main.rs:184-228 | the recorded seed is the generator state before any draw; at most five human moves are recorded, each below 9; the game ends with the outcome the guest's replay of the record reaches; the guest reports a human win on `format_seed_and_moves(seed, player_moves)` exactly when the human won; the generator advanced once per computer move |

## Left out

- The `main` functions are left out: the script's command-line parsing and the SP1 prover calls (script/src/bin/main.rs:122-182), and the guest's zkVM `read` and `commit` (program/src/main.rs:134-144). They are a foreign SDK and I/O.
- The commented-out fibonacci code in the guest (program/src/main.rs:145-161) is left out. It does nothing.
- `display_board` and all console printing are left out. They only render output.
- The script's `SimpleRNG::new` reads the wall clock, and the model leaves that out. `PlayGame` takes the generator object and records whatever state it holds on entry.
- The console is a finite sequence of lines:
  - Simulator.GetHumanMove: when the lines run out, the source would keep reading stdin. The model returns None instead.
  - Simulator.PlayGame: in that case it stops with `ending` None, and the replay of the recorded moves is still in play.
  - A failed stdin read, which panics in the source, is not modelled.
- Engine.SimpleRng.RandRange: requires `min <= max`. Rust's usize overflow of `max - min + 1` is not modelled, because every caller passes `0` and the number of empty cells minus one.
- Simulator.GetComputerMove: requires an Empty cell on the board. On a full board the source's `len() - 1` underflows, but `play_game` never calls it there. The computer moves only after `Simulator.HumanStep` has found the board not full (its `!Full(g1) ==> InPlay(.., K, ..)` case), and `InPlay` on the computer's turn keeps `10 - 2 * |moves| > 0` Empty cells.
- The serde and `Eq` derives on the library's `Cell` and the `Player` struct are left out. They carry no behaviour: the human's mark is `Z` and the computer's `K` throughout.
- The model does not prove the three copies of `Board` and `SimpleRNG` equal, since that is a comparison of source texts. They are modelled once.
