/**
 * The zkVM guest's `verify_player_win`: it replays a record "seed,m0,m1,..."
 * move by move, re-deriving every computer reply from the seeded generator,
 * and answers one bit: did the human (`Z`) complete a line in a legal game?
 *
 * The replay is first defined as a state machine on values (`Turn`, `Run`,
 * `Verdict`); the method `VerifyPlayerWin` runs the source's loop over a
 * `Board` and a `SimpleRng` and is proved to compute `Verdict`.
 */
module Verifier {
  import opened Options
  import opened Engine
  import opened Text

  /** The guest runs on a 32-bit RISC-V target, so its usize is 32 bits wide. */
  const USIZE_BOUND: nat := 0x1_0000_0000

  /** `u64::from_str`. */
  function ParseU64(tok: string): Option<u64> {
    match ParseUnsigned(tok, MODULUS)
    case None => None
    case Some(v) => Some(v)
  }

  /** A move token the guest accepts: `usize::from_str` succeeds with a value below 9. */
  function MoveIndex(tok: string): (r: Option<nat>)
    ensures r.Some? ==> r.value < 9
  {
    match ParseUnsigned(tok, USIZE_BOUND)
    case Some(m) => if m < 9 then Some(m) else None
    case None => None
  }

  /** How a replay ends. Every outcome but HumanWon collapses to `false`. */
  datatype Outcome = HumanWon | ComputerWon | Draw | Invalid

  /** Between human moves the replay holds a board and a generator state. */
  datatype Phase = Playing(grid: Grid, state: u64) | Over(outcome: Outcome)

  /**
   * The computer's choice in `verify_player_win`: a generator draw over the
   * empty positions; it always names an Empty cell on the board.
   */
  function ComputerChoice(g: Grid, s: u64): (c: nat)
    requires |EmptyCells(g)| > 0
    ensures c < 9 && g[c] == Empty
  {
    var e := EmptyCells(g);
    EmptyCellsSpec(g);
    e[Pick(s, 0, |e| - 1)]
  }

  /** After a human move that did not win: draw, or the computer moves. */
  function ComputerReply(g: Grid, s: u64): Phase {
    if |EmptyCells(g)| == 0 then Over(Draw)
    else
      var c := ComputerChoice(g, s);
      var g2 := match Place(g, c, K) case Some(h) => h case None => g;
      if Winner(g2) == Some(K) then Over(ComputerWon) else Playing(g2, Lcg(s))
  }

  /** The human plays `m` on board `g` with generator state `s`. */
  function HumanTurn(g: Grid, s: u64, m: nat): Phase {
    match Place(g, m, Z)
    case None => Over(Invalid)
    case Some(g1) =>
      match Winner(g1)
      case Some(w) => Over(if w == Z then HumanWon else ComputerWon)
      case None => ComputerReply(g1, s)
  }

  /**
   * The computer's reply on a board without a complete line: a draw exactly
   * when the board is full; a computer win exactly when its mark completes a
   * line; otherwise the game goes on with that mark placed, still no complete
   * line, and the generator advanced once. It is never a human win or Invalid.
   */
  lemma ComputerReplySpec(g: Grid, s: u64)
    requires Winner(g) == None
    ensures ComputerReply(g, s) == Over(Draw) <==> Full(g)
    ensures ComputerReply(g, s) != Over(HumanWon) && ComputerReply(g, s) != Over(Invalid)
    ensures ComputerReply(g, s) == Over(ComputerWon) <==>
              |EmptyCells(g)| > 0 && Winner(g[ComputerChoice(g, s) := K]).Some?
    ensures ComputerReply(g, s).Playing? ==>
              |EmptyCells(g)| > 0 && ComputerReply(g, s) == Playing(g[ComputerChoice(g, s) := K], Lcg(s))
              && Winner(ComputerReply(g, s).grid) == None
  {
    FullIffNoEmptyCells(g);
    if |EmptyCells(g)| > 0 {
      var c := ComputerChoice(g, s);
      assert Place(g, c, K) == Some(g[c := K]);
      PlaceCompletesOnlyOwnLine(g, c, K);
    }
  }

  /**
   * The human's move on a board without a complete line: Invalid exactly
   * when the cell is off the board or taken; a human win exactly when the
   * move completes a line; a draw exactly when it completes none and fills
   * the board. The human's move alone never makes the computer win.
   */
  lemma HumanTurnSpec(g: Grid, s: u64, m: nat)
    requires Winner(g) == None
    ensures HumanTurn(g, s, m) == Over(Invalid) <==> !(m < 9 && g[m] == Empty)
    ensures HumanTurn(g, s, m) == Over(HumanWon) <==> m < 9 && g[m] == Empty && Winner(g[m := Z]).Some?
    ensures HumanTurn(g, s, m) == Over(Draw) <==> m < 9 && g[m] == Empty && Winner(g[m := Z]).None? && Full(g[m := Z])
    ensures HumanTurn(g, s, m) == Over(ComputerWon) ==> m < 9 && g[m] == Empty && Winner(g[m := Z]).None?
  {
    if m < 9 && g[m] == Empty {
      var g1 := g[m := Z];
      assert Place(g, m, Z) == Some(g1);
      PlaceCompletesOnlyOwnLine(g, m, Z);
      if Winner(g1).None? {
        ComputerReplySpec(g1, s);
      }
    }
  }

  /** The move token completes a human line on `g`. */
  predicate WinningMove(g: Grid, tok: string) {
    MoveIndex(tok).Some? && g[MoveIndex(tok).value] == Empty
    && Winner(g[MoveIndex(tok).value := Z]) == Some(Z)
  }

  /** One iteration of the loop over move tokens; a finished replay ignores the token. */
  function Turn(ph: Phase, tok: string): Phase {
    match ph
    case Over(_) => ph
    case Playing(g, s) =>
      match MoveIndex(tok)
      case None => Over(Invalid)
      case Some(m) => HumanTurn(g, s, m)
  }

  /**
   * What one turn does: a finished replay stays finished; a malformed,
   * off-board or occupied move ends it Invalid; the human wins exactly when
   * the move completes a line of `Z`; and a turn that leaves the game in play
   * advanced the generator exactly once.
   */
  lemma TurnOutcomes(ph: Phase, tok: string)
    ensures ph.Over? ==> Turn(ph, tok) == ph
    ensures ph.Playing? && MoveIndex(tok).None? ==> Turn(ph, tok) == Over(Invalid)
    ensures ph.Playing? && MoveIndex(tok).Some? && ph.grid[MoveIndex(tok).value] != Empty
            ==> Turn(ph, tok) == Over(Invalid)
    ensures ph.Playing? ==> (Turn(ph, tok) == Over(HumanWon) <==> WinningMove(ph.grid, tok))
    ensures Turn(ph, tok).Playing? ==> ph.Playing? && Turn(ph, tok).state == Lcg(ph.state)
  {
  }

  /** The replay after the given move tokens. */
  function Run(ph: Phase, toks: seq<string>): Phase
    decreases |toks|
  {
    if |toks| == 0 then ph else Turn(Run(ph, toks[..|toks| - 1]), toks[|toks| - 1])
  }

  /** The replay of move tokens from an empty board and the seed. */
  function Replay(seed: u64, toks: seq<string>): Phase {
    Run(Playing(EmptyGrid, seed), toks)
  }

  /** The bit `verify_player_win` returns for `input`. */
  predicate Verdict(input: string) {
    var parts := Split(input, ',');
    match ParseU64(parts[0])
    case None => false
    case Some(seed) => Replay(seed, parts[1..]) == Over(HumanWon)
  }

  // ---------------------------------------------------------------------------
  // Properties of the replay

  /** Once the replay is over, later tokens change nothing. */
  lemma {:induction false} RunAfterOver(ph: Phase, toks: seq<string>, n: nat)
    requires n <= |toks| && Run(ph, toks[..n]).Over?
    ensures Run(ph, toks) == Run(ph, toks[..n])
    decreases |toks|
  {
    if n < |toks| {
      assert toks[..|toks| - 1][..n] == toks[..n];
      RunAfterOver(ph, toks[..|toks| - 1], n);
    } else {
      assert toks[..n] == toks;
    }
  }

  /** The verdict is decided by the tokens up to the first terminal outcome. */
  lemma VerdictDependsOnPrefix(seed: u64, toks: seq<string>, more: seq<string>)
    requires Replay(seed, toks).Over?
    ensures Replay(seed, toks + more) == Replay(seed, toks)
  {
    assert (toks + more)[..|toks|] == toks;
    RunAfterOver(Playing(EmptyGrid, seed), toks + more, |toks|);
  }

  /**
   * In every replay still in play after n tokens no line is complete, the
   * board holds n marks of each player, and the generator has advanced
   * exactly once per token.
   */
  lemma {:induction false} ReplayInvariant(seed: u64, toks: seq<string>)
    requires Replay(seed, toks).Playing?
    ensures Winner(Replay(seed, toks).grid) == None
    ensures |EmptyCells(Replay(seed, toks).grid)| == 9 - 2 * |toks|
    ensures Replay(seed, toks).state == Advance(seed, |toks|)
    decreases |toks|
  {
    if |toks| == 0 {
      EmptyGridHasNoWinner();
      EmptyCellsOfEmptyGrid(9);
    } else {
      var pre := toks[..|toks| - 1];
      ReplayInvariant(seed, pre);
      TurnKeepsInvariant(Replay(seed, pre).grid, Replay(seed, pre).state, toks[|toks| - 1]);
    }
  }

  lemma EmptyGridHasNoWinner()
    ensures Winner(EmptyGrid) == None
  {
    WinnerSpec(EmptyGrid);
    forall i | 0 <= i < 9
      ensures EmptyGrid[i] == Empty
    {
    }
  }

  lemma {:induction false} EmptyCellsOfEmptyGrid(n: nat)
    requires n <= 9
    ensures |EmptyCellsBelow(EmptyGrid, n)| == n
  {
    assert n > 0 ==> EmptyGrid[n - 1] == Empty;
    if n > 0 {
      EmptyCellsOfEmptyGrid(n - 1);
    }
  }

  /** A turn that leaves the game in play adds one mark of each player and completes no line. */
  lemma TurnKeepsInvariant(g: Grid, s: u64, tok: string)
    requires Winner(g) == None
    requires Turn(Playing(g, s), tok).Playing?
    ensures Winner(Turn(Playing(g, s), tok).grid) == None
    ensures |EmptyCells(Turn(Playing(g, s), tok).grid)| + 2 == |EmptyCells(g)|
  {
    var m := MoveIndex(tok).value;
    assert Turn(Playing(g, s), tok) == HumanTurn(g, s, m);
    var g1 := g[m := Z];
    assert Place(g, m, Z) == Some(g1);
    assert Winner(g1) == None;
    assert HumanTurn(g, s, m) == ComputerReply(g1, s);
    EmptyCellsAfterPlace(g, m, Z);
    var c := ComputerChoice(g1, s);
    var g2 := g1[c := K];
    assert Place(g1, c, K) == Some(g2);
    PlaceCompletesOnlyOwnLine(g1, c, K);
    EmptyCellsAfterPlace(g1, c, K);
    assert ComputerReply(g1, s) == Playing(g2, Lcg(s));
  }

  /** Every record is decided within five move tokens. */
  lemma DecidedWithinFiveMoves(seed: u64, toks: seq<string>)
    requires |toks| >= 5
    ensures Replay(seed, toks).Over?
  {
    if Replay(seed, toks[..5]).Playing? {
      ReplayInvariant(seed, toks[..5]);
    }
    RunAfterOver(Playing(EmptyGrid, seed), toks, 5);
  }

  /** Token `k` is a human move that completes a line, with the replay still in play before it. */
  predicate WinsAt(ph: Phase, toks: seq<string>, k: nat)
    requires k < |toks|
  {
    Run(ph, toks[..k]).Playing? && WinningMove(Run(ph, toks[..k]).grid, toks[k])
  }

  /** A winning token, reached while the game is in play, ends the replay in a human win. */
  lemma WinningMoveDecides(ph: Phase, toks: seq<string>, k: nat)
    requires k < |toks| && WinsAt(ph, toks, k)
    ensures Run(ph, toks) == Over(HumanWon)
  {
    WinningTokenEndsRun(ph, toks, k);
    RunAfterOver(ph, toks, k + 1);
  }

  /** The winning token itself ends the replay in a human win. */
  lemma WinningTokenEndsRun(ph: Phase, toks: seq<string>, k: nat)
    requires k < |toks| && WinsAt(ph, toks, k)
    ensures Run(ph, toks[..k + 1]) == Over(HumanWon)
  {
    RunPrefixStep(ph, toks, k);
    TurnOutcomes(Run(ph, toks[..k]), toks[k]);
  }

  /** Running one more token is one more turn. */
  lemma RunPrefixStep(ph: Phase, toks: seq<string>, n: nat)
    requires n < |toks|
    ensures Run(ph, toks[..n + 1]) == Turn(Run(ph, toks[..n]), toks[n])
  {
    assert toks[..n + 1][..n] == toks[..n];
  }

  /** A replay that ends in a human win got there through a winning token. */
  lemma {:induction false} HumanWinHasWinningMove(ph: Phase, toks: seq<string>)
    requires ph != Over(HumanWon)
    requires Run(ph, toks) == Over(HumanWon)
    ensures exists k :: 0 <= k < |toks| && WinsAt(ph, toks, k)
    decreases |toks|
  {
    var n := |toks|;
    var pre := toks[..n - 1];
    var before := Run(ph, pre);
    TurnOutcomes(before, toks[n - 1]);
    if before.Over? {
      HumanWinHasWinningMove(ph, pre);
      var k :| 0 <= k < n - 1 && WinsAt(ph, pre, k);
      assert pre[..k] == toks[..k];
      assert WinsAt(ph, toks, k);
    } else {
      assert toks[..n - 1] == pre;
      assert WinsAt(ph, toks, n - 1);
    }
  }

  /**
   * A replay ends in a human win exactly when some token, reached while the
   * game is still in play, completes a line of `Z`.
   */
  lemma HumanWinIffWinningMove(ph: Phase, toks: seq<string>)
    requires ph != Over(HumanWon)
    ensures Run(ph, toks) == Over(HumanWon) <==> exists k :: 0 <= k < |toks| && WinsAt(ph, toks, k)
  {
    if Run(ph, toks) == Over(HumanWon) {
      HumanWinHasWinningMove(ph, toks);
    }
    if k :| 0 <= k < |toks| && WinsAt(ph, toks, k) {
      WinningMoveDecides(ph, toks, k);
    }
  }

  // ---------------------------------------------------------------------------
  // The guest's function over mutable state

  /** The verdict once the seed token has parsed: the replay of the remaining tokens is a human win. */
  lemma VerdictOfParsedSeed(input: string, seed: u64)
    requires ParseU64(Split(input, ',')[0]) == Some(seed)
    ensures Verdict(input) == (Replay(seed, Split(input, ',')[1..]) == Over(HumanWon))
  {
  }

  /**
   * `verify_player_win` answers true exactly when the seed parses and some
   * move token, reached while the replay is in play, completes a line of `Z`.
   */
  lemma VerdictIffWinningMove(input: string)
    ensures Verdict(input) <==>
              ParseU64(Split(input, ',')[0]).Some?
              && exists k :: 0 <= k < |Split(input, ',')| - 1
                   && WinsAt(Playing(EmptyGrid, ParseU64(Split(input, ',')[0]).value), Split(input, ',')[1..], k)
  {
    var parts := Split(input, ',');
    if ParseU64(parts[0]).Some? {
      HumanWinIffWinningMove(Playing(EmptyGrid, ParseU64(parts[0]).value), parts[1..]);
    }
  }

  /** Replaying one more token is one more turn. */
  lemma ReplayPrefixStep(seed: u64, toks: seq<string>, n: nat)
    requires n < |toks|
    ensures Replay(seed, toks[..n + 1]) == Turn(Replay(seed, toks[..n]), toks[n])
  {
    RunPrefixStep(Playing(EmptyGrid, seed), toks, n);
  }

  /** The computer's reply once its mark is on the board. */
  lemma ComputerReplyAfterMove(g1: Grid, s: u64, g2: Grid)
    requires |EmptyCells(g1)| > 0
    requires g2 == g1[ComputerChoice(g1, s) := K]
    ensures ComputerReply(g1, s) == if Winner(g2) == Some(K) then Over(ComputerWon) else Playing(g2, Lcg(s))
  {
    assert Place(g1, ComputerChoice(g1, s), K) == Some(g2);
  }

  /**
   * One pass of the move loop of `verify_player_win`: the human move, the
   * winner check, the computer's reply and the second winner check. `None`
   * means the loop goes on; `Some(won)` is the value the function returns.
   * Either way the board and the generator end where one `Turn` puts them.
   */
  method ProcessMove(board: Board, rng: SimpleRng, moveStr: string, ghost seed: u64, ghost toks: seq<string>, ghost n: nat)
      returns (decided: Option<bool>)
    requires board.Valid()
    requires n < |toks| && toks[n] == moveStr
    requires Replay(seed, toks[..n]) == Playing(board.cells[..], rng.state)
    modifies board.cells, rng
    ensures board.Valid()
    ensures match decided
            case None => Replay(seed, toks[..n + 1]) == Playing(board.cells[..], rng.state)
            case Some(won) => Replay(seed, toks[..n + 1]).Over? && won == (Replay(seed, toks[..n + 1]) == Over(HumanWon))
  {
    ReplayPrefixStep(seed, toks, n);
    ghost var g, s := board.cells[..], rng.state;
    ghost var after := Turn(Playing(g, s), moveStr);
    TurnOutcomes(Playing(g, s), moveStr);

    var parsed := ParseUnsigned(moveStr, USIZE_BOUND);
    if parsed.None? || parsed.value >= 9 {
      return Some(false);
    }
    var playerMove := parsed.value;

    var ok := board.MakeMove(playerMove, Z);
    if !ok {
      return Some(false);
    }
    ghost var g1 := board.cells[..];
    assert after == HumanTurn(g, s, playerMove);

    var winner := board.CheckWinner();
    if winner.Some? {
      assert after == Over(if winner.value == Z then HumanWon else ComputerWon);
      return Some(winner.value == Z);
    }
    assert after == ComputerReply(g1, s);

    var emptyCells := board.GetEmptyCells();
    assert emptyCells == EmptyCells(g1);
    if |emptyCells| == 0 {
      return Some(false);
    }
    var r := rng.RandRange(0, |emptyCells| - 1);
    assert r == Pick(s, 0, |EmptyCells(g1)| - 1);
    var computerMove := emptyCells[r];
    assert computerMove == ComputerChoice(g1, s);
    var _ := board.MakeMove(computerMove, K);

    ComputerReplyAfterMove(g1, s, board.cells[..]);
    var last := board.CheckWinner();
    if last == Some(K) {
      return Some(false);
    }
    return None;
  }

  /** `verify_player_win`: true exactly when the record replays to a human win. */
  method VerifyPlayerWin(input: string) returns (won: bool)
    ensures won == Verdict(input)
  {
    var parts := Split(input, ',');
    var seed := ParseU64(parts[0]);
    if seed.None? {
      assert !Verdict(input);
      return false;
    }
    var rng := new SimpleRng(seed.value);
    var board := new Board();
    ghost var toks := parts[1..];
    VerdictOfParsedSeed(input, seed.value);

    var i := 1;
    while i < |parts|
      invariant 1 <= i <= |parts|
      invariant board.Valid() && fresh(board.cells)
      invariant Replay(seed.value, toks[..i - 1]) == Playing(board.cells[..], rng.state)
    {
      var decided := ProcessMove(board, rng, parts[i], seed.value, toks, i - 1);
      if decided.Some? {
        RunAfterOver(Playing(EmptyGrid, seed.value), toks, i);
        return decided.value;
      }
      i := i + 1;
    }
    assert toks[..i - 1] == toks;
    return false;
  }
}
