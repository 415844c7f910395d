/**
 * The host-side game of the script (`script/src/bin/main.rs`): the console
 * game against the computer, `get_computer_move`, `get_human_move` and the
 * record `format_seed_and_moves` writes for the guest. The console is a
 * sequence of input lines; the board and the generator are the objects of
 * the engine.
 */
module Simulator {
  import opened Options
  import opened Engine
  import opened Text
  import opened Verifier

  /** `usize` of the host the script runs on (64 bits). */
  const HOST_USIZE_BOUND: nat := 0x1_0000_0000_0000_0000

  /** `GameRound`: the generator state at the start of the game and the accepted human moves. */
  datatype GameRound = GameRound(seed: u64, playerMoves: seq<nat>)

  /** The decimal text of each move. */
  function MoveTokens(moves: seq<nat>): seq<string> {
    seq(|moves|, i requires 0 <= i < |moves| => ToDecimal(moves[i]))
  }

  /** The fields of a record: the seed, then the moves. */
  function RecordFields(seed: u64, moves: seq<nat>): seq<string> {
    [ToDecimal(seed)] + MoveTokens(moves)
  }

  /** The record text: the fields joined by commas. */
  function Record(seed: u64, moves: seq<nat>): string {
    Join(RecordFields(seed, moves), ',')
  }

  /**
   * The record as `format_seed_and_moves` builds it: the decimal seed alone,
   * and each further move appends a comma and its decimal text.
   */
  lemma RecordPushesMove(seed: u64, moves: seq<nat>, m: nat)
    ensures Record(seed, []) == ToDecimal(seed)
    ensures Record(seed, moves + [m]) == Record(seed, moves) + [','] + ToDecimal(m)
  {
    assert RecordFields(seed, []) == [ToDecimal(seed)];
    assert MoveTokens(moves + [m]) == MoveTokens(moves) + [ToDecimal(m)];
    assert RecordFields(seed, moves + [m])[..|RecordFields(seed, moves + [m])| - 1] == RecordFields(seed, moves);
  }

  /** No field of a record holds a comma. */
  lemma RecordFieldsHaveNoComma(seed: u64, moves: seq<nat>)
    ensures forall i :: 0 <= i < |RecordFields(seed, moves)| ==> ',' !in RecordFields(seed, moves)[i]
  {
    forall i | 0 <= i < |RecordFields(seed, moves)|
      ensures ',' !in RecordFields(seed, moves)[i]
    {
      var f := RecordFields(seed, moves)[i];
      assert AllDigits(f);
    }
  }

  /**
   * A record splits back into its fields, holds one comma per move, and the
   * guest reads back the seed and every move below 9 exactly.
   */
  lemma RecordRoundTrip(seed: u64, moves: seq<nat>)
    ensures Split(Record(seed, moves), ',') == RecordFields(seed, moves)
    ensures Count(Record(seed, moves), ',') == |moves|
    ensures ParseU64(Split(Record(seed, moves), ',')[0]) == Some(seed)
    ensures forall i :: 0 <= i < |moves| && moves[i] < 9 ==>
              MoveIndex(Split(Record(seed, moves), ',')[i + 1]) == Some(moves[i])
  {
    RecordFieldsHaveNoComma(seed, moves);
    SplitJoin(RecordFields(seed, moves), ',');
    JoinCount(RecordFields(seed, moves), ',');
    ParseToDecimal(seed, MODULUS);
    forall i | 0 <= i < |moves| && moves[i] < 9
      ensures MoveIndex(ToDecimal(moves[i])) == Some(moves[i])
    {
      ParseToDecimal(moves[i], USIZE_BOUND);
    }
  }

  /** The guest's verdict on a record is whether replaying its moves from its seed ends in a human win. */
  lemma VerdictOfRecord(seed: u64, moves: seq<nat>)
    ensures Verdict(Record(seed, moves)) == (Replay(seed, MoveTokens(moves)) == Over(HumanWon))
  {
    RecordRoundTrip(seed, moves);
    var parts := Split(Record(seed, moves), ',');
    assert parts[1..] == MoveTokens(moves);
    VerdictOfParsedSeed(Record(seed, moves), seed);
  }

  /**
   * `format_seed_and_moves`: the seed in decimal, then a comma and the
   * decimal move for each move. The record is the fields joined by commas,
   * it splits back into them, and it holds one comma per move.
   */
  method FormatSeedAndMoves(seed: u64, moves: seq<nat>) returns (result: string)
    ensures result == Record(seed, moves)
    ensures Split(result, ',') == RecordFields(seed, moves)
    ensures Count(result, ',') == |moves|
  {
    result := ToDecimal(seed);
    RecordPushesMove(seed, [], 0);
    assert moves[..0] == [];
    var i := 0;
    while i < |moves|
      invariant 0 <= i <= |moves|
      invariant result == Record(seed, moves[..i])
    {
      assert moves[..i + 1] == moves[..i] + [moves[i]];
      RecordPushesMove(seed, moves[..i], moves[i]);
      result := result + [','];
      result := result + ToDecimal(moves[i]);
      i := i + 1;
    }
    assert moves[..i] == moves;
    RecordRoundTrip(seed, moves);
  }

  /** The move an input line names, when `get_human_move` accepts it on grid `g`. */
  function AcceptedMove(g: Grid, line: string): (r: Option<nat>)
    ensures r.Some? ==> r.value < 9 && g[r.value] == Empty
  {
    match ParseUnsigned(Trim(line), HOST_USIZE_BOUND)
    case Some(n) => if n < 9 && g[n] == Empty then Some(n) else None
    case None => None
  }

  /** The decimal text of an Empty cell, with surrounding whitespace, is accepted as that cell. */
  lemma AcceptsPaddedDecimal(g: Grid, position: nat, pre: string, post: string)
    requires position < 9 && g[position] == Empty
    requires AllWhitespace(pre) && AllWhitespace(post)
    ensures AcceptedMove(g, pre + ToDecimal(position) + post) == Some(position)
  {
    var c := DigitChar(position);
    assert ToDecimal(position) == [c];
    var line := pre + [c] + post;
    // The digit is the only character that is not whitespace, so it is where
    // the leading run stops and where the trailing run starts.
    assert line[|pre|] == c;
    assert forall i :: 0 <= i < |pre| ==> line[i] == pre[i];
    LeadingWhitespaceSpec(line);
    assert LeadingWhitespace(line) == |pre|;
    var rest := line[|pre|..];
    assert rest == [c] + post;
    assert forall i :: 1 <= i < |rest| ==> rest[i] == post[i - 1];
    TrailingWhitespaceSpec(rest);
    assert TrailingWhitespace(rest) == |post|;
    assert Trim(line) == [c];
    ParseToDecimal(position, HOST_USIZE_BOUND);
  }

  /**
   * `get_human_move`: reads lines from `from` on until one names an Empty
   * cell, and returns that cell and the index of the next unread line. Every
   * line it skips is rejected; when the lines run out it returns None (the
   * console would keep asking).
   */
  method GetHumanMove(board: Board, lines: seq<string>, from: nat) returns (position: Option<nat>, next: nat)
    requires board.Valid() && from <= |lines|
    ensures from <= next <= |lines|
    ensures forall k :: from <= k < next - 1 ==> AcceptedMove(board.cells[..], lines[k]).None?
    ensures position.Some? ==> next > from && position == AcceptedMove(board.cells[..], lines[next - 1])
    ensures position.None? ==> next == |lines| && forall k :: from <= k < |lines| ==> AcceptedMove(board.cells[..], lines[k]).None?
  {
    next := from;
    while next < |lines|
      invariant from <= next <= |lines|
      invariant forall k :: from <= k < next ==> AcceptedMove(board.cells[..], lines[k]).None?
    {
      var input := lines[next];
      next := next + 1;
      var accepted := AcceptedMove(board.cells[..], input);
      if accepted.Some? {
        return accepted, next;
      }
      assert lines[next - 1] == input;
    }
    return None, next;
  }

  /**
   * `get_computer_move`: the cell the replay's computer reply picks, drawn
   * with one step of the generator. The board must have an Empty cell (the
   * source's `len() - 1` would underflow otherwise).
   */
  method GetComputerMove(board: Board, rng: SimpleRng) returns (position: nat)
    requires board.Valid() && |EmptyCells(board.cells[..])| > 0
    modifies rng
    ensures position == ComputerChoice(board.cells[..], old(rng.state))
    ensures position < 9 && board.cells[position] == Empty
    ensures rng.state == Lcg(old(rng.state))
  {
    var emptyCells := board.GetEmptyCells();
    var randomIndex := rng.RandRange(0, |emptyCells| - 1);
    position := emptyCells[randomIndex];
  }

  /** The generator advances once per computer move; how many there were when a game ends with `ending`. */
  function ComputerMoves(humanMoves: nat, ending: Option<Outcome>): nat {
    if humanMoves > 0 && (ending == Some(HumanWon) || ending == Some(Draw)) then humanMoves - 1 else humanMoves
  }

  /**
   * The game between two passes of the loop of `play_game`, seen by the
   * replay of the moves recorded so far: on the human's turn the replay is in
   * play on the same board and generator state; on the computer's turn its
   * reply is pending. No line is complete, the board keeps the Empty cells the
   * moves leave, and the generator has advanced once per computer move.
   */
  ghost predicate InPlay(seed: u64, moves: seq<nat>, current: Cell, g: Grid, s: u64, computerMoves: nat) {
    && (current == Z || current == K)
    && (forall i :: 0 <= i < |moves| ==> moves[i] < 9)
    && Winner(g) == None
    && (current == Z ==> Replay(seed, MoveTokens(moves)) == Playing(g, s) && |EmptyCells(g)| == 9 - 2 * |moves|)
    && (current == K ==> Replay(seed, MoveTokens(moves)) == ComputerReply(g, s) && |EmptyCells(g)| == 10 - 2 * |moves| > 0)
    && computerMoves == (if current == Z then |moves| else |moves| - 1)
    && s == Advance(seed, computerMoves)
  }

  /** A finished game: the replay of its moves ends with the same outcome and the generator has advanced once per computer move. */
  ghost predicate Finished(seed: u64, moves: seq<nat>, ending: Outcome, s: u64) {
    && ending != Invalid
    && |moves| <= 5 && (forall i :: 0 <= i < |moves| ==> moves[i] < 9)
    && Replay(seed, MoveTokens(moves)) == Over(ending)
    && s == Advance(seed, ComputerMoves(|moves|, Some(ending)))
  }

  /**
   * One pass of the loop of `play_game`: the current player's move, then the
   * winner and full-board checks. `moved` is false only when the human's
   * input ran out before an acceptable line; otherwise `position` is the move
   * made, and the game is either finished with `ending` or goes on with the
   * other player and one Empty cell fewer.
   */
  method PlayTurn(board: Board, rng: SimpleRng, current: Cell, lines: seq<string>, from: nat,
                  ghost seed: u64, ghost moves: seq<nat>, ghost computerMoves: nat)
      returns (moved: bool, position: nat, next: nat, ending: Option<Outcome>)
    requires board.Valid() && from <= |lines|
    requires InPlay(seed, moves, current, board.cells[..], rng.state, computerMoves)
    modifies board.cells, rng
    ensures board.Valid() && from <= next <= |lines|
    ensures !moved ==> current == Z && ending.None? && board.cells[..] == old(board.cells[..]) && rng.state == old(rng.state)
    ensures moved ==>
              var moves' := if current == Z then moves + [position] else moves;
              var computerMoves' := if current == K then computerMoves + 1 else computerMoves;
              && position < 9 && board.cells[..] == old(board.cells[..])[position := current]
              && |EmptyCells(board.cells[..])| == |EmptyCells(old(board.cells[..]))| - 1
              && (ending.Some? ==> Finished(seed, moves', ending.value, rng.state))
              && (ending.None? ==> InPlay(seed, moves', if current == Z then K else Z, board.cells[..], rng.state, computerMoves'))
  {
    ghost var g, s := board.cells[..], rng.state;
    next := from;
    if current == Z {
      var humanMove;
      humanMove, next := GetHumanMove(board, lines, from);
      if humanMove.None? {
        return false, 0, next, None;
      }
      position := humanMove.value;
      HumanStep(seed, moves, g, s, computerMoves, position);
    } else {
      position := GetComputerMove(board, rng);
      ComputerStep(seed, moves, g, s, computerMoves, position);
    }
    moved := true;
    var ok := board.MakeMove(position, current);
    if ok {
      var winner := board.CheckWinner();
      if winner.Some? {
        return moved, position, next, Some(if winner.value == Z then HumanWon else ComputerWon);
      }
      var full := board.IsFull();
      if full {
        return moved, position, next, Some(Draw);
      }
      ending := None;
    } else {
      assert false;
    }
  }

  /**
   * `play_game`: alternate human and computer moves on a fresh board until
   * a line is complete or the board is full. The round records the
   * generator state at the start and the accepted human moves. The game is
   * exactly the guest's replay of that record: it ends with the outcome the
   * replay reaches, so the guest reports a human win exactly when the human
   * won. `ending` is None only when the input lines ran out mid-game.
   */
  method PlayGame(rng: SimpleRng, lines: seq<string>) returns (round: GameRound, ending: Option<Outcome>)
    modifies rng
    ensures round.seed == old(rng.state)
    ensures |round.playerMoves| <= 5 && forall i :: 0 <= i < |round.playerMoves| ==> round.playerMoves[i] < 9
    ensures ending.Some? ==> ending.value != Invalid && Replay(round.seed, MoveTokens(round.playerMoves)) == Over(ending.value)
    ensures ending.None? ==> Replay(round.seed, MoveTokens(round.playerMoves)).Playing?
    ensures ending == Some(HumanWon) <==> Verdict(Record(round.seed, round.playerMoves))
    ensures rng.state == Advance(round.seed, ComputerMoves(|round.playerMoves|, ending))
  {
    var board := new Board();
    var current := Z;
    var seed := rng.state;
    var playerMoves: seq<nat> := [];
    var next := 0;
    ending := None;
    ghost var computerMoves := 0;
    EmptyGridHasNoWinner();
    EmptyCellsOfEmptyGrid(9);
    while true
      invariant board.Valid() && fresh(board.cells) && next <= |lines| && ending.None?
      invariant InPlay(seed, playerMoves, current, board.cells[..], rng.state, computerMoves)
      decreases 2 * |EmptyCells(board.cells[..])| + (if current == Z then 1 else 0)
    {
      var moved, position;
      moved, position, next, ending := PlayTurn(board, rng, current, lines, next, seed, playerMoves, computerMoves);
      if !moved {
        break;
      }
      if current == Z {
        playerMoves := playerMoves + [position];
      } else {
        computerMoves := computerMoves + 1;
      }
      if ending.Some? {
        break;
      }
      current := if current == Z then K else Z;
    }
    round := GameRound(seed, playerMoves);
    VerdictOfRecord(seed, playerMoves);
  }

  /** Recording an accepted human move extends the replay by the human's turn. */
  lemma HumanMoveReplays(seed: u64, moves: seq<nat>, position: nat, g: Grid, s: u64)
    requires position < 9 && g[position] == Empty
    requires Replay(seed, MoveTokens(moves)) == Playing(g, s)
    ensures Replay(seed, MoveTokens(moves + [position])) == HumanTurn(g, s, position)
  {
    assert MoveTokens(moves + [position]) == MoveTokens(moves) + [ToDecimal(position)];
    ReplayPrefixStep(seed, MoveTokens(moves + [position]), |moves|);
    assert MoveTokens(moves + [position])[..|moves|] == MoveTokens(moves);
    assert MoveTokens(moves + [position])[..|moves| + 1] == MoveTokens(moves + [position]);
    ParseToDecimal(position, USIZE_BOUND);
  }

  /**
   * The human's accepted move, seen by the replay of the record: a completed
   * line finishes the game as a human win, a full board as a draw, and
   * otherwise the computer's turn comes with one Empty cell fewer.
   */
  lemma HumanStep(seed: u64, moves: seq<nat>, g: Grid, s: u64, computerMoves: nat, position: nat)
    requires InPlay(seed, moves, Z, g, s, computerMoves)
    requires position < 9 && g[position] == Empty
    ensures var g1 := g[position := Z];
            var moves' := moves + [position];
            && (Winner(g1).Some? ==> Winner(g1) == Some(Z) && Finished(seed, moves', HumanWon, s))
            && (Winner(g1).None? && Full(g1) ==> Finished(seed, moves', Draw, s))
            && (Winner(g1).None? && !Full(g1) ==> InPlay(seed, moves', K, g1, s, computerMoves))
            && |EmptyCells(g1)| == |EmptyCells(g)| - 1
  {
    var g1 := g[position := Z];
    HumanMoveReplays(seed, moves, position, g, s);
    assert Place(g, position, Z) == Some(g1);
    PlaceCompletesOnlyOwnLine(g, position, Z);
    FullIffNoEmptyCells(g1);
    EmptyCellsAfterPlace(g, position, Z);
  }

  /**
   * The computer's move, seen by the replay: a completed line finishes the
   * game as a computer win; otherwise the human's turn comes with one Empty
   * cell fewer and the generator advanced once. The board is never full
   * after it, as an even number of Empty cells loses one.
   */
  lemma ComputerStep(seed: u64, moves: seq<nat>, g: Grid, s: u64, computerMoves: nat, position: nat)
    requires InPlay(seed, moves, K, g, s, computerMoves)
    requires position == ComputerChoice(g, s)
    ensures var g2 := g[position := K];
            && (Winner(g2).Some? ==> Winner(g2) == Some(K) && Finished(seed, moves, ComputerWon, Lcg(s)))
            && (Winner(g2).None? ==> InPlay(seed, moves, Z, g2, Lcg(s), computerMoves + 1))
            && !Full(g2)
            && |EmptyCells(g2)| == |EmptyCells(g)| - 1
  {
    var g2 := g[position := K];
    ComputerReplyAfterMove(g, s, g2);
    PlaceCompletesOnlyOwnLine(g, position, K);
    EmptyCellsAfterPlace(g, position, K);
    assert |EmptyCells(g2)| == 9 - 2 * |moves| > 0;
    FullIffNoEmptyCells(g2);
  }
}
