/**
 * The game engine shared by the library crate, the zkVM guest and the host
 * script: the board of nine cells and the 64-bit linear congruential
 * generator that picks the computer's moves.
 *
 * Every board query is first defined on an immutable `Grid` value; the
 * `Board` and `SimpleRng` classes hold the mutable state the source updates
 * in place and are specified against those values.
 */
module Engine {
  import opened Options

  /** The mark in a cell: nobody, the human (`Z`) or the computer (`K`). */
  datatype Cell = Empty | Z | K

  /** A board position; the winning lines use only these. */
  type Position = i: nat | i < 9

  /** The nine cells of a board, in row-major order. */
  type Grid = g: seq<Cell> | |g| == 9
    witness [Empty, Empty, Empty, Empty, Empty, Empty, Empty, Empty, Empty]

  const EmptyGrid: Grid := [Empty, Empty, Empty, Empty, Empty, Empty, Empty, Empty, Empty]

  // ---------------------------------------------------------------------------
  // Moves

  /**
   * The cells after `make_move(position, player)`, or None when the move is
   * refused: a position off the board or a cell that is already taken.
   */
  function Place(g: Grid, position: nat, player: Cell): Option<Grid> {
    if position < 9 && g[position] == Empty then Some(g[position := player]) else None
  }

  /**
   * `make_move` on values: accepted exactly when the position is on the board
   * and Empty; then that cell holds `player` and the other eight are unchanged.
   */
  lemma PlaceSpec(g: Grid, position: nat, player: Cell)
    ensures Place(g, position, player).Some? <==> position < 9 && g[position] == Empty
    ensures Place(g, position, player).Some? ==>
              Place(g, position, player).value[position] == player
              && forall i :: 0 <= i < 9 && i != position ==> Place(g, position, player).value[i] == g[i]
  {
  }

  // ---------------------------------------------------------------------------
  // Empty cells and fullness

  /** `is_full`: no cell is Empty. */
  predicate Full(g: Grid) {
    forall i :: 0 <= i < 9 ==> g[i] != Empty
  }

  /** The Empty positions below `n`, in ascending order. */
  function EmptyCellsBelow(g: Grid, n: nat): (r: seq<nat>)
    requires n <= 9
    ensures |r| <= n
  {
    if n == 0 then []
    else EmptyCellsBelow(g, n - 1) + (if g[n - 1] == Empty then [n - 1] else [])
  }

  /** The positions below `n` that are Empty, each once, in ascending order. */
  lemma {:induction false} EmptyCellsBelowSpec(g: Grid, n: nat)
    requires n <= 9
    ensures forall i :: 0 <= i < |EmptyCellsBelow(g, n)| ==>
              EmptyCellsBelow(g, n)[i] < n && g[EmptyCellsBelow(g, n)[i]] == Empty
    ensures forall j :: 0 <= j < n && g[j] == Empty ==> j in EmptyCellsBelow(g, n)
    ensures forall i, j :: 0 <= i < j < |EmptyCellsBelow(g, n)| ==> EmptyCellsBelow(g, n)[i] < EmptyCellsBelow(g, n)[j]
  {
    if n > 0 {
      EmptyCellsBelowSpec(g, n - 1);
    }
  }

  /** `get_empty_cells`: the Empty positions of the board, ascending. */
  function EmptyCells(g: Grid): seq<nat> {
    EmptyCellsBelow(g, 9)
  }

  /** `get_empty_cells` lists exactly the Empty positions, each once, in ascending order. */
  lemma EmptyCellsSpec(g: Grid)
    ensures forall i :: 0 <= i < |EmptyCells(g)| ==> EmptyCells(g)[i] < 9 && g[EmptyCells(g)[i]] == Empty
    ensures forall j :: 0 <= j < 9 ==> (j in EmptyCells(g) <==> g[j] == Empty)
    ensures forall i, j :: 0 <= i < j < |EmptyCells(g)| ==> EmptyCells(g)[i] < EmptyCells(g)[j]
  {
    EmptyCellsBelowSpec(g, 9);
  }

  /** A board is full exactly when it has no empty cells. */
  lemma FullIffNoEmptyCells(g: Grid)
    ensures Full(g) <==> EmptyCells(g) == []
  {
    var e := EmptyCells(g);
    EmptyCellsSpec(g);
    if e != [] {
      assert g[e[0]] == Empty;
    }
    if !Full(g) {
      var j :| 0 <= j < 9 && g[j] == Empty;
      assert j in e;
    }
  }

  lemma {:induction false} EmptyCellsBelowAfterPlace(g: Grid, position: nat, player: Cell, n: nat)
    requires position < 9 && g[position] == Empty && player != Empty
    requires n <= 9
    ensures |EmptyCellsBelow(g[position := player], n)|
            == |EmptyCellsBelow(g, n)| - (if position < n then 1 else 0)
  {
    if n > 0 {
      EmptyCellsBelowAfterPlace(g, position, player, n - 1);
    }
  }

  /**
   * Every accepted move of a real mark fills exactly one empty cell: the
   * list loses `position` and keeps every other entry.
   */
  lemma EmptyCellsAfterPlace(g: Grid, position: nat, player: Cell)
    requires position < 9 && g[position] == Empty && player != Empty
    ensures |EmptyCells(g[position := player])| == |EmptyCells(g)| - 1
    ensures forall j :: 0 <= j < 9 ==> (j in EmptyCells(g[position := player]) <==> j in EmptyCells(g) && j != position)
  {
    EmptyCellsBelowAfterPlace(g, position, player, 9);
    EmptyCellsSpec(g);
    EmptyCellsSpec(g[position := player]);
  }

  // ---------------------------------------------------------------------------
  // Winner detection

  /** Three positions in a row, a column or a diagonal. */
  datatype Line = Line(a: Position, b: Position, c: Position)

  /** The eight winning lines, in the order `check_winner` scans them. */
  const Lines: seq<Line> := [
    Line(0, 1, 2), Line(3, 4, 5), Line(6, 7, 8),
    Line(0, 3, 6), Line(1, 4, 7), Line(2, 5, 8),
    Line(0, 4, 8), Line(2, 4, 6)
  ]

  /** All three cells of the line carry the same non-Empty mark. */
  predicate Completes(g: Grid, l: Line) {
    g[l.a] != Empty && g[l.a] == g[l.b] && g[l.b] == g[l.c]
  }

  /** The first-match scan of `check_winner`, started at line `k`; never reports `Empty`. */
  function WinnerFrom(g: Grid, k: nat): (r: Option<Cell>)
    requires k <= |Lines|
    ensures r != Some(Empty)
    decreases |Lines| - k
  {
    if k == |Lines| then None
    else if Completes(g, Lines[k]) then Some(g[Lines[k].a])
    else WinnerFrom(g, k + 1)
  }

  /**
   * The scan from line `k` reports a mark exactly when some line from `k` on
   * is complete, and then it is the mark of the first such line.
   */
  lemma {:induction false} WinnerFromSpec(g: Grid, k: nat)
    requires k <= |Lines|
    ensures WinnerFrom(g, k).Some? <==> exists i :: k <= i < |Lines| && Completes(g, Lines[i])
    ensures WinnerFrom(g, k).Some? ==>
              exists i :: k <= i < |Lines| && Completes(g, Lines[i]) && WinnerFrom(g, k).value == g[Lines[i].a]
                          && forall j :: k <= j < i ==> !Completes(g, Lines[j])
    decreases |Lines| - k
  {
    if k < |Lines| && !Completes(g, Lines[k]) {
      WinnerFromSpec(g, k + 1);
      if WinnerFrom(g, k + 1).Some? {
        var i :| k + 1 <= i < |Lines| && Completes(g, Lines[i]) && WinnerFrom(g, k + 1).value == g[Lines[i].a]
                 && forall j :: k + 1 <= j < i ==> !Completes(g, Lines[j]);
        assert forall j :: k <= j < i ==> !Completes(g, Lines[j]);
      }
    }
  }

  /** `check_winner`: the mark of the first complete line in scan order, or None. */
  function Winner(g: Grid): (r: Option<Cell>)
    ensures r != Some(Empty)
  {
    WinnerFrom(g, 0)
  }

  /**
   * `check_winner` reports a mark exactly when some line is complete, and
   * then the mark of the first complete line in scan order.
   */
  lemma WinnerSpec(g: Grid)
    ensures Winner(g).Some? <==> exists i :: 0 <= i < |Lines| && Completes(g, Lines[i])
    ensures Winner(g).Some? ==>
              exists i :: 0 <= i < |Lines| && Completes(g, Lines[i]) && Winner(g).value == g[Lines[i].a]
                          && forall j :: 0 <= j < i ==> !Completes(g, Lines[j])
  {
    WinnerFromSpec(g, 0);
  }

  /**
   * On a board without a complete line, a single accepted move can only
   * complete a line of the mover's own mark.
   */
  lemma PlaceCompletesOnlyOwnLine(g: Grid, position: nat, player: Cell)
    requires Winner(g) == None
    requires position < 9 && g[position] == Empty
    ensures Winner(g[position := player]) == None || Winner(g[position := player]) == Some(player)
  {
    var g' := g[position := player];
    WinnerSpec(g);
    WinnerSpec(g');
    if Winner(g').Some? {
      var i :| 0 <= i < |Lines| && Completes(g', Lines[i]) && Winner(g').value == g'[Lines[i].a];
      var l := Lines[i];
      assert l.a == position || l.b == position || l.c == position;
    }
  }

  /** The board object of the source: nine cells updated in place. */
  class Board {
    const cells: array<Cell>

    ghost predicate Valid() {
      cells.Length == 9
    }

    /** `Board::new`: nine Empty cells. */
    constructor ()
      ensures Valid() && fresh(cells)
      ensures cells[..] == EmptyGrid
    {
      cells := new Cell[9](_ => Empty);
      new;
      assert forall i :: 0 <= i < 9 ==> cells[..][i] == EmptyGrid[i];
    }

    /**
     * `make_move`: succeeds exactly when the position is on the board and
     * Empty; then that cell alone becomes `player`, otherwise nothing changes.
     */
    method MakeMove(position: nat, player: Cell) returns (ok: bool)
      requires Valid()
      modifies cells
      ensures ok <==> position < 9 && old(cells[position]) == Empty
      ensures ok ==> cells[..] == old(cells[..])[position := player]
      ensures !ok ==> cells[..] == old(cells[..])
    {
      if position < 9 && cells[position] == Empty {
        cells[position] := player;
        ok := true;
      } else {
        ok := false;
      }
    }

    /** `is_full`: true exactly when `get_empty_cells` lists nothing. */
    function IsFull(): (r: bool)
      reads this, cells
      requires Valid()
      ensures r <==> GetEmptyCells() == []
    {
      FullIffNoEmptyCells(cells[..]);
      Full(cells[..])
    }

    /** `get_empty_cells`: exactly the Empty positions, each below 9, in ascending order. */
    function GetEmptyCells(): (r: seq<nat>)
      reads this, cells
      requires Valid()
      ensures forall i :: 0 <= i < |r| ==> r[i] < 9 && cells[r[i]] == Empty
      ensures forall j :: 0 <= j < 9 ==> (j in r <==> cells[j] == Empty)
      ensures forall i, j :: 0 <= i < j < |r| ==> r[i] < r[j]
    {
      EmptyCellsSpec(cells[..]);
      EmptyCells(cells[..])
    }

    /** `check_winner`: the scan over the eight lines with its early return. */
    method CheckWinner() returns (winner: Option<Cell>)
      requires Valid()
      ensures winner == Winner(cells[..])
    {
      ghost var g: Grid := cells[..];
      var k := 0;
      while k < |Lines|
        invariant 0 <= k <= |Lines|
        invariant WinnerFrom(g, k) == Winner(g)
      {
        var line := Lines[k];
        if cells[line.a] != Empty && cells[line.a] == cells[line.b] && cells[line.b] == cells[line.c] {
          assert Completes(g, line);
          return Some(cells[line.a]);
        }
        assert !Completes(g, line);
        k := k + 1;
      }
      return None;
    }
  }

  // ---------------------------------------------------------------------------
  // The linear congruential generator

  const MODULUS: nat := 0x1_0000_0000_0000_0000
  const MULTIPLIER: nat := 6364136223846793005
  const INCREMENT: nat := 1442695040888963407

  /** Rust's u64. */
  type u64 = x: nat | x < MODULUS

  /** `u64::wrapping_mul`. */
  function WrappingMul(a: u64, b: u64): u64 {
    (a * b) % MODULUS
  }

  /** `u64::wrapping_add`. */
  function WrappingAdd(a: u64, b: u64): u64 {
    (a + b) % MODULUS
  }

  /** One step of the generator: state * 6364136223846793005 + 1442695040888963407 mod 2^64. */
  function Lcg(s: u64): u64 {
    (s * MULTIPLIER + INCREMENT) % MODULUS
  }

  /** The wrapping multiply followed by the wrapping add is the affine step mod 2^64. */
  lemma WrappingStepIsLcg(s: u64)
    ensures WrappingAdd(WrappingMul(s, MULTIPLIER), INCREMENT) == Lcg(s)
  {
    var x := s * MULTIPLIER;
    assert x == (x / MODULUS) * MODULUS + x % MODULUS;
    ModAddMultiple(x / MODULUS, x % MODULUS + INCREMENT);
  }

  lemma ModAddMultiple(q: nat, y: nat)
    ensures (q * MODULUS + y) % MODULUS == y % MODULUS
  {
  }

  /** The state after `n` draws from state `s`. */
  function Advance(s: u64, n: nat): u64 {
    if n == 0 then s else Lcg(Advance(s, n - 1))
  }

  /**
   * `rand_range(min, max)` drawn from state `s`: the next state reduced
   * modulo the width of the range, shifted by `min`.
   */
  function Pick(s: u64, min: nat, max: nat): (r: nat)
    requires min <= max
    ensures min <= r <= max
  {
    Lcg(s) % (max - min + 1) + min
  }

  /** The generator object: one 64-bit state advanced on every draw. */
  class SimpleRng {
    var state: u64

    /** `SimpleRNG::new(seed)`. */
    constructor (seed: u64)
      ensures state == seed
    {
      state := seed;
    }

    /** `next`: advances the state once and returns the new state. */
    method Next() returns (r: u64)
      modifies this
      ensures state == Lcg(old(state))
      ensures r == state
    {
      WrappingStepIsLcg(state);
      state := WrappingAdd(WrappingMul(state, MULTIPLIER), INCREMENT);
      r := state;
    }

    /** `rand_range`: advances the state once and returns a value in [min, max]. */
    method RandRange(min: nat, max: nat) returns (r: nat)
      requires min <= max
      modifies this
      ensures state == Lcg(old(state))
      ensures r == Pick(old(state), min, max) && min <= r <= max
    {
      var n := Next();
      r := n % (max - min + 1) + min;
    }
  }
}
