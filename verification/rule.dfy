/**
 * The transition rule of `next_generation`, stated on whole buffers: every
 * next state is a function of the pre-step buffer only.
 */
module Rule {
  import opened Grid
  import opened Neighbours

  /**
   * The byte the step writes for a cell holding `cell` with `count` live
   * neighbours. The `switch` has no default case, so a byte that is neither
   * live nor dead leaves the zero-initialised slot of `tmp` untouched.
   */
  function NextCell(cell: byte, count: int): (r: byte)
    ensures r == ALIVE_CELL <==>
      (cell == ALIVE_CELL && (count == 2 || count == 3)) || (cell == DEAD_CELL && count == 3)
    ensures r == DEAD_CELL <==>
      (cell == ALIVE_CELL && (count < 2 || count > 3)) || (cell == DEAD_CELL && count != 3)
    ensures r == 0 <==> cell != ALIVE_CELL && cell != DEAD_CELL
  {
    if cell == ALIVE_CELL then
      if count < 2 || count > 3 then DEAD_CELL else ALIVE_CELL
    else if cell == DEAD_CELL then
      if count == 3 then ALIVE_CELL else DEAD_CELL
    else
      0
  }

  /**
   * The next state of cell `index` of the pre-step buffer `s`: a live cell
   * survives with two or three live neighbours, a dead cell is born with
   * exactly three, and a stray byte becomes 0.
   */
  function NextAt(s: seq<byte>, index: nat): (r: byte)
    requires |s| == SCREEN_SIZE && index < SCREEN_SIZE
    ensures r == ALIVE_CELL <==>
      (s[index] == ALIVE_CELL && 2 <= NeighbourCount(s, index) <= 3) ||
      (s[index] == DEAD_CELL && NeighbourCount(s, index) == 3)
    ensures r != ALIVE_CELL ==> r == DEAD_CELL || r == 0
    ensures r == 0 <==> s[index] != ALIVE_CELL && s[index] != DEAD_CELL
  {
    NextCell(s[index], NeighbourCount(s, index))
  }

  /** The next states of the first `n` cells, each computed from the pre-step buffer `s`. */
  function NextPrefix(s: seq<byte>, n: nat): (r: seq<byte>)
    requires |s| == SCREEN_SIZE && n <= SCREEN_SIZE
    ensures |r| == n
    ensures forall i :: 0 <= i < n ==> r[i] == NextAt(s, i)
  {
    if n == 0 then [] else NextPrefix(s, n - 1) + [NextAt(s, n - 1)]
  }

  /** The buffer after one generation, each cell computed from the pre-step buffer `s`. */
  function NextScreen(s: seq<byte>): (r: seq<byte>)
    requires |s| == SCREEN_SIZE
    ensures |r| == SCREEN_SIZE
    ensures forall i :: 0 <= i < SCREEN_SIZE ==> r[i] == NextAt(s, i)
  {
    NextPrefix(s, SCREEN_SIZE)
  }

  /**
   * Locality: the next state of a cell depends only on the cell itself and
   * its adjacent on-grid cells in the pre-step buffer, whatever order the
   * cells are visited in and whatever the rest of the grid holds.
   */
  lemma NextScreenLocal(s: seq<byte>, t: seq<byte>, index: nat)
    requires |s| == |t| == SCREEN_SIZE && index < SCREEN_SIZE
    requires s[index] == t[index]
    requires forall n :: IsValid(n) && Adjacent(Index2Vec(index), n) ==>
      s[Vec2Index(n)] == t[Vec2Index(n)]
    ensures NextScreen(s)[index] == NextScreen(t)[index]
  {
    NeighbourCountLocal(s, t, index);
  }

  /** A byte that is neither live nor dead is cleared to 0 by the next step. */
  lemma StrayByteCleared(s: seq<byte>, index: nat)
    requires |s| == SCREEN_SIZE && index < SCREEN_SIZE
    requires s[index] != ALIVE_CELL && s[index] != DEAD_CELL
    ensures NextScreen(s)[index] == 0
  {
  }

  /**
   * A live cell with no other live cell anywhere on the grid sees no live
   * neighbour and dies; at the corner (0, 0) in particular it does not see
   * the far corners.
   */
  lemma LoneCellDies(s: seq<byte>, index: nat)
    requires |s| == SCREEN_SIZE && index < SCREEN_SIZE
    requires s[index] == ALIVE_CELL
    requires forall j :: 0 <= j < SCREEN_SIZE && j != index ==> s[j] != ALIVE_CELL
    ensures NeighbourCount(s, index) == 0
    ensures NextScreen(s)[index] == DEAD_CELL
  {
    var t := s[index := DEAD_CELL];
    forall n | IsValid(n) && Adjacent(Index2Vec(index), n)
      ensures s[Vec2Index(n)] == t[Vec2Index(n)]
    {
      CoordinateRoundTrip(n);
    }
    NeighbourCountLocal(s, t, index);
    CountAliveNone(t, Candidates(Index2Vec(index)));
  }

  /**
   * When the counter starts equal to the live cells of `s`, the running
   * count after the first `i` cells of the step (births added, deaths
   * taken away) stays within [0, 2^64): the counter never underflows or
   * overflows at any point of the loop.
   */
  lemma RunningPopulationInRange(s: seq<byte>, i: nat)
    requires |s| == SCREEN_SIZE && i <= SCREEN_SIZE
    ensures 0 <= AliveCount(s) + LiveBefore(NextScreen(s), i) - LiveBefore(s, i) < WORD
  {
    LiveBeforeMonotone(s, i, SCREEN_SIZE);
  }

  /** The buffer after `k` generations. */
  function Generations(s: seq<byte>, k: nat): (r: seq<byte>)
    requires |s| == SCREEN_SIZE
    ensures |r| == SCREEN_SIZE
  {
    if k == 0 then s else NextScreen(Generations(s, k - 1))
  }

  /** A cell holding a stray byte is 0 in every later generation: it is never born. */
  lemma {:induction false} StrayNeverBorn(s: seq<byte>, index: nat, k: nat)
    requires |s| == SCREEN_SIZE && index < SCREEN_SIZE
    requires s[index] != ALIVE_CELL && s[index] != DEAD_CELL
    requires k >= 1
    ensures Generations(s, k)[index] == 0
    ensures Generations(s, k)[index] != ALIVE_CELL
  {
    if k > 1 {
      StrayNeverBorn(s, index, k - 1);
    }
  }

  /** Without live cells nothing is born: every cell of the next buffer is dead or 0. */
  lemma NoLifeStaysLifeless(s: seq<byte>)
    requires |s| == SCREEN_SIZE
    requires forall i :: 0 <= i < |s| ==> s[i] != ALIVE_CELL
    ensures forall i :: 0 <= i < SCREEN_SIZE ==> NextScreen(s)[i] != ALIVE_CELL
    ensures forall i :: 0 <= i < SCREEN_SIZE && s[i] == DEAD_CELL ==> NextScreen(s)[i] == DEAD_CELL
    ensures AliveCount(NextScreen(s)) == 0
  {
    forall i | 0 <= i < SCREEN_SIZE
      ensures NeighbourCount(s, i) == 0
    {
      CountAliveNone(s, Candidates(Index2Vec(i)));
    }
    AliveCountZero(NextScreen(s));
  }

  /** An all-dead grid is a fixed point of the step. */
  lemma DeadGridFixed(s: seq<byte>)
    requires |s| == SCREEN_SIZE
    requires forall i :: 0 <= i < |s| ==> s[i] == DEAD_CELL
    ensures NextScreen(s) == s
  {
    NoLifeStaysLifeless(s);
    assert forall i :: 0 <= i < SCREEN_SIZE ==> NextScreen(s)[i] == s[i];
  }

  /** An all-dead grid stays all-dead, with no live cell, for any number of generations. */
  lemma {:induction false} EmptyGridStable(s: seq<byte>, k: nat)
    requires |s| == SCREEN_SIZE
    requires forall i :: 0 <= i < |s| ==> s[i] == DEAD_CELL
    ensures Generations(s, k) == s
    ensures AliveCount(Generations(s, k)) == 0
  {
    if k > 0 {
      EmptyGridStable(s, k - 1);
      DeadGridFixed(Generations(s, k - 1));
    }
    AliveCountZero(s);
  }
}
