/**
 * The neighbour count stated on sets: the counting loop over the collected
 * cells yields the number of distinct live ones, and that is the number of
 * live cells reached by the eight offsets.
 */
module NeighbourSet {
  import opened Grid
  import opened Neighbours

  /** The distinct live cells among `ns`. */
  function AliveAmong(s: seq<byte>, ns: seq<Vec2i>): set<Vec2i>
    requires |s| == SCREEN_SIZE
  {
    set n | n in ns && IsValid(n) && IsAlive(s, Vec2Index(n))
  }

  /** Appending a cell not yet listed adds one to the live cells exactly when it is live. */
  lemma AliveAmongAppend(s: seq<byte>, ns: seq<Vec2i>, last: Vec2i)
    requires |s| == SCREEN_SIZE && IsValid(last) && last !in ns
    ensures |AliveAmong(s, ns + [last])| ==
      |AliveAmong(s, ns)| + if IsAlive(s, Vec2Index(last)) then 1 else 0
  {
    var extra := if IsAlive(s, Vec2Index(last)) then {last} else {};
    assert AliveAmong(s, ns + [last]) == AliveAmong(s, ns) + extra by {
      forall n
        ensures n in ns + [last] <==> n in ns || n == last
      {
      }
    }
    assert last !in AliveAmong(s, ns);
  }

  /** Over a list of on-grid cells without repeats, the count is the number of distinct live cells. */
  lemma {:induction false} CountAliveSet(s: seq<byte>, ns: seq<Vec2i>)
    requires |s| == SCREEN_SIZE
    requires forall n :: n in ns ==> IsValid(n)
    requires forall p, q :: 0 <= p < q < |ns| ==> ns[p] != ns[q]
    ensures CountAlive(s, ns) == |AliveAmong(s, ns)|
  {
    if |ns| > 0 {
      var prev, last := ns[..|ns| - 1], ns[|ns| - 1];
      CountAliveSet(s, prev);
      assert last !in prev by {
        forall p | 0 <= p < |prev|
          ensures prev[p] != last
        {
          assert prev[p] == ns[p];
        }
      }
      assert ns == prev + [last];
      AliveAmongAppend(s, prev, last);
    }
  }

  /**
   * The live on-grid cells reached from `cell` by an offset (dx, dy) other
   * than (0, 0) with both components in {-1, 0, 1}: a definition of the
   * neighbour count that does not follow the loops.
   */
  function LiveNeighbours(s: seq<byte>, cell: Vec2i): set<Vec2i>
    requires |s| == SCREEN_SIZE
  {
    set dx: int, dy: int |
      -1 <= dx <= 1 && -1 <= dy <= 1 && !(dx == 0 && dy == 0) &&
      IsValid(Shift(cell, dx, dy)) && IsAlive(s, Vec2Index(Shift(cell, dx, dy)))
      :: Shift(cell, dx, dy)
  }

  /** The cell at offset (dx, dy) from `cell`. */
  function Shift(cell: Vec2i, dx: int, dy: int): Vec2i
  {
    Add(cell, Vec2i(dx, dy))
  }

  /**
   * The count is the number of live adjacent cells on the grid, with no
   * wrap-around. Distinct offsets reach distinct cells, so this is also the
   * number of offsets whose target is live and on the grid.
   */
  lemma NeighbourCountIsLiveNeighbours(s: seq<byte>, index: nat)
    requires |s| == SCREEN_SIZE
    ensures NeighbourCount(s, index) == |LiveNeighbours(s, Index2Vec(index))|
  {
    var cell := Index2Vec(index);
    var ns := Candidates(cell);
    CandidatesUpToDistinct(cell, 9);
    CountAliveSet(s, ns);
    forall n
      ensures n in AliveAmong(s, ns) <==> n in LiveNeighbours(s, cell)
    {
      CandidatesMembers(cell, n);
      var dx, dy := n.x - cell.x, n.y - cell.y;
      assert n == Shift(cell, dx, dy);
    }
    assert AliveAmong(s, ns) == LiveNeighbours(s, cell);
  }

}
