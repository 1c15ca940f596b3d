/**
 * The Moore neighbourhood of a cell, restricted to the grid (no wrap-around),
 * and the number of live cells in it.
 */
module Neighbours {
  import opened Grid

  /**
   * The k-th of the nine offsets visited by the nested loops, row by row:
   * dy runs over -1, 0, 1 outside and dx over -1, 0, 1 inside. Offset 4 is (0, 0).
   */
  function Offset(k: nat): (d: Vec2i)
    requires k < 9
    ensures -1 <= d.x <= 1 && -1 <= d.y <= 1
    ensures k == (d.y + 1) * 3 + (d.x + 1)
  {
    if k < 3 then Vec2i(k - 1, -1)
    else if k < 6 then Vec2i(k - 4, 0)
    else Vec2i(k - 7, 1)
  }

  /** The offset (dx, dy) is visited at loop position (dy + 1) * 3 + (dx + 1). */
  lemma OffsetAt(dx: int, dy: int)
    requires -1 <= dx <= 1 && -1 <= dy <= 1
    ensures Offset((dy + 1) * 3 + (dx + 1)) == Vec2i(dx, dy)
  {
  }

  /**
   * The neighbours collected after the first k loop positions: the skipped
   * centre and every off-grid target are left out, in visiting order.
   */
  function CandidatesUpTo(cell: Vec2i, k: nat): (r: seq<Vec2i>)
    requires k <= 9
    ensures |r| <= (if k > 4 then k - 1 else k)
    ensures forall n :: n in r ==> IsValid(n)
  {
    if k == 0 then []
    else
      var prev := CandidatesUpTo(cell, k - 1);
      var d := Offset(k - 1);
      if d == Vec2i(0, 0) then prev
      else
        var n := Add(cell, d);
        if IsValid(n) then prev + [n] else prev
  }

  /** Visiting offset (dx, dy), loop position k, appends its target when it is not the centre and lies on the grid. */
  lemma CandidatesUpToStep(cell: Vec2i, dx: int, dy: int, k: nat)
    requires -1 <= dx <= 1 && -1 <= dy <= 1 && k == (dy + 1) * 3 + (dx + 1)
    ensures CandidatesUpTo(cell, k + 1) ==
      if (dx == 0 && dy == 0) || !IsValid(Add(cell, Vec2i(dx, dy))) then CandidatesUpTo(cell, k)
      else CandidatesUpTo(cell, k) + [Add(cell, Vec2i(dx, dy))]
    ensures !(dx == 0 && dy == 0) ==> |CandidatesUpTo(cell, k)| < 8
  {
    OffsetAt(dx, dy);
  }

  /** The in-bounds Moore neighbours of `cell`, in the order `neighbours_count` collects them. */
  function Candidates(cell: Vec2i): (r: seq<Vec2i>)
    ensures |r| <= 8
    ensures forall n :: n in r ==> IsValid(n)
  {
    CandidatesUpTo(cell, 9)
  }

  /** `n` is adjacent to `cell` horizontally, vertically or diagonally, and is not `cell`. */
  predicate Adjacent(cell: Vec2i, n: Vec2i)
  {
    n != cell && -1 <= n.x - cell.x <= 1 && -1 <= n.y - cell.y <= 1
  }

  /** Membership among the first k loop positions. */
  lemma {:induction false} CandidatesUpToMembers(cell: Vec2i, k: nat, n: Vec2i)
    requires k <= 9
    ensures n in CandidatesUpTo(cell, k) <==>
      IsValid(n) && Adjacent(cell, n) && (n.y - cell.y + 1) * 3 + (n.x - cell.x + 1) < k
  {
    if k > 0 {
      CandidatesUpToMembers(cell, k - 1, n);
      var dx, dy := n.x - cell.x, n.y - cell.y;
      if -1 <= dx <= 1 && -1 <= dy <= 1 {
        OffsetAt(dx, dy);
      }
    }
  }

  /** The collected neighbours are exactly the adjacent cells that lie on the grid. */
  lemma CandidatesMembers(cell: Vec2i, n: Vec2i)
    ensures n in Candidates(cell) <==> IsValid(n) && Adjacent(cell, n)
  {
    CandidatesUpToMembers(cell, 9, n);
  }

  /** No neighbour is collected twice. */
  lemma {:induction false} CandidatesUpToDistinct(cell: Vec2i, k: nat)
    requires k <= 9
    ensures forall p, q :: 0 <= p < q < |CandidatesUpTo(cell, k)| ==>
      CandidatesUpTo(cell, k)[p] != CandidatesUpTo(cell, k)[q]
  {
    if k > 0 {
      CandidatesUpToDistinct(cell, k - 1);
      var prev := CandidatesUpTo(cell, k - 1);
      var n := Add(cell, Offset(k - 1));
      if Offset(k - 1) != Vec2i(0, 0) && IsValid(n) {
        CandidatesUpToMembers(cell, k - 1, n);
        assert CandidatesUpTo(cell, k) == prev + [n];
      }
    }
  }

  /** Number of live cells among `ns` (the second loop of `neighbours_count`). */
  function CountAlive(s: seq<byte>, ns: seq<Vec2i>): (r: nat)
    requires |s| == SCREEN_SIZE
    requires forall n :: n in ns ==> IsValid(n)
    ensures r <= |ns|
  {
    if |ns| == 0 then 0
    else
      var last := ns[|ns| - 1];
      CountAlive(s, ns[..|ns| - 1]) + (if IsAlive(s, Vec2Index(last)) then 1 else 0)
  }

  /** `neighbours_count`: the number of live cells among the in-bounds neighbours of `index`. */
  function NeighbourCount(s: seq<byte>, index: nat): (r: nat)
    requires |s| == SCREEN_SIZE
    ensures r <= 8
  {
    CountAlive(s, Candidates(Index2Vec(index)))
  }

  /** Two buffers that agree on the cells of `ns` give the same count. */
  lemma {:induction false} CountAliveLocal(s: seq<byte>, t: seq<byte>, ns: seq<Vec2i>)
    requires |s| == |t| == SCREEN_SIZE
    requires forall n :: n in ns ==> IsValid(n)
    requires forall n :: n in ns ==> s[Vec2Index(n)] == t[Vec2Index(n)]
    ensures CountAlive(s, ns) == CountAlive(t, ns)
  {
    if |ns| > 0 {
      CountAliveLocal(s, t, ns[..|ns| - 1]);
    }
  }

  /**
   * The count depends on the adjacent on-grid cells only: two buffers that
   * agree there give the same count, whatever they hold elsewhere (in
   * particular on the opposite edge: there is no wrap-around).
   */
  lemma NeighbourCountLocal(s: seq<byte>, t: seq<byte>, index: nat)
    requires |s| == |t| == SCREEN_SIZE
    requires forall n :: IsValid(n) && Adjacent(Index2Vec(index), n) ==>
      s[Vec2Index(n)] == t[Vec2Index(n)]
    ensures NeighbourCount(s, index) == NeighbourCount(t, index)
  {
    var cell := Index2Vec(index);
    forall n | n in Candidates(cell)
      ensures s[Vec2Index(n)] == t[Vec2Index(n)]
    {
      CandidatesMembers(cell, n);
    }
    CountAliveLocal(s, t, Candidates(cell));
  }

  /** A buffer without live bytes gives a zero count for every list of cells. */
  lemma {:induction false} CountAliveNone(s: seq<byte>, ns: seq<Vec2i>)
    requires |s| == SCREEN_SIZE
    requires forall n :: n in ns ==> IsValid(n)
    requires forall i :: 0 <= i < |s| ==> s[i] != ALIVE_CELL
    ensures CountAlive(s, ns) == 0
  {
    if |ns| > 0 {
      CountAliveNone(s, ns[..|ns| - 1]);
    }
  }

  /** At the corner (0, 0) the first five loop positions point off the grid or at the centre. */
  lemma {:induction false} CornerFirstPositions(k: nat)
    requires k <= 5
    ensures CandidatesUpTo(Vec2i(0, 0), k) == []
  {
    if k > 0 {
      CornerFirstPositions(k - 1);
    }
  }

  /** Positions 5 and 6 at the corner (0, 0) contribute the right-hand neighbour only. */
  lemma CornerMiddlePositions()
    ensures CandidatesUpTo(Vec2i(0, 0), 7) == [Vec2i(1, 0)]
  {
    CornerFirstPositions(5);
    assert Offset(5) == Vec2i(1, 0);
    assert CandidatesUpTo(Vec2i(0, 0), 6) == [Vec2i(1, 0)];
    assert Offset(6) == Vec2i(-1, 1);
  }

  /** All nine loop positions at the corner (0, 0) yield its three neighbours. */
  lemma CornerAllPositions()
    ensures CandidatesUpTo(Vec2i(0, 0), 9) == [Vec2i(1, 0), Vec2i(0, 1), Vec2i(1, 1)]
  {
    CornerMiddlePositions();
    assert Offset(7) == Vec2i(0, 1);
    assert CandidatesUpTo(Vec2i(0, 0), 8) == [Vec2i(1, 0), Vec2i(0, 1)];
    assert Offset(8) == Vec2i(1, 1);
  }

  /**
   * The corner (0, 0) has exactly three candidate neighbours, in this order,
   * so it never sees more than three live cells (it does not wrap to the far
   * corners).
   */
  lemma CornerCount(s: seq<byte>)
    requires |s| == SCREEN_SIZE
    ensures Candidates(Index2Vec(0)) == [Vec2i(1, 0), Vec2i(0, 1), Vec2i(1, 1)]
    ensures NeighbourCount(s, 0) <= 3
  {
    CornerAllPositions();
  }

  /** One of the four corner cells of the grid. */
  predicate IsCorner(c: Vec2i)
  {
    (c.x == 0 || c.x == SCREEN_WIDTH - 1) && (c.y == 0 || c.y == SCREEN_HEIGHT - 1)
  }

  /** A list without repeats has as many distinct elements as entries. */
  lemma {:induction false} DistinctCardinality(ns: seq<Vec2i>)
    requires forall p, q :: 0 <= p < q < |ns| ==> ns[p] != ns[q]
    ensures |set n | n in ns| == |ns|
  {
    if |ns| > 0 {
      var prev, last := ns[..|ns| - 1], ns[|ns| - 1];
      DistinctCardinality(prev);
      assert last !in prev by {
        forall p | 0 <= p < |prev|
          ensures prev[p] != last
        {
          assert prev[p] == ns[p];
        }
      }
      assert (set n | n in ns) == (set n | n in prev) + {last} by {
        assert ns == prev + [last];
        forall n
          ensures n in ns <==> n in prev || n == last
        {
        }
      }
    }
  }

  /** The three cells next to a corner: along the row, along the column and diagonally inwards. */
  function CornerNeighbours(c: Vec2i): seq<Vec2i>
    requires IsCorner(c)
  {
    var dx := if c.x == 0 then 1 else -1;
    var dy := if c.y == 0 then 1 else -1;
    [Vec2i(c.x + dx, c.y), Vec2i(c.x, c.y + dy), Vec2i(c.x + dx, c.y + dy)]
  }

  /** Each of the three corner neighbours is on the grid and adjacent to the corner. */
  lemma CornerNeighboursAdjacent(c: Vec2i, n: Vec2i)
    requires IsCorner(c)
    ensures n in CornerNeighbours(c) ==> IsValid(n) && Adjacent(c, n)
  {
    var r := CornerNeighbours(c);
    assert n in r ==> n == r[0] || n == r[1] || n == r[2];
  }

  /** Every adjacent on-grid cell of a corner is one of its three corner neighbours. */
  lemma CornerAdjacentListed(c: Vec2i, n: Vec2i)
    requires IsCorner(c)
    ensures IsValid(n) && Adjacent(c, n) ==> n in CornerNeighbours(c)
  {
    var dx := if c.x == 0 then 1 else -1;
    var dy := if c.y == 0 then 1 else -1;
    if IsValid(n) && Adjacent(c, n) {
      assert n.x - c.x == 0 || n.x - c.x == dx;
      assert n.y - c.y == 0 || n.y - c.y == dy;
    }
  }

  /** The three corner neighbours are distinct. */
  lemma CornerNeighboursDistinct(c: Vec2i)
    requires IsCorner(c)
    ensures forall p, q :: 0 <= p < q < |CornerNeighbours(c)| ==> CornerNeighbours(c)[p] != CornerNeighbours(c)[q]
  {
  }

  /** Two lists without repeats that hold the same cells have the same length. */
  lemma SameMembersSameLength(ns: seq<Vec2i>, ms: seq<Vec2i>)
    requires forall p, q :: 0 <= p < q < |ns| ==> ns[p] != ns[q]
    requires forall p, q :: 0 <= p < q < |ms| ==> ms[p] != ms[q]
    requires forall n :: n in ns <==> n in ms
    ensures |ns| == |ms|
  {
    DistinctCardinality(ns);
    DistinctCardinality(ms);
    assert (set n | n in ns) == (set n | n in ms);
  }

  /** Every corner of the grid, not only (0, 0), has exactly three candidate neighbours. */
  lemma CornerCandidates(c: Vec2i)
    requires IsCorner(c)
    ensures |Candidates(c)| == 3
  {
    CandidatesUpToDistinct(c, 9);
    CornerNeighboursDistinct(c);
    forall n
      ensures n in Candidates(c) <==> n in CornerNeighbours(c)
    {
      CandidatesMembers(c, n);
      CornerNeighboursAdjacent(c, n);
      CornerAdjacentListed(c, n);
    }
    SameMembersSameLength(Candidates(c), CornerNeighbours(c));
  }

  /** A corner cell never sees more than three live neighbours. */
  lemma CornerNeighbourCount(c: Vec2i, s: seq<byte>)
    requires IsCorner(c) && |s| == SCREEN_SIZE
    ensures NeighbourCount(s, Vec2Index(c)) <= 3
  {
    CornerCandidates(c);
    CoordinateRoundTrip(c);
  }
}
