/**
 * The simulation state of main.c: the global `screen` buffer with its
 * `population` and `generation` counters, and the routines that update them
 * in place.
 */
module Life {
  import opened Grid
  import opened Neighbours
  import opened Rule
  import opened Loader

  class Simulation {
    /** `screen`: one byte per cell, row-major. */
    var screen: array<byte>
    /** `population`: a `size_t`, updated by +1/-1 as cells are born and die. */
    var population: nat
    /** `generation`: a `size_t`, starting at 1. */
    var generation: nat

    ghost predicate Valid()
      reads this
    {
      screen.Length == SCREEN_SIZE && population < WORD && generation < WORD
    }

    /** The population counter agrees with the live bytes of the screen. */
    ghost predicate Consistent()
      reads this, screen
      requires Valid()
    {
      population == AliveCount(screen[..])
    }

    /** The static initial state: a zero-filled screen, population 0, generation 1. */
    constructor ()
      ensures Valid() && fresh(screen)
      ensures screen[..] == seq(SCREEN_SIZE, _ => 0)
      ensures population == 0 && generation == 1
      ensures Consistent()
    {
      screen := new byte[SCREEN_SIZE](_ => 0);
      population := 0;
      generation := 1;
      new;
      AliveCountZero(screen[..]);
    }

    /**
     * `neighbours_count`: collects the in-bounds Moore neighbours of `index`
     * into a local array of eight, then counts the live ones.
     */
    method NeighboursCount(index: nat) returns (result: int)
      requires Valid()
      ensures result == NeighbourCount(screen[..], index)
      ensures 0 <= result <= 8
    {
      var cell := Index2Vec(index);
      var neighbours, cur := CollectNeighbours(cell);
      ghost var ns := neighbours[..cur];
      ghost var s := screen[..];
      result := 0;
      for i := 0 to cur
        invariant result == CountAlive(s, ns[..i])
      {
        assert ns[..i + 1][..i] == ns[..i];
        var n := neighbours[i];
        if IsAlive(screen[..], Vec2Index(n)) {
          result := result + 1;
        }
      }
      assert ns[..cur] == ns;
    }

    /**
     * The first half of `neighbours_count`: the nested `dy`/`dx` loops that
     * fill the local array `neighbours` through the cursor `cur`, skipping
     * the centre and every target off the grid.
     */
    static method CollectNeighbours(cell: Vec2i) returns (neighbours: array<Vec2i>, cur: nat)
      ensures fresh(neighbours) && neighbours.Length == 8
      ensures cur <= 8 && neighbours[..cur] == Candidates(cell)
    {
      neighbours := new Vec2i[8](_ => Vec2i(0, 0));
      cur := 0;
      ghost var k := 0;  // loop position: (dy + 1) * 3 + (dx + 1)
      for dy := -1 to 2
        invariant k == (dy + 1) * 3
        invariant cur <= 8
        invariant neighbours[..cur] == CandidatesUpTo(cell, k)
      {
        for dx := -1 to 2
          invariant k == (dy + 1) * 3 + (dx + 1)
          invariant cur <= 8
          invariant neighbours[..cur] == CandidatesUpTo(cell, k)
        {
          CandidatesUpToStep(cell, dx, dy, k);
          if !(dx == 0 && dy == 0) {
            var n := Add(cell, Vec2i(dx, dy));
            if IsValid(n) {
              ghost var before := neighbours[..cur];
              neighbours[cur] := n;
              assert neighbours[..cur + 1] == before + [n];
              cur := cur + 1;
            }
          }
          k := k + 1;
        }
      }
    }

    /**
     * `next_generation`: computes every next state into a zeroed `tmp`
     * buffer from the unchanged screen, adjusting `population` by one per
     * birth and death, then copies `tmp` over the screen (`memcpy`) and
     * advances `generation`.
     */
    method NextGeneration()
      requires Valid()
      modifies this, screen
      ensures Valid() && screen == old(screen)
      ensures screen[..] == NextScreen(old(screen[..]))
      ensures population == Wrap(old(population) + AliveCount(screen[..]) - AliveCount(old(screen[..])))
      ensures generation == Wrap(old(generation) + 1)
      ensures old(Consistent()) ==> Consistent()
    {
      var tmp := ComputeNext();
      forall j | 0 <= j < SCREEN_SIZE {
        screen[j] := tmp[j];
      }
      assert screen[..] == tmp[..];
      generation := Wrap(generation + 1);
    }

    /**
     * The step loop of `next_generation`: fills a fresh zeroed buffer with the
     * next state of every cell, leaving the screen untouched, while the
     * counter follows the births and deaths.
     */
    method ComputeNext() returns (tmp: array<byte>)
      requires Valid()
      modifies this`population
      ensures Valid() && fresh(tmp)
      ensures tmp.Length == SCREEN_SIZE && tmp[..] == NextScreen(screen[..])
      ensures population == Wrap(old(population) + AliveCount(tmp[..]) - AliveCount(screen[..]))
    {
      ghost var s0 := screen[..];
      ghost var p0 := population;
      ghost var next := NextScreen(s0);
      ghost var total: int := p0;
      tmp := new byte[SCREEN_SIZE](_ => 0);
      for i := 0 to SCREEN_SIZE
        invariant Valid() && screen[..] == s0
        invariant fresh(tmp) && tmp.Length == SCREEN_SIZE
        invariant forall j :: 0 <= j < i ==> tmp[j] == next[j]
        invariant forall j :: i <= j < SCREEN_SIZE ==> tmp[j] == 0
        invariant total == p0 + LiveBefore(next, i) - LiveBefore(s0, i)
        invariant population == Wrap(total)
      {
        ghost var before := total;
        total := ApplyRule(tmp, i, total);
        assert tmp[i] == next[i];
        assert total == before + (Live(next[i]) - Live(s0[i]));
        assert LiveBefore(next, i + 1) == LiveBefore(next, i) + Live(next[i]);
        assert LiveBefore(s0, i + 1) == LiveBefore(s0, i) + Live(s0[i]);
      }
      assert tmp[..] == next;
      assert total == p0 + AliveCount(tmp[..]) - AliveCount(screen[..]);
    }

    /**
     * The body of the step loop for cell `i`: read the cell and its count,
     * then the `switch` writes the next state into `tmp[i]` and moves
     * `population` by one on a death or a birth. A byte that is neither live
     * nor dead matches no case, leaving `tmp[i]` at its initial 0.
     */
    method ApplyRule(tmp: array<byte>, i: nat, ghost total: int) returns (ghost total': int)
      requires Valid() && tmp.Length == SCREEN_SIZE && tmp != screen
      requires i < SCREEN_SIZE && tmp[i] == 0
      requires population == Wrap(total)
      modifies tmp, this`population
      ensures Valid()
      ensures tmp[i] == NextScreen(old(screen[..]))[i]
      ensures forall j :: 0 <= j < SCREEN_SIZE && j != i ==> tmp[j] == old(tmp[j])
      ensures total' == total + (Live(tmp[i]) - Live(screen[i])) && population == Wrap(total')
    {
      ghost var before := population;
      var cell := screen[i];
      var count := NeighboursCount(i);
      total' := total;
      if cell == ALIVE_CELL {
        if count < 2 || count > 3 {
          tmp[i] := DEAD_CELL;
          population := Wrap(population - 1);
          WrapDecrement(before, total);
          total' := total - 1;
        } else {
          tmp[i] := ALIVE_CELL;
        }
      } else if cell == DEAD_CELL {
        if count == 3 {
          tmp[i] := ALIVE_CELL;
          population := Wrap(population + 1);
          WrapIncrement(before, total);
          total' := total + 1;
        } else {
          tmp[i] := DEAD_CELL;
        }
      }
    }

    /**
     * The glyph loop of `load_first_generation_from_file` over the read
     * buffer `tmp`: '.' writes a dead cell and '#' a live one at the cursor,
     * which then advances; '#' also increments `population`. The cursor is
     * unchecked in main.c, so the input must not hold more glyphs than cells.
     */
    method LoadFirstGeneration(tmp: seq<byte>)
      requires Valid()
      requires |tmp| == TMP_SIZE
      requires |GlyphCells(tmp)| <= SCREEN_SIZE
      modifies this`population, screen
      ensures Valid()
      ensures screen[..] == GlyphCells(tmp) + old(screen[..])[|GlyphCells(tmp)|..]
      ensures population == Wrap(old(population) + HashCount(tmp))
      ensures old(population) == 0 && old(AliveCount(screen[..])) == 0 ==> Consistent()
    {
      ghost var s0 := screen[..];
      ghost var p0 := population;
      ghost var total: int := p0;
      ghost var cells: seq<byte> := [];
      var cur := 0;
      for i := 0 to TMP_SIZE
        invariant Valid()
        invariant cells == GlyphCells(tmp[..i]) && cur == |cells| <= SCREEN_SIZE
        invariant forall j :: 0 <= j < cur ==> screen[j] == cells[j]
        invariant forall j :: cur <= j < SCREEN_SIZE ==> screen[j] == s0[j]
        invariant total == p0 + AliveCount(cells)
        invariant population == Wrap(total)
      {
        GlyphCellsStep(tmp, i);
        GlyphCellsPrefix(tmp, i + 1);
        cur, total := WriteGlyph(tmp[i], cur, cells, total);
        cells := cells + GlyphCells([tmp[i]]);
      }
      assert tmp[..TMP_SIZE] == tmp;
      assert screen[..] == cells + s0[|cells|..];
      assert AliveCount(cells) == HashCount(tmp) by {
        GlyphCellsAlive(tmp);
      }
      assert Wrap(total) == Wrap(p0 + HashCount(tmp));
      assert p0 == 0 && AliveCount(s0) == 0 ==> AliveCount(screen[..]) == AliveCount(cells) by {
        if p0 == 0 && AliveCount(s0) == 0 {
          AliveCountZero(s0);
          OverwriteAliveCount(s0, cells);
        }
      }
    }

    /**
     * The `switch` of the glyph loop for byte `b` with the cursor at `cur`,
     * just past the cells written so far: '.' and '#' write their cell and
     * advance the cursor, '#' also counts a live cell, any other byte does
     * nothing. There is no bounds check, so the cell must fit.
     */
    method WriteGlyph(b: byte, cur: nat, ghost cells: seq<byte>, ghost total: int)
      returns (next: nat, ghost total': int)
      requires Valid() && cur == |cells| && |cells + GlyphCells([b])| <= SCREEN_SIZE
      requires population == Wrap(total)
      modifies screen, this`population
      ensures Valid()
      ensures next == |cells + GlyphCells([b])|
      ensures next == cur || screen[cur] == (cells + GlyphCells([b]))[cur]
      ensures forall j :: 0 <= j < SCREEN_SIZE && !(j == cur < next) ==> screen[j] == old(screen[j])
      ensures total' == total + (AliveCount(cells + GlyphCells([b])) - AliveCount(cells))
      ensures population == Wrap(total')
    {
      GlyphCellsSingle(b);
      ghost var before := population;
      next := cur;
      if b == DOT {
        screen[cur] := DEAD_CELL;
        next := cur + 1;
        AliveCountAppend(cells, [DEAD_CELL]);
        assert Wrap(total) == Wrap(total + (AliveCount(cells + GlyphCells([b])) - AliveCount(cells)));
      } else if b == HASH {
        screen[cur] := ALIVE_CELL;
        next := cur + 1;
        population := Wrap(population + 1);
        AliveCountAppend(cells, [ALIVE_CELL]);
        WrapIncrement(before, total);
        assert Wrap(total + 1) == Wrap(total + (AliveCount(cells + GlyphCells([b])) - AliveCount(cells)));
      } else {
        assert cells + GlyphCells([b]) == cells;
        assert Wrap(total) == Wrap(total + (AliveCount(cells + GlyphCells([b])) - AliveCount(cells)));
      }
      total' := total + (AliveCount(cells + GlyphCells([b])) - AliveCount(cells));
    }

    /**
     * The glyph loop with the cursor kept on the grid: a glyph that finds the
     * screen full is skipped and not counted. It accepts every read buffer,
     * and on one whose glyphs fit it does what `LoadFirstGeneration` does
     * (`Loader.PlacedFits`).
     */
    method LoadFirstGenerationBounded(tmp: seq<byte>)
      requires Valid()
      requires |tmp| == TMP_SIZE
      modifies this`population, screen
      ensures Valid()
      ensures screen[..] == Placed(tmp) + old(screen[..])[|Placed(tmp)|..]
      ensures population == Wrap(old(population) + AliveCount(Placed(tmp)))
      ensures old(population) == 0 && old(AliveCount(screen[..])) == 0 ==> Consistent()
    {
      ghost var s0 := screen[..];
      ghost var p0 := population;
      ghost var total: int := p0;
      ghost var placed: seq<byte> := [];
      var cur := 0;
      for i := 0 to TMP_SIZE
        invariant Valid()
        invariant placed == Placed(tmp[..i]) && cur == |placed|
        invariant forall j :: 0 <= j < cur ==> screen[j] == placed[j]
        invariant forall j :: cur <= j < SCREEN_SIZE ==> screen[j] == s0[j]
        invariant total == p0 + AliveCount(placed)
        invariant population == Wrap(total)
      {
        PlacedStep(tmp, i);
        cur, total := PlaceGlyph(tmp[i], cur, placed, total);
        placed := PlaceStep(placed, tmp[i]);
      }
      assert tmp[..TMP_SIZE] == tmp;
      assert screen[..] == placed + s0[|placed|..];
      assert Wrap(total) == Wrap(p0 + AliveCount(Placed(tmp)));
      assert p0 == 0 && AliveCount(s0) == 0 ==> AliveCount(screen[..]) == AliveCount(placed) by {
        if p0 == 0 && AliveCount(s0) == 0 {
          AliveCountZero(s0);
          OverwriteAliveCount(s0, placed);
        }
      }
    }

    /**
     * One turn of the bounded glyph loop: the `switch` of `WriteGlyph`, taken
     * only while the cursor is on the grid.
     */
    method PlaceGlyph(b: byte, cur: nat, ghost placed: seq<byte>, ghost total: int)
      returns (next: nat, ghost total': int)
      requires Valid() && cur == |placed| <= SCREEN_SIZE
      requires population == Wrap(total)
      modifies screen, this`population
      ensures Valid()
      ensures next == |PlaceStep(placed, b)|
      ensures next == cur || screen[cur] == PlaceStep(placed, b)[cur]
      ensures forall j :: 0 <= j < SCREEN_SIZE && !(j == cur < next) ==> screen[j] == old(screen[j])
      ensures total' == total + (AliveCount(PlaceStep(placed, b)) - AliveCount(placed))
      ensures population == Wrap(total')
    {
      GlyphCellsSingle(b);
      if cur < SCREEN_SIZE {
        next, total' := WriteGlyph(b, cur, placed, total);
      } else {
        next := cur;
        assert Wrap(total) == Wrap(total + (AliveCount(PlaceStep(placed, b)) - AliveCount(placed)));
        total' := total + (AliveCount(PlaceStep(placed, b)) - AliveCount(placed));
      }
    }
  }
}
