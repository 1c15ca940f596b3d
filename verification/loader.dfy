/**
 * The glyph classification of `load_first_generation_from_file`, on values:
 * which cell bytes a buffer of file bytes produces, in order.
 */
module Loader {
  import opened Grid

  /** Size of the loader's read buffer: the grid plus 32 bytes for newlines. */
  const TMP_SIZE: nat := SCREEN_SIZE + 32

  /** The file glyph of a dead cell, '.'. */
  const DOT: byte := 46
  /** The file glyph of a live cell, '#'. */
  const HASH: byte := 35

  /** The cell bytes written for the file bytes `t`, one per '.' or '#', in order; all else is skipped. */
  function GlyphCells(t: seq<byte>): (r: seq<byte>)
    ensures |r| <= |t|
    ensures forall j :: 0 <= j < |r| ==> r[j] == DEAD_CELL || r[j] == ALIVE_CELL
  {
    if |t| == 0 then []
    else
      var prev := GlyphCells(t[..|t| - 1]);
      var b := t[|t| - 1];
      if b == DOT then prev + [DEAD_CELL]
      else if b == HASH then prev + [ALIVE_CELL]
      else prev
  }

  /** Number of '#' bytes. */
  function HashCount(t: seq<byte>): (r: nat)
    ensures r <= |t|
  {
    if |t| == 0 then 0
    else HashCount(t[..|t| - 1]) + (if t[|t| - 1] == HASH then 1 else 0)
  }

  /** Classification distributes over concatenation: the bytes are handled one at a time, in order. */
  lemma {:induction false} GlyphCellsAppend(a: seq<byte>, b: seq<byte>)
    ensures GlyphCells(a + b) == GlyphCells(a) + GlyphCells(b)
    decreases |b|
  {
    if |b| == 0 {
      assert a + b == a;
    } else {
      assert (a + b)[..|a + b| - 1] == a + b[..|b| - 1];
      GlyphCellsAppend(a, b[..|b| - 1]);
    }
  }

  /** One byte on its own: '.' gives a dead cell, '#' a live one, any other byte (a newline, say) nothing. */
  lemma GlyphCellsSingle(b: byte)
    ensures b == DOT ==> GlyphCells([b]) == [DEAD_CELL]
    ensures b == HASH ==> GlyphCells([b]) == [ALIVE_CELL]
    ensures b != DOT && b != HASH ==> GlyphCells([b]) == []
  {
    assert [b][..0] == [];
  }

  /** The live cells written are exactly the '#' bytes read. */
  lemma {:induction false} GlyphCellsAlive(t: seq<byte>)
    ensures AliveCount(GlyphCells(t)) == HashCount(t)
  {
    if |t| > 0 {
      var prev := GlyphCells(t[..|t| - 1]);
      GlyphCellsAlive(t[..|t| - 1]);
      var b := t[|t| - 1];
      if b == DOT {
        AliveCountAppend(prev, [DEAD_CELL]);
      } else if b == HASH {
        AliveCountAppend(prev, [ALIVE_CELL]);
      }
    }
  }

  /** Reading one more byte appends that byte's cells. */
  lemma GlyphCellsStep(t: seq<byte>, i: nat)
    requires i < |t|
    ensures GlyphCells(t[..i + 1]) == GlyphCells(t[..i]) + GlyphCells([t[i]])
  {
    assert t[..i + 1] == t[..i] + [t[i]];
    GlyphCellsAppend(t[..i], [t[i]]);
  }

  /** A prefix of the input never yields more cells than the whole input. */
  lemma {:induction false} GlyphCellsPrefix(t: seq<byte>, i: nat)
    requires i <= |t|
    ensures |GlyphCells(t[..i])| <= |GlyphCells(t)|
    decreases |t| - i
  {
    if i < |t| {
      GlyphCellsPrefix(t, i + 1);
      assert t[..i + 1][..i] == t[..i];
    } else {
      assert t[..i] == t;
    }
  }

  /** A buffer made only of '.' bytes yields one dead cell per byte. */
  lemma {:induction false} AllDotsCells(n: nat)
    ensures GlyphCells(seq(n, _ => DOT)) == seq(n, _ => DEAD_CELL)
  {
    if n > 0 {
      AllDotsCells(n - 1);
      assert seq(n, _ => DOT)[..n - 1] == seq(n - 1, _ => DOT);
      assert seq(n - 1, _ => DEAD_CELL) + [DEAD_CELL] == seq(n, _ => DEAD_CELL);
    }
  }

  /**
   * The loader's cursor is not bounded by the grid: a read buffer of TMP_SIZE
   * '.' bytes yields TMP_SIZE cells, 32 more than `screen` holds, so the
   * loop in main.c writes past the end of `screen`.
   */
  lemma LoaderOverflowWitness()
    ensures |seq(TMP_SIZE, _ => DOT)| == TMP_SIZE
    ensures |GlyphCells(seq(TMP_SIZE, _ => DOT))| == SCREEN_SIZE + 32
  {
    AllDotsCells(TMP_SIZE);
  }

  /** The cells the bounded loader places: the classified cells cut off at the grid size. */
  function Placed(t: seq<byte>): (r: seq<byte>)
    ensures |r| <= SCREEN_SIZE && |r| <= |GlyphCells(t)|
    ensures r == GlyphCells(t)[..|r|]
    ensures |GlyphCells(t)| <= SCREEN_SIZE ==> r == GlyphCells(t)
    ensures |GlyphCells(t)| > SCREEN_SIZE ==> |r| == SCREEN_SIZE
  {
    var g := GlyphCells(t);
    if |g| <= SCREEN_SIZE then g else g[..SCREEN_SIZE]
  }

  /**
   * When the glyphs fit on the grid the bounded loader places exactly what
   * the unbounded one writes, with one live cell per '#'.
   */
  lemma PlacedFits(t: seq<byte>)
    requires |GlyphCells(t)| <= SCREEN_SIZE
    ensures Placed(t) == GlyphCells(t)
    ensures AliveCount(Placed(t)) == HashCount(t)
  {
    GlyphCellsAlive(t);
  }

  /**
   * The cells placed once byte `b` has been read, given the cells `placed`
   * before it: the cell of a glyph is appended while the grid has room.
   */
  function PlaceStep(placed: seq<byte>, b: byte): (r: seq<byte>)
    ensures |placed| < SCREEN_SIZE && b == DOT ==> r == placed + [DEAD_CELL]
    ensures |placed| < SCREEN_SIZE && b == HASH ==> r == placed + [ALIVE_CELL]
    ensures |placed| >= SCREEN_SIZE || (b != DOT && b != HASH) ==> r == placed
  {
    GlyphCellsSingle(b);
    if |placed| < SCREEN_SIZE then placed + GlyphCells([b]) else placed
  }

  /** Reading one more byte takes one `PlaceStep`. */
  lemma PlacedStep(t: seq<byte>, i: nat)
    requires i < |t|
    ensures Placed(t[..i + 1]) == PlaceStep(Placed(t[..i]), t[i])
  {
    GlyphCellsStep(t, i);
    GlyphCellsSingle(t[i]);
  }

  /**
   * Writing `cells` over the front of a buffer that holds no live byte gives
   * a buffer whose live bytes are exactly those of `cells`.
   */
  lemma OverwriteAliveCount(s: seq<byte>, cells: seq<byte>)
    requires |cells| <= |s|
    requires forall j :: 0 <= j < |s| ==> s[j] != ALIVE_CELL
    ensures AliveCount(cells + s[|cells|..]) == AliveCount(cells)
  {
    AliveCountAppend(cells, s[|cells|..]);
    AliveCountZero(s[|cells|..]);
  }
}
