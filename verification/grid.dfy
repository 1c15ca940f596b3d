/**
 * The grid of the simulation: its dimensions, the bytes a cell can hold,
 * the two addressing schemes (flat index and (x, y) coordinate) and the
 * unsigned 64-bit arithmetic of the `size_t` counters.
 */
module Grid {

  /** An unsigned 8-bit value, the type of every cell of `screen`. */
  newtype byte = b: int | 0 <= b < 256

  const SCREEN_WIDTH: nat := 64
  const SCREEN_HEIGHT: nat := 32
  const SCREEN_SIZE: nat := SCREEN_WIDTH * SCREEN_HEIGHT

  /** The byte of a live cell, the character '0'. */
  const ALIVE_CELL: byte := 48
  /** The byte of a dead cell, the character ' '. */
  const DEAD_CELL: byte := 32

  /** 2^64: `size_t` arithmetic is taken modulo this. */
  const WORD: nat := 0x1_0000_0000_0000_0000

  /**
   * The value a `size_t` holds after being assigned the mathematical value
   * `x`: `x` brought into [0, 2^64) by adding or removing whole multiples of 2^64.
   */
  function Wrap(x: int): (r: nat)
    ensures r < WORD
    ensures 0 <= x < WORD ==> r == x
    decreases if x < 0 then WORD - x else x
  {
    if x < 0 then Wrap(x + WORD)
    else if x < WORD then x
    else Wrap(x - WORD)
  }

  /** Wrapping is reduction modulo 2^64. */
  lemma {:induction false} WrapMod(x: int)
    ensures Wrap(x) == x % WORD
    decreases if x < 0 then WORD - x else x
  {
    if x < 0 {
      WrapMod(x + WORD);
    } else if x >= WORD {
      WrapMod(x - WORD);
    }
  }

  /** Adding 2^64 does not change the wrapped value. */
  lemma WrapPeriodic(x: int)
    ensures Wrap(x + WORD) == Wrap(x)
  {
  }

  /** Wrapping commutes with adding a further amount. */
  lemma {:induction false} WrapAdd(x: int, d: int)
    ensures Wrap(Wrap(x) + d) == Wrap(x + d)
    decreases if x < 0 then WORD - x else x
  {
    if x < 0 {
      WrapAdd(x + WORD, d);
      WrapPeriodic(x + d);
    } else if x >= WORD {
      WrapAdd(x - WORD, d);
      WrapPeriodic(x - WORD + d);
    }
  }

  /** A counter holding the wrapped `total` holds the wrapped `total + 1` after `+= 1`. */
  lemma WrapIncrement(counter: int, total: int)
    requires counter == Wrap(total)
    ensures Wrap(counter + 1) == Wrap(total + 1)
  {
    WrapAdd(total, 1);
  }

  /** A counter holding the wrapped `total` holds the wrapped `total - 1` after `-= 1`. */
  lemma WrapDecrement(counter: int, total: int)
    requires counter == Wrap(total)
    ensures Wrap(counter - 1) == Wrap(total - 1)
  {
    WrapAdd(total, -1);
  }

  /** A coordinate; `Vec2i` of the header smath.h, whose fields are `int`. */
  datatype Vec2i = Vec2i(x: int, y: int)

  /** `vec2i_add`: componentwise addition. */
  function Add(a: Vec2i, b: Vec2i): Vec2i
  {
    Vec2i(a.x + b.x, a.y + b.y)
  }

  /**
   * `is_valid`: the coordinate lies on the grid, that is, its column is in
   * range and its row-major offset falls inside the buffer.
   */
  predicate IsValid(cell: Vec2i)
    ensures IsValid(cell) <==>
      0 <= cell.x < SCREEN_WIDTH && 0 <= cell.y * SCREEN_WIDTH + cell.x < SCREEN_SIZE
  {
    (0 <= cell.x && cell.x < SCREEN_WIDTH) && (0 <= cell.y && cell.y < SCREEN_HEIGHT)
  }

  /** `index2vec`: column is the remainder, row the quotient by the width. */
  function Index2Vec(index: nat): (r: Vec2i)
    ensures 0 <= r.x < SCREEN_WIDTH && 0 <= r.y
    ensures r.y * SCREEN_WIDTH + r.x == index
    ensures IsValid(r) <==> index < SCREEN_SIZE
  {
    Vec2i(index % SCREEN_WIDTH, index / SCREEN_WIDTH)
  }

  /**
   * `vec2index`: `y * width + x`, converted to `size_t` (so a negative value
   * wraps around to a huge index; only valid cells are ever converted).
   */
  function Vec2Index(cell: Vec2i): (r: nat)
    ensures IsValid(cell) ==> r < SCREEN_SIZE && Index2Vec(r) == cell
  {
    Wrap(cell.y * SCREEN_WIDTH + cell.x)
  }

  /** Round trip from a flat index on the grid. */
  lemma IndexRoundTrip(index: nat)
    requires index < SCREEN_SIZE
    ensures IsValid(Index2Vec(index))
    ensures Vec2Index(Index2Vec(index)) == index
  {
  }

  /** Round trip from a coordinate on the grid; the two schemes agree. */
  lemma CoordinateRoundTrip(cell: Vec2i)
    requires IsValid(cell)
    ensures Vec2Index(cell) < SCREEN_SIZE
    ensures Index2Vec(Vec2Index(cell)) == cell
  {
  }

  /**
   * The on-grid coordinates are exactly those the two conversions carry
   * there and back unchanged; off the grid, `vec2index` lands on some other
   * cell's index or off the buffer.
   */
  lemma ValidIffRoundTrip(cell: Vec2i)
    ensures IsValid(cell) <==> Vec2Index(cell) < SCREEN_SIZE && Index2Vec(Vec2Index(cell)) == cell
  {
  }

  /**
   * `is_alive`: the cell holds exactly the live byte; any other byte reads as
   * dead. A cell is alive exactly when it adds one to the running count.
   */
  predicate IsAlive(s: seq<byte>, index: nat)
    requires index < |s|
    ensures IsAlive(s, index) <==> LiveBefore(s, index + 1) == LiveBefore(s, index) + 1
  {
    s[index] == ALIVE_CELL
  }

  /** 1 for a live byte, 0 for any other. */
  function Live(b: byte): nat
  {
    if b == ALIVE_CELL then 1 else 0
  }

  /** Number of live bytes among the first `n` of `s`. */
  function LiveBefore(s: seq<byte>, n: nat): (r: nat)
    requires n <= |s|
    ensures r <= n
  {
    if n == 0 then 0 else LiveBefore(s, n - 1) + Live(s[n - 1])
  }

  /** Number of live bytes in a buffer. */
  function AliveCount(s: seq<byte>): (r: nat)
    ensures r <= |s|
  {
    LiveBefore(s, |s|)
  }

  /** The count of a prefix depends on that prefix only. */
  lemma {:induction false} LiveBeforeAgree(s: seq<byte>, t: seq<byte>, n: nat)
    requires n <= |s| && n <= |t|
    requires forall j :: 0 <= j < n ==> s[j] == t[j]
    ensures LiveBefore(s, n) == LiveBefore(t, n)
  {
    if n > 0 {
      LiveBeforeAgree(s, t, n - 1);
    }
  }

  /** The live bytes of a concatenation, counted up to a point inside its second part. */
  lemma {:induction false} LiveBeforeAppend(a: seq<byte>, b: seq<byte>, k: nat)
    requires k <= |b|
    ensures LiveBefore(a + b, |a| + k) == AliveCount(a) + LiveBefore(b, k)
  {
    if k == 0 {
      LiveBeforeAgree(a + b, a, |a|);
    } else {
      LiveBeforeAppend(a, b, k - 1);
    }
  }

  /** Counting live bytes distributes over concatenation. */
  lemma AliveCountAppend(a: seq<byte>, b: seq<byte>)
    ensures AliveCount(a + b) == AliveCount(a) + AliveCount(b)
  {
    LiveBeforeAppend(a, b, |b|);
  }

  /** A longer prefix holds at least as many live bytes. */
  lemma {:induction false} LiveBeforeMonotone(s: seq<byte>, m: nat, n: nat)
    requires m <= n <= |s|
    ensures LiveBefore(s, m) <= LiveBefore(s, n)
    decreases n - m
  {
    if m < n {
      LiveBeforeMonotone(s, m, n - 1);
    }
  }

  /** A prefix holds no live byte exactly when its count is zero. */
  lemma {:induction false} LiveBeforeZero(s: seq<byte>, n: nat)
    requires n <= |s|
    ensures LiveBefore(s, n) == 0 <==> forall i :: 0 <= i < n ==> s[i] != ALIVE_CELL
  {
    if n > 0 {
      LiveBeforeZero(s, n - 1);
    }
  }

  /** A buffer holds no live byte exactly when its count is zero. */
  lemma AliveCountZero(s: seq<byte>)
    ensures AliveCount(s) == 0 <==> forall i :: 0 <= i < |s| ==> s[i] != ALIVE_CELL
  {
    LiveBeforeZero(s, |s|);
  }
}
