/**
 * The mip pyramid `PageTable` (Runtime/PageTable.cs): one grid per mip
 * level, level i being (pageCountY >> i) rows of (pageCountX >> i) cells,
 * each cell a tile index or InvalidTileIndex.
 *
 * The source allocates each level as an array of separately allocated rows;
 * here each level is one two-dimensional array indexed [y, x], and the
 * levels are distinct arrays fixed at construction.
 */
module Pages {
  import opened Mathf

  /** The "unmapped" value of a cell. It is also a legal tile index. */
  const InvalidTileIndex: int := 0

  /**
   * Every level up to log2(min(pageCountX, pageCountY)) has at least one row
   * and one column; the level sides divide the level-0 sides exactly; on the
   * top level the smaller side is a single cell.
   */
  lemma LevelSize(pageCountX: int, pageCountY: int, i: int)
    requires IsPowerOfTwo(pageCountX) && IsPowerOfTwo(pageCountY)
    requires pageCountX <= MaxInt32 && pageCountY <= MaxInt32
    requires 0 <= i <= Log2(Min(pageCountX, pageCountY))
    ensures ShiftRight(pageCountX, i) >= 1 && Pow2(i) * ShiftRight(pageCountX, i) == pageCountX
    ensures ShiftRight(pageCountY, i) >= 1 && Pow2(i) * ShiftRight(pageCountY, i) == pageCountY
    ensures i == Log2(Min(pageCountX, pageCountY)) ==>
      Min(ShiftRight(pageCountX, i), ShiftRight(pageCountY, i)) == 1
  {
    var m := Min(pageCountX, pageCountY);
    Log2Monotone(m, pageCountX);
    Log2Monotone(m, pageCountY);
    ShiftRightPowerOfTwo(pageCountX, i);
    ShiftRightPowerOfTwo(pageCountY, i);
    ShiftRightPowerOfTwo(m, i);
  }

  class PageTable {
    const pageCountX: int
    const pageCountY: int
    const mipmapCount: int
    /** `tables[mip][y][x]`, one array per level. */
    const tables: seq<array2<int>>
    ghost const Repr: set<array2<int>>

    /** The shape the constructor gives the table; nothing changes it later. */
    ghost predicate Valid()
    {
      IsPowerOfTwo(pageCountX) && IsPowerOfTwo(pageCountY) &&
      pageCountX <= MaxInt32 && pageCountY <= MaxInt32 &&
      mipmapCount == Log2(Min(pageCountX, pageCountY)) + 1 &&
      |tables| == mipmapCount &&
      (forall i :: 0 <= i < |tables| ==>
        tables[i].Length0 == ShiftRight(pageCountY, i) &&
        tables[i].Length1 == ShiftRight(pageCountX, i)) &&
      (forall i, j :: 0 <= i < j < |tables| ==> tables[i] != tables[j]) &&
      (forall i :: 0 <= i < |tables| ==> tables[i] in Repr)
    }

    /**
     * `tables[mip][y][x]` exists, i.e. 0 <= mip < mipmapCount,
     * 0 <= y < pageCountY >> mip and 0 <= x < pageCountX >> mip (see Valid).
     * The source indexes without checking, so out of range it throws.
     */
    predicate InRange(x: int, y: int, mip: int)
    {
      0 <= mip < |tables| &&
      0 <= y < tables[mip].Length0 &&
      0 <= x < tables[mip].Length1
    }

    constructor (pageCountX: int, pageCountY: int)
      requires IsPowerOfTwo(pageCountX) && IsPowerOfTwo(pageCountY)
      requires pageCountX <= MaxInt32 && pageCountY <= MaxInt32
      ensures Valid() && fresh(Repr)
      ensures this.pageCountX == pageCountX && this.pageCountY == pageCountY
      ensures Pow2(mipmapCount - 1) == Min(pageCountX, pageCountY)
      ensures forall m, y, x :: InRange(x, y, m) ==> Get(x, y, m) == InvalidTileIndex
    {
      PowerOfTwoLog2(Min(pageCountX, pageCountY));
      var count := Log2(Min(pageCountX, pageCountY)) + 1;
      var levels: seq<array2<int>> := [];
      var i := 0;
      while i < count
        invariant 0 <= i <= count && |levels| == i
        invariant forall k :: 0 <= k < i ==> fresh(levels[k])
        invariant forall k :: 0 <= k < i ==>
          levels[k].Length0 == ShiftRight(pageCountY, k) &&
          levels[k].Length1 == ShiftRight(pageCountX, k)
        invariant forall k, l :: 0 <= k < l < i ==> levels[k] != levels[l]
        invariant forall k, r, c :: 0 <= k < i && 0 <= r < levels[k].Length0 && 0 <= c < levels[k].Length1 ==>
          levels[k][r, c] == InvalidTileIndex
      {
        LevelSize(pageCountX, pageCountY, i);
        var level := new int[ShiftRight(pageCountY, i), ShiftRight(pageCountX, i)]((_, _) => InvalidTileIndex);
        levels := levels + [level];
        i := i + 1;
      }
      this.pageCountX := pageCountX;
      this.pageCountY := pageCountY;
      mipmapCount := count;
      tables := levels;
      Repr := set k | 0 <= k < |levels| :: levels[k];
    }

    function Get(x: int, y: int, mip: int): int
      requires Valid() && InRange(x, y, mip)
      reads Repr
    {
      tables[mip][y, x]
    }

    /** Write a tile index into one cell; every other cell keeps its value. */
    method Active(x: int, y: int, mip: int, tileIndex: int)
      requires Valid() && InRange(x, y, mip)
      modifies Repr
      ensures Get(x, y, mip) == tileIndex
      ensures forall m, j, i :: InRange(i, j, m) && (i, j, m) != (x, y, mip) ==>
        Get(i, j, m) == old(Get(i, j, m))
    {
      tables[mip][y, x] := tileIndex;
    }

    /** Reset one cell to InvalidTileIndex; every other cell keeps its value. */
    method Deactive(x: int, y: int, mip: int)
      requires Valid() && InRange(x, y, mip)
      modifies Repr
      ensures Get(x, y, mip) == InvalidTileIndex
      ensures forall m, j, i :: InRange(i, j, m) && (i, j, m) != (x, y, mip) ==>
        Get(i, j, m) == old(Get(i, j, m))
    {
      tables[mip][y, x] := InvalidTileIndex;
    }
  }
}
