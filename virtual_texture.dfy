/**
 * The paging part of `VirtualTexture` (Runtime/VirtualTexture.cs): the mip
 * clamp of the constructor, the per-level page counts, and the activation
 * protocol that ties the page table, the record of active tiles and the
 * recency cache together.
 *
 * `LRUCache.Require()` and `LRUCache.Reset()`, which the protocol calls, are
 * not defined by the cache. The index `Require()` hands out is therefore a
 * parameter of `Active`, and the effect of both calls on the recency order
 * is left open: the methods that make them may change the cache and say
 * nothing about how.
 */
module Paging {
  import opened Mathf
  import opened Lru
  import opened Pages

  /** The coordinate a tile index backs, together with that index. */
  datatype ActiveTileInfo = ActiveTileInfo(x: int, y: int, mip: int, tileIndex: int)

  lemma NonEmptyHasElement(s: set<int>)
    requires s != {}
    ensures exists u :: u in s
  {
    assert (forall u :: u !in s) ==> s == {};
  }

  /** Some element of a nonempty set: dictionary iteration order is unspecified. */
  method AnyOf(s: set<int>) returns (t: int)
    requires s != {}
    ensures t in s
  {
    NonEmptyHasElement(s);
    t :| t in s;
  }

  /** The record of active tiles says that tile index t backs cell (x, y) of level mip. */
  ghost predicate Backs(tiles: map<int, ActiveTileInfo>, t: int, x: int, y: int, mip: int)
  {
    t in tiles && tiles[t].x == x && tiles[t].y == y && tiles[t].mip == mip
  }

  class VirtualTexture {
    const pageCountX: int
    const pageCountY: int
    const tileCapacity: int
    const mipmapCount: int
    const useMipMap: bool
    const pageTable: PageTable
    const lruCache: LRUCache
    /** `_activeTiles`: for each tile index in use, the coordinate it backs. */
    var activeTiles: map<int, ActiveTileInfo>

    /** What the constructor establishes about the fixed configuration. */
    ghost predicate Config()
    {
      IsPowerOfTwo(pageCountX) && IsPowerOfTwo(pageCountY) &&
      pageCountX <= MaxInt32 && pageCountY <= MaxInt32 &&
      1 <= mipmapCount <= Log2(Min(pageCountX, pageCountY)) + 1 &&
      useMipMap == (mipmapCount > 1)
    }

    /** Every record is keyed by its own tile index and names a cell of the table. */
    ghost predicate RecordsInRange()
      reads this
    {
      forall t :: t in activeTiles ==>
        activeTiles[t].tileIndex == t &&
        pageTable.InRange(activeTiles[t].x, activeTiles[t].y, activeTiles[t].mip)
    }

    /**
     * No double mapping: every cell holding a tile index other than
     * InvalidTileIndex is the cell recorded for that index, so no two cells
     * share such an index.
     */
    ghost predicate NoDoubleMapping()
      requires pageTable.Valid()
      reads this, pageTable.Repr
    {
      forall m, y, x :: pageTable.InRange(x, y, m) && pageTable.Get(x, y, m) != InvalidTileIndex ==>
        pageTable.Get(x, y, m) in activeTiles &&
        activeTiles[pageTable.Get(x, y, m)] == ActiveTileInfo(x, y, m, pageTable.Get(x, y, m))
    }

    /**
     * The converse: every record of an index other than InvalidTileIndex names
     * a cell that still holds that index. `Active` keeps this only while the
     * index it binds is not InvalidTileIndex (slot 0 aliases the sentinel).
     */
    ghost predicate RecordsMapped()
      requires pageTable.Valid() && RecordsInRange()
      reads this, pageTable.Repr
    {
      forall t :: t in activeTiles && t != InvalidTileIndex ==>
        pageTable.Get(activeTiles[t].x, activeTiles[t].y, activeTiles[t].mip) == t
    }

    ghost predicate Valid()
      reads this, lruCache, pageTable.Repr
    {
      Config() && pageTable.Valid() && lruCache.Valid() &&
      pageTable.pageCountX == pageCountX && pageTable.pageCountY == pageCountY &&
      lruCache.capacity == tileCapacity &&
      RecordsInRange() && NoDoubleMapping()
    }

    /**
     * The paging part of the constructor. The platform limit on texture array
     * slices is a parameter; a negative capacity makes the dictionary
     * constructor throw.
     */
    constructor (pageCountX: int, pageCountY: int, tileCapacity: int, mipCount: int, maxTextureArraySlices: int)
      requires IsPowerOfTwo(pageCountX) && IsPowerOfTwo(pageCountY)
      requires pageCountX <= MaxInt32 && pageCountY <= MaxInt32
      requires 0 <= tileCapacity < maxTextureArraySlices
      ensures Valid() && fresh(pageTable) && fresh(pageTable.Repr) && fresh(lruCache)
      ensures this.pageCountX == pageCountX && this.pageCountY == pageCountY
      ensures this.tileCapacity == tileCapacity
      ensures mipmapCount == Clamp(mipCount, 1, Log2(Min(pageCountX, pageCountY)) + 1)
      ensures useMipMap <==> mipmapCount > 1
      ensures activeTiles == map[] && lruCache.list == []
      ensures forall m, y, x :: pageTable.InRange(x, y, m) ==> pageTable.Get(x, y, m) == InvalidTileIndex
    {
      this.pageCountX := pageCountX;
      this.pageCountY := pageCountY;
      this.tileCapacity := tileCapacity;
      var count := Clamp(mipCount, 1, Log2(Min(pageCountX, pageCountY)) + 1);
      mipmapCount := count;
      useMipMap := count > 1;
      activeTiles := map[];
      lruCache := new LRUCache(tileCapacity);
      pageTable := new PageTable(pageCountX, pageCountY);
    }

    /** Page count along x at a mip level; 1 beyond the last level. */
    function GetPageCountX(mipLevel: int): (r: int)
      requires Config()
      ensures mipLevel >= mipmapCount ==> r == 1
      ensures 0 <= mipLevel < mipmapCount ==> r >= 1 && Pow2(mipLevel) * r == pageCountX
      ensures mipLevel < 0 ==> 0 <= r <= pageCountX
    {
      if mipLevel >= mipmapCount then 1
      else if mipLevel >= 0 then
        LevelSize(pageCountX, pageCountY, mipLevel);
        ShiftRight(pageCountX, mipLevel)
      else
        HalveBounds(pageCountX, mipLevel % 32);
        ShiftRight(pageCountX, mipLevel)
    }

    /** Page count along y at a mip level; 1 beyond the last level. */
    function GetPageCountY(mipLevel: int): (r: int)
      requires Config()
      ensures mipLevel >= mipmapCount ==> r == 1
      ensures 0 <= mipLevel < mipmapCount ==> r >= 1 && Pow2(mipLevel) * r == pageCountY
      ensures mipLevel < 0 ==> 0 <= r <= pageCountY
    {
      if mipLevel >= mipmapCount then 1
      else if mipLevel >= 0 then
        LevelSize(pageCountX, pageCountY, mipLevel);
        ShiftRight(pageCountY, mipLevel)
      else
        HalveBounds(pageCountY, mipLevel % 32);
        ShiftRight(pageCountY, mipLevel)
    }

    /**
     * Make cell (x, y) of level mip resident. An unmapped cell is bound to the
     * index `required` (what `Require()` returns), after the cell that index
     * was recorded for, if any, is unmapped; a mapped cell only has its index
     * touched in the cache. Coordinates are per level and unchecked.
     */
    method Active(x: int, y: int, mip: int, required: int)
      requires Valid() && pageTable.InRange(x, y, mip)
      modifies this, lruCache, pageTable.Repr
      ensures Valid()
      ensures old(pageTable.Get(x, y, mip)) != InvalidTileIndex ==>
        activeTiles == old(activeTiles) &&
        (forall m, j, i :: pageTable.InRange(i, j, m) ==> pageTable.Get(i, j, m) == old(pageTable.Get(i, j, m))) &&
        lruCache.cache == old(lruCache.cache) &&
        lruCache.list == Touched(old(lruCache.list), old(pageTable.Get(x, y, mip)))
      ensures old(pageTable.Get(x, y, mip)) == InvalidTileIndex ==>
        pageTable.Get(x, y, mip) == required &&
        activeTiles == old(activeTiles)[required := ActiveTileInfo(x, y, mip, required)] &&
        (forall m, j, i :: pageTable.InRange(i, j, m) && (i, j, m) != (x, y, mip) ==>
          pageTable.Get(i, j, m) ==
            if Backs(old(activeTiles), required, i, j, m) then InvalidTileIndex else old(pageTable.Get(i, j, m)))
      ensures old(RecordsMapped()) && required != InvalidTileIndex ==> RecordsMapped()
    {
      var tileIndex := pageTable.Get(x, y, mip);
      if tileIndex == InvalidTileIndex {
        tileIndex := required;
        if tileIndex in activeTiles {
          var info := activeTiles[tileIndex];
          pageTable.Deactive(info.x, info.y, info.mip);
        }
        ActiveTile(tileIndex, x, y, mip);
      } else {
        lruCache.Touch(tileIndex);
      }
    }

    /** Unmap cell (x, y) of level mip and drop the record of its index; the cache is not touched. */
    method Deactive(x: int, y: int, mip: int)
      requires Valid() && pageTable.InRange(x, y, mip)
      modifies this, pageTable.Repr
      ensures Valid()
      ensures pageTable.Get(x, y, mip) == InvalidTileIndex
      ensures old(pageTable.Get(x, y, mip)) != InvalidTileIndex ==>
        activeTiles == old(activeTiles) - {old(pageTable.Get(x, y, mip))}
      ensures old(pageTable.Get(x, y, mip)) == InvalidTileIndex ==>
        activeTiles == old(activeTiles)
      ensures forall m, j, i :: pageTable.InRange(i, j, m) && (i, j, m) != (x, y, mip) ==>
        pageTable.Get(i, j, m) == old(pageTable.Get(i, j, m))
      ensures old(RecordsMapped()) ==> RecordsMapped()
    {
      var tileIndex := pageTable.Get(x, y, mip);
      if tileIndex != InvalidTileIndex {
        pageTable.Deactive(x, y, mip);
        activeTiles := activeTiles - {tileIndex};
      }
    }

    /**
     * Unmap every recorded cell and forget all records; by NoDoubleMapping this
     * leaves every cell InvalidTileIndex. The final `Reset()` of the cache is
     * not modelled.
     */
    method DeactiveAll()
      requires Valid()
      modifies this, lruCache, pageTable.Repr
      ensures Valid()
      ensures activeTiles == map[]
      ensures forall m, j, i :: pageTable.InRange(i, j, m) ==> pageTable.Get(i, j, m) == InvalidTileIndex
    {
      var pending := activeTiles.Keys;
      while pending != {}
        invariant pending <= activeTiles.Keys
        invariant activeTiles == old(activeTiles)
        invariant unchanged(lruCache)
        invariant forall m, j, i :: pageTable.InRange(i, j, m) && pageTable.Get(i, j, m) != InvalidTileIndex ==>
          pageTable.Get(i, j, m) in pending &&
          activeTiles[pageTable.Get(i, j, m)] == ActiveTileInfo(i, j, m, pageTable.Get(i, j, m))
        decreases pending
      {
        var t := AnyOf(pending);
        var info := activeTiles[t];
        pageTable.Deactive(info.x, info.y, info.mip);
        pending := pending - {t};
      }
      activeTiles := map[];
    }

    /** Record that tileIndex backs (x, y, mip) and write it into that cell. */
    method ActiveTile(tileIndex: int, x: int, y: int, mip: int)
      requires pageTable.Valid() && pageTable.InRange(x, y, mip)
      modifies this, pageTable.Repr
      ensures activeTiles == old(activeTiles)[tileIndex := ActiveTileInfo(x, y, mip, tileIndex)]
      ensures pageTable.Get(x, y, mip) == tileIndex
      ensures forall m, j, i :: pageTable.InRange(i, j, m) && (i, j, m) != (x, y, mip) ==>
        pageTable.Get(i, j, m) == old(pageTable.Get(i, j, m))
    {
      activeTiles := activeTiles[tileIndex := ActiveTileInfo(x, y, mip, tileIndex)];
      pageTable.Active(x, y, mip, tileIndex);
    }

    /** Two cells that hold the same index other than InvalidTileIndex are the same cell. */
    lemma NoSharedTileIndex(x1: int, y1: int, m1: int, x2: int, y2: int, m2: int)
      requires Valid()
      requires pageTable.InRange(x1, y1, m1) && pageTable.InRange(x2, y2, m2)
      requires pageTable.Get(x1, y1, m1) == pageTable.Get(x2, y2, m2) != InvalidTileIndex
      ensures (x1, y1, m1) == (x2, y2, m2)
    {
    }
  }

  /**
   * Tile index 0 aliases InvalidTileIndex. On a one-page texture, binding
   * index 0 leaves the cell reading as unmapped although the record says 0
   * backs it; activating the cell again therefore binds a second index to the
   * same cell, and both records name it.
   */
  method SlotZeroAliasing(second: int) returns (firstRead: int, tiles: map<int, ActiveTileInfo>)
    requires second != InvalidTileIndex
    ensures firstRead == InvalidTileIndex
    ensures tiles == map[InvalidTileIndex := ActiveTileInfo(0, 0, 0, InvalidTileIndex), second := ActiveTileInfo(0, 0, 0, second)]
  {
    var vt := new VirtualTexture(1, 1, 4, 1, 8);
    vt.Active(0, 0, 0, InvalidTileIndex);
    firstRead := vt.pageTable.Get(0, 0, 0);
    vt.Active(0, 0, 0, second);
    tiles := vt.activeTiles;
  }
}
