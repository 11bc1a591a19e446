# Virtual texture paging engine

A Dafny model of the paging engine of a Unity virtual-texture library. The
engine decides which tiles of a huge mip-mapped texture are resident. It has
three parts:

- `LRUCache` (`lru_cache.dfy`, module `Lru`) is a recency-ordered set of
  integer keys. The source stores them in a linked list (most recent first)
  plus a dictionary from each key to its node. The model keeps the list as a
  `seq<int>` and the dictionary as the `set<int>` of its keys. The invariant
  `Valid()` says the two hold the same keys, no key is listed twice, and the
  list never outgrows the capacity.
- `PageTable` (`page_table.dfy`, module `Pages`) is a mip pyramid. Level `i`
  is a grid of `pageCountY >> i` rows of `pageCountX >> i` cells. Each cell
  holds a tile index, or `InvalidTileIndex` (which is 0) when unmapped. The
  model keeps one `array2<int>` per level, indexed `[y, x]`.
- `VirtualTexture` (`virtual_texture.dfy`, module `Paging`) covers:
  - the mip-count clamp of the constructor;
  - the per-level page counts;
  - the activation protocol, which keeps the page table, the record of
    active tiles (`activeTiles`, a map from tile index to `ActiveTileInfo`)
    and the cache consistent.

  Its invariant `NoDoubleMapping` says that every cell holding an index other
  than 0 is exactly the cell recorded for that index. Hence no two cells share
  such an index (`NoSharedTileIndex`). `Active`, `Deactive` and `DeactiveAll`
  preserve it.

`mathf.dfy` (module `Mathf`) holds integer versions of the numeric helpers
the engine calls:
- `Mathf.IsPowerOfTwo`, `Mathf.Min` and `Mathf.Clamp`, where `Clamp` tests the
  lower bound first;
- `RoundToInt(Log(n, 2))`, which for a power of two is its exact base-2
  logarithm;
- C#'s `>>` on an `int`. It masks the shift count to five bits and shifts
  arithmetically, so it is modelled as repeated floor halving.

Tile index 0 is both a legal index and the "unmapped" sentinel. The model
keeps this as the code has it. `Active` with index 0 leaves the cell reading
as unmapped while `activeTiles` records 0 for it. `SlotZeroAliasing` shows
that a second activation of that cell then binds a second index to the same
cell. The invariant that every recorded index still sits in its cell is
therefore preserved by `Active` only when the bound index is not 0.

The activation code takes its inputs as they come:
- `Active` (Runtime/VirtualTexture.cs:167-184) does no bounds check, clamping
  or `>> mip` shift of its coordinates. It takes per-level coordinates, and an
  out-of-range cell throws, so the model requires `InRange`.
- Runtime/LRUCache.cs defines no `Require` or `Reset`; the cache evicts only
  in `Add`.

Plain reads and conversions carry no contract of their own. Their meaning is
stated through the members that use them:
- `Pages.PageTable.Get` (Runtime/PageTable.cs:58-61) reads one cell. The
  constructor, `Active` and `Deactive` state what it returns.
- `Mathf.ShiftRight` is C#'s `>>` (Runtime/PageTable.cs:23-26,
  Runtime/VirtualTexture.cs:226, 235); see `ShiftRightPowerOfTwo` and
  `HalveBounds`.
- `Mathf.IsPowerOfTwo` (Runtime/PageTable.cs:14-15) and `Mathf.Log2`
  (Runtime/PageTable.cs:18) are the power-of-two test and the rounded
  logarithm; see `PowerOfTwoLog2`.

## Model

| member | source | states |
|---|---|---|
| Mathf.Min | Runtime/VirtualTexture.cs:35 | the result is one of the two arguments and at most both |
| Mathf.Clamp | Runtime/VirtualTexture.cs:37 | when min <= max the result lies in [min, max]; it is the value when in range, min below it, max above it |
| Mathf.PowerOfTwoLog2 | Runtime/PageTable.cs:14-18 | for a power of two n, 2^log2(n) == n, so the rounded logarithm is exact |
| Mathf.HalveBounds | Runtime/VirtualTexture.cs:226 | shifting a nonnegative page count right by any amount gives a value between 0 and the count |
| Mathf.ShiftRightPowerOfTwo | Runtime/PageTable.cs:23-26 | shifting an int power of two n right by s <= log2(n) gives 2^(log2(n)-s) >= 1, and 2^s times the result is n |
| Lru.WithoutKeys | Runtime/LRUCache.cs:45-46 | unlinking k removes exactly the key k, keeps the list duplicate-free, is a no-op when k is absent, and never lengthens the list |
| Lru.WithoutAt | Runtime/LRUCache.cs:27 | unlinking the key at position i of a duplicate-free list splices out that one node and keeps the order of the others |
| Lru.CardIndexes | Runtime/LRUCache.cs:16 | a dictionary holding exactly the keys of a duplicate-free list has as many keys as the list has nodes |
| Lru.TouchedMovesToFront | Runtime/LRUCache.cs:25-29 | promoting the present key at position i gives [key] + the other keys in their old order, with no duplicates and the same key set |
| Lru.DropLast | Runtime/LRUCache.cs:34-35 | unlinking the last key of a duplicate-free list drops exactly the last node |
| Lru.PushFront | Runtime/LRUCache.cs:37 | putting an absent key in front of a duplicate-free list keeps it duplicate-free |
| Lru.LRUCache.constructor | Runtime/LRUCache.cs:8-13 | the new cache has the given capacity, no keys and an empty list, and satisfies the invariant |
| Lru.LRUCache.Count | Runtime/LRUCache.cs:16 | `count`, the number of dictionary keys, equals the length of the list |
| Lru.LRUCache.First | Runtime/LRUCache.cs:17 | `first` of a nonempty cache is a key it contains |
| Lru.LRUCache.Last | Runtime/LRUCache.cs:18 | `last` of a nonempty cache is a key it contains |
| Lru.LRUCache.Contains | Runtime/LRUCache.cs:56-59 | the dictionary lookup is true exactly when the key is in the list |
| Lru.LRUCache.Add | Runtime/LRUCache.cs:23-39 | afterwards the key is contained, is `first`, and count <= capacity. A present key is promoted and the key set kept. An absent key in a full cache evicts exactly the old `last` and is pushed in front of the other keys in their order. Otherwise it is pushed in front |
| Lru.LRUCache.Remove | Runtime/LRUCache.cs:41-48 | afterwards the key is not contained, the key set loses exactly that key, the other keys keep their order, and an absent key changes nothing |
| Lru.LRUCache.Clear | Runtime/LRUCache.cs:50-54 | afterwards count is 0 and both the dictionary and the list are empty |
| Lru.LRUCache.Touch | Runtime/LRUCache.cs:61-68 | the key set is unchanged; a present key moves to the front (TouchedMovesToFront); an absent key changes nothing |
| Lru.LRUCache.ToArray | Runtime/LRUCache.cs:70-75 | returns a new array of length count holding the keys most recent first |
| Pages.LevelSize | Runtime/PageTable.cs:20-28 | for levels up to log2(min(pageCountX, pageCountY)), both level sides are at least 1 and divide the level-0 sides exactly; on the top level the smaller side is one cell |
| Pages.PageTable.constructor | Runtime/PageTable.cs:12-28 | the table has log2(min)+1 levels, so the top level is one cell on its smaller side; level i has pageCountY >> i rows of pageCountX >> i cells; every cell is InvalidTileIndex |
| Pages.PageTable.Active | Runtime/PageTable.cs:46-49 | reading the cell back gives the written tile index; every other cell of every level keeps its value |
| Pages.PageTable.Deactive | Runtime/PageTable.cs:52-55 | reading the cell back gives InvalidTileIndex; every other cell keeps its value |
| Paging.VirtualTexture.constructor | Runtime/VirtualTexture.cs:17-55 | mipmapCount is mipCount clamped to [1, log2(min(pageCountX, pageCountY)) + 1]; useMipMap holds iff mipmapCount > 1; the page table, record and cache start empty and all invariants hold |
| Paging.VirtualTexture.GetPageCountX | Runtime/VirtualTexture.cs:223-227 | 1 at or beyond mipmapCount; on a used level a value >= 1 that divides pageCountX exactly as pageCountX >> mipLevel; for a negative level a value between 0 and pageCountX |
| Paging.VirtualTexture.GetPageCountY | Runtime/VirtualTexture.cs:232-236 | the same for pageCountY |
| Paging.VirtualTexture.Active | Runtime/VirtualTexture.cs:167-184 | a mapped cell leaves table and record unchanged and only touches its index in the cache. An unmapped cell gets the required index and the record gets (x, y, mip, index); the one other cell the index was recorded for becomes InvalidTileIndex; no other cell changes. No double mapping is kept for any required index; the converse only for a nonzero one |
| Paging.VirtualTexture.Deactive | Runtime/VirtualTexture.cs:186-194 | the cell becomes InvalidTileIndex and, if it was mapped, its index leaves the record; an unmapped cell changes nothing; no other cell changes; the cache is not in the frame; the invariants are kept |
| Paging.VirtualTexture.DeactiveAll | Runtime/VirtualTexture.cs:196-205 | the record is empty and, by no double mapping, every cell of every level is InvalidTileIndex |
| Paging.VirtualTexture.ActiveTile | Runtime/VirtualTexture.cs:207-218 | records (x, y, mip, tileIndex) under tileIndex and writes tileIndex into that one cell, leaving the others unchanged |
| Paging.VirtualTexture.NoSharedTileIndex | Runtime/VirtualTexture.cs:167-218 | in a valid state, two cells holding the same index other than InvalidTileIndex are the same cell |
| Paging.SlotZeroAliasing | Runtime/VirtualTexture.cs:169-178 | on a one-page texture, after Active binds index 0 the cell still reads InvalidTileIndex; a second Active binds another index to the same cell, and both records name it |

## Left out

- Paging.VirtualTexture.Active: on an unmapped cell it says nothing about the recency cache. `LRUCache.Require()` is not defined in the cache's source, so its result is the parameter `required` and its effect on the recency order is left open.
- Paging.VirtualTexture.DeactiveAll: says nothing about the cache after the final `LRUCache.Reset()`. Reset is not defined in the cache's source.
- GPU resources are not modelled (page and physics textures, their creation and disposal, shader property IDs, `supportsForDirectRendering`): they are Unity and driver calls.
- `tileWidth`, `tileHeight`, `virtualWidth`, `virtualHeight` and `graphicsFormat` only size GPU resources. Their power-of-two asserts are not modelled.
- `SystemInfo.maxTextureArraySlices` is a platform query; its value is the constructor parameter `maxTextureArraySlices`.
- `LRUCache.GetEnumerator` is not modelled: it only exposes the list, whose order `ToArray` already states.
- The constructor that takes one tile size and page length only forwards to the main constructor.
- Float `Mathf.Log` with `RoundToInt` is modelled as the exact integer base-2 logarithm. The inputs are asserted powers of two, and for them the two agree.
- `Mathf.IsPowerOfTwo` is taken as "a positive power of two", and page counts are bounded by the largest C# `int`. A page count of 0 gives a non-finite logarithm and a failing allocation, so the constructors require a positive power of two.
- Each page-table level is one two-dimensional array rather than an array of separately allocated rows. No row is shared or reassigned, so the observable cell values are the same.
- The editor atlas tool, texture copying helpers, material wrappers and the sample scripts are not modelled: they are editor UI, GPU readback and MonoBehaviour glue.
- Paths of the source that throw or only assert become preconditions, so the model does not describe what happens on them:
  - `LRUCache.Add` requires capacity >= 1, because with an empty list the source dereferences a null `_list.Last` (Runtime/LRUCache.cs:34).
  - `First`/`Last` require a nonempty list (Runtime/LRUCache.cs:17-18).
  - The `VirtualTexture` constructor requires tileCapacity >= 0, because the `Dictionary` constructor throws on a negative capacity (Runtime/VirtualTexture.cs:51).
  - The `Assert.IsTrue` checks (Runtime/VirtualTexture.cs:21-23, Runtime/PageTable.cs:14-15) become preconditions. In Unity they only log, and only in development builds.
