/**
 * The recency-ordered key set `LRUCache` (Runtime/LRUCache.cs).
 *
 * The source keeps a linked list of keys, most recent first, and a
 * dictionary from each key to its list node. The model keeps the list as a
 * sequence and the dictionary as the set of its keys (the node it maps to is
 * the position of that key in the sequence).
 */
module Lru {

  /** No key occurs twice in s. */
  ghost predicate NoDup(s: seq<int>)
  {
    forall i, j :: 0 <= i < j < |s| ==> s[i] != s[j]
  }

  /** The keys of set c are exactly the keys listed in s. */
  ghost predicate Indexes(c: set<int>, s: seq<int>)
  {
    forall x :: x in c <==> x in s
  }

  /** s with key k unlinked, the other keys in their order. */
  function Without(s: seq<int>, k: int): seq<int>
  {
    if s == [] then []
    else if s[0] == k then Without(s[1..], k)
    else [s[0]] + Without(s[1..], k)
  }

  /** The list after a touch of k: k moves to the front if it is present. */
  function Touched(s: seq<int>, k: int): seq<int>
  {
    if k in s then [k] + Without(s, k) else s
  }

  /** Unlinking k removes every occurrence of k and nothing else. */
  lemma {:induction false} WithoutKeys(s: seq<int>, k: int)
    ensures forall x :: x in Without(s, k) <==> x in s && x != k
    ensures NoDup(s) ==> NoDup(Without(s, k))
    ensures k !in s ==> Without(s, k) == s
    ensures |Without(s, k)| <= |s|
  {
    if s != [] {
      WithoutKeys(s[1..], k);
      if s[0] != k {
        var w := Without(s[1..], k);
        if NoDup(s) {
          assert s[0] !in s[1..];
          forall i, j | 0 <= i < j < |[s[0]] + w|
            ensures ([s[0]] + w)[i] != ([s[0]] + w)[j]
          {
            if i > 0 {
              assert ([s[0]] + w)[i] == w[i - 1];
            }
          }
        }
      }
    }
  }

  /** Unlinking the key at position i splices it out: the others keep their order. */
  lemma {:induction false} WithoutAt(s: seq<int>, i: int)
    requires NoDup(s) && 0 <= i < |s|
    ensures Without(s, s[i]) == s[..i] + s[i + 1..]
  {
    if i == 0 {
      WithoutKeys(s[1..], s[0]);
    } else {
      WithoutAt(s[1..], i - 1);
      assert s[1..][i - 1] == s[i];
      assert s[1..][..i - 1] + s[1..][i..] == s[1..i] + s[i + 1..];
      assert s[..i] == [s[0]] + s[1..i];
    }
  }

  /** A dictionary indexing a list without duplicates has as many keys as the list has nodes. */
  lemma {:induction false} CardIndexes(c: set<int>, s: seq<int>)
    requires NoDup(s) && Indexes(c, s)
    ensures |c| == |s|
  {
    if s == [] {
      assert forall x :: x !in c;
    } else {
      var c' := c - {s[0]};
      assert s[0] in s;
      assert forall x :: x in c <==> x in s;
      forall x ensures x in c' <==> x in s[1..] {
        if x in s[1..] {
          var j :| 0 <= j < |s[1..]| && s[1..][j] == x;
          assert s[j + 1] == x;
        }
        assert x in s ==> x == s[0] || x in s[1..];
      }
      CardIndexes(c', s[1..]);
    }
  }

  /**
   * A touch of a present key k at position i moves it to the front and keeps
   * the order of all other keys; the key set is unchanged.
   */
  lemma TouchedMovesToFront(s: seq<int>, i: int)
    requires NoDup(s) && 0 <= i < |s|
    ensures Touched(s, s[i]) == [s[i]] + s[..i] + s[i + 1..]
    ensures NoDup(Touched(s, s[i]))
    ensures forall x :: x in Touched(s, s[i]) <==> x in s
  {
    WithoutAt(s, i);
    WithoutKeys(s, s[i]);
    var t := Touched(s, s[i]);
    forall a, b | 0 <= a < b < |t| ensures t[a] != t[b] {
      if a > 0 {
        assert t[a] == Without(s, s[i])[a - 1];
      }
    }
  }

  /** Putting a new key in front of a duplicate-free list keeps it duplicate-free. */
  lemma PushFront(k: int, s: seq<int>)
    requires NoDup(s) && k !in s
    ensures NoDup([k] + s)
  {
    var t := [k] + s;
    forall a, b | 0 <= a < b < |t| ensures t[a] != t[b] {
      if a > 0 {
        assert t[a] == s[a - 1];
      }
      assert t[b] == s[b - 1];
    }
  }

  /** Unlinking the last key of a duplicate-free list drops the last node. */
  lemma DropLast(s: seq<int>)
    requires NoDup(s) && s != []
    ensures Without(s, s[|s| - 1]) == s[..|s| - 1]
  {
    WithoutAt(s, |s| - 1);
    assert s[|s|..] == [];
  }

  class LRUCache {
    /** The most keys Add keeps; never changed after construction. */
    const capacity: int
    /** The keys of the node dictionary `_cache`. */
    var cache: set<int>
    /** The linked list `_list`, most recently used key first. */
    var list: seq<int>

    /**
     * The dictionary indexes exactly the keys of the list, no key is listed
     * twice, and the list never outgrows the capacity (with a capacity below
     * 1 nothing can ever be added, so the list stays empty).
     */
    ghost predicate Valid()
      reads this
    {
      NoDup(list) && Indexes(cache, list) && (|list| <= capacity || list == [])
    }

    constructor (capacity: int)
      ensures Valid()
      ensures this.capacity == capacity && list == [] && cache == {}
    {
      this.capacity := capacity;
      cache := {};
      list := [];
    }

    /** `count`: the size of the dictionary, which is the length of the list. */
    function Count(): (n: int)
      reads this
      requires Valid()
      ensures n == |list|
    {
      CardIndexes(cache, list);
      |cache|
    }

    /** `first`: the most recently used key; the source dereferences a null node when empty. */
    function First(): (k: int)
      reads this
      requires Valid() && list != []
      ensures Contains(k) && Count() >= 1
    {
      list[0]
    }

    /** `last`: the least recently used key; the source dereferences a null node when empty. */
    function Last(): (k: int)
      reads this
      requires Valid() && list != []
      ensures Contains(k) && Count() >= 1
    {
      list[|list| - 1]
    }

    /** A dictionary lookup, which agrees with membership in the list. */
    function Contains(key: int): (b: bool)
      reads this
      requires Valid()
      ensures b <==> key in list
    {
      key in cache
    }

    /**
     * Promote a present key; otherwise evict the least recent key when full and
     * insert the new key at the front. With a capacity below 1 the source
     * dereferences the null last node of the empty list, hence the requires.
     */
    method Add(key: int)
      requires Valid() && capacity >= 1
      modifies this
      ensures Valid()
      ensures Contains(key) && First() == key
      ensures Count() <= capacity
      ensures key in old(cache) ==>
        cache == old(cache) && list == Touched(old(list), key)
      ensures key !in old(cache) && old(|list|) >= capacity ==>
        cache == old(cache) - {old(Last())} + {key} && list == [key] + old(list)[..old(|list|) - 1]
      ensures key !in old(cache) && old(|list|) < capacity ==>
        cache == old(cache) + {key} && list == [key] + old(list)
    {
      if key in cache {
        Touch(key);
      } else {
        if |cache| >= capacity {
          CardIndexes(cache, list);
          DropLast(list);
          Remove(Last());
        }
        CardIndexes(cache, list);
        PushFront(key, list);
        cache := cache + {key};
        list := [key] + list;
      }
    }

    /** Unlink a present key; an absent key is ignored. */
    method Remove(key: int)
      requires Valid()
      modifies this
      ensures Valid()
      ensures !Contains(key)
      ensures cache == old(cache) - {key}
      ensures list == Without(old(list), key)
      ensures key !in old(list) ==> list == old(list)
    {
      WithoutKeys(list, key);
      if key in cache {
        list := Without(list, key);
        cache := cache - {key};
      }
    }

    method Clear()
      requires Valid()
      modifies this
      ensures Valid()
      ensures Count() == 0 && cache == {} && list == []
    {
      cache := {};
      list := [];
    }

    /** Move a present key to the front; an absent key is ignored. */
    method Touch(key: int)
      requires Valid()
      modifies this
      ensures Valid()
      ensures cache == old(cache)
      ensures list == Touched(old(list), key)
      ensures key !in old(list) ==> list == old(list)
    {
      if key in cache {
        var i :| 0 <= i < |list| && list[i] == key;
        TouchedMovesToFront(list, i);
        list := [key] + Without(list, key);
      }
    }

    /** Copy the keys, most recent first, into a new array of length `count`. */
    method ToArray() returns (a: array<int>)
      requires Valid()
      ensures fresh(a)
      ensures a.Length == Count() && a[..] == list
    {
      CardIndexes(cache, list);
      a := new int[|cache|];
      var i := 0;
      while i < a.Length
        invariant 0 <= i <= a.Length
        invariant a[..i] == list[..i]
      {
        a[i] := list[i];
        i := i + 1;
      }
    }
  }
}
