/** The dimensions cache of the span metrics processor: an LRU of bounded size, and a side map of what it evicted.
    Looking a key up may move it back from the side map and push another key out, so the object changes on reads;
    what never changes on a read is `All()`, the entries that can still be retrieved. */
module DimensionsCache {

  ghost predicate NoRepeats<T>(s: seq<T>) { forall i, j :: 0 <= i < j < |s| ==> s[i] != s[j] }

  function Without<K(==)>(order: seq<K>, k: K): seq<K> {
    if order == [] then []
    else (if order[0] == k then [] else [order[0]]) + Without(order[1..], k)
  }

  lemma NoRepeatsCons<T>(s: seq<T>)
    requires s != []
    ensures NoRepeats(s) <==> s[0] !in s[1..] && NoRepeats(s[1..])
  {
  }

  lemma {:induction false} WithoutFacts<K>(order: seq<K>, k: K)
    ensures forall x :: x in Without(order, k) <==> x in order && x != k
    ensures NoRepeats(order) ==> NoRepeats(Without(order, k))
    ensures NoRepeats(order) ==> |Without(order, k)| == |order| - (if k in order then 1 else 0)
  {
    if order != [] {
      WithoutFacts(order[1..], k);
      NoRepeatsCons(order);
      if order[0] != k {
        assert Without(order, k)[1..] == Without(order[1..], k);
        NoRepeatsCons(Without(order, k));
      }
    }
  }

  lemma TailFacts<K(!new), V>(order: seq<K>, items: map<K, V>)
    requires order != [] && NoRepeats(order) && forall k :: k in order <==> k in items
    ensures NoRepeats(order[1..])
    ensures forall k :: k in order[1..] <==> k in items && k != order[0]
  {
  }

  lemma MovedToEnd<K(!new), V>(order: seq<K>, items: map<K, V>, key: K, value: V)
    requires NoRepeats(order) && forall k :: k in order <==> k in items
    ensures var moved := Without(order, key) + [key];
            && NoRepeats(moved) && |moved| == |order| + (if key in items then 0 else 1)
            && (forall k :: k in moved <==> k in items[key := value])
            && moved[|moved| - 1] == key
            && (key !in items && order != [] ==> moved[0] == order[0])
  {
    WithoutFacts(order, key);
    var moved := Without(order, key) + [key];
    assert forall k :: k in moved <==> k in Without(order, key) || k == key;
    if key !in items && order != [] {
      assert moved[0] == order[0];
    }
  }

  /** The recency list after `k` was used: `k` moves to the end and, past the capacity, the front falls off. */
  function Touched<K(==)>(order: seq<K>, k: K, size: nat): seq<K> {
    var moved := Without(order, k) + [k];
    if |moved| > size then moved[1..] else moved
  }

  lemma {:induction false} ListedAtMost<K>(keys: set<K>, order: seq<K>)
    requires forall k :: k in keys ==> k in order
    ensures |keys| <= |order|
  {
    if order == [] {
      assert keys == {};
    } else {
      forall k | k in keys - {order[0]}
        ensures k in order[1..]
      {
        assert order == [order[0]] + order[1..];
      }
      ListedAtMost(keys - {order[0]}, order[1..]);
    }
  }

  lemma {:induction false} ListedAtLeast<K>(keys: set<K>, order: seq<K>)
    requires NoRepeats(order) && forall k :: k in order ==> k in keys
    ensures |order| <= |keys|
  {
    if order != [] {
      NoRepeatsCons(order);
      forall k | k in order[1..]
        ensures k in keys - {order[0]}
      {
        assert k in order;
      }
      ListedAtLeast(keys - {order[0]}, order[1..]);
    }
  }

  // ---- Recency --------------------------------------------------------------------------------------------------

  /** Where a key was used last, -1 if nowhere. */
  ghost function LastUse<K>(uses: seq<K>, k: K): (r: int)
    ensures -1 <= r < |uses| && (k in uses <==> r >= 0) && (r >= 0 ==> uses[r] == k)
  {
    if uses == [] then -1
    else if uses[|uses| - 1] == k then |uses| - 1
    else
      assert uses == uses[..|uses| - 1] + [uses[|uses| - 1]];
      LastUse(uses[..|uses| - 1], k)
  }

  /** Each key is followed by keys that were used after it. */
  ghost predicate ByLastUse<K(!new)>(order: seq<K>, uses: seq<K>) {
    order != [] ==> Before(order[0], order[1..], uses) && ByLastUse(order[1..], uses)
  }

  ghost predicate Before<K(!new)>(k: K, others: seq<K>, uses: seq<K>) {
    forall x :: x in others ==> LastUse(uses, k) < LastUse(uses, x)
  }

  /** The keys used last, in the order of their last uses; others only if there are `size` of them. */
  ghost predicate MostRecent<K(!new)>(order: seq<K>, uses: seq<K>, size: nat) {
    && (forall k :: k in order ==> k in uses)
    && ByLastUse(order, uses)
    && (forall k :: k in uses && k !in order ==> Before(k, order, uses) && |order| == size)
  }

  lemma UsedAgain<K>(uses: seq<K>, key: K, k: K)
    ensures LastUse(uses + [key], k) == if k == key then |uses| else LastUse(uses, k)
  {
    assert (uses + [key])[..|uses|] == uses;
  }

  lemma {:induction false} LaterThanAll<K>(uses: seq<K>, k: K, i: nat)
    requires i < |uses| && uses[i] == k
    ensures i <= LastUse(uses, k)
  {
    if i < |uses| - 1 {
      LaterThanAll(uses[..|uses| - 1], k, i);
    }
  }

  lemma {:induction false} WithoutByLastUse<K(!new)>(order: seq<K>, uses: seq<K>, k: K)
    requires ByLastUse(order, uses)
    ensures ByLastUse(Without(order, k), uses)
  {
    hide LastUse;
    if order != [] {
      WithoutByLastUse(order[1..], uses, k);
      WithoutFacts(order[1..], k);
      var rest := Without(order[1..], k);
      if order[0] == k {
        assert Without(order, k) == rest;
      } else {
        assert Without(order, k) == [order[0]] + rest && ([order[0]] + rest)[1..] == rest;
        assert Before(order[0], rest, uses);
      }
    }
  }

  lemma {:induction false} SnocByLastUse<K(!new)>(order: seq<K>, uses: seq<K>, key: K)
    requires ByLastUse(order, uses) && key !in order
    ensures ByLastUse(order + [key], uses + [key])
  {
    if order == [] {
      assert (order + [key])[1..] == [];
    } else {
      SnocByLastUse(order[1..], uses, key);
      assert (order + [key])[1..] == order[1..] + [key];
      StillBefore(order[0], order[1..], uses, key);
    }
  }

  lemma StillBefore<K(!new)>(k: K, others: seq<K>, uses: seq<K>, key: K)
    requires Before(k, others, uses) && k != key && key !in others
    ensures Before(k, others + [key], uses + [key])
  {
    hide LastUse;
    UsedAgain(uses, key, k);
    UsedAgain(uses, key, key);
    forall x | x in others
      ensures LastUse(uses, k) < LastUse(uses + [key], x)
    {
      UsedAgain(uses, key, x);
    }
  }

  /** Touching a key makes it the most recent one, and pushes out the least recent. */
  lemma TouchedIsRecent<K(!new)>(order: seq<K>, uses: seq<K>, key: K, size: nat)
    requires 1 <= size && |order| <= size && NoRepeats(order) && MostRecent(order, uses, size)
    ensures MostRecent(Touched(order, key, size), uses + [key], size)
  {
    WithoutByLastUse(order, uses, key);
    WithoutFacts(order, key);
    hide LastUse, Without, NoRepeats;
    var rest, after := Without(order, key), uses + [key];
    var moved := rest + [key];
    SnocByLastUse(rest, uses, key);
    forall k | k in after && k !in moved
      ensures Before(k, moved, after) && |moved| >= size
    {
      assert Before(k, rest, uses);
      StillBefore(k, rest, uses, key);
    }
    if |moved| > size {
      assert moved == [moved[0]] + moved[1..];
    }
  }

  class Cache<K(==,!new), V(0)> {
    const size: nat
    var order: seq<K>         // least recently used first
    var items: map<K, V>
    var evictedItems: map<K, V>
    ghost var uses: seq<K>    // the keys found or added since the last purge

    ghost predicate Sound()
      reads this
    {
      && 1 <= size && |order| <= size && NoRepeats(order)
      && (forall k :: k in order <==> k in items)
    }

    ghost predicate Valid()
      reads this
    {
      Sound() && MostRecent(order, uses, size)
    }

    /** The keys used since `k` was used last, itself among them. */
    ghost function UsedSince(k: K): set<K>
      reads this
      requires k in uses
    {
      set x | x in uses[LastUse(uses, k)..]
    }

    /** The LRU holds what was used with at most `size` different keys since. */
    lemma HeldIff(k: K)
      requires Valid()
      ensures k in items <==> k in uses && |UsedSince(k)| <= size
    {
      if k in uses {
        var since, last := UsedSince(k), LastUse(uses, k);
        forall x
          ensures x in since <==> x in uses && last <= LastUse(uses, x)
        {
          UsedSinceIff(k, x);
        }
        if k in order {
          ListedAtMost(since, order);
        } else {
          assert k !in order && |order| == size;
          ListedAtLeast(since - {k}, order);
          assert |since - {k}| == |since| - 1;
        }
      }
    }

    lemma UsedSinceIff(k: K, x: K)
      requires k in uses
      ensures x in UsedSince(k) <==> x in uses && LastUse(uses, k) <= LastUse(uses, x)
    {
      var last := LastUse(uses, k);
      if x in uses[last..] {
        var i :| 0 <= i < |uses[last..]| && uses[last..][i] == x;
        LaterThanAll(uses, x, last + i);
      }
      if x in uses && last <= LastUse(uses, x) {
        assert uses[last..][LastUse(uses, x) - last] == x;
      }
    }

    /** Everything a lookup can return. */
    ghost function All(): map<K, V>
      reads this
    {
      evictedItems + items
    }

    /** No key is kept twice, and the side map is used only while the LRU is full. */
    ghost predicate Tidy()
      reads this
    {
      evictedItems.Keys !! items.Keys && (evictedItems != map[] ==> |order| == size)
    }

    /** As long as there are no more keys than the LRU may hold, it holds them all. */
    lemma HoldsAll()
      requires Valid() && Tidy() && |All().Keys| <= size
      ensures items == All()
    {
      ListedAtLeast(items.Keys, order);
      assert All().Keys == items.Keys + evictedItems.Keys;
      assert |All().Keys| == |items.Keys| + |evictedItems.Keys|;
      assert evictedItems != map[] ==> |evictedItems.Keys| == 0;
    }

    lemma NoneEvicted()
      requires evictedItems == map[]
      ensures Tidy() && All() == items
    {
    }

    lemma HeldIsRetrievable()
      ensures forall k :: k in items ==> k in All() && All()[k] == items[k]
    {
    }

    lemma Bounded(keys: set<K>)
      requires Valid() && forall k :: k in keys ==> k in items
      ensures |keys| <= size
    {
      ListedAtMost(keys, order);
    }

    constructor (size: nat)
      requires size > 0
      ensures Valid() && Tidy() && All() == map[] && items == map[] && order == [] && this.size == size
    {
      this.size := size;
      order, items, evictedItems, uses := [], map[], map[], [];
    }

    /** One entry too many: the least recently used one moves to the side map. */
    method EvictOldest()
      requires 1 <= size < |order| && NoRepeats(order) && forall k :: k in order <==> k in items
      requires |order| == size + 1
      modifies this`order, this`items, this`evictedItems
      ensures Sound() && order == old(order)[1..] && All() == old(All())
      ensures items == old(items) - {old(order)[0]}
      ensures evictedItems.Keys == old(evictedItems).Keys + {old(order)[0]}
    {
      hide NoRepeats;
      var oldest := order[0];
      TailFacts(order, items);
      evictedItems := evictedItems[oldest := items[oldest]];
      items := items - {oldest};
      order := order[1..];
    }

    /** The entry becomes the one used last; there may be one too many now. */
    method Place(key: K, value: V)
      requires Sound()
      modifies this`order, this`items
      ensures order == Without(old(order), key) + [key] && items == old(items)[key := value]
      ensures NoRepeats(order) && forall k :: k in order <==> k in items
      ensures |order| == |old(order)| + if key in old(items) then 0 else 1
      ensures key !in old(items) && old(order) != [] ==> order[0] == old(order)[0]
    {
      hide NoRepeats, Without;
      MovedToEnd(order, items, key, value);
      order := Without(order, key) + [key];
      items := items[key := value];
    }

    method Add(key: K, value: V) returns (evicted: bool)
      requires Valid()
      modifies this
      ensures Valid()
      ensures All() == old(All())[key := value]
      ensures order == Touched(old(order), key, size) && uses == old(uses) + [key]
      ensures key in items && evicted == (key !in old(items) && |old(order)| == size)
      ensures evictedItems.Keys == old(evictedItems).Keys + if evicted then {old(order)[0]} else {}
      ensures items.Keys == old(items).Keys + {key} - if evicted then {old(order)[0]} else {}
      ensures old(Tidy()) && key !in old(evictedItems) ==> Tidy()
    {
      hide NoRepeats, Without, MostRecent;
      TouchedIsRecent(order, uses, key, size);
      uses := uses + [key];
      Place(key, value);
      evicted := |order| > size;
      if evicted {
        EvictOldest();
      }
    }

    method Get(key: K) returns (value: V, ok: bool)
      requires Valid()
      modifies this
      ensures Valid() && ok == (key in old(All())) && (ok ==> value == old(All())[key])
      ensures All() == old(All())
      ensures order == if ok then Touched(old(order), key, size) else old(order)
      ensures uses == old(uses) + if ok then [key] else []
      ensures ok ==> key in items
      ensures key in old(items) || !ok ==> items == old(items) && evictedItems == old(evictedItems)
      ensures key !in old(items) && ok ==>
                evictedItems.Keys == old(evictedItems).Keys - {key} +
                  if |old(order)| == size then {old(order)[0]} else {}
      ensures old(Tidy()) ==> Tidy()
    {
      hide NoRepeats, Without, MostRecent;
      if key in items {
        value, ok := items[key], true;
        TouchedIsRecent(order, uses, key, size);
        uses := uses + [key];
        MovedToEnd(order, items, key, value);
        order := Without(order, key) + [key];
        assert items[key := value] == items;
        return;
      }
      ok := key in evictedItems;
      if ok {
        value := evictedItems[key];
        evictedItems := evictedItems - {key};
        var _ := Add(key, value);
      } else {
        value := *;
      }
    }

    method Contains(key: K) returns (ok: bool)
      ensures ok == (key in items)
    {
      ok := key in items;
    }

    method RemoveEvictedItems()
      requires Valid()
      modifies this`evictedItems
      ensures Valid() && Tidy() && evictedItems == map[] && All() == items
      ensures items.Keys <= old(All()).Keys && (old(Tidy() && |All().Keys| <= size) ==> All() == old(All()))
    {
      hide NoRepeats, All, Tidy, MostRecent;
      HeldIsRetrievable();
      if Tidy() && |All().Keys| <= size {
        HoldsAll();
      }
      ClearEvictedItems();
      NoneEvicted();
    }

    method ClearEvictedItems()
      modifies this`evictedItems
      ensures evictedItems == map[]
    {
      var keys := evictedItems.Keys;
      while keys != {}
        invariant evictedItems.Keys == keys
        decreases |keys|
      {
        var k :| k in keys;
        evictedItems := evictedItems - {k};
        keys := keys - {k};
      }
    }

    /** The LRU reports every entry it purges as evicted, so the side map is emptied last. */
    method Purge()
      requires Valid()
      modifies this
      ensures Valid() && Tidy() && All() == map[] && items == map[] && order == [] && uses == []
    {
      evictedItems := evictedItems + items;
      items, order, uses := map[], [], [];
      RemoveEvictedItems();
    }
  }
}
