/** Fields of a log body: reading, writing and deleting along a path of keys, in place, in nested maps. What an
    operation does is stated for the walk of every path, in every body that mentions no map that does not exist. */
module BodyField {
  import opened NestedMaps
  import opened SharedMaps

  /** A log entry's body. Any body will do, as long as every map that is mentioned exists: maps may be shared, as
      they are after a field was copied. What is promised of every body is in terms of module SharedMaps; if the body
      is a tree, and a given map another, more follows. */
  class Entry {
    var body: Any
    var store: Store
    var next: nat  // the next map to be created

    ghost predicate Valid()
      reads this
    {
      Closed(store, body) && forall r :: r in store ==> r < next
    }

    ghost predicate Tree()
      reads this
    {
      Unshared(store, body)
    }

    /** `other` is still a tree of its own and what it was in `before`. */
    ghost predicate Kept(before: Store, other: Any)
      reads this
    {
      Separate(store, body, other) && forall u :: Walk(store, other, u) == Walk(before, other, u)
    }

    constructor (body: Any, store: Store, next: nat)
      requires Closed(store, body) && forall r :: r in store ==> r < next
      ensures Valid() && this.body == body && this.store == store
    {
      this.body, this.store, this.next := body, store, next;
    }

    /** A new empty map. */
    method NewMap(ghost other: Any) returns (ref: nat)
      requires Valid()
      modifies this`store, this`next
      ensures Valid() && ref !in old(store) && store == old(store)[ref := map[]]
      ensures Leaf(store, body, Map(ref)) && forall p :: Walk(store, body, p) == old(Walk(store, body, p))
      ensures old(Tree()) ==> Tree()
      ensures old(Separate(store, body, other)) ==> Kept(old(store), other) && Leaf(store, other, Map(ref))
    {
      ref := next;
      assert ref !in store;
      Allocated(store, body, ref);
      if Tree() {
        SameWalks(store, store[ref := map[]], body);
      }
      if Separate(store, body, other) {
        SeparateAllocated(store, body, ref, other);
      }
      store, next := store[ref := map[]], next + 1;
    }

    /** `currentMap[key] = x`. In a tree, for a leaf put into the map at path `q`, nothing else changes. */
    method Put(current: nat, key: string, x: Any, ghost q: Path, ghost other: Any)
      requires Valid() && current in store && (x.Map? ==> x.ref in store)
      modifies this`store
      ensures Valid() && store == old(store)[current := old(store[current])[key := x]]
      ensures old(Tree() && Walk(store, body, q) == Value(Map(current)) && Leaf(store, body, x)) ==>
                && Tree()
                && (old(Separate(store, body, other) && Leaf(store, other, x)) ==> Kept(old(store), other))
                && forall p :: Walk(store, body, p) ==
                     if p == q + [key] then Value(x) else if q + [key] <= p then Missing else old(Walk(store, body, p))
    {
      ghost var t := store[current := store[current][key := x]];
      if Tree() && Walk(store, body, q) == Value(Map(current)) && Leaf(store, body, x) {
        LeafWritten(store, body, q, key, x, t);
        if Separate(store, body, other) && Leaf(store, other, x) {
          LeafSeparate(store, body, q, key, x, t, other);
        }
      }
      store := store[current := store[current][key := x]];
    }

    /** A new map is put under `key`. */
    method PutNewMap(current: nat, key: string, ghost q: Path, ghost other: Any) returns (ref: nat)
      requires Valid() && current in store
      modifies this`store, this`next
      ensures Valid() && ref !in old(store)
      ensures store == old(store)[ref := map[]][current := old(store[current])[key := Map(ref)]]
      ensures old(Tree() && Walk(store, body, q) == Value(Map(current))) ==>
                && Tree()
                && (old(Separate(store, body, other)) ==> Kept(old(store), other))
                && forall p :: Walk(store, body, p) ==
                     if p == q + [key] then Value(Map(ref)) else if q + [key] <= p then Missing
                       else old(Walk(store, body, p))
    {
      hide Walk, Leaf, Closed, Unshared, Separate;
      ref := NewMap(other);
      Put(current, key, Map(ref), q, other);
    }

    /** A new map under a key that has none: the first is put there when there is no entry, and replaced at once. */
    method MakeNested(current: nat, key: string, ghost q: Path, ghost other: Any) returns (nested: nat)
      requires Valid() && current in store && (key in store[current] ==> !store[current][key].Map?)
      requires forall p :: q + [key] < p ==> Walk(store, body, p) == Missing
      modifies this`store, this`next
      ensures Valid() && nested in store && Nested(old(store), store, current, key, nested)
      ensures old(Tree() && Walk(store, body, q) == Value(Map(current))) ==>
                && Tree() && Walk(store, body, q + [key]) == Value(Map(nested))
                && (forall p :: p != q + [key] ==> Walk(store, body, p) == old(Walk(store, body, p)))
                && (old(Separate(store, body, other)) ==> Kept(old(store), other))
    {
      hide Walk, Leaf, Closed, Unshared, Separate, Nested;
      assert !(q + [key] <= q);
      if key !in store[current] {
        var empty := PutNewMap(current, key, q, other);
        ghost var before := store;
        nested := PutNewMap(current, key, q, other);
        PutTwice(old(store), current, key, empty, before, nested, store);
      } else {
        nested := PutNewMap(current, key, q, other);
        PutOnce(old(store), current, key, nested, store);
      }
    }

    /** The map under `key`; one is created where there is none, replacing whatever is there. In a tree only the walk
        of the key's own path may change. */
    method GetNestedMap(current: nat, key: string, ghost q: Path, ghost other: Any) returns (nested: nat)
      requires Valid() && Walk(store, body, q) == Value(Map(current)) && current in store
      modifies this`store, this`next
      ensures Valid() && nested in store && Nested(old(store), store, current, key, nested)
      ensures old(Tree()) ==>
                && Tree() && Walk(store, body, q + [key]) == Value(Map(nested))
                && (IsMap(old(Walk(store, body, q + [key]))) ==> store == old(store))
                && (forall p :: p != q + [key] ==> Walk(store, body, p) == old(Walk(store, body, p)))
                && (old(Separate(store, body, other)) ==> Kept(old(store), other))
    {
      KeyOfMap(store, body, q, key);
      EntryInStore(store, body, current, key);
      hide Walk, Leaf, Closed, Unshared, Separate, Nested;
      if key in store[current] && store[current][key].Map? {
        nested := store[current][key].ref;
        NestedAlready(store, current, key);
      } else {
        nested := MakeNested(current, key, q, other);
      }
    }

    /** Walks the body; a body that is no map may first be replaced by what its text parses to. */
    method Get(keys: Path, parsed: Any) returns (found: Found)
      requires Valid() && Closed(store, parsed)
      ensures body.Map? || keys == [] ==> found == Walk(store, body, keys)
      ensures !body.Map? && keys != [] ==> found == if parsed.Map? then Walk(store, parsed, keys) else Missing
    {
      hide Walk, Closed;
      if keys != [] && !body.Map? {
        NothingInside(store, body);
      }
      var currentValue := if |keys| > 0 && !body.Map? && parsed.Map? then parsed else body;
      ghost var start := currentValue;
      WalkRoot(store, start);
      for i := 0 to |keys|
        invariant Walk(store, start, keys[..i]) == Value(currentValue)
      {
        OneStep(store, start, keys, i);
        if !currentValue.Map? || keys[i] !in store[currentValue.ref] {
          return Missing;
        }
        currentValue := store[currentValue.ref][keys[i]];
      }
      assert keys[..|keys|] == keys;
      found := Value(currentValue);
    }

    /** The body's map, or a new one in place of a body that is none. */
    method RootMap(ghost other: Any) returns (current: nat)
      requires Valid()
      modifies this
      ensures Valid() && body == Map(current) && current in store
      ensures forall r :: r in old(store) ==> r in store && store[r] == old(store[r])
      ensures old(body.Map?) ==> body == old(body) && store == old(store)
      ensures old(Tree()) ==> Tree()
      ensures old(Separate(store, body, other)) ==> Kept(old(store), other)
      ensures forall p :: p != [] ==> Walk(store, body, p) == old(Walk(store, body, p))
    {
      if body.Map? {
        current := body.ref;
      } else {
        current := NewMap(other);
        EmptyTree(store, current);
        NothingInside(store, body);
        body := Map(current);
      }
    }

    /** The loop shared by `Set` and `Merge`: makes every step of `keys` a map. */
    method OpenPath(start: nat, keys: Path, ghost other: Any) returns (current: nat)
      requires Valid() && body == Map(start) && start in store
      modifies this`store, this`next
      ensures Valid() && current in store && OpenedTo(old(store), store, body, keys, current)
      ensures Walk(store, body, keys) == Value(Map(current)) && old(store).Keys <= store.Keys
      ensures old(Tree()) ==>
                && Tree()
                && (forall p :: !(p <= keys) || IsMap(old(Walk(store, body, p))) ==>
                      Walk(store, body, p) == old(Walk(store, body, p)))
                && (old(Separate(store, body, other)) ==> Kept(old(store), other))
    {
      hide Walk, Closed, Unshared, Separate, OpenedTo, Nested;
      current := start;
      WalkRoot(store, body);
      OpenedNothing(store, body);
      ghost var tree := Tree();
      for i := 0 to |keys|
        invariant Valid() && current in store && OpenedTo(old(store), store, body, keys[..i], current)
        invariant Walk(store, body, keys[..i]) == Value(Map(current)) && old(store).Keys <= store.Keys
        invariant tree ==> Tree()
        invariant tree ==> forall p :: !(p <= keys) || IsMap(old(Walk(store, body, p))) ==>
                                         Walk(store, body, p) == old(Walk(store, body, p))
        invariant tree ==> forall p :: keys[..i] < p ==> Walk(store, body, p) == old(Walk(store, body, p))
        invariant tree && old(Separate(store, body, other)) ==> Kept(old(store), other)
      {
        assert keys[..i + 1] == keys[..i] + [keys[i]];
        ghost var before, m := store, current;
        current := GetNestedMap(current, keys[i], keys[..i], other);
        OpenedMore(old(store), before, body, keys[..i], m, store, keys[i], current);
        OpenedLeads(old(store), store, body, keys[..i + 1], current);
        NestedGrows(before, store, m, keys[i], current);
      }
      assert keys[..|keys|] == keys;
    }

    /** Writes a value at `keys`; a map is merged instead. */
    method Set(keys: Path, value: Any)
      requires Valid() && (value.Map? ==> Closed(store, value))
      modifies this
      ensures Valid()
      ensures !value.Map? && keys != [] && old(body.Map?) ==>
                body == old(body) && exists d, m :: SetExactly(old(store), store, body, keys, value, d, m)
      ensures !value.Map? && (old(Tree()) || !old(body.Map?)) ==>
                Tree() && Replaced(old(store), old(body), store, body, keys, value)
      ensures value.Map? && old(body.Map?) ==>
                body == old(body) && exists mid, r :: Merges(old(store), mid, store, body, keys, value.ref, r)
      ensures value.Map? && old(Tree() && Separate(store, body, value)) ==>
                Tree() && Overlaid(old(store), old(body), store, body, keys, value)
    {
      hide Walk, Closed, Unshared, Separate, Replaced, Overlaid, SetExactly, Merges;
      if value.Map? {
        ghost var mid, r := Merge(keys, value.ref);
      } else {
        SetLeaf(keys, value);
      }
    }

    method SetLeaf(keys: Path, value: Any)
      requires Valid() && !value.Map?
      modifies this
      ensures Valid()
      ensures keys != [] && old(body.Map?) ==>
                body == old(body) && exists d, m :: SetExactly(old(store), store, body, keys, value, d, m)
      ensures old(Tree()) || !old(body.Map?) ==> Tree() && Replaced(old(store), old(body), store, body, keys, value)
    {
      NoMapIsTree(store, body);
      if keys == [] {
        NothingInside(store, value);
        NoMapIsTree(store, value);
        body := value;
        return;
      }
      NoMapIsLeaf(value);
      hide Walk, Closed, Unshared, Separate, Replaced, OpenedTo, SetExactly, Leaf;
      ghost var tree := Tree();
      var n := |keys| - 1;
      var current := RootMap(Nil);
      ghost var s1 := store;
      current := OpenPath(current, keys[..n], Nil);
      ghost var s2 := store;
      assert keys[..n] + [keys[n]] == keys;
      Put(current, keys[n], value, keys[..n], Nil);
      if old(body.Map?) {
        SetReaches(old(store), s2, store, body, keys, value, current);
      }
      if tree {
        ReplacedAfter(old(store), old(body), s1, s2, store, body, keys, value);
      }
    }

    /** The loop of `Merge`: the entries of one map are written into another. */
    method CopyEntries(current: nat, given: nat)
      requires current in store && given in store
      modifies this`store
      ensures store == old(store)[current := old(store[current]) + old(store[given])]
    {
      var values := store[given];
      ghost var base := store;
      var rest := values.Keys;
      while rest != {}
        invariant rest <= values.Keys && current in store && store == base[current := store[current]]
        invariant store[current].Keys == base[current].Keys + (values.Keys - rest)
        invariant forall k :: k in store[current] ==>
                    store[current][k] == if k in values && k !in rest then values[k] else base[current][k]
        decreases rest
      {
        var key :| key in rest;
        rest := rest - {key};
        store := store[current := store[current][key := values[key]]];
      }
      assert store[current] == base[current] + values;
    }

    /** Writes the entries of the map `given` into the map at `keys`: `mid` is the store after the path was opened,
        `r` the map it led to. */
    method Merge(keys: Path, given: nat) returns (ghost mid: Store, ghost r: nat)
      requires Valid() && Closed(store, Map(given))
      modifies this
      ensures Valid()
      ensures old(body.Map?) ==> body == old(body) && Merges(old(store), mid, store, body, keys, given, r)
      ensures old(Tree() && Separate(store, body, Map(given))) ==>
                Tree() && Overlaid(old(store), old(body), store, body, keys, Map(given))
    {
      ghost var separate := Tree() && Separate(store, body, Map(given));
      assert given in store;
      hide Walk, Closed, Unshared, Separate, Overlaid, OpenedTo;
      var current := RootMap(Map(given));
      ghost var s1 := store;
      current := OpenPath(current, keys, Map(given));
      mid, r := store, current;
      CopyEntries(current, given);
      MergeClosed(mid, body, current, given, store);
      MergeReaches(mid, store, body, r, mid[given]);
      if separate {
        MergeWritten(mid, body, keys, given, store);
        OverlaidAfter(old(store), old(body), s1, mid, store, body, keys, given);
      }
    }

    /** Removes what is at `keys` and returns it. */
    method Delete(keys: Path) returns (found: Found)
      requires Valid()
      modifies this`body, this`store
      ensures Valid() && found == old(Walk(store, body, keys))
      ensures keys == [] ==> body == Nil
      ensures keys != [] && found.Missing? ==> body == old(body) && store == old(store)
      ensures keys != [] && found.Value? ==>
                body == old(body)
                && exists m :: old(Walk(store, body, keys[..|keys| - 1])) == Value(Map(m))
                               && DeletedExactly(old(store), store, body, m, keys[|keys| - 1])
      ensures old(Tree()) ==> Tree()
      ensures keys != [] && old(Tree()) ==>
                forall p :: Walk(store, body, p) == if keys <= p then Missing else old(Walk(store, body, p))
    {
      if keys == [] {
        found := Value(body);
        body := Nil;
        NoMapIsTree(store, body);
        return;
      }
      hide Walk, Closed, Unshared, DeletedExactly;
      var currentValue := body;
      WalkRoot(store, body);
      for i := 0 to |keys|
        invariant Walk(store, body, keys[..i]) == Value(currentValue) && body == old(body) && store == old(store)
        invariant i < |keys|
      {
        OneStep(store, body, keys, i);
        if !currentValue.Map? {
          break;
        }
        var current := currentValue.ref;
        if keys[i] !in store[current] {
          break;
        }
        currentValue := store[current][keys[i]];
        if i == |keys| - 1 {
          assert keys[..i + 1] == keys && keys[..i] + [keys[i]] == keys;
          ghost var t := store[current := store[current] - {keys[i]}];
          DeleteReaches(store, t, body, current, keys[i]);
          RemovedClosed(store, body, current, keys[i], t);
          if Tree() {
            Removed(store, body, keys[..i], keys[i], t);
          }
          store := store[current := store[current] - {keys[i]}];
          return Value(currentValue);
        }
      }
      found := Missing;
      AbsentBelow(store, body, keys);
    }

    /** Deleting what was just set in a tree gives it back and leaves the path absent. */
    method SetThenDelete(keys: Path, value: Any) returns (found: Found)
      requires Valid() && Tree() && !value.Map? && keys != []
      modifies this
      ensures Valid() && Tree() && found == Value(value) && Walk(store, body, keys) == Missing
      ensures forall p :: !(p <= keys) && !(keys <= p) ==> Walk(store, body, p) == old(Walk(store, body, p))
    {
      hide Closed, Unshared, Walk, SetExactly, DeletedExactly;
      Set(keys, value);
      found := Delete(keys);
    }
  }

  /** The path `keys` was opened to map `r`, and the entries of map `given` were written there. */
  ghost predicate Merges(s: Store, mid: Store, t: Store, a: Any, keys: Path, given: nat, r: nat) {
    OpenedTo(s, mid, a, keys, r) && given in mid && MergedExactly(mid, t, a, r, mid[given])
  }

  lemma EntryInStore(s: Store, a: Any, m: nat, key: string)
    requires Closed(s, a) && m in s
    ensures key in s[m] && s[m][key].Map? ==> s[m][key].ref in s
  {
  }

  lemma NestedAlready(s: Store, m: nat, key: string)
    requires m in s && key in s[m] && s[m][key].Map?
    ensures Nested(s, s, m, key, s[m][key].ref)
  {
  }

  lemma PutOnce(s: Store, m: nat, key: string, r: nat, t: Store)
    requires m in s && (key in s[m] ==> !s[m][key].Map?) && r !in s && t == s[r := map[]][m := s[m][key := Map(r)]]
    ensures Nested(s, t, m, key, r)
  {
  }

  lemma PutTwice(s: Store, m: nat, key: string, e: nat, s1: Store, r: nat, t: Store)
    requires m in s && key !in s[m] && e !in s && s1 == s[e := map[]][m := s[m][key := Map(e)]]
    requires r !in s1 && t == s1[r := map[]][m := s1[m][key := Map(r)]]
    ensures Nested(s, t, m, key, r)
  {
    assert t[m] == s[m][key := Map(r)];
  }

  lemma NestedGrows(s: Store, t: Store, m: nat, key: string, r: nat)
    requires Nested(s, t, m, key, r)
    ensures s.Keys <= t.Keys
  {
  }

  lemma NoMapIsTree(s: Store, a: Any)
    ensures !a.Map? ==> Unshared(s, a)
  {
    if !a.Map? {
      NothingInside(s, a);
      assert Walk(s, a, []) == Value(a);
      hide Walk;
    }
  }

  lemma NoMapIsLeaf(x: Any)
    requires !x.Map?
    ensures forall s, a :: Leaf(s, a, x)
  {
  }

  lemma MergeClosed(s: Store, a: Any, m: nat, given: nat, t: Store)
    requires Closed(s, a) && m in s && given in s && t == s[m := s[m] + s[given]]
    ensures Closed(t, a)
  {
  }

  lemma RemovedClosed(s: Store, a: Any, m: nat, key: string, t: Store)
    requires Closed(s, a) && m in s && t == s[m := s[m] - {key}]
    ensures Closed(t, a)
  {
  }

  /** A non-map value was set at `keys`: it is there, with nothing below; the steps to it are maps, those that were maps
      already being the same ones; every other path leads where it did. */
  ghost predicate Replaced(s: Store, a: Any, t: Store, b: Any, keys: Path, value: Any) {
    forall p ::
      if p == keys then Walk(t, b, p) == Value(value)
      else if keys <= p then Walk(t, b, p) == Missing
      else if p <= keys then IsMap(Walk(t, b, p)) && (IsMap(Walk(s, a, p)) ==> Walk(t, b, p) == Walk(s, a, p))
      else Walk(t, b, p) == Walk(s, a, p)
  }

  /** The map `given` was overlaid on the map at `keys`: a path below leads where it did from `given` when it starts
      with one of its keys, and else where it did before. */
  ghost predicate Overlaid(s: Store, a: Any, t: Store, b: Any, keys: Path, given: Any)
    requires given.Map? && given.ref in s
  {
    forall p ::
      if p <= keys then IsMap(Walk(t, b, p)) && (IsMap(Walk(s, a, p)) ==> Walk(t, b, p) == Walk(s, a, p))
      else if Below(keys, s[given.ref].Keys, p) then Walk(t, b, p) == Walk(s, given, p[|keys|..])
      else Walk(t, b, p) == Walk(s, a, p)
  }

  /** A path opened up to `keys`: its steps are maps, the old ones where there were any; all else leads where it did. */
  ghost predicate Opened(s: Store, a: Any, s1: Store, s2: Store, b: Any, keys: Path) {
    && IsMap(Walk(s2, b, keys))
    && (a.Map? ==> b == a && s1 == s) && (forall p :: p != [] ==> Walk(s1, b, p) == Walk(s, a, p))
    && forall p :: !(p <= keys) || IsMap(Walk(s1, b, p)) ==> Walk(s2, b, p) == Walk(s1, b, p)
  }

  lemma OpenedWalks(s: Store, a: Any, s1: Store, s2: Store, b: Any, keys: Path, p: Path)
    requires Opened(s, a, s1, s2, b, keys)
    ensures if p <= keys then IsMap(Walk(s2, b, p)) && (IsMap(Walk(s, a, p)) ==> Walk(s2, b, p) == Walk(s, a, p))
            else Walk(s2, b, p) == Walk(s, a, p)
  {
    StepsAreMaps(s2, b, keys);
    assert p <= keys && |p| == |keys| ==> p == keys;
    if p == [] {
      assert Walk(s, a, []) == Value(a);
    }
    hide Walk;
  }

  lemma ReplacedAfter(s: Store, a: Any, s1: Store, s2: Store, t: Store, b: Any, keys: Path, value: Any)
    requires keys != [] && Opened(s, a, s1, s2, b, keys[..|keys| - 1])
    requires forall p :: Walk(t, b, p) == if p == keys then Value(value) else if keys <= p then Missing
               else Walk(s2, b, p)
    ensures Replaced(s, a, t, b, keys, value)
  {
    hide Walk, Opened;
    var q := keys[..|keys| - 1];
    forall p
      ensures !(keys <= p) && p <= keys ==>
                IsMap(Walk(t, b, p)) && (IsMap(Walk(s, a, p)) ==> Walk(t, b, p) == Walk(s, a, p))
      ensures !(keys <= p) && !(p <= keys) ==> Walk(t, b, p) == Walk(s, a, p)
    {
      OpenedWalks(s, a, s1, s2, b, q, p);
      assert q <= keys;
      assert p <= keys && !(keys <= p) ==> p <= q;
    }
  }

  lemma OverlaidAfter(s: Store, a: Any, s1: Store, s2: Store, t: Store, b: Any, keys: Path, m: nat)
    requires m in s && m in s2 && Opened(s, a, s1, s2, b, keys) && forall u :: Walk(s2, Map(m), u) == Walk(s, Map(m), u)
    requires forall p :: Walk(t, b, p) == if Below(keys, s2[m].Keys, p) then Walk(s2, Map(m), p[|keys|..])
               else Walk(s2, b, p)
    ensures Overlaid(s, a, t, b, keys, Map(m))
  {
    SameKeys(s, s2, m);
    hide Walk, Opened;
    forall p
      ensures if p <= keys then IsMap(Walk(t, b, p)) && (IsMap(Walk(s, a, p)) ==> Walk(t, b, p) == Walk(s, a, p))
              else if Below(keys, s[m].Keys, p) then Walk(t, b, p) == Walk(s, Map(m), p[|keys|..])
              else Walk(t, b, p) == Walk(s, a, p)
    {
      OpenedWalks(s, a, s1, s2, b, keys, p);
    }
  }
}
