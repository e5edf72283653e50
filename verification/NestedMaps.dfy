/** Nested maps held by reference, as in the program: a `Store` holds the contents of each, and `Walk` follows keys
    through it. What a write in one map does to the walks from a body that is a tree is proved here. */
module NestedMaps {

  /** What a body, or an entry of a map, may be. */
  datatype Any = Nil | Scalar(id: nat) | Map(ref: nat)

  type Store = map<nat, map<string, Any>>

  type Path = seq<string>

  datatype Found = Missing | Value(value: Any)

  function Step(s: Store, f: Found, key: string): Found {
    if f.Value? && f.value.Map? && f.value.ref in s && key in s[f.value.ref] then Value(s[f.value.ref][key])
      else Missing
  }

  function Walk(s: Store, a: Any, p: Path): Found {
    if p == [] then Value(a) else Step(s, Walk(s, a, p[..|p| - 1]), p[|p| - 1])
  }

  predicate IsMap(f: Found) { f.Value? && f.value.Map? }

  /** Every map that is mentioned exists. */
  predicate Closed(s: Store, a: Any) {
    (a.Map? ==> a.ref in s) && forall r, k :: r in s && k in s[r] && s[r][k].Map? ==> s[r][k].ref in s
  }

  /** No map is reached along two paths: the body is a tree. */
  ghost predicate Unshared(s: Store, a: Any) {
    forall p, q :: IsMap(Walk(s, a, p)) && Walk(s, a, p) == Walk(s, a, q) ==> p == q
  }

  /** No map is reached from both. */
  ghost predicate Apart(s: Store, a: Any, b: Any) {
    forall p, q :: IsMap(Walk(s, a, p)) ==> Walk(s, a, p) != Walk(s, b, q)
  }

  lemma {:induction false} WalkAppend(s: Store, a: Any, p: Path, q: Path)
    ensures Walk(s, a, p + q) == if Walk(s, a, p).Value? then Walk(s, Walk(s, a, p).value, q) else Missing
  {
    if q == [] {
      assert p + q == p;
    } else {
      assert (p + q)[..|p + q| - 1] == p + q[..|q| - 1];
      WalkAppend(s, a, p, q[..|q| - 1]);
    }
  }

  lemma {:induction false} WalkClosed(s: Store, a: Any, p: Path)
    requires Closed(s, a)
    ensures IsMap(Walk(s, a, p)) ==> Walk(s, a, p).value.ref in s
  {
  }

  // ---- Writing in one map -------------------------------------------------------------------------------------

  /** From `s` to `t` only the entries `keys` of map `r` may have changed; maps may have been added. */
  ghost predicate Touches(s: Store, t: Store, r: nat, keys: set<string>) {
    && r in s && r in t
    && (forall o :: o in s && o != r ==> o in t && t[o] == s[o])
    && (forall k :: k !in keys ==> (k in s[r] <==> k in t[r]) && (k in s[r] ==> t[r][k] == s[r][k]))
  }

  /** The path leads through one of `keys` of the map at `q`. */
  predicate Below(q: Path, keys: set<string>, p: Path) { q < p && p[|q|] in keys }

  /** `t` is `s` after writing entries `keys` of the map at path `q` of the tree at `a`. */
  ghost predicate Write(s: Store, t: Store, a: Any, q: Path, keys: set<string>) {
    Closed(s, a) && Unshared(s, a) && IsMap(Walk(s, a, q)) && Touches(s, t, Walk(s, a, q).value.ref, keys)
  }

  /** A write is seen only below the entries written. */
  lemma {:induction false} Elsewhere(s: Store, t: Store, a: Any, q: Path, keys: set<string>, p: Path)
    requires Write(s, t, a, q, keys) && !Below(q, keys, p)
    ensures Walk(t, a, p) == Walk(s, a, p)
  {
    if p != [] {
      var p0, k := p[..|p| - 1], p[|p| - 1];
      Elsewhere(s, t, a, q, keys, p0);
      WalkClosed(s, a, p0);
      if Walk(s, a, p0) == Walk(s, a, q) {
        assert p0 == q && p == q + [k];
      }
    }
  }

  /** Below an entry written, the walk goes on from what was written. */
  lemma Through(s: Store, t: Store, a: Any, q: Path, keys: set<string>, key: string, rest: Path)
    requires Write(s, t, a, q, keys)
    ensures Walk(s, a, q).value.ref in t
    ensures var m := t[Walk(s, a, q).value.ref];
            Walk(t, a, q + [key] + rest) == if key in m then Walk(t, m[key], rest) else Missing
  {
    Elsewhere(s, t, a, q, keys, q);
    assert (q + [key])[..|q|] == q;
    WalkAppend(t, a, q + [key], rest);
  }

  lemma WalkAfter(s: Store, t: Store, a: Any, q: Path, keys: set<string>, p: Path)
    requires Write(s, t, a, q, keys)
    ensures Walk(s, a, q).value.ref in t
    ensures var m := t[Walk(s, a, q).value.ref];
            Walk(t, a, p) == if !Below(q, keys, p) then Walk(s, a, p)
                             else if p[|q|] in m then Walk(t, m[p[|q|]], p[|q| + 1..]) else Missing
  {
    if Below(q, keys, p) {
      assert p == q + [p[|q|]] + p[|q| + 1..];
      Through(s, t, a, q, keys, p[|q|], p[|q| + 1..]);
    } else {
      Elsewhere(s, t, a, q, keys, p);
    }
  }

  /** What a write needs to leave a tree a tree: what was written are trees, apart from each other and from the rest. */
  ghost predicate Grafts(s: Store, t: Store, a: Any, q: Path, keys: set<string>, m: map<string, Any>) {
    && (forall k, l, u, v ::
          (k in keys && k in m && l in keys && l in m
           && IsMap(Walk(t, m[k], u)) && Walk(t, m[k], u) == Walk(t, m[l], v))
          ==> k == l && u == v)
    && (forall k, p, u :: k in keys && k in m && !Below(q, keys, p) && IsMap(Walk(s, a, p)) ==>
          Walk(s, a, p) != Walk(t, m[k], u))
  }

  lemma GraftsApart(s: Store, t: Store, a: Any, q: Path, keys: set<string>, m: map<string, Any>, k: string, l: string,
                    u: Path, v: Path)
    requires Grafts(s, t, a, q, keys, m) && k in keys && k in m && l in keys && l in m
    requires IsMap(Walk(t, m[k], u)) && Walk(t, m[k], u) == Walk(t, m[l], v)
    ensures k == l && u == v
  {
    hide Walk;
  }

  lemma GraftsOutside(s: Store, t: Store, a: Any, q: Path, keys: set<string>, m: map<string, Any>, k: string,
                      p: Path, u: Path)
    requires Grafts(s, t, a, q, keys, m) && k in keys && k in m && !Below(q, keys, p) && IsMap(Walk(s, a, p))
    ensures Walk(s, a, p) != Walk(t, m[k], u)
  {
    hide Walk, Below;
  }

  lemma PairKept(s: Store, t: Store, a: Any, q: Path, keys: set<string>, p: Path, o: Path)
    requires Write(s, t, a, q, keys) && Walk(s, a, q).value.ref in t
             && Grafts(s, t, a, q, keys, t[Walk(s, a, q).value.ref])
    requires IsMap(Walk(t, a, p)) && Walk(t, a, p) == Walk(t, a, o)
    ensures p == o
  {
    var m := t[Walk(s, a, q).value.ref];
    hide Walk, Write, Grafts;
    WalkAfter(s, t, a, q, keys, p);
    WalkAfter(s, t, a, q, keys, o);
    if Below(q, keys, p) && Below(q, keys, o) {
      BothBelow(s, t, a, q, keys, m, p, o);
    } else if Below(q, keys, p) {
      GraftsOutside(s, t, a, q, keys, m, p[|q|], o, p[|q| + 1..]);
    } else if Below(q, keys, o) {
      GraftsOutside(s, t, a, q, keys, m, o[|q|], p, o[|q| + 1..]);
    } else {
      NotBelow(s, t, a, q, keys, p, o);
    }
  }

  lemma BothBelow(s: Store, t: Store, a: Any, q: Path, keys: set<string>, m: map<string, Any>, p: Path, o: Path)
    requires Grafts(s, t, a, q, keys, m) && Below(q, keys, p) && Below(q, keys, o) && p[|q|] in m && o[|q|] in m
    requires IsMap(Walk(t, m[p[|q|]], p[|q| + 1..]))
    requires Walk(t, m[p[|q|]], p[|q| + 1..]) == Walk(t, m[o[|q|]], o[|q| + 1..])
    ensures p == o
  {
    hide Walk;
    GraftsApart(s, t, a, q, keys, m, p[|q|], o[|q|], p[|q| + 1..], o[|q| + 1..]);
    assert p == q + [p[|q|]] + p[|q| + 1..] && o == q + [o[|q|]] + o[|q| + 1..];
  }

  lemma NotBelow(s: Store, t: Store, a: Any, q: Path, keys: set<string>, p: Path, o: Path)
    requires Write(s, t, a, q, keys) && Walk(t, a, p) == Walk(s, a, p) && Walk(t, a, o) == Walk(s, a, o)
    requires IsMap(Walk(t, a, p)) && Walk(t, a, p) == Walk(t, a, o)
    ensures p == o
  {
    hide Walk;
  }

  lemma UnsharedKept(s: Store, t: Store, a: Any, q: Path, keys: set<string>)
    requires Write(s, t, a, q, keys) && Walk(s, a, q).value.ref in t
             && Grafts(s, t, a, q, keys, t[Walk(s, a, q).value.ref])
    ensures Unshared(t, a)
  {
    hide Write, Grafts, Walk;
    forall p, o | IsMap(Walk(t, a, p)) && Walk(t, a, p) == Walk(t, a, o)
      ensures p == o
    {
      PairKept(s, t, a, q, keys, p, o);
    }
  }

  // ---- Leaves -------------------------------------------------------------------------------------------------

  /** Nothing is below a value that is no map, or an empty one. */
  lemma {:induction false} NothingBelow(s: Store, a: Any, rest: Path)
    requires rest != [] && (a.Map? && a.ref in s ==> s[a.ref] == map[])
    ensures Walk(s, a, rest) == Missing
  {
    if |rest| > 1 {
      NothingBelow(s, a, rest[..|rest| - 1]);
    } else {
      assert rest[..0] == [];
    }
  }

  /** A value with nothing below it: no map, or a map that is empty and not part of the tree. */
  ghost predicate Leaf(s: Store, a: Any, x: Any) {
    x.Map? ==> x.ref in s && s[x.ref] == map[] && forall p :: Walk(s, a, p) != Value(x)
  }

  lemma LeafIsWrite(s: Store, a: Any, q: Path, key: string, x: Any, t: Store)
    requires Closed(s, a) && Unshared(s, a) && IsMap(Walk(s, a, q)) && Leaf(s, a, x) && Walk(s, a, q).value.ref in s
    requires t == s[Walk(s, a, q).value.ref := s[Walk(s, a, q).value.ref][key := x]]
    ensures Write(s, t, a, q, {key}) && Closed(t, a) && (x.Map? ==> x.ref in t && t[x.ref] == map[])
  {
    assert x.Map? ==> Walk(s, a, q) != Value(x);
    hide Walk, Unshared;
  }

  lemma LeafWalk(t: Store, x: Any, u: Path)
    requires x.Map? ==> x.ref in t && t[x.ref] == map[]
    ensures Walk(t, x, u) == if u == [] then Value(x) else Missing
  {
  }

  lemma LeafGrafts(s: Store, t: Store, a: Any, q: Path, key: string, x: Any, m: map<string, Any>)
    requires Leaf(s, a, x) && key in m && m[key] == x && (x.Map? ==> x.ref in t && t[x.ref] == map[])
    ensures Grafts(s, t, a, q, {key}, m)
  {
    forall u
      ensures Walk(t, x, u) == if u == [] then Value(x) else Missing
    {
      LeafWalk(t, x, u);
    }
    hide Walk;
  }

  /** Writing a leaf: below the entry there is the leaf and nothing else, and all other paths are as before. */
  lemma LeafWritten(s: Store, a: Any, q: Path, key: string, x: Any, t: Store)
    requires Closed(s, a) && Unshared(s, a) && IsMap(Walk(s, a, q)) && Leaf(s, a, x) && Walk(s, a, q).value.ref in s
    requires t == s[Walk(s, a, q).value.ref := s[Walk(s, a, q).value.ref][key := x]]
    ensures Closed(t, a) && Unshared(t, a)
    ensures forall p :: Walk(t, a, p) == if p == q + [key] then Value(x) else if q + [key] <= p then Missing
              else Walk(s, a, p)
  {
    LeafIsWrite(s, a, q, key, x, t);
    hide Walk, Closed, Unshared, Write, Grafts, Leaf;
    LeafGrafts(s, t, a, q, key, x, t[Walk(s, a, q).value.ref]);
    UnsharedKept(s, t, a, q, {key});
    forall p
      ensures Walk(t, a, p) == if p == q + [key] then Value(x) else if q + [key] <= p then Missing else Walk(s, a, p)
    {
      WalkAfter(s, t, a, q, {key}, p);
      BelowOne(q, key, p);
      if q + [key] <= p {
        LeafWalk(t, x, p[|q| + 1..]);
      }
    }
  }

  lemma BelowOne(q: Path, key: string, p: Path)
    ensures Below(q, {key}, p) <==> q + [key] <= p
    ensures q + [key] <= p ==> |p| > |q| && p[|q|] == key && (p[|q| + 1..] == [] <==> p == q + [key])
  {
  }

  /** A new map is not reached from anywhere. */
  lemma Allocated(s: Store, a: Any, ref: nat)
    requires Closed(s, a) && ref !in s
    ensures Closed(s[ref := map[]], a) && forall p :: Walk(s[ref := map[]], a, p) == Walk(s, a, p) != Value(Map(ref))
  {
    forall p
      ensures Walk(s[ref := map[]], a, p) == Walk(s, a, p) != Value(Map(ref))
    {
      AllocatedAt(s, a, ref, p);
      WalkClosed(s, a, p);
    }
  }

  lemma SameWalks(s: Store, t: Store, a: Any)
    requires Unshared(s, a) && forall p :: Walk(t, a, p) == Walk(s, a, p)
    ensures Unshared(t, a)
  {
    hide Walk;
  }

  lemma {:induction false} AllocatedAt(s: Store, a: Any, ref: nat, p: Path)
    requires Closed(s, a) && ref !in s
    ensures Walk(s[ref := map[]], a, p) == Walk(s, a, p)
  {
    if p != [] {
      AllocatedAt(s, a, ref, p[..|p| - 1]);
      WalkClosed(s, a, p[..|p| - 1]);
    }
  }

  // ---- A second tree ------------------------------------------------------------------------------------------

  /** `b` is a tree of its own, sharing no map with the one at `a`. */
  ghost predicate Separate(s: Store, a: Any, b: Any) { Closed(s, b) && Unshared(s, b) && Apart(s, a, b) }

  /** A write in a map that a tree does not reach is not seen from it. */
  lemma {:induction false} Untouched(s: Store, t: Store, r: nat, keys: set<string>, b: Any, u: Path)
    requires Closed(s, b) && Touches(s, t, r, keys) && forall p :: p <= u ==> Walk(s, b, p) != Value(Map(r))
    ensures Walk(t, b, u) == Walk(s, b, u)
  {
    if u != [] {
      var u0 := u[..|u| - 1];
      Untouched(s, t, r, keys, b, u0);
      WalkClosed(s, b, u0);
      assert u0 <= u;
    }
  }

  lemma SeparateUntouched(s: Store, t: Store, a: Any, q: Path, keys: set<string>, b: Any)
    requires Write(s, t, a, q, keys) && Separate(s, a, b)
    ensures forall u :: Walk(t, b, u) == Walk(s, b, u)
  {
    forall u
      ensures Walk(t, b, u) == Walk(s, b, u)
    {
      forall p | p <= u
        ensures Walk(s, b, p) != Walk(s, a, q)
      {
      }
      Untouched(s, t, Walk(s, a, q).value.ref, keys, b, u);
    }
  }

  lemma LeafSeparate(s: Store, a: Any, q: Path, key: string, x: Any, t: Store, b: Any)
    requires Closed(s, a) && Unshared(s, a) && IsMap(Walk(s, a, q)) && Leaf(s, a, x) && Walk(s, a, q).value.ref in s
    requires t == s[Walk(s, a, q).value.ref := s[Walk(s, a, q).value.ref][key := x]]
    requires Separate(s, a, b) && Leaf(s, b, x)
    ensures Separate(t, a, b) && forall u :: Walk(t, b, u) == Walk(s, b, u)
  {
    assert Write(s, t, a, q, {key});
    SeparateUntouched(s, t, a, q, {key}, b);
    LeafWritten(s, a, q, key, x, t);
    assert Closed(t, b);
    hide Closed, Write, Walk;
    SameWalks(s, t, b);
    forall p, u | IsMap(Walk(t, a, p))
      ensures Walk(t, a, p) != Walk(t, b, u)
    {
      assert Walk(t, b, u) == Walk(s, b, u);
    }
  }

  lemma SeparateAllocated(s: Store, a: Any, ref: nat, b: Any)
    requires Closed(s, a) && ref !in s && Separate(s, a, b)
    ensures Separate(s[ref := map[]], a, b) && forall u :: Walk(s[ref := map[]], b, u) == Walk(s, b, u)
    ensures Leaf(s[ref := map[]], b, Map(ref))
  {
    Allocated(s, a, ref);
    Allocated(s, b, ref);
    SameWalks(s, s[ref := map[]], b);
    hide Walk;
    var t := s[ref := map[]];
    forall p, u | IsMap(Walk(t, a, p))
      ensures Walk(t, a, p) != Walk(t, b, u)
    {
      assert Walk(t, a, p) == Walk(s, a, p) && Walk(t, b, u) == Walk(s, b, u);
    }
  }

  // ---- Walks ---------------------------------------------------------------------------------------------------

  lemma StepsAreMaps(s: Store, a: Any, q: Path)
    requires Walk(s, a, q).Value?
    ensures forall p :: p < q ==> IsMap(Walk(s, a, p))
  {
    forall p | p < q
      ensures IsMap(Walk(s, a, p))
    {
      assert q == p + q[|p|..];
      WalkAppend(s, a, p, q[|p|..]);
      if !IsMap(Walk(s, a, p)) && Walk(s, a, p).Value? {
        NothingBelow(s, Walk(s, a, p).value, q[|p|..]);
      }
    }
  }

  /** What is reached from a map tells its keys. */
  lemma SameKeys(s: Store, t: Store, m: nat)
    requires m in s && m in t && forall u :: Walk(t, Map(m), u) == Walk(s, Map(m), u)
    ensures s[m].Keys == t[m].Keys
  {
    forall k
      ensures k in s[m] <==> k in t[m]
    {
      FirstStep(s, m, [k]);
      FirstStep(t, m, [k]);
      assert Walk(t, Map(m), [k]) == Walk(s, Map(m), [k]);
      assert [k][1..] == [];
    }
  }

  /** One step of a walk along `keys`: where it fails, the whole walk does. */
  lemma OneStep(s: Store, a: Any, keys: Path, i: nat)
    requires Closed(s, a) && i < |keys| && Walk(s, a, keys[..i]).Value?
    ensures var v := Walk(s, a, keys[..i]).value;
            && (v.Map? ==> v.ref in s)
            && Walk(s, a, keys[..i + 1])
                 == (if v.Map? && keys[i] in s[v.ref] then Value(s[v.ref][keys[i]]) else Missing)
            && (Walk(s, a, keys[..i + 1]).Missing? ==> Walk(s, a, keys) == Missing)
  {
    hide Walk, Closed;
    WalkClosed(s, a, keys[..i]);
    WalkSnoc(s, a, keys[..i], keys[i]);
    assert keys[..i + 1] == keys[..i] + [keys[i]];
    WalkAppend(s, a, keys[..i + 1], keys[i + 1..]);
    assert keys[..i + 1] + keys[i + 1..] == keys;
  }

  lemma WalkSnoc(s: Store, a: Any, p: Path, key: string)
    ensures Walk(s, a, p + [key]) == Step(s, Walk(s, a, p), key)
  {
    assert (p + [key])[..|p|] == p;
  }

  lemma AbsentBelow(s: Store, a: Any, keys: Path)
    requires Walk(s, a, keys) == Missing
    ensures forall p :: keys <= p ==> Walk(s, a, p) == Missing
  {
    forall p | keys <= p
      ensures Walk(s, a, p) == Missing
    {
      assert p == keys + p[|keys|..];
      WalkAppend(s, a, keys, p[|keys|..]);
    }
  }

  lemma Removed(s: Store, a: Any, q: Path, key: string, t: Store)
    requires Closed(s, a) && Unshared(s, a) && IsMap(Walk(s, a, q)) && Walk(s, a, q).value.ref in s
    requires t == s[Walk(s, a, q).value.ref := s[Walk(s, a, q).value.ref] - {key}]
    ensures Closed(t, a) && Unshared(t, a)
    ensures forall p :: Walk(t, a, p) == if q + [key] <= p then Missing else Walk(s, a, p)
  {
    assert Write(s, t, a, q, {key});
    UnsharedKept(s, t, a, q, {key});
    forall p
      ensures Walk(t, a, p) == if q + [key] <= p then Missing else Walk(s, a, p)
    {
      WalkAfter(s, t, a, q, {key}, p);
      assert Below(q, {key}, p) <==> q + [key] <= p;
    }
  }

  /** The path from a map through one of its keys. */
  lemma FirstStep(s: Store, m: nat, u: Path)
    requires u != [] && m in s
    ensures Walk(s, Map(m), u) == if u[0] in s[m] then Walk(s, s[m][u[0]], u[1..]) else Missing
  {
    assert u == [u[0]] + u[1..] && [u[0]][..0] == [];
    WalkAppend(s, Map(m), [u[0]], u[1..]);
    assert Walk(s, Map(m), []) == Value(Map(m));
  }

  lemma MergeGrafts(s: Store, a: Any, q: Path, m: nat, t: Store, x: map<string, Any>)
    requires m in s && Unshared(s, Map(m)) && Apart(s, a, Map(m))
    requires forall k :: k in s[m] ==> k in x
    requires forall k, u :: k in s[m] ==> Walk(t, x[k], u) == Walk(s, Map(m), [k] + u)
    ensures Grafts(s, t, a, q, s[m].Keys, x)
  {
    hide Walk;
    forall k, l, u, v | k in s[m] && l in s[m] && IsMap(Walk(t, x[k], u)) && Walk(t, x[k], u) == Walk(t, x[l], v)
      ensures k == l && u == v
    {
      assert Walk(t, x[k], u) == Walk(s, Map(m), [k] + u) && Walk(t, x[l], v) == Walk(s, Map(m), [l] + v);
      assert [k] + u == [l] + v;
      assert ([k] + u)[0] == k && ([l] + v)[0] == l && ([k] + u)[1..] == u && ([l] + v)[1..] == v;
    }
  }

  lemma MergeIsWrite(s: Store, a: Any, q: Path, m: nat, t: Store)
    requires Closed(s, a) && Unshared(s, a) && IsMap(Walk(s, a, q)) && Walk(s, a, q).value.ref in s
    requires m in s && Closed(s, Map(m)) && Apart(s, a, Map(m))
    requires t == s[Walk(s, a, q).value.ref := s[Walk(s, a, q).value.ref] + s[m]]
    ensures Write(s, t, a, q, s[m].Keys) && Closed(t, a) && Walk(s, a, q).value.ref != m && m in t && t[m] == s[m]
  {
    assert Walk(s, Map(m), []) == Value(Map(m));
  }

  lemma MergeWritten(s: Store, a: Any, q: Path, m: nat, t: Store)
    requires Closed(s, a) && Unshared(s, a) && IsMap(Walk(s, a, q)) && Walk(s, a, q).value.ref in s
    requires m in s && Separate(s, a, Map(m))
    requires t == s[Walk(s, a, q).value.ref := s[Walk(s, a, q).value.ref] + s[m]]
    ensures Closed(t, a) && Unshared(t, a)
    ensures forall p :: Walk(t, a, p) == if Below(q, s[m].Keys, p) then Walk(s, Map(m), p[|q|..]) else Walk(s, a, p)
  {
    MergeIsWrite(s, a, q, m, t);
    SeparateUntouched(s, t, a, q, s[m].Keys, Map(m));
    var r := Walk(s, a, q).value.ref;
    forall k, u | k in s[m]
      ensures Walk(t, t[r][k], u) == Walk(s, Map(m), [k] + u)
    {
      MergedEntry(s, m, t, t[r], k, u);
    }
    hide Closed, Write, Walk, Apart, Grafts;
    MergeGrafts(s, a, q, m, t, t[r]);
    UnsharedKept(s, t, a, q, s[m].Keys);
    forall p
      ensures Walk(t, a, p) == if Below(q, s[m].Keys, p) then Walk(s, Map(m), p[|q|..]) else Walk(s, a, p)
    {
      MergedWalk(s, a, q, m, t, p);
    }
  }

  lemma MergedEntry(s: Store, m: nat, t: Store, x: map<string, Any>, k: string, u: Path)
    requires m in s && m in t && t[m] == s[m] && k in s[m] && k in x && x[k] == s[m][k]
    requires forall v :: Walk(t, Map(m), v) == Walk(s, Map(m), v)
    ensures Walk(t, x[k], u) == Walk(s, Map(m), [k] + u)
  {
    hide Walk;
    FirstStep(t, m, [k] + u);
    assert ([k] + u)[1..] == u;
  }

  lemma MergedWalk(s: Store, a: Any, q: Path, m: nat, t: Store, p: Path)
    requires m in s && Write(s, t, a, q, s[m].Keys) && Walk(s, a, q).value.ref in t
    requires var r := Walk(s, a, q).value.ref;
             forall k, u :: k in s[m] ==> k in t[r] && Walk(t, t[r][k], u) == Walk(s, Map(m), [k] + u)
    ensures Walk(t, a, p) == if Below(q, s[m].Keys, p) then Walk(s, Map(m), p[|q|..]) else Walk(s, a, p)
  {
    hide Walk, Write;
    WalkAfter(s, t, a, q, s[m].Keys, p);
    if Below(q, s[m].Keys, p) {
      assert p[|q|..] == [p[|q|]] + p[|q| + 1..];
    }
  }

  lemma NothingInside(s: Store, a: Any)
    requires !a.Map?
    ensures forall p :: p != [] ==> Walk(s, a, p) == Missing
  {
    forall p | p != []
      ensures Walk(s, a, p) == Missing
    {
      NothingBelow(s, a, p);
    }
  }

  lemma WalkRoot(s: Store, a: Any)
    ensures Walk(s, a, []) == Value(a)
  {
  }

  lemma EmptyTree(s: Store, r: nat)
    requires r in s && s[r] == map[]
    ensures Unshared(s, Map(r)) && forall p :: p != [] ==> Walk(s, Map(r), p) == Missing
  {
    forall p | p != []
      ensures Walk(s, Map(r), p) == Missing
    {
      NothingBelow(s, Map(r), p);
    }
  }

  lemma KeyOfMap(s: Store, a: Any, q: Path, key: string)
    requires IsMap(Walk(s, a, q)) && Walk(s, a, q).value.ref in s && Closed(s, a)
    ensures Walk(s, a, q + [key]) == if key in s[Walk(s, a, q).value.ref] then Value(s[Walk(s, a, q).value.ref][key])
              else Missing
    ensures IsMap(Walk(s, a, q + [key])) ==> Walk(s, a, q + [key]).value.ref in s
    ensures !IsMap(Walk(s, a, q + [key])) ==> forall p :: q + [key] < p ==> Walk(s, a, p) == Missing
  {
    assert (q + [key])[..|q|] == q;
    if !IsMap(Walk(s, a, q + [key])) {
      forall p | q + [key] < p
        ensures Walk(s, a, p) == Missing
      {
        var rest := p[|q| + 1..];
        assert p == q + [key] + rest;
        WalkAppend(s, a, q + [key], rest);
        if Walk(s, a, q + [key]).Value? {
          NothingBelow(s, Walk(s, a, q + [key]).value, rest);
        }
      }
    }
  }
}
