/** Writes in bodies whose maps may be shared, or may even contain themselves: exactly which paths a write reaches,
    and where they lead afterwards. */
module SharedMaps {
  import opened NestedMaps

  // ---- One write --------------------------------------------------------------------------------------------------

  /** At its step `i` the path goes through one of `keys` of map `r`. */
  predicate At(s: Store, a: Any, r: nat, keys: set<string>, p: Path, i: nat) {
    i < |p| && Walk(s, a, p[..i]) == Value(Map(r)) && p[i] in keys
  }

  predicate Passes(s: Store, a: Any, r: nat, keys: set<string>, p: Path) {
    exists i :: 0 <= i < |p| && At(s, a, r, keys, p, i)
  }

  /** The first step at which it does. */
  predicate FirstAt(s: Store, a: Any, r: nat, keys: set<string>, p: Path, i: nat) {
    At(s, a, r, keys, p, i) && forall j :: 0 <= j < i ==> !At(s, a, r, keys, p, j)
  }

  lemma {:induction false} SomeFirst(s: Store, a: Any, r: nat, keys: set<string>, p: Path, n: nat) returns (i: nat)
    requires n < |p| && At(s, a, r, keys, p, n)
    ensures i <= n && FirstAt(s, a, r, keys, p, i)
  {
    i := n;
    if exists j :: 0 <= j < n && At(s, a, r, keys, p, j) {
      var j :| 0 <= j < n && At(s, a, r, keys, p, j);
      i := SomeFirst(s, a, r, keys, p, j);
    }
  }

  /** A path that does not pass through what was written leads where it did. */
  lemma {:induction false} NotReached(s: Store, t: Store, a: Any, r: nat, keys: set<string>, p: Path)
    requires Closed(s, a) && Touches(s, t, r, keys) && !Passes(s, a, r, keys, p)
    ensures Walk(t, a, p) == Walk(s, a, p)
  {
    if p != [] {
      var n := |p| - 1;
      var p0 := p[..n];
      forall i | 0 <= i < n
        ensures !At(s, a, r, keys, p0, i)
      {
        assert p0[..i] == p[..i] && !At(s, a, r, keys, p, i);
      }
      NotReached(s, t, a, r, keys, p0);
      assert !At(s, a, r, keys, p, n);
      WalkClosed(s, a, p0);
    }
  }

  /** A path that does goes on, where it first does, from what was written. */
  lemma Reached(s: Store, t: Store, a: Any, r: nat, keys: set<string>, p: Path, i: nat)
    requires Closed(s, a) && Touches(s, t, r, keys) && FirstAt(s, a, r, keys, p, i)
    ensures Walk(t, a, p) == if p[i] in t[r] then Walk(t, t[r][p[i]], p[i + 1..]) else Missing
  {
    var q := p[..i];
    forall j | 0 <= j < i
      ensures !At(s, a, r, keys, q, j)
    {
      assert q[..j] == p[..j] && !At(s, a, r, keys, p, j);
    }
    hide Walk, Touches;
    NotReached(s, t, a, r, keys, q);
    assert p == q + p[i..];
    WalkAppend(t, a, q, p[i..]);
    InStore(s, t, r, keys);
    FirstStep(t, r, p[i..]);
  }

  lemma InStore(s: Store, t: Store, r: nat, keys: set<string>)
    requires Touches(s, t, r, keys)
    ensures r in t
  {
  }

  /** A path whose steps are maps does not pass through an entry that is none. */
  lemma EntryNotPassed(s: Store, a: Any, r: nat, key: string, p: Path)
    requires Closed(s, a) && r in s && IsMap(Walk(s, a, p)) && (key in s[r] ==> !s[r][key].Map?)
    ensures !Passes(s, a, r, {key}, p)
  {
    StepsAreMaps(s, a, p);
    forall i | 0 <= i < |p|
      ensures !At(s, a, r, {key}, p, i)
    {
      assert p[..i + 1][..i] == p[..i] && p[..i + 1] <= p;
      assert |p[..i + 1]| == |p| ==> p[..i + 1] == p;
      assert p[..i + 1] < p || p[..i + 1] == p;
      assert IsMap(Walk(s, a, p[..i + 1]));
    }
  }

  // ---- Opening a path ---------------------------------------------------------------------------------------------

  /** From `x` on, new maps of one entry each, along `rest`; `r` is the last, which has none. */
  ghost predicate Chain(s: Store, t: Store, x: Any, rest: Path, r: nat)
    decreases |rest|
  {
    x.Map? && x.ref !in s && x.ref in t
    && if rest == [] then x.ref == r && t[r] == map[]
       else x.ref != r && t[x.ref].Keys == {rest[0]} && Chain(s, t, t[x.ref][rest[0]], rest[1..], r)
  }

  /** `d` steps of the path were maps; from there on, new ones were put in place. */
  ghost predicate OpenedFrom(s: Store, t: Store, a: Any, keys: Path, d: nat, m: nat, r: nat) {
    && d < |keys| && Walk(s, a, keys[..d]) == Value(Map(m)) && m in s && (keys[d] in s[m] ==> !s[m][keys[d]].Map?)
    && Touches(s, t, m, {keys[d]}) && keys[d] in t[m] && Chain(s, t, t[m][keys[d]], keys[d + 1..], r)
  }

  /** The path `keys` leads to map `r` now: nothing was done if it led there, else new maps were put in place. */
  ghost predicate OpenedTo(s: Store, t: Store, a: Any, keys: Path, r: nat) {
    (t == s && Walk(s, a, keys) == Value(Map(r))) || exists d, m :: OpenedFrom(s, t, a, keys, d, m, r)
  }

  /** Along a chain there are maps, up to `r`, and beside it nothing. */
  lemma {:induction false} ChainWalk(s: Store, t: Store, x: Any, rest: Path, r: nat, u: Path)
    requires Chain(s, t, x, rest, r)
    ensures Walk(t, x, rest) == Value(Map(r)) && r !in s && r in t && t[r] == map[]
    ensures if u <= rest then IsMap(Walk(t, x, u)) else Walk(t, x, u) == Missing
    decreases |rest|
  {
    if rest == [] {
      if u != [] {
        NothingBelow(t, x, u);
      }
    } else {
      var next := t[x.ref][rest[0]];
      FirstStep(t, x.ref, rest);
      ChainWalk(s, t, next, rest[1..], r, if u == [] then [] else u[1..]);
      if u != [] {
        FirstStep(t, x.ref, u);
        assert u <= rest <==> u[0] == rest[0] && u[1..] <= rest[1..] by {
          assert rest == [rest[0]] + rest[1..] && u == [u[0]] + u[1..];
        }
      }
    }
  }

  lemma OpenedLeads(s: Store, t: Store, a: Any, keys: Path, r: nat)
    requires Closed(s, a) && OpenedTo(s, t, a, keys, r)
    ensures Walk(t, a, keys) == Value(Map(r))
  {
    hide Walk, Touches, Chain, Closed;
    if !(t == s && Walk(s, a, keys) == Value(Map(r))) {
      var d, m :| OpenedFrom(s, t, a, keys, d, m, r);
      Leads(s, t, a, keys, d, m, r);
    }
  }

  lemma Leads(s: Store, t: Store, a: Any, keys: Path, d: nat, m: nat, r: nat)
    requires Closed(s, a) && OpenedFrom(s, t, a, keys, d, m, r)
    ensures Walk(t, a, keys) == Value(Map(r)) && r !in s && r in t
    ensures Walk(t, a, keys[..d]) == Value(Map(m))
  {
    hide Walk, Touches, Chain, Closed;
    EntryNotPassed(s, a, m, keys[d], keys[..d]);
    NotReached(s, t, a, m, {keys[d]}, keys[..d]);
    assert keys == keys[..d] + keys[d..] && keys[d..][1..] == keys[d + 1..];
    WalkAppend(t, a, keys[..d], keys[d..]);
    InStore(s, t, m, {keys[d]});
    FirstStep(t, m, keys[d..]);
    ChainWalk(s, t, t[m][keys[d]], keys[d + 1..], r, []);
  }

  /** One step more. */
  lemma OpenedNothing(s: Store, a: Any)
    requires a.Map?
    ensures OpenedTo(s, s, a, [], a.ref)
  {
  }

  /** What getNestedMap did in map `m`: nothing when the entry was a map, else it is a new one now. */
  ghost predicate Nested(s: Store, t: Store, m: nat, key: string, r: nat) {
    m in s
    && if key in s[m] && s[m][key].Map? then t == s && r == s[m][key].ref
       else
         && Touches(s, t, m, {key}) && r !in s && r != m && r in t && t[r] == map[]
         && t[m] == s[m][key := Map(r)]
  }

  /** From new maps into new maps. */
  lemma {:induction false} ChainGrows(s: Store, t: Store, x: Any, rest: Path, m: nat, t': Store, key: string, r: nat)
    requires Chain(s, t, x, rest, m) && Nested(t, t', m, key, r) && m in t && t[m] == map[]
    requires forall o :: o in s ==> o in t
    ensures Chain(s, t', x, rest + [key], r)
    decreases |rest|
  {
    if rest == [] {
      assert ([] + [key])[1..] == [];
      assert t[m] == map[] && t'[m] == map[key := Map(r)];
    } else {
      assert (rest + [key])[0] == rest[0] && (rest + [key])[1..] == rest[1..] + [key];
      assert x.ref in t' && t'[x.ref] == t[x.ref] && x.ref != r;
      ChainGrows(s, t, t[x.ref][rest[0]], rest[1..], m, t', key, r);
    }
  }

  lemma OpenedMore(s: Store, t: Store, a: Any, keys: Path, m: nat, t': Store, key: string, r: nat)
    requires Closed(s, a) && OpenedTo(s, t, a, keys, m) && Nested(t, t', m, key, r)
    ensures OpenedTo(s, t', a, keys + [key], r)
  {
    if t == s && Walk(s, a, keys) == Value(Map(m)) {
      WalkSnoc(s, a, keys, key);
      if !(key in s[m] && s[m][key].Map?) {
        var n := |keys|;
        assert (keys + [key])[..n] == keys && (keys + [key])[n] == key && (keys + [key])[n + 1..] == [];
        assert OpenedFrom(s, t', a, keys + [key], n, m, r);
      }
    } else {
      var d, o :| OpenedFrom(s, t, a, keys, d, o, m);
      OpenedFurther(s, t, a, keys, d, o, m, t', key, r);
    }
  }

  lemma OpenedFurther(s: Store, t: Store, a: Any, keys: Path, d: nat, o: nat, m: nat, t': Store, key: string, r: nat)
    requires OpenedFrom(s, t, a, keys, d, o, m) && Nested(t, t', m, key, r)
    ensures OpenedFrom(s, t', a, keys + [key], d, o, r)
  {
    hide Walk;
    ChainWalk(s, t, t[o][keys[d]], keys[d + 1..], m, []);
    ChainGrows(s, t, t[o][keys[d]], keys[d + 1..], m, t', key, r);
    assert (keys + [key])[..d] == keys[..d] && (keys + [key])[d] == keys[d]
           && (keys + [key])[d + 1..] == keys[d + 1..] + [key];
    assert t'[o] == t[o];
  }

  // ---- Setting and deleting ---------------------------------------------------------------------------------------

  /** A value at the end of a chain. */
  lemma {:induction false} ChainEnds(s: Store, o: Store, x: Any, rest: Path, r: nat, key: string, value: Any,
                                     t: Store, u: Path)
    requires Chain(s, o, x, rest, r) && r in o && t == o[r := o[r][key := value]] && !value.Map?
    ensures if u == rest + [key] then Walk(t, x, u) == Value(value)
            else if u < rest + [key] then IsMap(Walk(t, x, u)) else Walk(t, x, u) == Missing
    decreases |rest|
  {
    if u != [] {
      FirstStep(t, x.ref, u);
      assert u == [u[0]] + u[1..];
    }
    if rest == [] {
      assert t[r] == map[key := value];
      if u != [] && u[0] == key {
        LeafWalk(t, value, u[1..]);
      }
    } else {
      assert rest == [rest[0]] + rest[1..] && rest + [key] == [rest[0]] + (rest[1..] + [key]);
      assert t[x.ref] == o[x.ref];
      ChainEnds(s, o, o[x.ref][rest[0]], rest[1..], r, key, value, t, if u == [] then [] else u[1..]);
    }
  }

  /** Where a path leads that goes through the entry under which `value` was put at the end of `rest`. */
  predicate Ends(f: Found, rest: Path, value: Any, u: Path) {
    if u == rest then f == Value(value) else if u < rest then IsMap(f) else f == Missing
  }

  /** `value` was set at `keys`, of which the first `d` led through maps already: exactly the paths through entry
      `keys[d]` of map `m` are affected, and they lead where `keys` does from there. */
  ghost predicate SetExactly(s: Store, t: Store, a: Any, keys: Path, value: Any, d: nat, m: nat) {
    && d < |keys| && Walk(s, a, keys[..d]) == Value(Map(m)) && (d == |keys| - 1 || !IsMap(Walk(s, a, keys[..d + 1])))
    && (forall p :: !Passes(s, a, m, {keys[d]}, p) ==> Walk(t, a, p) == Walk(s, a, p))
    && (forall p, i :: FirstAt(s, a, m, {keys[d]}, p, i) ==> Ends(Walk(t, a, p), keys[d + 1..], value, p[i + 1..]))
  }

  lemma SetReaches(s: Store, o: Store, t: Store, a: Any, keys: Path, value: Any, r: nat)
    requires Closed(s, a) && keys != [] && !value.Map? && OpenedTo(s, o, a, keys[..|keys| - 1], r) && r in o
    requires t == o[r := o[r][keys[|keys| - 1] := value]]
    ensures exists d, m :: SetExactly(s, t, a, keys, value, d, m)
  {
    var n := |keys| - 1;
    if o == s && Walk(s, a, keys[..n]) == Value(Map(r)) {
      SetInPlace(s, t, a, keys, value, r);
    } else {
      var d, m :| OpenedFrom(s, o, a, keys[..n], d, m, r);
      SetOpened(s, o, t, a, keys, value, d, m, r);
    }
  }

  lemma SetInPlace(s: Store, t: Store, a: Any, keys: Path, value: Any, r: nat)
    requires Closed(s, a) && keys != [] && !value.Map? && Walk(s, a, keys[..|keys| - 1]) == Value(Map(r)) && r in s
    requires t == s[r := s[r][keys[|keys| - 1] := value]]
    ensures SetExactly(s, t, a, keys, value, |keys| - 1, r)
  {
    var n := |keys| - 1;
    assert Touches(s, t, r, {keys[n]}) && t[r][keys[n]] == value;
    hide Walk, Closed, Touches, Passes, FirstAt;
    forall p | !Passes(s, a, r, {keys[n]}, p)
      ensures Walk(t, a, p) == Walk(s, a, p)
    {
      NotReached(s, t, a, r, {keys[n]}, p);
    }
    forall p, i | FirstAt(s, a, r, {keys[n]}, p, i)
      ensures Ends(Walk(t, a, p), keys[n + 1..], value, p[i + 1..])
    {
      Reached(s, t, a, r, {keys[n]}, p, i);
      Entry(s, a, r, keys[n], p, i);
      LeafWalk(t, value, p[i + 1..]);
    }
  }

  lemma Entry(s: Store, a: Any, r: nat, key: string, p: Path, i: nat)
    requires FirstAt(s, a, r, {key}, p, i)
    ensures i < |p| && p[i] == key
  {
  }

  lemma SetOpened(s: Store, o: Store, t: Store, a: Any, keys: Path, value: Any, d: nat, m: nat, r: nat)
    requires Closed(s, a) && keys != [] && !value.Map? && OpenedFrom(s, o, a, keys[..|keys| - 1], d, m, r) && r in o
    requires t == o[r := o[r][keys[|keys| - 1] := value]]
    ensures SetExactly(s, t, a, keys, value, d, m)
  {
    var n := |keys| - 1;
    var rest := keys[..n][d + 1..];
    assert keys[..n][..d] == keys[..d] && keys[..n][d] == keys[d] && keys[d + 1..] == rest + [keys[n]];
    ChainWalk(s, o, o[m][keys[d]], rest, r, []);
    assert keys[..d + 1][..d] == keys[..d] && !IsMap(Walk(s, a, keys[..d + 1]));
    assert Touches(s, t, m, {keys[d]}) && t[m] == o[m];
    hide Walk, Closed, Touches, Passes, FirstAt, Chain;
    forall p | !Passes(s, a, m, {keys[d]}, p)
      ensures Walk(t, a, p) == Walk(s, a, p)
    {
      NotReached(s, t, a, m, {keys[d]}, p);
    }
    forall p, i | FirstAt(s, a, m, {keys[d]}, p, i)
      ensures Ends(Walk(t, a, p), keys[d + 1..], value, p[i + 1..])
    {
      Reached(s, t, a, m, {keys[d]}, p, i);
      Entry(s, a, m, keys[d], p, i);
      ChainEnds(s, o, o[m][keys[d]], rest, r, keys[n], value, t, p[i + 1..]);
    }
  }

  /** Entry `key` of map `m` was removed: exactly the paths through it are gone. */
  ghost predicate DeletedExactly(s: Store, t: Store, a: Any, m: nat, key: string) {
    forall p :: Walk(t, a, p) == if Passes(s, a, m, {key}, p) then Missing else Walk(s, a, p)
  }

  lemma DeleteReaches(s: Store, t: Store, a: Any, m: nat, key: string)
    requires Closed(s, a) && m in s && t == s[m := s[m] - {key}]
    ensures DeletedExactly(s, t, a, m, key)
  {
    assert Touches(s, t, m, {key});
    hide Walk, Closed, Touches;
    forall p
      ensures Walk(t, a, p) == if Passes(s, a, m, {key}, p) then Missing else Walk(s, a, p)
    {
      if Passes(s, a, m, {key}, p) {
        var n :| 0 <= n < |p| && At(s, a, m, {key}, p, n);
        var i := SomeFirst(s, a, m, {key}, p, n);
        Reached(s, t, a, m, {key}, p, i);
      } else {
        NotReached(s, t, a, m, {key}, p);
      }
    }
  }

  /** The entries of `x` were written into map `m`: exactly the paths through one of its keys are affected, and go on
      from there. */
  ghost predicate MergedExactly(s: Store, t: Store, a: Any, m: nat, x: map<string, Any>) {
    && (forall p :: !Passes(s, a, m, x.Keys, p) ==> Walk(t, a, p) == Walk(s, a, p))
    && (forall p, i :: FirstAt(s, a, m, x.Keys, p, i) ==> p[i] in x && Walk(t, a, p) == Walk(t, x[p[i]], p[i + 1..]))
  }

  lemma MergeReaches(s: Store, t: Store, a: Any, m: nat, x: map<string, Any>)
    requires Closed(s, a) && m in s && t == s[m := s[m] + x]
    ensures MergedExactly(s, t, a, m, x)
  {
    assert Touches(s, t, m, x.Keys);
    hide Walk, Closed, Touches, Passes;
    forall p | !Passes(s, a, m, x.Keys, p)
      ensures Walk(t, a, p) == Walk(s, a, p)
    {
      NotReached(s, t, a, m, x.Keys, p);
    }
    forall p, i | FirstAt(s, a, m, x.Keys, p, i)
      ensures p[i] in x && Walk(t, a, p) == Walk(t, x[p[i]], p[i + 1..])
    {
      Reached(s, t, a, m, x.Keys, p, i);
    }
  }

  /** What was set can be read back exactly when the steps up to the entry written do not go through it: a map that
      contains itself can be cut off from the body. */
  lemma ReadBackIff(s: Store, t: Store, a: Any, keys: Path, value: Any, d: nat, m: nat)
    requires SetExactly(s, t, a, keys, value, d, m)
    ensures Walk(t, a, keys) == Value(value) <==> !Passes(s, a, m, {keys[d]}, keys[..d])
  {
    assert At(s, a, m, {keys[d]}, keys, d);
    var i := SomeFirst(s, a, m, {keys[d]}, keys, d);
    assert Ends(Walk(t, a, keys), keys[d + 1..], value, keys[i + 1..]);
    hide Walk;
    assert forall j :: 0 <= j < d ==> keys[..d][..j] == keys[..j];
    if i < d {
      assert At(s, a, m, {keys[d]}, keys[..d], i);
    } else {
      forall j | 0 <= j < d
        ensures !At(s, a, m, {keys[d]}, keys[..d], j)
      {
        assert !At(s, a, m, {keys[d]}, keys, j);
      }
    }
  }
}
