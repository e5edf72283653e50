/** What sharing does to a body. Copying a field that holds a map puts the maps inside it under two paths; from then
    on a write below one of them is seen below the other, and the frame law of trees fails. */
module BodySharing {
  import opened BodyField
  import opened NestedMaps
  import opened SharedMaps

  /** {"a": {"x": {}}} */
  function Sample(): Store { map[0 := map["a" := Map(1)], 1 := map["x" := Map(2)], 2 := map[]] }

  const FROM: Path := ["a"]
  const TO: Path := ["b"]

  /** Copies the map at "a" to "b", then sets "b.x.y": "a.x.y" has the value, too, although neither path starts with the
      other. */
  method CopyThenSet(value: Any) returns (e: Entry)
    requires !value.Map?
    ensures fresh(e) && e.Valid() && Walk(Sample(), Map(0), ["a", "x", "y"]) == Missing
    ensures Walk(e.store, e.body, ["a", "x", "y"]) == Value(value)
  {
    e := new Entry(Map(0), Sample(), 3);
    SampleWalks();
    hide Walk, SetExactly, Merges, Replaced, Overlaid, Unshared, Separate;
    var copied := e.Get(FROM, Nil);
    e.Set(TO, copied.value);
    ghost var mid, r :| Merges(Sample(), mid, e.store, Map(0), TO, 1, r);
    Copied(mid, e.store, r);
    ghost var before := e.store;
    e.SetLeaf(["b", "x", "y"], value);
    ghost var d, m :| SetExactly(before, e.store, Map(0), ["b", "x", "y"], value, d, m);
    SeenTwice(before, e.store, value, d, m);
  }

  lemma SampleWalks()
    ensures Closed(Sample(), Map(0)) && Closed(Sample(), Map(1))
    ensures Walk(Sample(), Map(0), []) == Value(Map(0)) && Walk(Sample(), Map(0), ["a"]) == Value(Map(1))
    ensures Walk(Sample(), Map(0), ["a", "x"]) == Value(Map(2)) && Walk(Sample(), Map(0), ["a", "x", "y"]) == Missing
    ensures Walk(Sample(), Map(0), ["b"]) == Missing
  {
    Along(Sample(), "a", "x", "y");
    Along(Sample(), "b", "x", "y");
  }

  /** A path of three keys, step by step. */
  lemma Along(s: Store, k: string, l: string, n: string)
    ensures Walk(s, Map(0), []) == Value(Map(0)) && Walk(s, Map(0), [k]) == Step(s, Walk(s, Map(0), []), k)
    ensures Walk(s, Map(0), [k, l]) == Step(s, Walk(s, Map(0), [k]), l)
    ensures Walk(s, Map(0), [k, l, n]) == Step(s, Walk(s, Map(0), [k, l]), n)
  {
    WalkSnoc(s, Map(0), [], k);
    WalkSnoc(s, Map(0), [k], l);
    WalkSnoc(s, Map(0), [k, l], n);
    assert [] + [k] == [k] && [k] + [l] == [k, l] && [k, l] + [n] == [k, l, n];
  }

  /** After the copy the inner map is under both paths. */
  lemma Copied(mid: Store, t: Store, r: nat)
    requires Merges(Sample(), mid, t, Map(0), TO, 1, r)
    ensures Walk(t, Map(0), []) == Value(Map(0))
    ensures IsMap(Walk(t, Map(0), ["b"])) && Walk(t, Map(0), ["b", "x"]) == Value(Map(2)) == Walk(t, Map(0), ["a", "x"])
  {
    SampleWalks();
    var s := Sample();
    var d, m :| OpenedFrom(s, mid, Map(0), TO, d, m, r);
    Leads(s, mid, Map(0), TO, d, m, r);
    assert d == 0 && m == 0;
    assert mid[1] == s[1] && mid[1]["x"] == Map(2);
    Along(s, "a", "x", "y");
    Along(mid, "a", "x", "y");
    Along(mid, "b", "x", "y");
    Along(t, "b", "x", "y");
    OnlyThere(mid, r);
    assert ["b", "x"][2..] == [];
  }

  /** Of the paths used here only "b.x" goes through the copy. */
  lemma OnlyThere(mid: Store, r: nat)
    requires r !in Sample() && 0 in mid && 1 in mid && mid[1] == Sample()[1] && "a" in mid[0] && mid[0]["a"] == Map(1)
    requires Walk(mid, Map(0), TO) == Value(Map(r))
    ensures !Passes(mid, Map(0), r, mid[1].Keys, ["b"]) && !Passes(mid, Map(0), r, mid[1].Keys, ["a", "x"])
    ensures FirstAt(mid, Map(0), r, mid[1].Keys, ["b", "x"], 1)
    ensures Walk(mid, Map(0), ["a", "x"]) == Value(Map(2))
  {
    Along(mid, "a", "x", "y");
    Along(mid, "b", "x", "y");
    hide Walk;
    assert ["a", "x"][..0] == [] && ["a", "x"][..1] == ["a"] && ["b"][..0] == [];
    assert ["b", "x"][..0] == [] && ["b", "x"][..1] == ["b"];
  }

  lemma SeenTwice(s: Store, t: Store, value: Any, d: nat, m: nat)
    requires SetExactly(s, t, Map(0), ["b", "x", "y"], value, d, m)
    requires Walk(s, Map(0), []) == Value(Map(0)) && IsMap(Walk(s, Map(0), ["b"]))
    requires Walk(s, Map(0), ["b", "x"]) == Value(Map(2)) == Walk(s, Map(0), ["a", "x"])
    ensures Walk(t, Map(0), ["a", "x", "y"]) == Value(value)
  {
    hide Walk;
    var keys, p: Path := ["b", "x", "y"], ["a", "x", "y"];
    assert keys[..1] == ["b"] && keys[..2] == ["b", "x"];
    assert d == 2 && m == 2;
    assert p[..0] == [] && p[..1] == ["a"] && p[..2] == ["a", "x"] && p[3..] == [] && keys[3..] == [];
    assert FirstAt(s, Map(0), 2, {"y"}, p, 2);
  }

  // ---- A body that contains itself --------------------------------------------------------------------------------

  const NESTED: Path := ["a", "a", "a"]

  function Empty(): Store { map[0 := map[]] }

  /** Copies the whole body to "a", which then contains itself, and sets "a.a.a": the map that leads there is the one
      written, so the value is at "a.a" and nothing is found where it was set. */
  method CopyBodyThenSet(value: Any) returns (e: Entry, found: Found)
    requires !value.Map?
    ensures fresh(e) && e.Valid() && Walk(e.store, e.body, ["a", "a"]) == Value(value)
    ensures found == Walk(e.store, e.body, NESTED) == Missing
  {
    e := new Entry(Map(0), Empty(), 1);
    EmptyWalks();
    hide Walk, SetExactly, Merges, Replaced, Overlaid, Unshared, Separate, Closed;
    e.Set(FROM, Map(0));
    ghost var mid, r :| Merges(Empty(), mid, e.store, Map(0), FROM, 0, r);
    HoldsItself(mid, e.store, r);
    ghost var before := e.store;
    e.SetLeaf(NESTED, value);
    ghost var d, m :| SetExactly(before, e.store, Map(0), NESTED, value, d, m);
    CutOff(before, e.store, value, r, d, m);
    NothingGiven(e.store, e.body);
    found := e.Get(NESTED, Nil);
  }

  lemma NothingGiven(s: Store, a: Any)
    requires Closed(s, a)
    ensures Closed(s, Nil)
  {
  }

  lemma EmptyWalks()
    ensures Closed(Empty(), Map(0)) && Walk(Empty(), Map(0), []) == Value(Map(0))
    ensures Walk(Empty(), Map(0), ["a"]) == Missing
  {
    Along(Empty(), "a", "a", "a");
  }

  /** After the copy the new map is its own entry. */
  lemma HoldsItself(mid: Store, t: Store, r: nat)
    requires Merges(Empty(), mid, t, Map(0), FROM, 0, r)
    ensures r != 0 && Walk(t, Map(0), []) == Value(Map(0))
    ensures Walk(t, Map(0), ["a"]) == Value(Map(r)) == Walk(t, Map(0), ["a", "a"])
  {
    EmptyWalks();
    var d, m :| OpenedFrom(Empty(), mid, Map(0), FROM, d, m, r);
    Leads(Empty(), mid, Map(0), FROM, d, m, r);
    assert d == 0 && m == 0;
    Along(mid, "a", "a", "a");
    Along(t, "a", "a", "a");
    assert "a" in mid[0] && mid[0]["a"] == Map(r);
    hide Walk;
    assert ["a"][..0] == [] && ["a", "a"][..0] == [] && ["a", "a"][..1] == ["a"] && ["a", "a"][2..] == [];
    assert FirstAt(mid, Map(0), r, mid[0].Keys, ["a", "a"], 1);
    WalkRoot(t, Map(r));
  }

  lemma CutOff(s: Store, t: Store, value: Any, r: nat, d: nat, m: nat)
    requires SetExactly(s, t, Map(0), NESTED, value, d, m) && r != 0 && Walk(s, Map(0), []) == Value(Map(0))
    requires Walk(s, Map(0), ["a"]) == Value(Map(r)) == Walk(s, Map(0), ["a", "a"])
    ensures Walk(t, Map(0), ["a", "a"]) == Value(value) && Walk(t, Map(0), NESTED) == Missing
  {
    hide Walk;
    assert NESTED[..0] == [] && NESTED[..1] == ["a"] && NESTED[..2] == ["a", "a"];
    assert d == 2 && m == r;
    assert ["a", "a"][..0] == [] && ["a", "a"][..1] == ["a"] && ["a", "a"][2..] == [] && NESTED[3..] == [];
    assert FirstAt(s, Map(0), r, {"a"}, ["a", "a"], 1) && FirstAt(s, Map(0), r, {"a"}, NESTED, 1);
  }
}
