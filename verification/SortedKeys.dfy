/** The keys of a map in the order of their bytes. A string is a sequence of bytes, each shown as the character with
    that code. Maps are iterated in any order; sorting makes what follows independent of it. */
module SortedKeys {

  predicate Less(a: string, b: string) {
    b != "" && (a == "" || a[0] < b[0] || (a[0] == b[0] && Less(a[1..], b[1..])))
  }

  lemma {:induction false} LessIsOrder(a: string, b: string, c: string)
    ensures !Less(a, a)
    ensures Less(a, b) && Less(b, c) ==> Less(a, c)
    ensures Less(a, b) || a == b || Less(b, a)
  {
    if a != "" && b != "" {
      assert a == [a[0]] + a[1..] && b == [b[0]] + b[1..];
      LessIsOrder(a[1..], b[1..], if c == "" then "" else c[1..]);
    } else if a != "" {
      LessIsOrder(a[1..], "", "");
    }
  }

  ghost predicate Ascending(keys: seq<string>) { forall i, j :: 0 <= i < j < |keys| ==> Less(keys[i], keys[j]) }

  function Insert(key: string, keys: seq<string>): (r: seq<string>)
    ensures forall k :: k in r <==> k == key || k in keys
  {
    if keys == [] || Less(key, keys[0]) then [key] + keys
    else
      assert keys == [keys[0]] + keys[1..];
      [keys[0]] + Insert(key, keys[1..])
  }

  function Sort(keys: seq<string>): (r: seq<string>)
    ensures forall k :: k in r <==> k in keys
  {
    if keys == [] then []
    else
      assert keys == [keys[0]] + keys[1..];
      Insert(keys[0], Sort(keys[1..]))
  }

  lemma Cons(key: string, keys: seq<string>)
    requires Ascending(keys) && forall k :: k in keys ==> Less(key, k)
    ensures Ascending([key] + keys)
  {
    hide Less;
    assert forall i :: 0 < i < |[key] + keys| ==> ([key] + keys)[i] == keys[i - 1] && keys[i - 1] in keys;
  }

  lemma Rest(keys: seq<string>)
    requires Ascending(keys) && keys != []
    ensures Ascending(keys[1..])
    ensures forall k :: k in keys[1..] <==> k in keys && k != keys[0]
    ensures forall k :: k in keys[1..] ==> Less(keys[0], k)
  {
    LessIsOrder(keys[0], "", "");
    hide Less;
    assert keys == [keys[0]] + keys[1..];
    assert keys[0] !in keys[1..];
  }

  lemma {:induction false} InsertAscends(key: string, keys: seq<string>)
    requires Ascending(keys) && key !in keys
    ensures Ascending(Insert(key, keys))
  {
    if keys == [] {
    } else {
      Rest(keys);
      LessIsOrder(key, keys[0], "");
      if Less(key, keys[0]) {
        forall k | k in keys
          ensures Less(key, k)
        {
          LessIsOrder(key, keys[0], k);
        }
        Cons(key, keys);
      } else {
        InsertAscends(key, keys[1..]);
        Cons(keys[0], Insert(key, keys[1..]));
      }
    }
  }

  lemma {:induction false} SortAscends(keys: seq<string>)
    requires forall i, j :: 0 <= i < j < |keys| ==> keys[i] != keys[j]
    ensures Ascending(Sort(keys))
  {
    if keys != [] {
      SortAscends(keys[1..]);
      InsertAscends(keys[0], Sort(keys[1..]));
    }
  }

  /** The members of a set have one ascending order. */
  lemma {:induction false} OneOrder(keys: seq<string>, others: seq<string>)
    requires Ascending(keys) && Ascending(others) && forall k :: k in keys <==> k in others
    ensures keys == others
  {
    assert (keys == [] || keys[0] in keys) && (others == [] || others[0] in others);
    if keys != [] {
      Rest(keys);
      Rest(others);
      LessIsOrder(keys[0], others[0], keys[0]);
      assert keys[0] == others[0];
      OneOrder(keys[1..], others[1..]);
    }
  }

  ghost predicate KeysOf<V>(keys: seq<string>, m: map<string, V>) {
    Ascending(keys) && forall k :: k in keys <==> k in m
  }

  /** Every map has its keys in order. */
  lemma {:induction false} KeysExist<V>(m: map<string, V>) returns (keys: seq<string>)
    ensures KeysOf(keys, m)
    decreases m.Keys
  {
    if m == map[] {
      keys := [];
    } else {
      var k :| k in m;
      var rest := KeysExist(m - {k});
      InsertAscends(k, rest);
      keys := Insert(k, rest);
    }
  }

  /** Collects the keys of a map in whatever order they come and sorts them. */
  method KeysInOrder<V>(m: map<string, V>) returns (keys: seq<string>)
    ensures KeysOf(keys, m)
    ensures m == map[] <==> keys == []
  {
    keys := [];
    var rest := m.Keys;
    while rest != {}
      invariant rest <= m.Keys
      invariant forall k :: k in keys <==> k in m.Keys - rest
      invariant forall i, j :: 0 <= i < j < |keys| ==> keys[i] != keys[j]
      decreases rest
    {
      var k :| k in rest;
      rest := rest - {k};
      assert forall x :: x in keys + [k] <==> x in keys || x == k;
      keys := keys + [k];
    }
    SortAscends(keys);
    keys := Sort(keys);
    assert keys != [] ==> keys[0] in keys;
  }

  /** Writes the entries of `extras` over those of `m`, in whatever order they come. */
  method Overwrite<V>(m: map<string, V>, extras: map<string, V>) returns (r: map<string, V>)
    ensures r == m + extras
  {
    r := m;
    var rest := extras.Keys;
    while rest != {}
      invariant rest <= extras.Keys && r.Keys == m.Keys + (extras.Keys - rest)
      invariant forall k :: k in r ==> r[k] == if k in extras && k !in rest then extras[k] else m[k]
      decreases rest
    {
      var k :| k in rest;
      rest := rest - {k};
      r := r[k := extras[k]];
    }
    assert r == m + extras;
  }
}
