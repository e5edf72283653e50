/** What the chained fingerprints of the exporter tell apart: the resource and the scope are hashed as one text, and
    nothing in it marks where the first ends. */
module FingerprintLevels {
  import opened Fingerprint
  import opened SortedKeys

  ghost function Encoding(attrs: Attributes): (r: string)
    ensures IsCanonical(r, attrs)
  {
    Some(attrs);
    var keys :| KeysOf(keys, attrs);
    Ended(Pieces(keys, attrs))
  }

  lemma Some(attrs: Attributes)
    ensures exists keys :: KeysOf(keys, attrs)
  {
    var keys := KeysExist(attrs);
  }

  /** A resource and a scope of it. */
  datatype Pair = Pair(resource: Attributes, scope: Attributes) {
    /** What is hashed for the scope, by Fingerprint.Chained. */
    ghost function Text(): string { Encoding(resource) + Encoding(scope) }

    predicate Plain() { PlainText(resource) && PlainText(scope) }

    /** Every resource key sorts before every scope key. */
    predicate InOrder() { forall r, s :: r in resource && s in scope ==> Less(r, s) }
  }

  // ---- Lists of keys ----------------------------------------------------------------------------------------------

  lemma FirstIsLeast(keys: seq<string>, k: string)
    requires Ascending(keys) && k in keys
    ensures k == keys[0] || Less(keys[0], k)
  {
  }

  lemma LastIsGreatest(keys: seq<string>, k: string)
    requires Ascending(keys) && k in keys
    ensures k == keys[|keys| - 1] || Less(k, keys[|keys| - 1])
  {
  }

  /** Cut a list of keys in two ways into ascending parts, and it is ascending at the first cut. */
  lemma CutTwice(a: seq<string>, b: seq<string>, c: seq<string>, d: seq<string>)
    requires Ascending(a) && Ascending(b) && Ascending(c) && Ascending(d)
    requires a + b == c + d && a != c
    ensures forall r, s :: r in a && s in b ==> Less(r, s)
  {
    forall r, s | r in a && s in b
      ensures Less(r, s)
    {
      var l, n := a + b, |a|;
      assert l[..n] == a && l[..|c|] == c;
      FirstIsLeast(b, s);
      LastIsGreatest(a, r);
      assert l[n - 1] == a[n - 1] && l[n] == b[0];
      if |c| > n {
        assert c[n - 1] == l[n - 1] && c[n] == l[n];
      } else {
        assert d[n - 1 - |c|] == l[n - 1] && d[n - |c|] == l[n];
      }
      LessIsOrder(r, a[n - 1], b[0]);
      LessIsOrder(r, b[0], s);
    }
  }

  lemma AscendingAppend(a: seq<string>, b: seq<string>)
    requires Ascending(a) && Ascending(b) && forall r, s :: r in a && s in b ==> Less(r, s)
    ensures Ascending(a + b)
  {
    hide Less;
    assert forall i :: 0 <= i < |a| ==> (a + b)[i] == a[i] && a[i] in a;
    assert forall i :: |a| <= i < |a + b| ==> (a + b)[i] == b[i - |a|] && b[i - |a|] in b;
  }

  // ---- Texts ------------------------------------------------------------------------------------------------------

  lemma {:induction false} PiecesConcat(a: seq<string>, b: seq<string>, attrs: Attributes)
    requires (forall k :: k in a ==> k in attrs) && forall k :: k in b ==> k in attrs
    ensures (forall k :: k in a + b ==> k in attrs) && Pieces(a + b, attrs) == Pieces(a, attrs) + Pieces(b, attrs)
  {
    assert forall k :: k in a + b ==> k in a || k in b;
    if b == [] {
      assert a + b == a;
    } else {
      var n := |b| - 1;
      assert (a + b)[..|a| + n] == a + b[..n];
      PiecesConcat(a, b[..n], attrs);
    }
  }

  lemma PiecesAppend(a: seq<string>, b: seq<string>, first: Attributes, second: Attributes, both: Attributes)
    requires forall k :: k in a ==> k in first && k in both && both[k] == first[k]
    requires forall k :: k in b ==> k in second && k in both && both[k] == second[k]
    ensures forall k :: k in a + b ==> k in both
    ensures Pieces(a + b, both) == Pieces(a, first) + Pieces(b, second)
  {
    hide Pieces;
    PiecesConcat(a, b, both);
    SamePieces(a, first, both);
    SamePieces(b, second, both);
  }

  lemma {:induction false} SamePieces(keys: seq<string>, attrs: Attributes, more: Attributes)
    requires forall k :: k in keys ==> k in attrs && k in more && more[k] == attrs[k]
    ensures Pieces(keys, more) == Pieces(keys, attrs)
  {
    if keys != [] {
      SamePieces(keys[..|keys| - 1], attrs, more);
    }
  }

  /** In order, the two levels have the text of all attributes on one level. */
  lemma OneLevel(p: Pair)
    requires p.InOrder()
    ensures p.resource.Keys !! p.scope.Keys && p.Text() == Encoding(p.resource + p.scope)
  {
    forall k | k in p.resource && k in p.scope
      ensures false
    {
      LessIsOrder(k, k, k);
    }
    var a := KeysExist(p.resource);
    var b := KeysExist(p.scope);
    hide Less, Ended;
    var both := p.resource + p.scope;
    AscendingAppend(a, b);
    PiecesAppend(a, b, p.resource, p.scope, both);
    EndedAppend(Pieces(a, p.resource), Pieces(b, p.scope));
    assert KeysOf(a + b, both);
    EncodingIsUnique(p.resource, Encoding(p.resource), Ended(Pieces(a, p.resource)));
    EncodingIsUnique(p.scope, Encoding(p.scope), Ended(Pieces(b, p.scope)));
    EncodingIsUnique(both, Encoding(both), Ended(Pieces(a + b, both)));
  }

  lemma NoText()
    ensures Encoding(map[]) == ""
  {
    var none: Attributes := map[];
    assert KeysOf([], none);
    EncodingIsUnique(none, Encoding(none), Ended(Pieces([], none)));
  }

  /** The keys of one level after the other. */
  lemma KeysOfText(p: Pair, q: Pair) returns (a: seq<string>, b: seq<string>, c: seq<string>, d: seq<string>)
    requires p.Plain() && q.Plain() && p.Text() == q.Text()
    ensures KeysOf(a, p.resource) && KeysOf(b, p.scope) && KeysOf(c, q.resource) && KeysOf(d, q.scope) && a + b == c + d
    ensures a == c ==> p == q
  {
    a := KeysExist(p.resource);
    b := KeysExist(p.scope);
    c := KeysExist(q.resource);
    d := KeysExist(q.scope);
    EncodingIsUnique(p.resource, Encoding(p.resource), Ended(Pieces(a, p.resource)));
    EncodingIsUnique(p.scope, Encoding(p.scope), Ended(Pieces(b, p.scope)));
    EncodingIsUnique(q.resource, Encoding(q.resource), Ended(Pieces(c, q.resource)));
    EncodingIsUnique(q.scope, Encoding(q.scope), Ended(Pieces(d, q.scope)));
    PlainPieces(a, p.resource);
    PlainPieces(b, p.scope);
    PlainPieces(c, q.resource);
    PlainPieces(d, q.scope);
    hide Ended, PlainText, Less, Ascending, Encoding;
    SameKeys(p, q, a, b, c, d);
  }

  lemma SameKeys(p: Pair, q: Pair, a: seq<string>, b: seq<string>, c: seq<string>, d: seq<string>)
    requires KeysOf(a, p.resource) && KeysOf(b, p.scope) && KeysOf(c, q.resource) && KeysOf(d, q.scope)
    requires (forall x :: x in Pieces(a, p.resource) ==> NoSeparator(x))
             && (forall x :: x in Pieces(b, p.scope) ==> NoSeparator(x))
    requires (forall x :: x in Pieces(c, q.resource) ==> NoSeparator(x))
             && (forall x :: x in Pieces(d, q.scope) ==> NoSeparator(x))
    requires Ended(Pieces(a, p.resource)) + Ended(Pieces(b, p.scope))
               == Ended(Pieces(c, q.resource)) + Ended(Pieces(d, q.scope))
    ensures a + b == c + d
    ensures a == c ==> p == q
  {
    hide Ended, NoSeparator, Less, Ascending, Pieces;
    var u, v := Pieces(a, p.resource) + Pieces(b, p.scope), Pieces(c, q.resource) + Pieces(d, q.scope);
    EndedAppend(Pieces(a, p.resource), Pieces(b, p.scope));
    EndedAppend(Pieces(c, q.resource), Pieces(d, q.scope));
    SamePiecesBack(u, v);
    Listed(a, p.resource, b, p.scope);
    Listed(c, q.resource, d, q.scope);
    EvenPieces(a + b, u, c + d, v);
    if a == c {
      assert Pieces(a, p.resource) == u[..2 * |a|] && Pieces(c, q.resource) == v[..2 * |c|];
      assert Pieces(b, p.scope) == u[2 * |a|..] && Pieces(d, q.scope) == v[2 * |c|..];
      assert b == (a + b)[|a|..] && d == (c + d)[|c|..];
      PiecesIdentify(a, p.resource, c, q.resource);
      PiecesIdentify(b, p.scope, d, q.scope);
    }
  }

  lemma SamePiecesBack(u: seq<string>, v: seq<string>)
    requires (forall x :: x in u ==> NoSeparator(x)) && (forall x :: x in v ==> NoSeparator(x)) && Ended(u) == Ended(v)
    ensures u == v
  {
    Quiet();
    hide Ended, NoSeparator;
    assert Ended(u) + "" == Ended(u) && Ended(v) + "" == Ended(v);
    PiecesBack(u, "", v, "");
  }

  lemma Quiet()
    ensures NoSeparator("")
  {
  }

  /** Every other piece is a key. */
  predicate KeysAre(keys: seq<string>, pieces: seq<string>) {
    |pieces| == 2 * |keys| && forall i :: 0 <= i < |keys| ==> pieces[2 * i] == keys[i]
  }

  lemma EvenPieces(a: seq<string>, u: seq<string>, b: seq<string>, v: seq<string>)
    requires KeysAre(a, u) && KeysAre(b, v) && u == v
    ensures a == b
  {
  }

  lemma Listed(a: seq<string>, first: Attributes, b: seq<string>, second: Attributes)
    requires (forall k :: k in a ==> k in first) && (forall k :: k in b ==> k in second)
    ensures KeysAre(a + b, Pieces(a, first) + Pieces(b, second))
  {
    forall i | 0 <= i < |a + b|
      ensures (Pieces(a, first) + Pieces(b, second))[2 * i] == (a + b)[i]
    {
      if i < |a| {
        PieceAt(a, first, i);
      } else {
        PieceAt(b, second, i - |a|);
      }
    }
  }

  // ---- Pairs that share their text ---------------------------------------------------------------------------------

  lemma SharedIsInOrder(p: Pair, q: Pair)
    requires p.Plain() && q.Plain() && p != q && p.Text() == q.Text()
    ensures p.InOrder() && (p.resource != map[] || p.scope != map[])
  {
    var a, b, c, d := KeysOfText(p, q);
    CutTwice(a, b, c, d);
    assert a + b == [] ==> a == [] && c == [];
  }

  /** Moves every attribute one level down, or up when there are none above. */
  function Moved(p: Pair): Pair {
    if p.resource == map[] then Pair(p.scope, map[]) else Pair(map[], p.resource + p.scope)
  }

  lemma MovedShares(p: Pair)
    requires p.Plain() && p.InOrder() && (p.resource != map[] || p.scope != map[])
    ensures Moved(p).Plain() && Moved(p) != p && Moved(p).Text() == p.Text()
  {
    hide Encoding, Less, NoSeparator;
    OneLevel(p);
    NoText();
    assert Encoding(p.scope) + "" == Encoding(p.scope) && "" + Encoding(p.scope) == Encoding(p.scope);
    assert "" + Encoding(p.resource + p.scope) == Encoding(p.resource + p.scope);
  }

  ghost predicate Shared(p: Pair) { exists q: Pair :: q.Plain() && q != p && q.Text() == p.Text() }

  /** Another pair has the text of `p` exactly when every resource key sorts before every scope key, unless both
      levels are empty. */
  lemma SharedIff(p: Pair)
    requires p.Plain()
    ensures Shared(p) <==> p.InOrder() && (p.resource != map[] || p.scope != map[])
  {
    if Shared(p) {
      var q: Pair :| q.Plain() && q != p && q.Text() == p.Text();
      SharedIsInOrder(p, q);
    }
    if p.InOrder() && (p.resource != map[] || p.scope != map[]) {
      MovedShares(p);
    }
  }

  // ---- The exporter's scopes ----------------------------------------------------------------------------------------

  const SCOPE_NAME := "__scope.name__"
  const SCOPE_SCHEMA_URL := "__scope.schema_url__"
  const SCOPE_VERSION := "__scope.version__"

  /** The exporter gives every scope its name under this key, */
  predicate Scoped(p: Pair) { HoldsName(p.scope) }

  /** and its version and the schema's URL under two others. */
  predicate FullyScoped(p: Pair) { HoldsAll(p.scope) }

  predicate HoldsName(attrs: Attributes) { SCOPE_NAME in attrs }

  predicate HoldsAll(attrs: Attributes) { SCOPE_NAME in attrs && SCOPE_SCHEMA_URL in attrs && SCOPE_VERSION in attrs }

  lemma {:induction false} LessAfter(prefix: string, a: string, b: string)
    requires Less(a, b)
    ensures Less(prefix + a, prefix + b)
  {
    if prefix == "" {
      assert prefix + a == a && prefix + b == b;
    } else {
      LessAfter(prefix[1..], a, b);
      assert (prefix + a)[1..] == prefix[1..] + a && (prefix + b)[1..] == prefix[1..] + b;
    }
  }

  lemma ByFirstLetter()
    ensures Less("name__", "schema_url__") && Less("name__", "version__") && Less("schema_url__", "version__")
  {
  }

  lemma ScopeKeysInOrder()
    ensures Less(SCOPE_NAME, SCOPE_SCHEMA_URL) && Less(SCOPE_NAME, SCOPE_VERSION)
    ensures Less(SCOPE_SCHEMA_URL, SCOPE_VERSION)
  {
    hide Less;
    ByFirstLetter();
    LessAfter("__scope.", "name__", "schema_url__");
    LessAfter("__scope.", "name__", "version__");
    LessAfter("__scope.", "schema_url__", "version__");
    assert SCOPE_NAME == "__scope." + "name__" && SCOPE_VERSION == "__scope." + "version__";
    assert SCOPE_SCHEMA_URL == "__scope." + "schema_url__";
  }

  ghost predicate SharedWithScoped(p: Pair) {
    exists q: Pair :: q.Plain() && Scoped(q) && q != p && q.Text() == p.Text()
  }

  ghost predicate SharedWithFullyScoped(p: Pair) {
    exists q: Pair :: q.Plain() && FullyScoped(q) && q != p && q.Text() == p.Text()
  }

  /** Some attribute of either level sorts before the scope's name. */
  predicate SomeBefore(p: Pair) { exists k :: k in p.resource.Keys + p.scope.Keys && Less(k, SCOPE_NAME) }

  /** The attributes of one level put on two: those before a bound, and the others. */
  function Split(attrs: Attributes, bound: string): Pair {
    var above := map k | k in attrs && Less(k, bound) :: attrs[k];
    Pair(above, attrs - above.Keys)
  }

  lemma SplitShares(attrs: Attributes, bound: string)
    requires PlainText(attrs)
    ensures var q := Split(attrs, bound); q.Plain() && q.InOrder() && q.Text() == Encoding(attrs)
  {
    hide Less, NoSeparator, Encoding;
    var q := Split(attrs, bound);
    SplitInOrder(attrs, bound);
    OneLevel(q);
    assert q.resource + q.scope == attrs;
  }

  lemma SplitInOrder(attrs: Attributes, bound: string)
    ensures Split(attrs, bound).InOrder()
  {
    var q := Split(attrs, bound);
    forall r, s | r in q.resource && s in q.scope
      ensures Less(r, s)
    {
      LessIsOrder(r, bound, s);
      LessIsOrder(bound, s, bound);
    }
  }

  lemma NotBefore(k: string, key: string)
    requires !Less(k, SCOPE_NAME) && Less(key, SCOPE_NAME)
    ensures !Less(k, key)
  {
    LessIsOrder(k, key, SCOPE_NAME);
  }

  /** Cut before `key`, or before the scope's name: one way or the other, another pair shares the text. */
  lemma CutBefore(p: Pair, key: string) returns (q: Pair)
    requires p.Plain() && p.InOrder() && key in p.resource.Keys + p.scope.Keys && Less(key, SCOPE_NAME)
    ensures q.Plain() && q != p && q.Text() == p.Text()
    ensures forall k :: k in p.scope && !Less(k, SCOPE_NAME) ==> k in q.scope
  {
    hide Less, NoSeparator, Encoding;
    var both := p.resource + p.scope;
    LessIsOrder(key, key, key);
    forall k | k in p.scope && !Less(k, SCOPE_NAME)
      ensures !Less(k, key)
    {
      NotBefore(k, key);
    }
    OneLevel(p);
    SplitShares(both, key);
    SplitShares(both, SCOPE_NAME);
    q := Split(both, key);
    assert key in q.scope && key !in q.resource && key in Split(both, SCOPE_NAME).resource;
    if q == p {
      q := Split(both, SCOPE_NAME);
    }
  }

  /** With the scope's name in every scope, another such pair has the text of `p` exactly when, besides, some attribute
      sorts before that name. */
  lemma ScopedSharedIff(p: Pair)
    requires p.Plain() && Scoped(p)
    ensures SharedWithScoped(p) <==> p.InOrder() && SomeBefore(p)
  {
    LessIsOrder(SCOPE_NAME, SCOPE_NAME, SCOPE_NAME);
    hide Less, PlainText;
    if SharedWithScoped(p) {
      var q: Pair :| q.Plain() && Scoped(q) && q != p && q.Text() == p.Text();
      SharedIsInOrder(p, q);
      BeforeName(p, q);
    }
    if p.InOrder() && SomeBefore(p) {
      var key :| key in p.resource.Keys + p.scope.Keys && Less(key, SCOPE_NAME);
      var q := CutBefore(p, key);
    }
  }

  /** It makes no difference that the other pair must have the other two keys as well. */
  lemma FullyScopedSharedIff(p: Pair)
    requires p.Plain() && FullyScoped(p)
    ensures SharedWithFullyScoped(p) <==> p.InOrder() && SomeBefore(p)
  {
    ScopedSharedIff(p);
    ScopeKeysInOrder();
    LessIsOrder(SCOPE_NAME, SCOPE_SCHEMA_URL, SCOPE_NAME);
    LessIsOrder(SCOPE_NAME, SCOPE_VERSION, SCOPE_NAME);
    hide Less, PlainText;
    if p.InOrder() && SomeBefore(p) {
      var key :| key in p.resource.Keys + p.scope.Keys && Less(key, SCOPE_NAME);
      var q := CutBefore(p, key);
    }
  }

  lemma BeforeName(p: Pair, q: Pair)
    requires p.Plain() && q.Plain() && Scoped(p) && Scoped(q) && q != p && q.Text() == p.Text() && p.InOrder()
    ensures SomeBefore(p)
  {
    hide PlainText, Encoding, Less;
    if p.resource != map[] {
      var k :| k in p.resource;
      assert k in p.resource.Keys + p.scope.Keys && Less(k, SCOPE_NAME);
    } else {
      var a, b, c, d := KeysOfText(p, q);
      OneOrder(a, []);
      assert a + b == b && a != c;
      NameIsLater(b, c, d);
      assert b[0] in b && b[0] in p.resource.Keys + p.scope.Keys;
    }
  }

  lemma NameIsLater(b: seq<string>, c: seq<string>, d: seq<string>)
    requires Ascending(b) && b == c + d && c != [] && SCOPE_NAME in d
    ensures Less(b[0], SCOPE_NAME)
  {
    hide Less;
    var i :| 0 <= i < |d| && d[i] == SCOPE_NAME;
    assert b[|c| + i] == d[i];
  }

  /** A resource key that sorts after the scope's name makes the pair identifiable: no other pair has its text. */
  lemma Identifiable(p: Pair, key: string)
    requires p.Plain() && Scoped(p) && key in p.resource && Less(SCOPE_NAME, key)
    ensures !Shared(p)
  {
    SharedIff(p);
    LessIsOrder(key, SCOPE_NAME, key);
  }

  /** So does the key by which resources name their service. */
  lemma ServiceNameIdentifies(p: Pair)
    requires p.Plain() && Scoped(p) && "service.name" in p.resource
    ensures !Shared(p)
  {
    Identifiable(p, "service.name");
  }
}
