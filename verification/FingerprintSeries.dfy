/** The fingerprint of a stored series: three levels of attributes and the metric's name, hashed as one text. */
module FingerprintSeries {
  import opened Fingerprint
  import opened FingerprintLevels
  import opened SortedKeys

  /** A data point's attributes under those of its scope and its resource, and the metric's name. */
  datatype Series = Series(resource: Attributes, scope: Attributes, point: Attributes, name: string) {
    /** What is hashed for the series, by Fingerprint.Chained and FingerprintState.HashWithName. */
    ghost function Text(): string { Encoding(resource) + Encoding(scope) + Encoding(point) + NameSuffix(name) }

    predicate Plain() { PlainText(resource) && PlainText(scope) && PlainText(point) && NoSeparator(name) }

    function Upper(): Pair { Pair(resource, scope) }

    function Lower(): Pair { Pair(scope, point) }

    predicate Bare() { resource == map[] && scope == map[] && point == map[] }
  }

  // ---- Lists of keys in three parts ---------------------------------------------------------------------------------

  ghost predicate AllLess(a: seq<string>, b: seq<string>) { forall r, s :: r in a && s in b ==> Less(r, s) }

  /** Within a part a list of keys rises. */
  lemma Rises(d: seq<string>, e: seq<string>, f: seq<string>, k: nat)
    requires Ascending(d) && Ascending(e) && Ascending(f)
    requires 0 < k < |d + e + f| && k != |d| && k != |d| + |e|
    ensures Less((d + e + f)[k - 1], (d + e + f)[k])
  {
    hide Less;
    var l := d + e + f;
    if k < |d| {
      assert l[k - 1] == d[k - 1] && l[k] == d[k];
    } else if k < |d| + |e| {
      assert l[k - 1] == e[k - 1 - |d|] && l[k] == e[k - |d|];
    } else {
      assert l[k - 1] == f[k - 1 - |d| - |e|] && l[k] == f[k - |d| - |e|];
    }
  }

  /** Two ascending lists are in order when the one ends before the other begins. */
  lemma Bridge(a: seq<string>, b: seq<string>)
    requires Ascending(a) && Ascending(b) && (a != [] && b != [] ==> Less(a[|a| - 1], b[0]))
    ensures AllLess(a, b)
  {
    forall r, s | r in a && s in b
      ensures Less(r, s)
    {
      LastIsGreatest(a, r);
      FirstIsLeast(b, s);
      LessIsOrder(r, a[|a| - 1], b[0]);
      LessIsOrder(r, b[0], s);
    }
  }

  /** Where a list of keys is not cut the second time, the parts of the first cut are in order. */
  lemma NotCutAbove(a: seq<string>, b: seq<string>, c: seq<string>, d: seq<string>, e: seq<string>, f: seq<string>)
    requires Ascending(a) && Ascending(b) && Ascending(d) && Ascending(e) && Ascending(f) && a + b + c == d + e + f
    requires a != [] && b != [] ==> |a| != |d| && |a| != |d| + |e|
    ensures AllLess(a, b)
  {
    if a != [] && b != [] {
      Rises(d, e, f, |a|);
      hide Less;
      assert (a + b + c)[|a| - 1] == a[|a| - 1] && (a + b + c)[|a|] == b[0];
    }
    Bridge(a, b);
  }

  lemma NotCutBelow(a: seq<string>, b: seq<string>, c: seq<string>, d: seq<string>, e: seq<string>, f: seq<string>)
    requires Ascending(b) && Ascending(c) && Ascending(d) && Ascending(e) && Ascending(f) && a + b + c == d + e + f
    requires b != [] && c != [] ==> |a| + |b| != |d| && |a| + |b| != |d| + |e|
    ensures AllLess(b, c)
  {
    if b != [] && c != [] {
      Rises(d, e, f, |a| + |b|);
      hide Less;
      assert (a + b + c)[|a| + |b| - 1] == b[|b| - 1] && (a + b + c)[|a| + |b|] == c[0];
    }
    Bridge(b, c);
  }

  /** Cut twice into three ascending parts, the parts of one cut are in order at one of its two ends. */
  lemma CutThree(a: seq<string>, b: seq<string>, c: seq<string>, d: seq<string>, e: seq<string>, f: seq<string>)
    requires Ascending(a) && Ascending(b) && Ascending(c) && Ascending(d) && Ascending(e) && Ascending(f)
    requires a + b + c == d + e + f
    ensures (a == d && b == e) || AllLess(a, b) || AllLess(b, c)
  {
    hide Ascending, AllLess;
    var l := a + b + c;
    if a == [] || b == [] || (|a| != |d| && |a| != |d| + |e|) {
      NotCutAbove(a, b, c, d, e, f);
    } else if c == [] || (|a| + |b| != |d| && |a| + |b| != |d| + |e|) {
      NotCutBelow(a, b, c, d, e, f);
    } else {
      assert a == l[..|a|] && d == l[..|d|];
      assert b == l[|a|..|a| + |b|] && e == l[|d|..|d| + |e|];
    }
  }

  // ---- Texts --------------------------------------------------------------------------------------------------------

  ghost predicate KeyLists(s: Series, a: seq<string>, b: seq<string>, c: seq<string>) {
    KeysOf(a, s.resource) && KeysOf(b, s.scope) && KeysOf(c, s.point)
  }

  lemma SomeLists(s: Series) returns (a: seq<string>, b: seq<string>, c: seq<string>)
    ensures KeyLists(s, a, b, c)
  {
    a := KeysExist(s.resource);
    b := KeysExist(s.scope);
    c := KeysExist(s.point);
  }

  function AllPieces(s: Series, a: seq<string>, b: seq<string>, c: seq<string>): seq<string>
    requires (forall k :: k in a ==> k in s.resource) && (forall k :: k in b ==> k in s.scope)
    requires forall k :: k in c ==> k in s.point
  {
    Pieces(a, s.resource) + Pieces(b, s.scope) + Pieces(c, s.point)
  }

  lemma Unfold(s: Series, a: seq<string>, b: seq<string>, c: seq<string>)
    requires s.Plain() && KeyLists(s, a, b, c)
    ensures s.Text() == Ended(AllPieces(s, a, b, c)) + NameSuffix(s.name)
    ensures forall x :: x in AllPieces(s, a, b, c) ==> NoSeparator(x)
  {
    EncodingIsUnique(s.resource, Encoding(s.resource), Ended(Pieces(a, s.resource)));
    EncodingIsUnique(s.scope, Encoding(s.scope), Ended(Pieces(b, s.scope)));
    EncodingIsUnique(s.point, Encoding(s.point), Ended(Pieces(c, s.point)));
    PlainPieces(a, s.resource);
    PlainPieces(b, s.scope);
    PlainPieces(c, s.point);
    hide Ended, Encoding, Pieces, NoSeparator, PlainText, Ascending;
    EndedAppend(Pieces(a, s.resource), Pieces(b, s.scope));
    EndedAppend(Pieces(a, s.resource) + Pieces(b, s.scope), Pieces(c, s.point));
  }

  lemma KeysAreAppend(a: seq<string>, u: seq<string>, b: seq<string>, v: seq<string>)
    requires KeysAre(a, u) && KeysAre(b, v)
    ensures KeysAre(a + b, u + v)
  {
  }

  lemma KeysArePieces(keys: seq<string>, attrs: Attributes)
    requires forall k :: k in keys ==> k in attrs
    ensures KeysAre(keys, Pieces(keys, attrs))
  {
    forall i | 0 <= i < |keys|
      ensures Pieces(keys, attrs)[2 * i] == keys[i]
    {
      PieceAt(keys, attrs, i);
    }
  }

  lemma KeysListed(s: Series, a: seq<string>, b: seq<string>, c: seq<string>)
    requires KeyLists(s, a, b, c)
    ensures KeysAre(a + b + c, AllPieces(s, a, b, c))
  {
    KeysArePieces(a, s.resource);
    KeysArePieces(b, s.scope);
    KeysArePieces(c, s.point);
    hide Pieces, KeysAre, Ascending;
    KeysAreAppend(a, Pieces(a, s.resource), b, Pieces(b, s.scope));
    KeysAreAppend(a + b, Pieces(a, s.resource) + Pieces(b, s.scope), c, Pieces(c, s.point));
  }

  /** Series with one text have their keys in one list, cut where their levels end. */
  lemma SameLists(s: Series, a: seq<string>, b: seq<string>, c: seq<string>,
                  q: Series, d: seq<string>, e: seq<string>, f: seq<string>)
    requires s.Plain() && q.Plain() && s.Text() == q.Text() && KeyLists(s, a, b, c) && KeyLists(q, d, e, f)
    ensures a + b + c == d + e + f && (a == d && b == e ==> s == q)
  {
    Unfold(s, a, b, c);
    Unfold(q, d, e, f);
    KeysListed(s, a, b, c);
    KeysListed(q, d, e, f);
    hide Ended, NameSuffix, NoSeparator, Ascending, Encoding, PlainText, Pieces;
    var u, v := AllPieces(s, a, b, c), AllPieces(q, d, e, f);
    NamedPiecesBack(u, s.name, v, q.name);
    EvenPieces(a + b + c, u, d + e + f, v);
    if a == d && b == e {
      SameLevels(s, q, a, b, c, f);
    }
  }

  lemma SameLevels(s: Series, q: Series, a: seq<string>, b: seq<string>, c: seq<string>, f: seq<string>)
    requires KeyLists(s, a, b, c) && KeyLists(q, a, b, f) && a + b + c == a + b + f && s.name == q.name
    requires AllPieces(s, a, b, c) == AllPieces(q, a, b, f)
    ensures s == q
  {
    hide Pieces, Ascending;
    var u, v, n, m := AllPieces(s, a, b, c), AllPieces(q, a, b, f), 2 * |a|, 2 * |a| + 2 * |b|;
    assert c == (a + b + c)[|a + b|..] && f == (a + b + f)[|a + b|..];
    assert Pieces(a, s.resource) == u[..n] && Pieces(a, q.resource) == v[..n];
    assert Pieces(b, s.scope) == u[n..m] && Pieces(b, q.scope) == v[n..m];
    assert Pieces(c, s.point) == u[m..] && Pieces(f, q.point) == v[m..];
    PiecesIdentify(a, s.resource, a, q.resource);
    PiecesIdentify(b, s.scope, b, q.scope);
    PiecesIdentify(c, s.point, f, q.point);
  }

  // ---- Series that share their text ---------------------------------------------------------------------------------

  ghost predicate SharedSeries(s: Series) { exists q: Series :: q.Plain() && q != s && q.Text() == s.Text() }

  /** Two levels of a series put differently. */
  lemma UpperMoved(s: Series, p: Pair)
    requires s.Plain() && p.Plain() && p != s.Upper() && p.Text() == s.Upper().Text()
    ensures var q := s.(resource := p.resource, scope := p.scope); q.Plain() && q != s && q.Text() == s.Text()
  {
  }

  lemma Associate(a: string, b: string, c: string)
    ensures a + b + c == a + (b + c)
  {
  }

  lemma LowerMoved(s: Series, p: Pair)
    requires s.Plain() && p.Plain() && p != s.Lower() && p.Text() == s.Lower().Text()
    ensures var q := s.(scope := p.resource, point := p.scope); q.Plain() && q != s && q.Text() == s.Text()
  {
    hide Encoding, PlainText, NameSuffix, NoSeparator;
    var q := s.(scope := p.resource, point := p.scope);
    Associate(Encoding(s.resource), Encoding(q.scope), Encoding(q.point));
    Associate(Encoding(s.resource), Encoding(s.scope), Encoding(s.point));
  }

  /** Another series has the text of `s` exactly when some level has an attribute and the keys of its levels do not
      descend twice, from the resource to the scope and from the scope to the point. */
  lemma SharedSeriesIff(s: Series)
    requires s.Plain()
    ensures SharedSeries(s) <==> !s.Bare() && (s.Upper().InOrder() || s.Lower().InOrder())
  {
    if SharedSeries(s) {
      var q: Series :| q.Plain() && q != s && q.Text() == s.Text();
      SharedDescendsOnce(s, q);
    }
    hide SharedSeries, Pair.Text, Pair.InOrder, PlainText;
    if !s.Bare() && s.Upper().InOrder() {
      if s.resource == map[] && s.scope == map[] {
        EmptyInOrder(s.point);
        MovedShares(s.Lower());
        LowerMovedShares(s, Moved(s.Lower()));
      } else {
        MovedShares(s.Upper());
        UpperMovedShares(s, Moved(s.Upper()));
      }
    } else if !s.Bare() && s.Lower().InOrder() {
      if s.scope == map[] && s.point == map[] {
        InOrderEmpty(s.resource);
        MovedShares(s.Upper());
        UpperMovedShares(s, Moved(s.Upper()));
      } else {
        MovedShares(s.Lower());
        LowerMovedShares(s, Moved(s.Lower()));
      }
    }
  }

  lemma EmptyInOrder(attrs: Attributes)
    ensures Pair(map[], attrs).InOrder()
  {
  }

  lemma InOrderEmpty(attrs: Attributes)
    ensures Pair(attrs, map[]).InOrder()
  {
  }

  lemma UpperMovedShares(s: Series, p: Pair)
    requires s.Plain() && p.Plain() && p != s.Upper() && p.Text() == s.Upper().Text()
    ensures SharedSeries(s)
  {
    UpperMoved(s, p);
  }

  lemma LowerMovedShares(s: Series, p: Pair)
    requires s.Plain() && p.Plain() && p != s.Lower() && p.Text() == s.Lower().Text()
    ensures SharedSeries(s)
  {
    LowerMoved(s, p);
  }

  lemma SharedDescendsOnce(s: Series, q: Series)
    requires s.Plain() && q.Plain() && q != s && q.Text() == s.Text()
    ensures !s.Bare() && (s.Upper().InOrder() || s.Lower().InOrder())
  {
    var a, b, c := SomeLists(s);
    var d, e, f := SomeLists(q);
    hide Series.Text, Series.Plain, Less;
    SameLists(s, a, b, c, q, d, e, f);
    CutThree(a, b, c, d, e, f);
    assert a + b + c == [] ==> a == [] && b == [] && d == [] && e == [];
    assert (a != [] ==> a[0] in s.resource) && (b != [] ==> b[0] in s.scope) && (c != [] ==> c[0] in s.point);
  }

  // ---- The exporter's series ----------------------------------------------------------------------------------------

  const TEMPORALITY := "__temporality__"

  /** The exporter gives every scope its three keys, and every point this one. */
  predicate Exported(s: Series) { HoldsAll(s.scope) && TEMPORALITY in s.point }

  ghost predicate SharedWithExported(s: Series) {
    exists q: Series :: q.Plain() && Exported(q) && q != s && q.Text() == s.Text()
  }

  /** Some key of the scope or the point sorts between the last of the scope's keys and the point's. */
  predicate SomeBetween(p: Pair) {
    exists k :: k in p.resource.Keys + p.scope.Keys && Less(SCOPE_VERSION, k) && Less(k, TEMPORALITY)
  }

  /** When another series the exporter may write has the text of `s`: the upper two levels are in order and a key sorts
      before the scope's, or the point has the scope's keys as well; or the lower two are and a key sorts between the
      scope's and the point's, or the resource has the scope's keys as well. */
  predicate Confusable(s: Series) {
    || (s.Upper().InOrder() && (SomeBefore(s.Upper()) || HoldsAll(s.point)))
    || (s.Lower().InOrder() && (SomeBetween(s.Lower()) || HoldsAll(s.resource)))
  }

  lemma ByThirdLetter()
    ensures Less("scope.version__", "temporality__")
  {
  }

  lemma VersionBeforeTemporality()
    ensures Less(SCOPE_VERSION, TEMPORALITY)
  {
    hide Less;
    ByThirdLetter();
    LessAfter("__", "scope.version__", "temporality__");
    assert SCOPE_VERSION == "__" + "scope.version__" && TEMPORALITY == "__" + "temporality__";
  }

  /** What is before a bound above the scope's keys, and what is not. */
  lemma AroundBound(bound: string)
    requires Less(SCOPE_VERSION, bound) && (bound == TEMPORALITY || Less(bound, TEMPORALITY))
    ensures Less(SCOPE_NAME, bound) && Less(SCOPE_SCHEMA_URL, bound)
    ensures !Less(bound, bound) && !Less(TEMPORALITY, bound) && !Less(TEMPORALITY, TEMPORALITY)
  {
    ScopeKeysInOrder();
    LessIsOrder(SCOPE_NAME, SCOPE_VERSION, bound);
    LessIsOrder(SCOPE_SCHEMA_URL, SCOPE_VERSION, bound);
    LessIsOrder(bound, TEMPORALITY, bound);
    LessIsOrder(bound, bound, bound);
    LessIsOrder(TEMPORALITY, TEMPORALITY, TEMPORALITY);
  }

  lemma NameIsFirst()
    ensures !Less(SCOPE_NAME, SCOPE_NAME) && !Less(SCOPE_SCHEMA_URL, SCOPE_NAME) && !Less(SCOPE_VERSION, SCOPE_NAME)
  {
    ScopeKeysInOrder();
    LessIsOrder(SCOPE_NAME, SCOPE_SCHEMA_URL, SCOPE_NAME);
    LessIsOrder(SCOPE_NAME, SCOPE_VERSION, SCOPE_NAME);
  }

  lemma InOneLevel(p: Pair, key: string)
    requires p.InOrder()
    ensures !(key in p.resource && key in p.scope)
  {
    LessIsOrder(key, key, key);
  }

  /** Before the scope's name: the upper two levels cut elsewhere. */
  lemma ConfusedAbove(s: Series)
    requires s.Plain() && Exported(s) && s.Upper().InOrder() && SomeBefore(s.Upper())
    ensures SharedWithExported(s)
  {
    hide Less, NoSeparator, Encoding, Series.Text, Pair.Text, Pair.InOrder, SomeBefore;
    FullyScopedSharedIff(s.Upper());
    var p: Pair :| p.Plain() && FullyScoped(p) && p != s.Upper() && p.Text() == s.Upper().Text();
    UpperMoved(s, p);
  }

  lemma BothHold(s: Series)
    requires Exported(s)
    ensures HoldsAll(s.scope + s.point) && TEMPORALITY in s.scope + s.point
  {
  }

  lemma SplitHolds(attrs: Attributes, bound: string)
    requires HoldsAll(attrs) && TEMPORALITY in attrs
    requires Less(SCOPE_VERSION, bound) && (bound == TEMPORALITY || Less(bound, TEMPORALITY))
    ensures HoldsAll(Split(attrs, bound).resource) && TEMPORALITY in Split(attrs, bound).scope
  {
    hide Less;
    AroundBound(bound);
  }

  lemma CutBelow(s: Series, bound: string)
    requires s.Plain() && Exported(s) && s.Lower().InOrder()
    requires Less(SCOPE_VERSION, bound) && (bound == TEMPORALITY || Less(bound, TEMPORALITY))
    ensures var p := Split(s.scope + s.point, bound);
            p.Plain() && p.Text() == s.Lower().Text() && HoldsAll(p.resource) && TEMPORALITY in p.scope
  {
    hide Less, NoSeparator, Encoding, Series.Text, Pair.InOrder, Split, HoldsAll;
    OneLevel(s.Lower());
    BothHold(s);
    SplitHolds(s.scope + s.point, bound);
    SplitShares(s.scope + s.point, bound);
  }

  lemma CutsApart(attrs: Attributes, key: string)
    requires key in attrs && Less(key, TEMPORALITY)
    ensures Split(attrs, key) != Split(attrs, TEMPORALITY)
  {
    LessIsOrder(key, key, key);
    hide Less;
    assert key in Split(attrs, key).scope && key !in Split(attrs, TEMPORALITY).scope;
  }

  /** Between the scope's keys and the point's: the lower two levels cut elsewhere. */
  lemma ConfusedBelow(s: Series, key: string)
    requires s.Plain() && Exported(s) && s.Lower().InOrder()
    requires key in s.scope.Keys + s.point.Keys && Less(SCOPE_VERSION, key) && Less(key, TEMPORALITY)
    ensures SharedWithExported(s)
  {
    hide Less, Series.Text, Pair.Text, Pair.InOrder, Split, PlainText;
    VersionBeforeTemporality();
    var both := s.scope + s.point;
    CutBelow(s, key);
    CutBelow(s, TEMPORALITY);
    CutsApart(both, key);
    if Split(both, key) == s.Lower() {
      LowerMoved(s, Split(both, TEMPORALITY));
    } else {
      LowerMoved(s, Split(both, key));
    }
  }

  /** The point has the scope's keys: the scope goes up to the resource, and a part of the point becomes the scope. */
  lemma ConfusedByPoint(s: Series)
    requires s.Plain() && Exported(s) && s.Upper().InOrder() && HoldsAll(s.point)
    ensures SharedWithExported(s)
  {
    hide Less, NoSeparator, Encoding, NameSuffix, Pair.InOrder, Split;
    VersionBeforeTemporality();
    SplitHolds(s.point, TEMPORALITY);
    InOneLevel(s.Upper(), SCOPE_NAME);
    OneLevel(s.Upper());
    SplitShares(s.point, TEMPORALITY);
    var p := Split(s.point, TEMPORALITY);
    var q := Series(s.resource + s.scope, p.resource, p.scope, s.name);
    assert Exported(q) && SCOPE_NAME in q.resource;
    assert q.Plain();
    Associate(Encoding(q.resource), Encoding(q.scope), Encoding(q.point));
    assert q.Text() == s.Text();
  }

  /** The resource has the scope's keys: the scope goes down to the point, and a part of the resource takes its
      place. */
  lemma ConfusedByResource(s: Series)
    requires s.Plain() && Exported(s) && s.Lower().InOrder() && HoldsAll(s.resource)
    ensures SharedWithExported(s)
  {
    hide Less, NoSeparator, Encoding, NameSuffix, Pair.InOrder;
    NameIsFirst();
    InOneLevel(s.Lower(), SCOPE_NAME);
    OneLevel(s.Lower());
    SplitShares(s.resource, SCOPE_NAME);
    var p := Split(s.resource, SCOPE_NAME);
    var q := Series(p.resource, p.scope, s.scope + s.point, s.name);
    assert Exported(q) && SCOPE_NAME in q.point;
    assert q.Plain();
    Associate(Encoding(s.resource), Encoding(s.scope), Encoding(s.point));
    assert q.Text() == s.Text();
  }

  // ---- Two cuts of one list that keep those keys in their parts -----------------------------------------------------

  predicate ListsAll(keys: seq<string>) { SCOPE_NAME in keys && SCOPE_SCHEMA_URL in keys && SCOPE_VERSION in keys }

  predicate KeyBefore(keys: seq<string>) { exists k :: k in keys && Less(k, SCOPE_NAME) }

  predicate KeyBetween(keys: seq<string>) { exists k :: k in keys && Less(SCOPE_VERSION, k) && Less(k, TEMPORALITY) }

  /** The same upper part, and the lower two cut at different places. */
  lemma KeyInBetween(b: seq<string>, c: seq<string>, e: seq<string>, f: seq<string>)
    requires Ascending(b) && Ascending(c) && AllLess(b, c) && b + c == e + f && |b| != |e|
    requires SCOPE_VERSION in b && SCOPE_VERSION in e && TEMPORALITY in c && TEMPORALITY in f
    ensures KeyBetween(b + c)
  {
    hide Less;
    var l := b + c;
    if |b| < |e| {
      var x :| 0 <= x < |f| && f[x] == TEMPORALITY;
      assert l[|e| + x] == f[x] && l[|e| + x] == c[|e| + x - |b|];
      assert c[0] in l && Less(c[0], TEMPORALITY);
    } else {
      var x :| 0 <= x < |e| && e[x] == SCOPE_VERSION;
      assert l[x] == e[x] && l[x] == b[x];
      assert b[|e|] in l && Less(SCOPE_VERSION, b[|e|]);
    }
  }

  /** Nothing above, and the scope's name is not the first key, since the other cut has a key above it. */
  lemma NameNotFirst(b: seq<string>, c: seq<string>, d: seq<string>, e: seq<string>, f: seq<string>)
    requires Ascending(b) && Ascending(c) && Ascending(d) && Ascending(e) && Ascending(f) && b + c == d + e + f
    requires d != [] && |d| != |b| && SCOPE_NAME in b && SCOPE_NAME in e
    ensures KeyBefore(b)
  {
    hide Less, AllLess;
    var l := b + c;
    var x :| 0 <= x < |e| && e[x] == SCOPE_NAME;
    assert l[|d| + x] == e[x];
    if |d| + x < |b| {
      assert b[|d| + x] == SCOPE_NAME && b[0] in b && Less(b[0], SCOPE_NAME);
    } else {
      assert c[|d| + x - |b|] == SCOPE_NAME && [] + b + c == b + c;
      NotCutBelow([], b, c, d, e, f);
      InBoth(b, c, SCOPE_NAME);
    }
  }

  lemma InBoth(b: seq<string>, c: seq<string>, key: string)
    requires AllLess(b, c) && key in b
    ensures key !in c
  {
    LessIsOrder(key, key, key);
  }

  lemma CutsDiffer(a: seq<string>, b: seq<string>, c: seq<string>, d: seq<string>, e: seq<string>, f: seq<string>)
    requires Ascending(a) && Ascending(b) && Ascending(c) && Ascending(d) && Ascending(e) && Ascending(f)
    requires ListsAll(b) && ListsAll(e) && TEMPORALITY in c && TEMPORALITY in f && a + b + c == d + e + f
    ensures || (a == d && b == e) || (AllLess(a, b) && (KeyBefore(a + b) || ListsAll(c)))
            || (AllLess(b, c) && (KeyBetween(b + c) || ListsAll(a)))
  {
    hide Less, Ascending, AllLess, KeyBefore, KeyBetween;
    var l, i, j := a + b + c, |a|, |a| + |b|;
    if |d| + |e| == i {
      NotCutBelow(a, b, c, d, e, f);
      assert a == l[..i] == d + e;
    } else if |d| == j {
      NotCutAbove(a, b, c, d, e, f);
      assert c == l[j..] == e + f;
    } else if |d| == i {
      assert a == l[..i] == d && b + c == l[i..] == e + f;
      if |b| == |e| {
        assert b == (b + c)[..|b|] && e == (e + f)[..|b|];
      } else {
        NotCutBelow(a, b, c, d, e, f);
        KeyInBetween(b, c, e, f);
      }
    } else {
      NotCutAbove(a, b, c, d, e, f);
      if a == [] {
        assert a + b + c == b + c && a + b == b;
        NameNotFirst(b, c, d, e, f);
      } else {
        FirstBefore(a, b);
      }
    }
  }

  lemma FirstBefore(a: seq<string>, b: seq<string>)
    requires AllLess(a, b) && a != [] && SCOPE_NAME in b
    ensures KeyBefore(a + b)
  {
    hide Less;
    assert a[0] in a && a[0] in a + b && Less(a[0], SCOPE_NAME);
  }

  lemma ListsConfuse(s: Series, a: seq<string>, b: seq<string>, c: seq<string>)
    requires KeyLists(s, a, b, c)
    ensures AllLess(a, b) ==> s.Upper().InOrder()
    ensures AllLess(b, c) ==> s.Lower().InOrder()
    ensures KeyBefore(a + b) ==> SomeBefore(s.Upper())
    ensures KeyBetween(b + c) ==> SomeBetween(s.Lower())
    ensures (ListsAll(a) <==> HoldsAll(s.resource)) && (ListsAll(b) <==> HoldsAll(s.scope))
    ensures (ListsAll(c) <==> HoldsAll(s.point)) && (TEMPORALITY in c <==> TEMPORALITY in s.point)
  {
    hide Less, Ascending;
    assert forall k :: k in a + b ==> k in s.resource.Keys + s.scope.Keys;
    assert forall k :: k in b + c ==> k in s.scope.Keys + s.point.Keys;
  }

  lemma SharedIsConfusable(s: Series, q: Series)
    requires s.Plain() && Exported(s) && q.Plain() && Exported(q) && q != s && q.Text() == s.Text()
    ensures Confusable(s)
  {
    var a, b, c := SomeLists(s);
    var d, e, f := SomeLists(q);
    hide Series.Text, Series.Plain, Less, Ascending, AllLess, KeyBefore, KeyBetween, ListsAll, HoldsAll, Pair.InOrder,
         SomeBefore, SomeBetween;
    SameLists(s, a, b, c, q, d, e, f);
    ListsConfuse(s, a, b, c);
    ListsConfuse(q, d, e, f);
    CutsDiffer(a, b, c, d, e, f);
  }

  /** Another series the exporter may write has the text of `s` exactly when `s` is confusable. */
  lemma SharedWithExportedIff(s: Series)
    requires s.Plain() && Exported(s)
    ensures SharedWithExported(s) <==> Confusable(s)
  {
    hide Series.Text, Series.Plain, Less, HoldsAll, Pair.InOrder;
    if SharedWithExported(s) {
      var q: Series :| q.Plain() && Exported(q) && q != s && q.Text() == s.Text();
      SharedIsConfusable(s, q);
    }
    if Confusable(s) {
      if s.Upper().InOrder() && SomeBefore(s.Upper()) {
        ConfusedAbove(s);
      } else if s.Upper().InOrder() && HoldsAll(s.point) {
        ConfusedByPoint(s);
      } else if SomeBetween(s.Lower()) {
        var key :| key in s.Lower().resource.Keys + s.Lower().scope.Keys
                   && Less(SCOPE_VERSION, key) && Less(key, TEMPORALITY);
        ConfusedBelow(s, key);
      } else {
        ConfusedByResource(s);
      }
    }
  }
}
