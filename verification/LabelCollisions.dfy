/** Which label sets share their text with others, whatever reads it: names are written as they are. */
module LabelCollisions {
  import opened Labels
  import opened SortedKeys
  import opened Wrappers

  ghost predicate SameText(attrs: Attributes, others: Attributes) {
    exists text :: IsText(text, attrs) && IsText(text, others)
  }

  ghost predicate Shared(attrs: Attributes) { exists others: Attributes :: others != attrs && SameText(attrs, others) }

  /** A name that spells out the end of one pair and the start of the next. */
  function Spliced(a: string, x: string, b: string): string { a + "\":\"" + Escaped(x) + "\",\"" + b }

  ghost predicate HasSplice(attrs: Attributes) { exists a, x, b :: Less(a, b) && Spliced(a, x, b) in attrs }

  // ---- All labels as one ------------------------------------------------------------------------------------------

  /** The one name that takes in all pairs but the last value. */
  function Joined(keys: seq<string>, attrs: Attributes): string
    requires keys != [] && forall k :: k in keys ==> k in attrs
  {
    var n := |keys| - 1;
    if n == 0 then keys[0] else Spliced(Joined(keys[..n], attrs), attrs[keys[n - 1]], keys[n])
  }

  lemma SplicedPair(a: string, x: string, b: string, y: string)
    ensures Pair(Spliced(a, x, b), y) == Pair(a, x) + "," + Pair(b, y)
  {
    hide Escaped;
  }

  lemma {:induction false} JoinedPair(keys: seq<string>, attrs: Attributes)
    requires keys != [] && forall k :: k in keys ==> k in attrs
    ensures Pairs(keys, attrs) == Pair(Joined(keys, attrs), attrs[keys[|keys| - 1]]) + ","
  {
    hide Pair, Spliced;
    var n := |keys| - 1;
    if n == 0 {
      assert keys[..0] == [] && Pairs([], attrs) == "";
      assert "" + Pair(keys[0], attrs[keys[0]]) == Pair(keys[0], attrs[keys[0]]);
    } else {
      JoinedPair(keys[..n], attrs);
      SplicedPair(Joined(keys[..n], attrs), attrs[keys[n - 1]], keys[n], attrs[keys[n]]);
    }
  }

  lemma TextOfOne(k: string, v: string)
    ensures IsText("{" + Pair(k, v) + "}", map[k := v])
  {
    hide Pair, Less;
    var one: Attributes := map[k := v];
    assert KeysOf([k], one) && [k][..0] == [];
    assert Marshalled([k], one) == "{" + Pair(k, v) + "}";
  }

  lemma TextOfAll(keys: seq<string>, attrs: Attributes)
    requires keys != [] && forall k :: k in keys ==> k in attrs
    ensures Marshalled(keys, attrs) == "{" + Pair(Joined(keys, attrs), attrs[keys[|keys| - 1]]) + "}"
  {
    hide Pair;
    JoinedPair(keys, attrs);
    var n := |keys| - 1;
    var last, all := Pair(keys[n], attrs[keys[n]]), Pair(Joined(keys, attrs), attrs[keys[n]]);
    var done := Pairs(keys[..n], attrs);
    assert (done + last) + "," == all + ",";
    assert done + last == ((done + last) + ",")[..|done + last|] && all == (all + ",")[..|all|];
    assert "{" + done + last + "}" == "{" + (done + last) + "}";
  }

  lemma SpliceTwice(a: string, x: string, b: string, y: string, c: string)
    ensures Spliced(Spliced(a, x, b), y, c) == Spliced(a, x, Spliced(b, y, c))
  {
    hide Escaped;
  }

  /** The first pair can be taken off in front, too. */
  lemma {:induction false} JoinedFirst(keys: seq<string>, attrs: Attributes)
    requires |keys| >= 2 && forall k :: k in keys ==> k in attrs
    ensures Joined(keys, attrs) == Spliced(keys[0], attrs[keys[0]], Joined(keys[1..], attrs))
  {
    hide Spliced;
    var n := |keys| - 1;
    var rest := keys[1..];
    if n == 1 {
      assert keys[..1] == [keys[0]] && rest == [keys[1]];
    } else {
      JoinedFirst(keys[..n], attrs);
      assert keys[..n][1..] == rest[..n - 1] && rest[n - 1] == keys[n] && rest[n - 2] == keys[n - 1];
      SpliceTwice(keys[0], attrs[keys[0]], Joined(rest[..n - 1], attrs), attrs[keys[n - 1]], keys[n]);
    }
  }

  lemma {:induction false} JoinedStarts(keys: seq<string>, attrs: Attributes)
    requires keys != [] && forall k :: k in keys ==> k in attrs
    ensures keys[0] <= Joined(keys, attrs)
  {
    hide Escaped;
    if |keys| > 1 {
      JoinedStarts(keys[..|keys| - 1], attrs);
    }
  }

  lemma {:induction false} LessThanLonger(a: string, b: string, c: string)
    requires Less(a, b) && b <= c
    ensures Less(a, c)
  {
    if a != "" && a[0] == b[0] {
      LessThanLonger(a[1..], b[1..], c[1..]);
    }
  }

  // ---- One label --------------------------------------------------------------------------------------------------

  /** In a value every quote is escaped. */
  lemma {:induction false} QuotesEscaped(v: string)
    ensures forall i :: 0 <= i < |Escaped(v)| && Escaped(v)[i] == '"' ==> i > 0 && Escaped(v)[i - 1] == '\\'
  {
    if v != "" {
      QuotesEscaped(v[..|v| - 1]);
    }
  }

  lemma ValueAt(k: string, v: string)
    ensures |Pair(k, v)| == |k| + |Escaped(v)| + 5 && ValueBegins(Pair(k, v)[|k| + 1..])
    ensures Pair(k, v)[1..|k| + 1] == k && Pair(k, v)[|k| + 4..|Pair(k, v)| - 1] == Escaped(v)
  {
    hide Escaped;
  }

  /** So the last value of a text is where it seems to be. */
  lemma NoValueLater(k: string, v: string, p: nat)
    requires |k| + 1 < p && p + 3 < |Pair(k, v)|
    ensures !ValueBegins(Pair(k, v)[p..])
  {
    QuotesEscaped(v);
    ValueAt(k, v);
    hide Escaped;
    var text, j := Pair(k, v), p - |k| - 2;
    assert text[p..][2] == text[p + 2] == Escaped(v)[j];
    assert j > 0 ==> text[p..][1] == text[p + 1] == Escaped(v)[j - 1];
  }

  lemma SamePair(k: string, v: string, l: string, w: string)
    requires Pair(k, v) == Pair(l, w)
    ensures k == l && v == w
  {
    ValueAt(k, v);
    ValueAt(l, w);
    hide Pair, ValueBegins;
    if |k| < |l| {
      NoValueLater(k, v, |l| + 1);
    } else if |l| < |k| {
      NoValueLater(l, w, |k| + 1);
    } else {
      ValuesApart(v, w);
    }
  }

  lemma ValuesApart(v: string, w: string)
    ensures Escaped(v) == Escaped(w) ==> v == w
  {
    ValueRead(v);
    ValueRead(w);
    hide Escaped, DecodeValue;
    var left: Attributes, right: Attributes := map["" := v], map["" := w];
    assert left[""] == v && right[""] == w;
  }

  /** Escaping keeps values apart. */
  lemma ValueRead(v: string)
    ensures DecodeValue("", "", Escaped(v) + "\"}", map[]) == Some(map["" := v])
  {
    ValueBack("", "", v, "\"}", map[]);
    assert "" + v == v;
    assert DecodeValue("", v, "\"}", map[]) == DecodeNext("}", map["" := v]);
  }

  // ---- Which sets share their text --------------------------------------------------------------------------------

  lemma {:induction false} Length(keys: seq<string>, attrs: Attributes)
    requires KeysOf(keys, attrs)
    ensures |keys| == |attrs|
  {
    if keys == [] {
      assert attrs == map[];
    } else {
      Rest(keys);
      assert keys[0] in attrs;
      Length(keys[1..], attrs - {keys[0]});
      assert (attrs - {keys[0]}).Keys == attrs.Keys - {keys[0]};
    }
  }

  lemma SeveralShare(attrs: Attributes)
    requires |attrs| >= 2
    ensures Shared(attrs)
  {
    var keys := KeysExist(attrs);
    Length(keys, attrs);
    var k, v := Joined(keys, attrs), attrs[keys[|keys| - 1]];
    TextOfAll(keys, attrs);
    TextOfOne(k, v);
    var one: Attributes := map[k := v];
    assert |one| == 1;
    assert SameText(attrs, one);
  }

  lemma TextOfTwo(a: string, x: string, b: string, y: string)
    requires Less(a, b)
    ensures var two: Attributes := map[a := x, b := y]; IsText("{" + Pair(Spliced(a, x, b), y) + "}", two)
  {
    LessIsOrder(a, a, a);
    var two: Attributes := map[a := x, b := y];
    var keys := [a, b];
    assert KeysOf(keys, two) && keys[..1] == [a];
    assert Joined([a], two) == a && Joined(keys, two) == Spliced(a, x, b);
    hide Spliced, Pair, Less;
    TextOfAll(keys, two);
  }

  /** With quotes in its name one label shares the text of two. */
  lemma QuoteCollides(a: string, x: string, b: string, y: string)
    requires Less(a, b)
    ensures var one: Attributes, two: Attributes := map[Spliced(a, x, b) := y], map[a := x, b := y];
            one != two && SameText(one, two)
  {
    LessIsOrder(a, a, a);
    TextOfTwo(a, x, b, y);
    TextOfOne(Spliced(a, x, b), y);
    hide Spliced, Pair, Less;
    var one: Attributes, two: Attributes := map[Spliced(a, x, b) := y], map[a := x, b := y];
    assert a in two && b in two;
  }

  lemma OneShares(k: string, v: string, keys: seq<string>, others: Attributes)
    requires KeysOf(keys, others) && Marshalled(keys, others) == "{" + Pair(k, v) + "}"
    ensures others == map[k := v] || HasSplice(map[k := v])
  {
    NotEmpty(k, v, keys, others);
    TextOfAll(keys, others);
    var l, w := Joined(keys, others), others[keys[|keys| - 1]];
    assert ("{" + Pair(k, v) + "}")[1..|Pair(k, v)| + 1] == Pair(k, v);
    assert ("{" + Pair(l, w) + "}")[1..|Pair(l, w)| + 1] == Pair(l, w);
    hide Pair, Marshalled;
    SamePair(k, v, l, w);
    if |keys| > 1 {
      JoinedIsSplice(keys, others);
    } else {
      assert keys == [k];
      assert others.Keys == {k};
    }
  }

  lemma NotEmpty(k: string, v: string, keys: seq<string>, others: Attributes)
    requires (forall key :: key in keys ==> key in others) && Marshalled(keys, others) == "{" + Pair(k, v) + "}"
    ensures keys != []
  {
    hide Escaped;
  }

  lemma JoinedIsSplice(keys: seq<string>, attrs: Attributes)
    requires KeysOf(keys, attrs) && |keys| > 1
    ensures var name := Joined(keys, attrs); forall v :: HasSplice(map[name := v])
  {
    JoinedFirst(keys, attrs);
    hide Spliced, Joined;
    var rest := keys[1..];
    assert forall k :: k in rest ==> k in keys;
    assert rest[0] == keys[1];
    JoinedStarts(rest, attrs);
    LessThanLonger(keys[0], keys[1], Joined(rest, attrs));
    hide Less;
    forall v
      ensures HasSplice(map[Joined(keys, attrs) := v])
    {
      var one: Attributes := map[Joined(keys, attrs) := v];
      assert Spliced(keys[0], attrs[keys[0]], Joined(rest, attrs)) in one;
    }
  }

  lemma OnlyShares(attrs: Attributes, k: string)
    requires attrs.Keys == {k} && Shared(attrs)
    ensures HasSplice(attrs)
  {
    var v := attrs[k];
    assert attrs == map[k := v];
    var others: Attributes :| others != attrs && SameText(attrs, others);
    var text :| IsText(text, attrs) && IsText(text, others);
    TextOfOne(k, v);
    TextIdentifies(attrs, attrs, text, "{" + Pair(k, v) + "}");
    hide Pair, Spliced;
    var keys :| KeysOf(keys, others) && text == Marshalled(keys, others);
    OneShares(k, v, keys, others);
  }

  lemma OnlyOne(attrs: Attributes, k: string)
    requires attrs.Keys == {k} && HasSplice(attrs)
    ensures Shared(attrs)
  {
    var a, x, b :| Less(a, b) && Spliced(a, x, b) in attrs;
    hide Spliced, Less;
    assert attrs == map[Spliced(a, x, b) := attrs[k]];
    QuoteCollides(a, x, b, attrs[k]);
  }

  lemma NothingShared()
    ensures !Shared(map[]) && !HasSplice(map[])
  {
    var none: Attributes := map[];
    hide Pair, Less;
    forall others: Attributes, text | IsText(text, none) && IsText(text, others)
      ensures others == none
    {
      var keys :| KeysOf(keys, none) && text == Marshalled(keys, none);
      assert keys == [];
      var otherKeys :| KeysOf(otherKeys, others) && text == Marshalled(otherKeys, others);
      if otherKeys != [] {
        LongText(otherKeys, others);
      } else {
        assert others == map[];
      }
    }
  }

  lemma LongText(keys: seq<string>, attrs: Attributes)
    requires keys != [] && forall k :: k in keys ==> k in attrs
    ensures |Marshalled(keys, attrs)| > 2
  {
    hide Escaped;
  }

  /** A label set shares its text with another exactly when it has several labels, which all read as one with quotes in
      its name, or a name that spells out two. No reader can tell such a set from the other. */
  lemma SharedIff(attrs: Attributes)
    ensures Shared(attrs) <==> |attrs| >= 2 || HasSplice(attrs)
  {
    if |attrs| >= 2 {
      SeveralShare(attrs);
    } else if attrs == map[] {
      NothingShared();
    } else {
      var k :| k in attrs;
      assert |attrs.Keys - {k}| == 0;
      assert attrs.Keys == {k};
      hide Shared, HasSplice;
      if Shared(attrs) {
        OnlyShares(attrs, k);
      }
      if HasSplice(attrs) {
        OnlyOne(attrs, k);
      }
    }
  }

  // ---- Two label sets ---------------------------------------------------------------------------------------------

  lemma NoSplice(attrs: Attributes)
    requires forall k :: k in attrs ==> |k| < 6
    ensures !HasSplice(attrs)
  {
    hide Escaped;
    assert forall a, x, b :: |Spliced(a, x, b)| >= 6;
  }

  lemma SameSplice()
    ensures Spliced("!", ":", ",\"d") == Spliced("!\":", ",", "d")
    ensures Less("!", ",\"d") && Less("!\":", "d")
  {
    assert Escaped(":") == ":" && Escaped(",") == ",";
  }

  /** Two sets may share their text although no name spells out two: the name `!":` may be read as the name `!` before a
      value that begins with a colon. */
  lemma ColonCollides(y: string)
    ensures var left: Attributes, right: Attributes := map["!" := ":", ",\"d" := y], map["!\":" := ",", "d" := y];
            left != right && SameText(left, right) && !HasSplice(left) && !HasSplice(right)
  {
    hide Spliced, Less, Pair, IsText, HasSplice;
    var left: Attributes, right: Attributes := map["!" := ":", ",\"d" := y], map["!\":" := ",", "d" := y];
    SameSplice();
    TextOfTwo("!", ":", ",\"d", y);
    TextOfTwo("!\":", ",", "d", y);
    NoSplice(left);
    NoSplice(right);
    assert |"!"| == 1 && "!" in left && "!" !in right;
  }

  /** They do not when none of their names may be read as a shorter one, that is, holds `":"` or ends in `":`. */
  lemma SharedOnlyIfSplits(attrs: Attributes, others: Attributes)
    requires attrs != others && SameText(attrs, others)
    ensures !PlainKeys(attrs) || !PlainKeys(others)
  {
    var text :| IsText(text, attrs) && IsText(text, others);
    TextIdentifies(attrs, others, text, text);
  }
}
