/** The JSON text of a set of labels, by which a time series is identified in the store, and a reader of that text. */
module Labels {
  import opened SortedKeys
  import opened Wrappers

  type Attributes = map<string, string>

  function Escape(c: char): string {
    if c == '\\' || c == '"' then ['\\', c]
    else if c == '\n' then "\\n"
    else if c == '\r' then "\\r"
    else if c == '\t' then "\\t"
    else [c]
  }

  function Escaped(value: string): string {
    if value == "" then "" else Escaped(value[..|value| - 1]) + Escape(value[|value| - 1])
  }

  function Pair(name: string, value: string): string { "\"" + name + "\":\"" + Escaped(value) + "\"" }

  /** The pairs, each followed by a comma. */
  function Pairs(keys: seq<string>, attrs: Attributes): string
    requires forall k :: k in keys ==> k in attrs
  {
    if keys == [] then "" else Pairs(keys[..|keys| - 1], attrs) + Pair(keys[|keys| - 1], attrs[keys[|keys| - 1]]) + ","
  }

  function Marshalled(keys: seq<string>, attrs: Attributes): string
    requires forall k :: k in keys ==> k in attrs
  {
    if keys == [] then "{}"
    else "{" + Pairs(keys[..|keys| - 1], attrs) + Pair(keys[|keys| - 1], attrs[keys[|keys| - 1]]) + "}"
  }

  /** The text of a label set: what is written for its keys in order. */
  ghost predicate IsText(text: string, attrs: Attributes) {
    exists keys :: KeysOf(keys, attrs) && text == Marshalled(keys, attrs)
  }

  method AppendEscape(b: string, c: char) returns (r: string)
    ensures r == b + Escape(c)
  {
    match c {
      case '\\' => r := b + ['\\', c];
      case '"' => r := b + ['\\', c];
      case '\n' => r := b + ['\\', 'n'];
      case '\r' => r := b + ['\\', 'r'];
      case '\t' => r := b + ['\\', 't'];
      case _ => r := b + [c];
    }
  }

  /** One turn of the loop over the labels. */
  method AppendPair(b: string, name: string, value: string) returns (r: string)
    ensures r == b + Pair(name, value) + ","
  {
    hide Escape;
    r := b + "\"";
    r := r + name;
    r := r + "\":\"";
    ghost var start := r;
    for i := 0 to |value|
      invariant r == start + Escaped(value[..i])
    {
      assert value[..i + 1][..i] == value[..i];
      r := AppendEscape(r, value[i]);
    }
    assert value[..|value|] == value;
    r := r + "\",";
  }

  method MarshalLabels(attrs: Attributes, b: string) returns (r: string)
    ensures b <= r && IsText(r[|b|..], attrs)
  {
    hide Pair;
    var keys := KeysInOrder(attrs);
    if attrs == map[] {
      r := b + "{}";
      assert r[|b|..] == "{}" == Marshalled(keys, attrs);
      return;
    }
    r := b + "{";
    for i := 0 to |keys|
      invariant r == b + "{" + Pairs(keys[..i], attrs)
    {
      assert keys[..i + 1][..i] == keys[..i];
      r := AppendPair(r, keys[i], attrs[keys[i]]);
      assert Pairs(keys[..i + 1], attrs) == Pairs(keys[..i], attrs) + Pair(keys[i], attrs[keys[i]]) + ",";
    }
    assert keys[..|keys|] == keys;
    r := r[|r| - 1 := '}'];
    LastComma(keys, attrs, b, r);
    assert r[|b|..] == Marshalled(keys, attrs);
  }

  /** Replacing the last comma closes the object. */
  lemma CloseObject(b: string, p: string, q: string)
    ensures var text := b + "{" + (p + q + ","); text[|text| - 1 := '}'] == b + ("{" + p + q + "}")
  {
  }

  lemma LastComma(keys: seq<string>, attrs: Attributes, b: string, r: string)
    requires keys != [] && forall k :: k in keys ==> k in attrs
    requires var text := b + "{" + Pairs(keys, attrs); r == text[|text| - 1 := '}']
    ensures r == b + Marshalled(keys, attrs)
  {
    hide Pair;
    var n := |keys| - 1;
    CloseObject(b, Pairs(keys[..n], attrs), Pair(keys[n], attrs[keys[n]]));
  }

  // ---- Reading the text back ----------------------------------------------------------------------------------

  /** What an escaped character stands for; there are five of them. */
  function Unescape(c: char): Option<char> {
    if c == '\\' || c == '"' then Some(c)
    else if c == 'n' then Some('\n')
    else if c == 'r' then Some('\r')
    else if c == 't' then Some('\t')
    else None
  }

  /** These are not read as themselves. */
  predicate MustBeEscaped(c: char) { c == '\n' || c == '\r' || c == '\t' }

  function Decode(s: string): Option<Attributes> {
    if s == "{}" then Some(map[]) else if s != "" && s[0] == '{' then DecodePair(s[1..], map[]) else None
  }

  function DecodePair(s: string, seen: Attributes): Option<Attributes>
    decreases |s|
  {
    if s != "" && s[0] == '"' then DecodeName("", s[1..], seen) else None
  }

  /** A name goes on to where a value begins. */
  function DecodeName(name: string, s: string, seen: Attributes): Option<Attributes>
    decreases |s|
  {
    if s == "" then None
    else if ValueBegins(s) then DecodeValue(name, "", s[3..], seen)
    else DecodeName(name + [s[0]], s[1..], seen)
  }

  predicate ValueBegins(s: string) { |s| >= 3 && s[0] == '"' && s[1] == ':' && s[2] == '"' }

  function DecodeValue(name: string, value: string, s: string, seen: Attributes): Option<Attributes>
    decreases |s|
  {
    if s == "" then None
    else if s[0] == '"' then DecodeNext(s[1..], seen[name := value])
    else if MustBeEscaped(s[0]) then None
    else if s[0] != '\\' then DecodeValue(name, value + [s[0]], s[1..], seen)
    else if |s| == 1 || Unescape(s[1]).None? then None
    else DecodeValue(name, value + [Unescape(s[1]).value], s[2..], seen)
  }

  function DecodeNext(s: string, seen: Attributes): Option<Attributes>
    decreases |s|
  {
    if s == "" then None
    else if s[0] == ',' then DecodePair(s[1..], seen)
    else if s == "}" then Some(seen)
    else None
  }

  /** A name that may be read as a shorter one: it holds `":"` or ends in `":`. */
  predicate Splits(name: string) {
    exists i :: 0 <= i < |name| - 1 && name[i] == '"' && name[i + 1] == ':' && (i + 2 == |name| || name[i + 2] == '"')
  }

  predicate PlainKeys(attrs: Attributes) { forall k :: k in attrs ==> !Splits(k) }

  lemma {:induction false} NameBack(done: string, name: string, rest: string, seen: Attributes)
    requires !Splits(name) && ValueBegins(rest)
    ensures DecodeName(done, name + rest, seen) == DecodeName(done + name, rest, seen)
    decreases |name|
  {
    if name == "" {
      assert name + rest == rest && done + name == done;
    } else {
      assert (name + rest)[1..] == name[1..] + rest && done + [name[0]] + name[1..] == done + name;
      StillWhole(name, rest);
      NameBack(done + [name[0]], name[1..], rest, seen);
    }
  }

  lemma StillWhole(name: string, rest: string)
    requires !Splits(name) && name != "" && ValueBegins(rest)
    ensures !Splits(name[1..]) && !ValueBegins(name + rest)
  {
    var shorter := name[1..];
    forall i | 0 <= i < |shorter| - 1 && shorter[i] == '"' && shorter[i + 1] == ':'
      ensures i + 2 < |shorter| && shorter[i + 2] != '"'
    {
      assert name[i + 1] == '"' && name[i + 2] == ':';
    }
  }

  lemma EscapedCons(value: string)
    requires value != ""
    ensures Escaped(value) == Escape(value[0]) + Escaped(value[1..])
    decreases |value|
  {
    hide Escape;
    var n := |value| - 1;
    if n == 0 {
      assert value[..n] == "" && value[1..] == "";
    } else {
      EscapedCons(value[..n]);
      assert value[..n][1..] == value[1..][..n - 1];
      Associate(Escape(value[0]), Escaped(value[1..][..n - 1]), Escape(value[n]));
    }
  }

  lemma {:induction false} ValueBack(name: string, done: string, value: string, rest: string, seen: Attributes)
    ensures DecodeValue(name, done, Escaped(value) + rest, seen) == DecodeValue(name, done + value, rest, seen)
    decreases |value|
  {
    assert Escaped("") == "";
    hide DecodeValue, Escape, Escaped;
    if value == "" {
      assert Escaped(value) + rest == rest && done + value == done;
    } else {
      EscapedCons(value);
      Associate(Escape(value[0]), Escaped(value[1..]), rest);
      EscapeBack(name, done, value[0], Escaped(value[1..]) + rest, seen);
      ValueBack(name, done + [value[0]], value[1..], rest, seen);
      Associate(done, [value[0]], value[1..]);
      assert [value[0]] + value[1..] == value;
    }
  }

  lemma Associate(a: string, b: string, c: string)
    ensures (a + b) + c == a + (b + c)
  {
  }

  lemma EscapeBack(name: string, done: string, c: char, rest: string, seen: Attributes)
    ensures DecodeValue(name, done, Escape(c) + rest, seen) == DecodeValue(name, done + [c], rest, seen)
  {
    var s := Escape(c) + rest;
    assert s[|Escape(c)|..] == rest;
  }

  lemma Delimiters(name: string, value: string, s: string, seen: Attributes)
    ensures DecodePair("\"" + s, seen) == DecodeName("", s, seen)
    ensures ValueBegins("\":\"" + s)
    ensures DecodeName(name, "\":\"" + s, seen) == DecodeValue(name, "", s, seen)
    ensures DecodeValue(name, value, "\"" + s, seen) == DecodeNext(s, seen[name := value])
  {
    assert ("\"" + s)[1..] == s && ("\":\"" + s)[3..] == s;
  }

  lemma PairBack(name: string, value: string, rest: string, seen: Attributes)
    requires !Splits(name)
    ensures DecodePair(Pair(name, value) + rest, seen) == DecodeNext(rest, seen[name := value])
  {
    hide DecodePair, DecodeName, DecodeValue, DecodeNext, Escaped, Splits, ValueBegins;
    var afterValue := "\"" + rest;
    var afterName := "\":\"" + (Escaped(value) + afterValue);
    assert Pair(name, value) + rest == "\"" + (name + afterName);
    assert "" + name == name && "" + value == value;
    Delimiters(name, value, name + afterName, seen);
    NameBack("", name, afterName, seen);
    Delimiters(name, value, Escaped(value) + afterValue, seen);
    ValueBack(name, "", value, afterValue, seen);
    Delimiters(name, value, rest, seen);
  }

  function Restrict(attrs: Attributes, keys: seq<string>): Attributes { map k | k in attrs && k in keys :: attrs[k] }

  lemma CommaBack(rest: string, seen: Attributes)
    ensures DecodeNext("," + rest, seen) == DecodePair(rest, seen)
  {
    assert ("," + rest)[1..] == rest;
  }

  lemma RestrictMore(attrs: Attributes, keys: seq<string>, key: string)
    requires key in attrs
    ensures Restrict(attrs, keys)[key := attrs[key]] == Restrict(attrs, keys + [key])
  {
  }

  lemma {:induction false} PairsBack(keys: seq<string>, attrs: Attributes, rest: string)
    requires forall k :: k in keys ==> k in attrs && !Splits(k)
    ensures DecodePair(Pairs(keys, attrs) + rest, map[]) == DecodePair(rest, Restrict(attrs, keys))
  {
    hide DecodePair, DecodeNext, Pair, Splits;
    if keys == [] {
      assert Pairs(keys, attrs) + rest == rest && Restrict(attrs, keys) == map[];
    } else {
      var n := |keys| - 1;
      var key := keys[n];
      assert keys == keys[..n] + [key];
      var more := "," + rest;
      assert Pairs(keys, attrs) + rest == Pairs(keys[..n], attrs) + (Pair(key, attrs[key]) + more);
      PairsBack(keys[..n], attrs, Pair(key, attrs[key]) + more);
      PairBack(key, attrs[key], more, Restrict(attrs, keys[..n]));
      CommaBack(rest, Restrict(attrs, keys));
      RestrictMore(attrs, keys[..n], key);
    }
  }

  /** Nowhere in what was read of a name does a value begin. */
  predicate NoneBegins(name: string, s: string) {
    forall i :: 0 <= i < |name| ==> !ValueBegins((name + s)[i..])
  }

  lemma ReadWhole(name: string, s: string)
    requires NoneBegins(name, s) && ValueBegins(s)
    ensures !Splits(name)
  {
    forall i | 0 <= i < |name| - 1 && name[i] == '"' && name[i + 1] == ':'
      ensures i + 2 < |name| && name[i + 2] != '"'
    {
      assert !ValueBegins((name + s)[i..]);
    }
  }

  lemma ReadOne(name: string, s: string)
    requires NoneBegins(name, s) && s != "" && !ValueBegins(s)
    ensures NoneBegins(name + [s[0]], s[1..])
  {
    assert name + [s[0]] + s[1..] == name + s && (name + s)[|name|..] == s;
  }

  lemma {:induction false} NoneSplits(s: string, name: string, value: string, seen: Attributes)
    requires PlainKeys(seen)
    ensures DecodePair(s, seen).Some? ==> PlainKeys(DecodePair(s, seen).value)
    ensures NoneBegins(name, s) && DecodeName(name, s, seen).Some? ==> PlainKeys(DecodeName(name, s, seen).value)
    ensures !Splits(name) && DecodeValue(name, value, s, seen).Some? ==>
              PlainKeys(DecodeValue(name, value, s, seen).value)
    ensures DecodeNext(s, seen).Some? ==> PlainKeys(DecodeNext(s, seen).value)
    decreases |s|
  {
    hide Splits, NoneBegins, ValueBegins;
    if s != "" {
      Nothing(s[1..]);
      NoneSplits(s[1..], "", "", seen);
      if ValueBegins(s) {
        ValueLong(s);
        NoneSplits(s[3..], name, "", seen);
        if NoneBegins(name, s) {
          ReadWhole(name, s);
        }
      } else {
        NoneSplits(s[1..], name + [s[0]], "", seen);
        if NoneBegins(name, s) {
          ReadOne(name, s);
        }
      }
      NoneSplits(s[1..], name, value + [s[0]], seen);
      if !Splits(name) {
        NoneSplits(s[1..], "", "", seen[name := value]);
      }
      if |s| >= 2 && Unescape(s[1]).Some? {
        NoneSplits(s[2..], name, value + [Unescape(s[1]).value], seen);
      }
    }
  }

  lemma Nothing(s: string)
    ensures NoneBegins("", s)
  {
  }

  lemma ValueLong(s: string)
    ensures ValueBegins(s) ==> |s| >= 3
  {
  }

  /** This reader gives the labels back exactly when no name may be read as a shorter one. */
  lemma RoundTrip(attrs: Attributes, text: string)
    requires IsText(text, attrs)
    ensures Decode(text) == Some(attrs) <==> PlainKeys(attrs)
  {
    var keys :| KeysOf(keys, attrs) && text == Marshalled(keys, attrs);
    if PlainKeys(attrs) {
      DecodesTo(keys, attrs);
    } else {
      hide Splits;
      if text != "" {
        NoneSplits(text[1..], "", "", map[]);
      }
    }
  }

  lemma DecodesTo(keys: seq<string>, attrs: Attributes)
    requires KeysOf(keys, attrs) && PlainKeys(attrs)
    ensures Decode(Marshalled(keys, attrs)) == Some(attrs)
  {
    assert Decode("{}") == Some(map[]);
    hide Pair, Decode, DecodePair, DecodeNext;
    if keys == [] {
      assert attrs == map[];
    } else {
      var n := |keys| - 1;
      var key := keys[n];
      LastKey(keys, attrs);
      hide KeysOf, PlainKeys, Restrict;
      var p, q := Pairs(keys[..n], attrs), Pair(key, attrs[key]);
      assert Marshalled(keys, attrs) == "{" + p + q + "}";
      LongerThanEmpty(attrs, key);
      OpenObject(p, q);
      PairsBack(keys[..n], attrs, q + "}");
      PairBack(key, attrs[key], "}", Restrict(attrs, keys[..n]));
      RestrictAll(keys[..n], key, attrs);
      Closing(attrs);
    }
  }

  lemma LastKey(keys: seq<string>, attrs: Attributes)
    requires KeysOf(keys, attrs) && PlainKeys(attrs) && keys != []
    ensures var n := |keys| - 1;
            && keys[n] in attrs && !Splits(keys[n]) && (forall k :: k in keys[..n] ==> k in attrs && !Splits(k))
            && (forall k :: k in attrs <==> k in keys[..n] || k == keys[n])
  {
    hide Less;
    assert keys == keys[..|keys| - 1] + [keys[|keys| - 1]];
  }

  lemma RestrictAll(keys: seq<string>, key: string, attrs: Attributes)
    requires key in attrs && forall k :: k in attrs <==> k in keys || k == key
    ensures Restrict(attrs, keys)[key := attrs[key]] == attrs
  {
  }

  lemma OpenObject(p: string, q: string)
    requires |q| > 0
    ensures Decode("{" + p + q + "}") == DecodePair(p + (q + "}"), map[])
  {
    hide DecodePair;
    var s := "{" + p + q + "}";
    assert s == "{" + (p + (q + "}")) && |s| > 2;
    assert s[1..] == p + (q + "}");
  }

  lemma LongerThanEmpty(attrs: Attributes, key: string)
    requires key in attrs
    ensures |Pair(key, attrs[key])| > 0
  {
  }

  lemma Closing(attrs: Attributes)
    ensures DecodeNext("}", attrs) == Some(attrs)
  {
  }

  /** A label set has one text, in whatever order its map is read; different sets share one only if some name of one of
      them may be read as a shorter one. */
  lemma TextIdentifies(attrs: Attributes, others: Attributes, text: string, otherText: string)
    requires IsText(text, attrs) && IsText(otherText, others)
    ensures attrs == others ==> text == otherText
    ensures PlainKeys(attrs) && PlainKeys(others) && text == otherText ==> attrs == others
  {
    RoundTrip(attrs, text);
    RoundTrip(others, otherText);
    hide Decode, Marshalled;
    if attrs == others {
      var keys :| KeysOf(keys, attrs) && text == Marshalled(keys, attrs);
      var otherKeys :| KeysOf(otherKeys, others) && otherText == Marshalled(otherKeys, others);
      OneOrder(keys, otherKeys);
    }
  }

  /** `NewLabelsAsJSONString`: later maps win, and the name replaces any label called `__name__`. */
  function Merged(ms: seq<Attributes>): Attributes { if ms == [] then map[] else Merged(ms[..|ms| - 1]) + ms[|ms| - 1] }

  method NewLabelsAsJSONString(name: string, ms: seq<Attributes>) returns (text: string)
    ensures IsText(text, Merged(ms)["__name__" := name])
  {
    var attrs: Attributes := map[];
    for i := 0 to |ms|
      invariant attrs == Merged(ms[..i])
    {
      assert ms[..i + 1][..i] == ms[..i];
      attrs := Overwrite(attrs, ms[i]);
    }
    assert ms[..|ms|] == ms;
    attrs := attrs["__name__" := name];
    text := MarshalLabels(attrs, "");
    assert text[0..] == text;
  }
}
