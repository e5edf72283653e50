/** Field paths: the six-state scanner that splits a path into keys, and the printer it should undo. */
module FieldPath {

  /** Why a path is refused. */
  datatype Error =
    | NotQuoted | AfterQuote | AfterBracket | UnclosedBracket | UnclosedDoubleQuote | UnclosedSingleQuote | NoFields

  datatype Result = Fields(fields: seq<string>) | Failed(error: Error)

  function Prepend(fields: seq<string>, r: Result): Result { if r.Fields? then Fields(fields + r.fields) else r }

  // ---- The grammar --------------------------------------------------------------------------------------------
  // One function for each state of the scanner, on the rest of the path; `token` is what the open token holds so far.

  function Parse(s: string): Result {
    if s == "" then Failed(NoFields)
    else if s[0] == '[' then InBracket(s[1..])
    else Token([s[0]], s[1..])
  }

  function InBracket(s: string): Result
    decreases |s|
  {
    if s == "" then Failed(UnclosedBracket)
    else if s[0] == '\'' || s[0] == '"' then Quoted(s[0], "", s[1..])
    else Failed(NotQuoted)
  }

  function Quoted(quote: char, token: string, s: string): Result
    decreases |s|
  {
    if s == "" then Failed(if quote == '"' then UnclosedDoubleQuote else UnclosedSingleQuote)
    else if s[0] == quote then Prepend([token], AfterQuoted(s[1..]))
    else Quoted(quote, token + [s[0]], s[1..])
  }

  function AfterQuoted(s: string): Result
    decreases |s|
  {
    if s == "" then Failed(UnclosedBracket) else if s[0] == ']' then AfterBracketed(s[1..]) else Failed(AfterQuote)
  }

  function AfterBracketed(s: string): Result
    decreases |s|
  {
    if s == "" then Fields([])
    else if s[0] == '.' then Token("", s[1..])
    else if s[0] == '[' then InBracket(s[1..])
    else Failed(AfterBracket)
  }

  function Token(token: string, s: string): Result
    decreases |s|
  {
    if s == "" then Fields([token])
    else if s[0] == '.' then Prepend([token], Token("", s[1..]))
    else if s[0] == '[' then Prepend([token], InBracket(s[1..]))
    else Token(token + [s[0]], s[1..])
  }

  // ---- The scanner --------------------------------------------------------------------------------------------

  datatype SplitState = Begin | InBracketState | InQuote | OutQuote | OutBracket | InUnbracketedToken

  /** What is still to come from state `state`, having scanned `s[..i]`. */
  ghost function Rest(s: string, state: SplitState, quote: char, tokenStart: nat, i: nat): Result
    requires i <= |s| && (state.InQuote? || state.InUnbracketedToken? ==> tokenStart <= i)
  {
    match state
    case Begin => Parse(s[i..])
    case InBracketState => InBracket(s[i..])
    case InQuote => Quoted(quote, s[tokenStart..i], s[i..])
    case OutQuote => AfterQuoted(s[i..])
    case OutBracket => AfterBracketed(s[i..])
    case InUnbracketedToken => Token(s[tokenStart..i], s[i..])
  }

  lemma PrependTwice(fields: seq<string>, field: string, r: Result)
    ensures Prepend(fields, Prepend([field], r)) == Prepend(fields + [field], r)
  {
  }

  method FromJSONDot(s: string) returns (r: Result)
    ensures r == Parse(s)
  {
    var fields: seq<string> := [];
    var state, quoteChar, tokenStart := Begin, '\0', 0;
    for i := 0 to |s|
      invariant state.InQuote? || state.InUnbracketedToken? ==> tokenStart <= i
      invariant (state.Begin? <==> i == 0) && (state.Begin? ==> fields == [])
      invariant state.InQuote? ==> quoteChar == '\'' || quoteChar == '"'
      invariant state.OutQuote? || state.OutBracket? ==> fields != []
      invariant Parse(s) == Prepend(fields, Rest(s, state, quoteChar, tokenStart, i))
    {
      var c := s[i];
      assert s[i..][1..] == s[i + 1..] && s[i + 1..i + 1] == "" && s[i..i + 1] == [c] && s[0..] == s;
      if state.InQuote? || state.InUnbracketedToken? {
        assert s[tokenStart..i + 1] == s[tokenStart..i] + [c];
        PrependTwice(fields, s[tokenStart..i], Token("", s[i + 1..]));
        PrependTwice(fields, s[tokenStart..i], InBracket(s[i + 1..]));
        PrependTwice(fields, s[tokenStart..i], AfterQuoted(s[i + 1..]));
      }
      match state {
        case Begin =>
          if c == '[' {
            state := InBracketState;
          } else {
            tokenStart, state := i, InUnbracketedToken;
          }
        case InBracketState =>
          if !(c == '\'' || c == '"') {
            return Failed(NotQuoted);
          }
          state, quoteChar, tokenStart := InQuote, c, i + 1;
        case InQuote =>
          if c == quoteChar {
            fields := fields + [s[tokenStart..i]];
            state := OutQuote;
          }
        case OutQuote =>
          if c != ']' {
            return Failed(AfterQuote);
          }
          state := OutBracket;
        case OutBracket =>
          if c == '.' {
            state, tokenStart := InUnbracketedToken, i + 1;
          } else if c == '[' {
            state := InBracketState;
          } else {
            return Failed(AfterBracket);
          }
        case InUnbracketedToken =>
          if c == '.' {
            fields := fields + [s[tokenStart..i]];
            tokenStart := i + 1;
          } else if c == '[' {
            fields := fields + [s[tokenStart..i]];
            state := InBracketState;
          }
      }
    }
    assert s[|s|..] == "";
    if state.InBracketState? || state.OutQuote? {
      return Failed(UnclosedBracket);
    }
    if state.InQuote? {
      return Failed(if quoteChar == '"' then UnclosedDoubleQuote else UnclosedSingleQuote);
    }
    assert fields + [] == fields;
    if state.InUnbracketedToken? {
      assert s[tokenStart..] == s[tokenStart..|s|];
      fields := fields + [s[tokenStart..]];
    }
    r := if |fields| == 0 then Failed(NoFields) else Fields(fields);
  }

  // ---- The printer --------------------------------------------------------------------------------------------

  predicate AnyHas(keys: seq<string>, c: char) { exists k :: 0 <= k < |keys| && c in keys[k] }

  function Bracketed(keys: seq<string>): string {
    if keys == [] then "" else "['" + keys[0] + "']" + Bracketed(keys[1..])
  }

  function Dotted(keys: seq<string>): string { if keys == [] then "" else "." + keys[0] + Dotted(keys[1..]) }

  function Print(prefix: string, keys: seq<string>): string {
    prefix + if AnyHas(keys, '.') then Bracketed(keys) else Dotted(keys)
  }

  lemma {:induction false} BracketedSnoc(keys: seq<string>, key: string)
    ensures Bracketed(keys + [key]) == Bracketed(keys) + "['" + key + "']"
  {
    if keys != [] {
      assert (keys + [key])[1..] == keys[1..] + [key];
      BracketedSnoc(keys[1..], key);
    }
  }

  lemma {:induction false} DottedSnoc(keys: seq<string>, key: string)
    ensures Dotted(keys + [key]) == Dotted(keys) + "." + key
  {
    if keys != [] {
      assert (keys + [key])[1..] == keys[1..] + [key];
      DottedSnoc(keys[1..], key);
    }
  }

  method WriteBracketed(prefix: string, keys: seq<string>) returns (b: string)
    ensures b == prefix + Bracketed(keys)
  {
    assert Bracketed([]) == "";
    hide Bracketed;
    b := prefix;
    for k := 0 to |keys|
      invariant b == prefix + Bracketed(keys[..k])
    {
      BracketedSnoc(keys[..k], keys[k]);
      assert keys[..k + 1] == keys[..k] + [keys[k]];
      b := b + "['";
      b := b + keys[k];
      b := b + "']";
    }
    assert keys[..|keys|] == keys;
  }

  lemma Associate(a: string, b: string, c: string, d: string)
    ensures a + b + c + d == a + (b + c + d)
  {
  }

  method WriteDotted(prefix: string, keys: seq<string>) returns (b: string)
    requires keys != []
    ensures b == prefix + Dotted(keys)
  {
    assert Dotted([]) == "";
    hide Dotted;
    b := prefix + ".";
    for k := 0 to |keys|
      invariant k == 0 ==> b == prefix + "."
      invariant k > 0 ==> b == prefix + Dotted(keys[..k])
    {
      DottedSnoc(keys[..k], keys[k]);
      assert keys[..k + 1] == keys[..k] + [keys[k]];
      Associate(prefix, Dotted(keys[..k]), ".", keys[k]);
      assert k == 0 ==> prefix + Dotted(keys[..k]) == prefix;
      if k != 0 {
        b := b + ".";
      }
      b := b + keys[k];
    }
    assert keys[..|keys|] == keys;
  }

  method ToJSONDot(prefix: string, keys: seq<string>) returns (b: string)
    ensures b == Print(prefix, keys)
  {
    if |keys| == 0 {
      return prefix;
    }
    var containsDots := false;
    for k := 0 to |keys|
      invariant containsDots <==> exists j :: 0 <= j < k && '.' in keys[j]
    {
      if '.' in keys[k] {
        containsDots := true;
      }
    }
    if containsDots {
      b := WriteBracketed(prefix, keys);
    } else {
      b := WriteDotted(prefix, keys);
    }
  }

  // ---- Parsing undoes printing --------------------------------------------------------------------------------

  /** Characters that are not special to the open token are taken into it. */
  lemma {:induction false} TokenTakes(token: string, key: string, rest: string)
    requires '.' !in key && '[' !in key
    ensures Token(token, key + rest) == Token(token + key, rest)
    decreases |key|
  {
    if key == "" {
      assert key + rest == rest && token + key == token;
    } else {
      assert (key + rest)[1..] == key[1..] + rest && token + [key[0]] + key[1..] == token + key;
      TokenTakes(token + [key[0]], key[1..], rest);
    }
  }

  lemma {:induction false} QuotedTakes(quote: char, token: string, key: string, rest: string)
    requires quote !in key
    ensures Quoted(quote, token, key + rest) == Quoted(quote, token + key, rest)
    decreases |key|
  {
    if key == "" {
      assert key + rest == rest && token + key == token;
    } else {
      assert (key + rest)[1..] == key[1..] + rest && token + [key[0]] + key[1..] == token + key;
      QuotedTakes(quote, token + [key[0]], key[1..], rest);
    }
  }

  /** The part of a key before its first `c`. */
  function Before(key: string, c: char): (r: string)
    ensures c !in r && |r| <= |key| && r == key[..|r|]
    ensures if c in key then |r| < |key| && key[|r|] == c else r == key
  {
    if key == "" || key[0] == c then "" else
      var rest := Before(key[1..], c);
      assert key == [key[0]] + key[1..];
      [key[0]] + rest
  }

  /** The keys come back, or the result starts with a key cut short. */
  predicate StartsWrong(r: Result, fields: seq<string>) {
    r.Failed? || exists j :: 0 <= j < |fields| && j < |r.fields| && r.fields[j] != fields[j]
  }

  lemma PrependWrong(field: string, r: Result, fields: seq<string>)
    requires StartsWrong(r, fields)
    ensures StartsWrong(Prepend([field], r), [field] + fields)
  {
    if r.Fields? {
      var j :| 0 <= j < |fields| && j < |r.fields| && r.fields[j] != fields[j];
      assert ([field] + r.fields)[j + 1] != ([field] + fields)[j + 1];
    }
  }

  /** A key with an opening bracket is cut there. */
  lemma CutAtBracket(key: string, more: string, keys: seq<string>)
    requires '.' !in key && '[' in key && keys != [] && keys[0] == key
    ensures StartsWrong(Token("", key + more), keys)
  {
    var cut := Before(key, '[');
    var tail := key[|cut| + 1..] + more;
    assert key + more == cut + (['['] + tail);
    TokenTakes("", cut, ['['] + tail);
    assert (['['] + tail)[1..] == tail && "" + cut == cut;
    assert Token("", key + more) == Prepend([cut], InBracket(tail));
    assert InBracket(tail).Fields? ==> ([cut] + InBracket(tail).fields)[0] == cut != keys[0];
  }

  /** In the dotted form a key is read back whole, unless it has an opening bracket: then it is cut there. */
  lemma {:induction false} DottedBack(token: string, keys: seq<string>)
    requires !AnyHas(keys, '.')
    ensures !AnyHas(keys, '[') ==> Token(token, Dotted(keys)) == Fields([token] + keys)
    ensures AnyHas(keys, '[') ==> StartsWrong(Token(token, Dotted(keys)), [token] + keys)
    decreases |keys|
  {
    if keys != [] {
      var key, rest := keys[0], keys[1..];
      AnyHasCons(keys, '.');
      AnyHasCons(keys, '[');
      DottedHead(token, keys);
      hide AnyHas, StartsWrong, Token, Dotted;
      if '[' in key {
        CutAtBracket(key, Dotted(rest), keys);
        PrependWrong(token, Token("", key + Dotted(rest)), keys);
      } else {
        TokenTakes("", key, Dotted(rest));
        assert "" + key == key;
        DottedBack(key, rest);
        assert [key] + rest == keys;
        if AnyHas(rest, '[') {
          PrependWrong(token, Token(key, Dotted(rest)), keys);
        }
      }
    }
  }

  lemma DottedHead(token: string, keys: seq<string>)
    requires keys != []
    ensures Token(token, Dotted(keys)) == Prepend([token], Token("", keys[0] + Dotted(keys[1..])))
  {
    assert Dotted(keys)[0] == '.' && Dotted(keys)[1..] == keys[0] + Dotted(keys[1..]);
  }

  lemma AnyHasCons(keys: seq<string>, c: char)
    requires keys != []
    ensures AnyHas(keys, c) <==> c in keys[0] || AnyHas(keys[1..], c)
  {
  }

  /** A key with a single quote is cut there. */
  lemma CutAtQuote(key: string, more: string, keys: seq<string>)
    requires '\'' in key && keys != [] && keys[0] == key
    ensures StartsWrong(Quoted('\'', "", key + more), keys)
  {
    var cut := Before(key, '\'');
    var tail := key[|cut| + 1..] + more;
    assert key + more == cut + (['\''] + tail);
    QuotedTakes('\'', "", cut, ['\''] + tail);
    assert (['\''] + tail)[1..] == tail && "" + cut == cut;
    assert Quoted('\'', "", key + more) == Prepend([cut], AfterQuoted(tail));
    assert AfterQuoted(tail).Fields? ==> ([cut] + AfterQuoted(tail).fields)[0] == cut != keys[0];
  }

  /** The scanner over the brackets and quotes of one key. */
  lemma BracketSteps(token: string, s: string)
    ensures AfterBracketed("['" + s) == Quoted('\'', "", s)
    ensures Quoted('\'', token, "']" + s) == Prepend([token], AfterBracketed(s))
  {
    assert ("['" + s)[1..] == "'" + s && ("'" + s)[1..] == s;
    assert ("']" + s)[1..] == "]" + s && ("]" + s)[1..] == s;
  }

  lemma BracketedHead(keys: seq<string>)
    requires keys != []
    ensures AfterBracketed(Bracketed(keys)) == Quoted('\'', "", keys[0] + ("']" + Bracketed(keys[1..])))
    ensures '\'' !in keys[0] ==>
              AfterBracketed(Bracketed(keys)) == Prepend([keys[0]], AfterBracketed(Bracketed(keys[1..])))
  {
    hide AfterBracketed, Quoted;
    var key, more := keys[0], Bracketed(keys[1..]);
    assert Bracketed(keys) == "['" + (key + ("']" + more));
    BracketSteps(key, key + ("']" + more));
    if '\'' !in key {
      QuotedTakes('\'', "", key, "']" + more);
      assert "" + key == key;
      BracketSteps(key, more);
    }
  }

  /** In the bracketed form a key is read back whole, unless it has a single quote: then it is cut there. */
  lemma {:induction false} BracketedBack(keys: seq<string>)
    ensures !AnyHas(keys, '\'') ==> AfterBracketed(Bracketed(keys)) == Fields(keys)
    ensures AnyHas(keys, '\'') ==> StartsWrong(AfterBracketed(Bracketed(keys)), keys)
  {
    if keys != [] {
      var key, rest := keys[0], keys[1..];
      assert keys == [key] + rest;
      AnyHasCons(keys, '\'');
      BracketedHead(keys);
      hide AnyHas, StartsWrong, AfterBracketed, Bracketed, Quoted;
      if '\'' in key {
        CutAtQuote(key, "']" + Bracketed(rest), keys);
      } else {
        BracketedBack(rest);
        if AnyHas(rest, '\'') {
          PrependWrong(key, AfterBracketed(Bracketed(rest)), rest);
        }
      }
    }
  }

  /** The keys that survive: with a dot somewhere, no single quote anywhere; without, no opening bracket anywhere. */
  predicate Printable(keys: seq<string>) {
    if AnyHas(keys, '.') then !AnyHas(keys, '\'') else !AnyHas(keys, '[')
  }

  predicate PlainPrefix(prefix: string) { prefix != "" && '.' !in prefix && '[' !in prefix }

  /** Parsing undoes printing exactly for the printable keys. */
  lemma RoundTrip(prefix: string, keys: seq<string>)
    requires PlainPrefix(prefix)
    ensures Parse(Print(prefix, keys)) == Fields([prefix] + keys) <==> Printable(keys)
  {
    var s := Print(prefix, keys);
    var rest := s[|prefix|..];
    assert s == prefix + rest;
    assert s[1..] == prefix[1..] + rest && [prefix[0]] + prefix[1..] == prefix;
    TokenTakes([prefix[0]], prefix[1..], rest);
    assert Parse(s) == Token(prefix, rest);
    if AnyHas(keys, '.') {
      BracketedBack(keys);
      assert rest == Bracketed(keys) && rest[0] == '[';
      assert Token(prefix, rest) == Prepend([prefix], AfterBracketed(rest));
      if AnyHas(keys, '\'') {
        PrependWrong(prefix, AfterBracketed(rest), keys);
      }
    } else {
      assert rest == Dotted(keys);
      DottedBack(prefix, keys);
    }
  }

  /** Distinct fields print differently. */
  lemma PrintIsInjective(prefix: string, keys: seq<string>, prefix': string, keys': seq<string>)
    requires PlainPrefix(prefix) && PlainPrefix(prefix') && Printable(keys) && Printable(keys')
    requires Print(prefix, keys) == Print(prefix', keys')
    ensures prefix == prefix' && keys == keys'
  {
    RoundTrip(prefix, keys);
    RoundTrip(prefix', keys');
    assert ([prefix] + keys)[0] == prefix && ([prefix'] + keys')[0] == prefix';
    assert ([prefix] + keys)[1..] == keys && ([prefix'] + keys')[1..] == keys';
  }
}
