/** The paths that the scanner accepts and what they mean, by how they are written, and why it refuses the others. */
module FieldGrammar {
  import opened FieldPath

  /** One key as it is written: after a dot, or in brackets and quotes of either kind. */
  datatype Segment = Bare(key: string) | InQuotes(quote: char, key: string)

  predicate PlainKey(key: string) { '.' !in key && '[' !in key }

  predicate IsQuote(c: char) { c == '\'' || c == '"' }

  predicate Good(seg: Segment) {
    match seg
    case Bare(key) => PlainKey(key)
    case InQuotes(quote, key) => IsQuote(quote) && quote !in key
  }

  predicate AllGood(segs: seq<Segment>) { forall seg :: seg in segs ==> Good(seg) }

  function WrittenOne(seg: Segment): string {
    match seg
    case Bare(key) => "." + key
    case InQuotes(quote, key) => "[" + [quote] + key + [quote] + "]"
  }

  function Tail(segs: seq<Segment>): string { if segs == [] then "" else WrittenOne(segs[0]) + Tail(segs[1..]) }

  function KeysOf(segs: seq<Segment>): seq<string> { if segs == [] then [] else [segs[0].key] + KeysOf(segs[1..]) }

  /** The first key is written without its dot; it may not be empty, and its first character may be a dot. */
  predicate FirstBare(key: string) { key != "" && key[0] != '[' && PlainKey(key[1..]) }

  predicate WellWritten(segs: seq<Segment>) {
    segs != [] && AllGood(segs[1..]) && if segs[0].Bare? then FirstBare(segs[0].key) else Good(segs[0])
  }

  function Written(segs: seq<Segment>): string
    requires segs != []
  {
    (if segs[0].Bare? then segs[0].key else WrittenOne(segs[0])) + Tail(segs[1..])
  }

  // ---- What is refused --------------------------------------------------------------------------------------------

  predicate OpensQuote(rest: string) { |rest| >= 2 && rest[0] == '[' && IsQuote(rest[1]) }

  predicate Unclosed(rest: string) { OpensQuote(rest) && rest[1] !in rest[2..] }

  /** A quoted key and no more, or followed by `c`. */
  ghost predicate QuotedThen(rest: string, more: string) {
    exists quote, key :: IsQuote(quote) && quote !in key && rest == "[" + [quote] + key + [quote] + more
  }

  /** Where scanning stops at `rest`: `bracketed` says that a bracketed key was before it. */
  ghost predicate Defect(rest: string, e: Error, bracketed: bool) {
    match e
    case NotQuoted => |rest| >= 2 && rest[0] == '[' && !IsQuote(rest[1])
    case UnclosedBracket => rest == "[" || QuotedThen(rest, "")
    case UnclosedDoubleQuote => Unclosed(rest) && rest[1] == '"'
    case UnclosedSingleQuote => Unclosed(rest) && rest[1] == '\''
    case AfterQuote => exists more :: more != "" && more[0] != ']' && QuotedThen(rest, more)
    case AfterBracket => bracketed && rest != "" && rest[0] != '.' && rest[0] != '['
    case NoFields => false
  }

  predicate EndsBracketed(segs: seq<Segment>) { segs != [] && segs[|segs| - 1].InQuotes? }

  /** The path is empty, or has a defect after some keys, or from the start. */
  ghost predicate Refused(s: string, e: Error) {
    || (s == "" && e == NoFields)
    || Defect(s, e, false)
    || exists segs, rest ::
         segs != [] && WellWritten(segs) && s == Written(segs) + rest
         && Defect(rest, e, EndsBracketed(segs)) && Continues(segs, rest)
  }

  /** What comes after a bare key is not part of it. */
  predicate Continues(segs: seq<Segment>, rest: string) {
    rest == "" || rest[0] == '[' || EndsBracketed(segs) || segs == []
  }

  ghost predicate Accepted(s: string, fields: seq<string>) {
    exists segs :: segs != [] && WellWritten(segs) && s == Written(segs) && fields == KeysOf(segs)
  }

  // ---- Scanning what is written -----------------------------------------------------------------------------------

  lemma TokenEnds(key: string, t: string)
    requires t == "" || t[0] == '.' || t[0] == '['
    ensures Token(key, t) == Prepend([key], AfterBracketed(t))
  {
  }

  lemma QuotedScan(quote: char, key: string, t: string)
    requires IsQuote(quote) && quote !in key
    ensures AfterBracketed("[" + [quote] + key + [quote] + t) == Prepend([key], AfterQuoted(t))
    ensures Parse("[" + [quote] + key + [quote] + t) == Prepend([key], AfterQuoted(t))
  {
    var s := "[" + [quote] + key + [quote] + t;
    assert s[1..] == [quote] + (key + ([quote] + t)) && s[1..][1..] == key + ([quote] + t);
    assert ([quote] + t)[1..] == t && "" + key == key;
    QuotedTakes(quote, "", key, [quote] + t);
  }

  lemma BareScan(token: string, key: string, t: string)
    requires PlainKey(key) && (t == "" || t[0] == '.' || t[0] == '[')
    ensures Token(token, key + t) == Prepend([token + key], AfterBracketed(t))
  {
    TokenTakes(token, key, t);
    TokenEnds(token + key, t);
  }

  lemma PrependAll(key: string, keys: seq<string>, r: Result)
    ensures Prepend([key], Prepend(keys, r)) == Prepend([key] + keys, r)
  {
    if r.Fields? {
      assert [key] + (keys + r.fields) == [key] + keys + r.fields;
    }
  }

  lemma {:induction false} TailScan(segs: seq<Segment>, rest: string)
    requires AllGood(segs) && Continues(segs, rest)
    ensures AfterBracketed(Tail(segs) + rest) == Prepend(KeysOf(segs), AfterBracketed(rest))
  {
    if segs == [] {
      assert "" + rest == rest;
      var r := AfterBracketed(rest);
      assert r.Fields? ==> [] + r.fields == r.fields;
    } else {
      var seg, more := segs[0], segs[1..];
      assert segs == [seg] + more && seg in segs;
      assert more != [] ==> more[|more| - 1] == segs[|segs| - 1];
      var t := Tail(more) + rest;
      TailScan(more, rest);
      OneScan(seg, more, rest);
      PrependAll(seg.key, KeysOf(more), AfterBracketed(rest));
    }
  }

  lemma OneScan(seg: Segment, more: seq<Segment>, rest: string)
    requires Good(seg) && (seg.Bare? && more == [] ==> rest == "" || rest[0] == '[')
    ensures AfterBracketed(WrittenOne(seg) + Tail(more) + rest)
            == Prepend([seg.key], AfterBracketed(Tail(more) + rest))
  {
    hide Tail, KeysOf, Token, Quoted;
    var t := Tail(more) + rest;
    match seg
    case Bare(key) =>
      TailStarts(more, rest);
      assert ("." + key + Tail(more) + rest)[1..] == key + t && "" + key == key;
      BareScan("", key, t);
    case InQuotes(quote, key) =>
      assert "[" + [quote] + key + [quote] + "]" + Tail(more) + rest == "[" + [quote] + key + [quote] + ("]" + t);
      assert ("]" + t)[1..] == t;
      QuotedScan(quote, key, "]" + t);
  }

  lemma TailStarts(segs: seq<Segment>, rest: string)
    requires segs == [] ==> rest == "" || rest[0] == '['
    ensures var t := Tail(segs) + rest; t == "" || t[0] == '.' || t[0] == '['
  {
    if segs != [] {
      assert WrittenOne(segs[0]) != "";
    }
  }

  lemma FirstScan(seg: Segment, more: seq<Segment>, rest: string)
    requires if seg.Bare? then FirstBare(seg.key) else Good(seg)
    requires seg.Bare? && more == [] ==> rest == "" || rest[0] == '['
    ensures Parse((if seg.Bare? then seg.key else WrittenOne(seg)) + Tail(more) + rest)
            == Prepend([seg.key], AfterBracketed(Tail(more) + rest))
  {
    hide Tail, KeysOf, Token, Quoted;
    var t := Tail(more) + rest;
    match seg
    case Bare(key) =>
      TailStarts(more, rest);
      assert key + Tail(more) + rest == key + t;
      assert (key + t)[1..] == key[1..] + t && [key[0]] + key[1..] == key;
      BareScan([key[0]], key[1..], t);
    case InQuotes(quote, key) =>
      assert "[" + [quote] + key + [quote] + "]" + Tail(more) + rest == "[" + [quote] + key + [quote] + ("]" + t);
      assert ("]" + t)[1..] == t;
      QuotedScan(quote, key, "]" + t);
  }

  lemma WrittenScan(segs: seq<Segment>, rest: string)
    requires WellWritten(segs) && Continues(segs, rest)
    ensures Parse(Written(segs) + rest) == Prepend(KeysOf(segs), AfterBracketed(rest))
  {
    hide Good, FirstBare, Tail, WrittenOne, Parse;
    var seg, more := segs[0], segs[1..];
    assert segs == [seg] + more && (more != [] ==> more[|more| - 1] == segs[|segs| - 1]);
    TailScan(more, rest);
    FirstScan(seg, more, rest);
    PrependAll(seg.key, KeysOf(more), AfterBracketed(rest));
  }

  // ---- Both directions --------------------------------------------------------------------------------------------

  lemma UnclosedFails(rest: string)
    requires Unclosed(rest)
    ensures AfterBracketed(rest) == Parse(rest)
            == Failed(if rest[1] == '"' then UnclosedDoubleQuote else UnclosedSingleQuote)
  {
    var key := rest[2..];
    assert rest[1..][1..] == key && key + "" == key && "" + key == key;
    QuotedTakes(rest[1], "", key, "");
  }

  lemma DefectFails(rest: string, e: Error, bracketed: bool)
    requires Defect(rest, e, bracketed)
    ensures AfterBracketed(rest) == Failed(e) && (!bracketed ==> Parse(rest) == Failed(e))
  {
    hide Token, Quoted;
    match e
    case NotQuoted =>
      assert rest[1..] != "" && rest[1..][0] == rest[1];
    case UnclosedBracket =>
      if QuotedThen(rest, "") {
        QuotedThenScan(rest, "");
      }
    case UnclosedDoubleQuote => UnclosedFails(rest);
    case UnclosedSingleQuote => UnclosedFails(rest);
    case AfterQuote =>
      var more :| more != "" && more[0] != ']' && QuotedThen(rest, more);
      QuotedThenScan(rest, more);
    case AfterBracket =>
  }

  lemma QuotedThenScan(rest: string, more: string)
    requires QuotedThen(rest, more) && (more == "" || more[0] != ']')
    ensures AfterBracketed(rest) == Parse(rest) == Failed(if more == "" then UnclosedBracket else AfterQuote)
  {
    var quote, key :| IsQuote(quote) && quote !in key && rest == "[" + [quote] + key + [quote] + more;
    QuotedScan(quote, key, more);
  }

  /** The longest start of `s` without a dot or an opening bracket. */
  function PlainStart(s: string): (r: string)
    ensures PlainKey(r) && |r| <= |s| && s == r + s[|r|..]
    ensures s[|r|..] == "" || s[|r|..][0] == '.' || s[|r|..][0] == '['
  {
    if s == "" || s[0] == '.' || s[0] == '[' then "" else [s[0]] + PlainStart(s[1..])
  }

  ghost predicate Stops(rest: string, bracketed: bool) { rest == "" || exists e :: Defect(rest, e, bracketed) }

  /** What follows a bracketed key is written segments up to the end, or up to a defect. */
  lemma {:induction false} Split(s: string) returns (segs: seq<Segment>, rest: string)
    ensures AllGood(segs) && s == Tail(segs) + rest && Continues(segs, rest)
    ensures Stops(rest, segs == [] || EndsBracketed(segs)) && (rest == "" || rest[0] != '.')
    decreases |s|
  {
    hide AllGood, Tail, Defect, Stops, Continues, QuotedThen;
    if s != "" && s[0] == '.' {
      var key := PlainStart(s[1..]);
      var t := s[1..][|key|..];
      var more;
      more, rest := Split(t);
      assert s == "." + key + t;
      segs := BareFirst(s, key, t, more, rest);
    } else if OpensQuote(s) && s[1] in s[2..] && Closed(s) {
      var key := Before(s[2..], s[1]);
      var t := s[2..][|key| + 2..];
      var more;
      more, rest := Split(t);
      assert s == "[" + [s[1]] + key + [s[1]] + "]" + t;
      segs := QuotedFirst(s, s[1], key, t, more, rest);
    } else {
      segs, rest := [], s;
      NothingWritten(s);
    }
  }

  lemma BareFirst(s: string, key: string, t: string, more: seq<Segment>, rest: string) returns (segs: seq<Segment>)
    requires s == "." + key + t && PlainKey(key) && (t == "" || t[0] == '.' || t[0] == '[')
    requires AllGood(more) && t == Tail(more) + rest && Continues(more, rest)
    requires Stops(rest, more == [] || EndsBracketed(more)) && (rest == "" || rest[0] != '.')
    ensures AllGood(segs) && s == Tail(segs) + rest && Continues(segs, rest)
    ensures segs != [] && Stops(rest, EndsBracketed(segs))
  {
    hide AllGood, Tail, Stops, Continues;
    NoneBefore(t, more, rest);
    segs := Cons(Bare(key), more, rest);
    Associate("." + key, Tail(more), rest);
  }

  lemma QuotedFirst(s: string, quote: char, key: string, t: string, more: seq<Segment>, rest: string)
    returns (segs: seq<Segment>)
    requires s == "[" + [quote] + key + [quote] + "]" + t && IsQuote(quote) && quote !in key
    requires AllGood(more) && t == Tail(more) + rest && Continues(more, rest)
    requires Stops(rest, more == [] || EndsBracketed(more))
    ensures AllGood(segs) && s == Tail(segs) + rest && Continues(segs, rest)
    ensures segs != [] && Stops(rest, EndsBracketed(segs))
  {
    hide AllGood, Tail, Stops, Continues;
    segs := Cons(InQuotes(quote, key), more, rest);
    Associate(WrittenOne(InQuotes(quote, key)), Tail(more), rest);
  }

  /** The key in quotes that `s` begins with is followed by a closing bracket. */
  predicate Closed(s: string)
    requires OpensQuote(s) && s[1] in s[2..]
  {
    var n := |Before(s[2..], s[1])| + 1;
    n < |s[2..]| && s[2..][n] == ']'
  }

  lemma Associate(a: string, b: string, c: string)
    ensures a + b + c == a + (b + c)
  {
  }

  lemma NoneBefore(t: string, more: seq<Segment>, rest: string)
    requires t == Tail(more) + rest && (t == "" || t[0] == '.' || t[0] == '[') && (rest == "" || rest[0] != '.')
    ensures more == [] ==> rest == "" || rest[0] == '['
  {
  }

  lemma NothingWritten(s: string)
    requires s == "" || s[0] != '.'
    requires !(OpensQuote(s) && s[1] in s[2..] && Closed(s))
    ensures AllGood([]) && s == Tail([]) + s && Continues([], s) && Stops(s, true)
  {
    if s != "" && s[0] == '[' {
      if OpensQuote(s) && s[1] in s[2..] {
        QuotedDefect(s);
      } else {
        OpeningDefect(s);
      }
    } else if s != "" {
      assert Defect(s, AfterBracket, true);
    }
  }

  lemma QuotedDefect(s: string)
    requires OpensQuote(s) && s[1] in s[2..] && !Closed(s)
    ensures Stops(s, true)
  {
    var key := Before(s[2..], s[1]);
    var t := s[2..][|key| + 1..];
    assert s == "[" + [s[1]] + key + [s[1]] + t;
    assert QuotedThen(s, t);
    assert Defect(s, if t == "" then UnclosedBracket else AfterQuote, true);
  }

  lemma OpeningDefect(s: string)
    requires s != "" && s[0] == '[' && !(OpensQuote(s) && s[1] in s[2..])
    ensures Stops(s, true)
  {
    if |s| == 1 {
      assert s == "[";
      assert Defect(s, UnclosedBracket, true);
    } else if IsQuote(s[1]) {
      assert Defect(s, if s[1] == '"' then UnclosedDoubleQuote else UnclosedSingleQuote, true);
    } else {
      assert Defect(s, NotQuoted, true);
    }
  }

  lemma Cons(seg: Segment, more: seq<Segment>, rest: string) returns (segs: seq<Segment>)
    requires Good(seg) && AllGood(more) && Continues(more, rest)
    requires Stops(rest, more == [] || EndsBracketed(more))
    requires seg.Bare? && more == [] ==> rest == "" || rest[0] == '['
    ensures AllGood(segs) && segs == [seg] + more && Tail(segs) == WrittenOne(seg) + Tail(more)
    ensures Continues(segs, rest) && Stops(rest, EndsBracketed(segs))
  {
    segs := [seg] + more;
    assert segs[1..] == more && (more != [] ==> segs[|segs| - 1] == more[|more| - 1]);
    if rest != "" && seg.Bare? && more == [] {
      var e :| Defect(rest, e, true);
      assert Defect(rest, e, false);
    }
  }

  /** Every path is written from keys, or has a defect. */
  lemma Whole(s: string) returns (segs: seq<Segment>, rest: string)
    requires s != ""
    ensures Continues(segs, rest)
    ensures if segs == [] then s == rest && Stops(s, false) && rest != ""
            else WellWritten(segs) && s == Written(segs) + rest && Stops(rest, EndsBracketed(segs))
  {
    hide Stops, AllGood, Tail, Written, WellWritten, Continues;
    if s[0] == '[' {
      segs, rest := Split(s);
      FirstBracketed(s, segs, rest);
    } else {
      var start := PlainStart(s[1..]);
      var t := s[1..][|start|..];
      var more;
      more, rest := Split(t);
      NoneBefore(t, more, rest);
      segs := FirstKey(s, start, more, rest);
    }
  }

  lemma FirstKey(s: string, start: string, more: seq<Segment>, rest: string) returns (segs: seq<Segment>)
    requires s != "" && s[0] != '[' && PlainKey(start) && s[1..] == start + (Tail(more) + rest)
    requires AllGood(more) && Continues(more, rest) && Stops(rest, more == [] || EndsBracketed(more))
    requires more == [] ==> rest == "" || rest[0] == '['
    ensures segs != [] && WellWritten(segs) && s == Written(segs) + rest
    ensures Continues(segs, rest) && Stops(rest, EndsBracketed(segs))
  {
    hide Tail, Stops;
    var key := [s[0]] + start;
    assert key[1..] == start && s == [s[0]] + s[1..];
    segs := [Bare(key)] + more;
    assert segs[1..] == more && (more != [] ==> segs[|segs| - 1] == more[|more| - 1]);
    Associate(key, Tail(more), rest);
    assert s == key + (Tail(more) + rest);
    if more == [] {
      NotAfterBracket(rest);
    }
  }

  lemma NotAfterBracket(rest: string)
    requires Stops(rest, true) && (rest == "" || rest[0] == '[')
    ensures Stops(rest, false)
  {
    if rest != "" {
      var e :| Defect(rest, e, true);
      assert Defect(rest, e, false);
    }
  }

  lemma FirstBracketed(s: string, segs: seq<Segment>, rest: string)
    requires s != "" && s[0] == '[' && AllGood(segs) && s == Tail(segs) + rest
    requires Stops(rest, segs == [] || EndsBracketed(segs))
    ensures if segs == [] then s == rest && Stops(s, false)
            else WellWritten(segs) && s == Written(segs) + rest && Stops(rest, EndsBracketed(segs))
  {
    if segs == [] {
      assert s == rest;
      NotAfterBracket(rest);
    } else {
      hide Stops;
      assert segs[0] in segs && s[0] == WrittenOne(segs[0])[0];
    }
  }

  lemma AcceptedParses(s: string, fields: seq<string>)
    requires Accepted(s, fields)
    ensures Parse(s) == Fields(fields)
  {
    var segs :| segs != [] && WellWritten(segs) && s == Written(segs) && fields == KeysOf(segs);
    assert s + "" == s && fields + [] == fields;
    WrittenScan(segs, "");
  }

  lemma RefusedFails(s: string, e: Error)
    requires Refused(s, e)
    ensures Parse(s) == Failed(e)
  {
    hide Defect, Parse, WellWritten, Written, Continues;
    if s == "" && e == NoFields {
      NothingFails();
    } else if Defect(s, e, false) {
      DefectFails(s, e, false);
    } else {
      var segs, rest :| segs != [] && WellWritten(segs) && s == Written(segs) + rest
                        && Defect(rest, e, EndsBracketed(segs)) && Continues(segs, rest);
      WrittenScan(segs, rest);
      DefectFails(rest, e, EndsBracketed(segs));
    }
  }

  lemma NothingFails()
    ensures Parse("") == Failed(NoFields)
  {
  }

  /** A path is accepted or refused, whichever is right. */
  lemma Judged(s: string)
    ensures (exists fields :: Accepted(s, fields)) || exists e :: Refused(s, e)
  {
    if s == "" {
      assert Refused(s, NoFields);
    } else {
      hide Defect, WellWritten, Written, Continues;
      var segs, rest := Whole(s);
      if rest == "" {
        assert Written(segs) + rest == Written(segs);
        assert Accepted(s, KeysOf(segs));
      } else {
        var e :| Defect(rest, e, segs != [] && EndsBracketed(segs));
        assert Refused(s, e);
      }
    }
  }

  /** A path is accepted with certain keys exactly when it is written from them. */
  lemma AcceptedIff(s: string, fields: seq<string>)
    ensures Parse(s) == Fields(fields) <==> Accepted(s, fields)
  {
    hide Accepted, Refused, Parse;
    Judged(s);
    if Accepted(s, fields) {
      AcceptedParses(s, fields);
    } else if other :| Accepted(s, other) {
      AcceptedParses(s, other);
    } else {
      var e :| Refused(s, e);
      RefusedFails(s, e);
    }
  }

  /** And it is refused with a certain error exactly when it has that defect. */
  lemma RefusedIff(s: string, e: Error)
    ensures Parse(s) == Failed(e) <==> Refused(s, e)
  {
    hide Accepted, Refused, Parse;
    Judged(s);
    if Refused(s, e) {
      RefusedFails(s, e);
    } else if fields :| Accepted(s, fields) {
      AcceptedParses(s, fields);
    } else {
      var other :| Refused(s, other);
      RefusedFails(s, other);
    }
  }
}
