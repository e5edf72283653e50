/** The streaming fingerprint of an attribute set: a 64-bit FNV-1a hash folded over one canonical encoding. */
module Fingerprint {
  import opened SortedKeys

  type Attributes = map<string, string>

  const INITIAL_OFFSET: bv64 := 14695981039346656037
  const PRIME_64: bv64 := 1099511628211

  /** The byte that ends every key and value. No UTF-8 text holds it (RFC 3629, section 1). */
  const SEPARATOR: char := 255 as char

  /** One byte of FNV-1a. */
  function AddByte(h: bv64, b: char): bv64 { (h ^ ByteOf(b)) * PRIME_64 }

  function ByteOf(b: char): bv64 { (b as int % 256) as bv64 }

  function Fold(h: bv64, bytes: string): bv64 {
    if bytes == "" then h else AddByte(Fold(h, bytes[..|bytes| - 1]), bytes[|bytes| - 1])
  }

  /** Strings are hashed in pieces, or all at once: it makes no difference. */
  lemma {:induction false} FoldAppend(h: bv64, a: string, b: string)
    ensures Fold(h, a + b) == Fold(Fold(h, a), b)
  {
    hide AddByte;
    if b == "" {
      assert a + b == a;
    } else {
      assert (a + b)[..|a + b| - 1] == a + b[..|b| - 1];
      FoldAppend(h, a, b[..|b| - 1]);
    }
  }

  method HashAdd(h: bv64, s: string) returns (r: bv64)
    ensures r == Fold(h, s)
  {
    hide AddByte;
    r := h;
    for i := 0 to |s|
      invariant r == Fold(h, s[..i])
    {
      assert s[..i + 1][..i] == s[..i];
      r := AddByte(r, s[i]);
    }
    assert s[..|s|] == s;
  }

  // ---- The canonical encoding ---------------------------------------------------------------------------------

  /** Every piece, each ended by the separator. */
  function Ended(pieces: seq<string>): string {
    if pieces == [] then "" else Ended(pieces[..|pieces| - 1]) + pieces[|pieces| - 1] + [SEPARATOR]
  }

  /** The keys in order, each followed by its value. */
  function Pieces(keys: seq<string>, attrs: Attributes): (r: seq<string>)
    requires forall k :: k in keys ==> k in attrs
    ensures |r| == 2 * |keys|
  {
    if keys == [] then [] else Pieces(keys[..|keys| - 1], attrs) + [keys[|keys| - 1], attrs[keys[|keys| - 1]]]
  }

  ghost predicate IsCanonical(encoding: string, attrs: Attributes) {
    exists keys :: KeysOf(keys, attrs) && encoding == Ended(Pieces(keys, attrs))
  }

  /** What `HashWithName` adds. */
  function NameSuffix(name: string): string { "__name__" + [SEPARATOR] + name }

  class FingerprintState {
    const attributes: Attributes
    const hash: bv64
    ghost const offset: bv64
    ghost const encoding: string

    ghost predicate Valid() {
      IsCanonical(encoding, attributes) && hash == Fold(offset, encoding)
    }

    /** The attributes with the extras written over them, and their hash, whatever order the maps are read in. */
    constructor (offset: bv64, attributes: Attributes, hash: bv64, ghost encoding: string)
      requires IsCanonical(encoding, attributes) && hash == Fold(offset, encoding)
      ensures Valid() && this.attributes == attributes && this.hash == hash && this.offset == offset
              && this.encoding == encoding
    {
      this.attributes, this.hash, this.offset, this.encoding := attributes, hash, offset, encoding;
    }

    method HashWithName(name: string) returns (sum: bv64)
      requires Valid()
      ensures sum == Fold(offset, encoding + NameSuffix(name))
    {
      hide AddByte;
      sum := HashAdd(hash, "__name__");
      sum := AddByte(sum, SEPARATOR);
      FoldAppend(hash, "__name__", [SEPARATOR]);
      FoldOne(Fold(hash, "__name__"), SEPARATOR);
      sum := HashAdd(sum, name);
      FoldAppend(hash, "__name__" + [SEPARATOR], name);
      FoldAppend(offset, encoding, NameSuffix(name));
    }
  }

  lemma FoldOne(h: bv64, b: char)
    ensures Fold(h, [b]) == AddByte(h, b)
  {
    hide AddByte;
    assert [b][..0] == "";
    assert Fold(h, "") == h;
  }

  /** One turn of the hashing loop. */
  lemma EndedPair(h: bv64, pieces: seq<string>, key: string, value: string)
    ensures Fold(h, Ended(pieces + [key, value]))
            == AddByte(Fold(AddByte(Fold(Fold(h, Ended(pieces)), key), SEPARATOR), value), SEPARATOR)
  {
    hide AddByte;
    var done, more := Ended(pieces), pieces + [key];
    assert more[..|pieces|] == pieces && (pieces + [key, value])[..|more|] == more;
    assert Ended(pieces + [key, value]) == done + key + [SEPARATOR] + value + [SEPARATOR];
    FoldAppend(h, done + key + [SEPARATOR] + value, [SEPARATOR]);
    FoldAppend(h, done + key + [SEPARATOR], value);
    FoldAppend(h, done + key, [SEPARATOR]);
    FoldAppend(h, done, key);
    FoldOne(Fold(h, done + key), SEPARATOR);
    FoldOne(Fold(h, done + key + [SEPARATOR] + value), SEPARATOR);
  }

  method NewFingerprint(offset: bv64, attrs: Attributes, extras: Attributes) returns (f: FingerprintState)
    ensures fresh(f) && f.Valid() && f.offset == offset && f.attributes == attrs + extras
  {
    hide AddByte, Ended, Fold;
    var attributes := Overwrite(attrs, extras);
    var sortedKeys := KeysInOrder(attributes);
    var hash := offset;
    Nothing(offset);
    for i := 0 to |sortedKeys|
      invariant hash == Fold(offset, Ended(Pieces(sortedKeys[..i], attributes)))
    {
      var k := sortedKeys[i];
      EndedPair(offset, Pieces(sortedKeys[..i], attributes), k, attributes[k]);
      assert sortedKeys[..i + 1][..i] == sortedKeys[..i];
      hash := HashAdd(hash, k);
      hash := AddByte(hash, SEPARATOR);
      hash := HashAdd(hash, attributes[k]);
      hash := AddByte(hash, SEPARATOR);
    }
    assert sortedKeys[..|sortedKeys|] == sortedKeys;
    f := new FingerprintState(offset, attributes, hash, Ended(Pieces(sortedKeys, attributes)));
  }

  lemma Nothing(h: bv64)
    ensures Fold(h, Ended([])) == h
  {
  }

  // ---- The encoding tells attribute sets apart ----------------------------------------------------------------

  predicate NoSeparator(s: string) { SEPARATOR !in s }

  predicate PlainText(attrs: Attributes) { forall k :: k in attrs ==> NoSeparator(k) && NoSeparator(attrs[k]) }

  lemma {:induction false} EndedAppend(a: seq<string>, b: seq<string>)
    ensures Ended(a + b) == Ended(a) + Ended(b)
  {
    if b == [] {
      assert a + b == a;
    } else {
      assert (a + b)[..|a + b| - 1] == a + b[..|b| - 1];
      EndedAppend(a, b[..|b| - 1]);
    }
  }

  lemma EndedCons(pieces: seq<string>)
    requires pieces != []
    ensures Ended(pieces) == pieces[0] + [SEPARATOR] + Ended(pieces[1..])
  {
    assert [pieces[0]][..0] == [] && Ended([pieces[0]]) == pieces[0] + [SEPARATOR];
    assert pieces == [pieces[0]] + pieces[1..];
    hide Ended;
    EndedAppend([pieces[0]], pieces[1..]);
  }

  function Head(s: string): string { if s == "" || s[0] == SEPARATOR then "" else [s[0]] + Head(s[1..]) }

  lemma {:induction false} HeadOf(a: string, x: string)
    requires NoSeparator(a)
    ensures Head(a + [SEPARATOR] + x) == a
    decreases |a|
  {
    if a != "" {
      assert (a + [SEPARATOR] + x)[1..] == a[1..] + [SEPARATOR] + x;
      HeadOf(a[1..], x);
    }
  }

  /** The first piece ends at the first separator. */
  lemma FirstPiece(a: string, x: string, b: string, y: string)
    requires NoSeparator(a) && NoSeparator(b) && a + [SEPARATOR] + x == b + [SEPARATOR] + y
    ensures a == b && x == y
  {
    HeadOf(a, x);
    HeadOf(b, y);
    assert x == (a + [SEPARATOR] + x)[|a| + 1..] && y == (b + [SEPARATOR] + y)[|b| + 1..];
  }

  lemma {:induction false} PiecesBack(pieces: seq<string>, tail: string, others: seq<string>, otherTail: string)
    requires (forall p :: p in pieces ==> NoSeparator(p)) && (forall p :: p in others ==> NoSeparator(p))
    requires NoSeparator(tail) && NoSeparator(otherTail)
    requires Ended(pieces) + tail == Ended(others) + otherTail
    ensures pieces == others && tail == otherTail
    decreases |pieces|
  {
    HoldsSeparator(pieces, tail);
    HoldsSeparator(others, otherTail);
    if pieces == [] {
      assert Ended(pieces) + tail == tail && Ended(others) + otherTail == otherTail;
    } else {
      EndedCons(pieces);
      EndedCons(others);
      var x, y := Ended(pieces[1..]) + tail, Ended(others[1..]) + otherTail;
      assert pieces[0] + [SEPARATOR] + x == Ended(pieces) + tail
             && others[0] + [SEPARATOR] + y == Ended(others) + otherTail;
      FirstPiece(pieces[0], x, others[0], y);
      PiecesBack(pieces[1..], tail, others[1..], otherTail);
      assert pieces == [pieces[0]] + pieces[1..] && others == [others[0]] + others[1..];
    }
  }

  lemma HoldsSeparator(pieces: seq<string>, tail: string)
    requires NoSeparator(tail)
    ensures SEPARATOR in Ended(pieces) + tail <==> pieces != []
  {
  }

  lemma {:induction false} PieceAt(keys: seq<string>, attrs: Attributes, i: nat)
    requires i < |keys| && forall k :: k in keys ==> k in attrs
    ensures Pieces(keys, attrs)[2 * i] == keys[i] && Pieces(keys, attrs)[2 * i + 1] == attrs[keys[i]]
  {
    var n := |keys| - 1;
    if i < n {
      PieceAt(keys[..n], attrs, i);
    }
  }

  lemma PiecesIdentify(keys: seq<string>, attrs: Attributes, otherKeys: seq<string>, others: Attributes)
    requires KeysOf(keys, attrs) && KeysOf(otherKeys, others) && Pieces(keys, attrs) == Pieces(otherKeys, others)
    ensures attrs == others
  {
    forall i | 0 <= i < |keys|
      ensures keys[i] == otherKeys[i] && attrs[keys[i]] == others[keys[i]]
    {
      PieceAt(keys, attrs, i);
      PieceAt(otherKeys, others, i);
    }
    assert keys == otherKeys;
    forall k | k in attrs
      ensures attrs[k] == others[k]
    {
      var i :| 0 <= i < |keys| && keys[i] == k;
    }
    assert attrs.Keys == others.Keys;
  }

  lemma {:induction false} PlainPieces(keys: seq<string>, attrs: Attributes)
    requires PlainText(attrs) && forall k :: k in keys ==> k in attrs
    ensures forall p :: p in Pieces(keys, attrs) ==> NoSeparator(p)
  {
    if keys != [] {
      PlainPieces(keys[..|keys| - 1], attrs);
    }
  }

  /** The encoding with the suffix, as pieces and a tail. */
  lemma WithName(pieces: seq<string>, name: string)
    ensures Ended(pieces) + NameSuffix(name) == Ended(pieces + ["__name__"]) + name
  {
    assert (pieces + ["__name__"])[..|pieces|] == pieces;
    assert Ended(pieces + ["__name__"]) == Ended(pieces) + "__name__" + [SEPARATOR];
  }

  lemma NamedPiecesBack(pieces: seq<string>, name: string, others: seq<string>, otherName: string)
    requires (forall p :: p in pieces ==> NoSeparator(p)) && (forall p :: p in others ==> NoSeparator(p))
    requires NoSeparator(name) && NoSeparator(otherName)
    requires Ended(pieces) + NameSuffix(name) == Ended(others) + NameSuffix(otherName)
    ensures pieces == others && name == otherName
  {
    WithName(pieces, name);
    WithName(others, otherName);
    assert NoSeparator("__name__");
    hide Ended, NameSuffix, NoSeparator;
    PiecesBack(pieces + ["__name__"], name, others + ["__name__"], otherName);
    assert pieces == (pieces + ["__name__"])[..|pieces|] && others == (others + ["__name__"])[..|others|];
  }

  /** An attribute set has one encoding, in whatever order its map is read. */
  lemma EncodingIsUnique(attrs: Attributes, encoding: string, otherEncoding: string)
    requires IsCanonical(encoding, attrs) && IsCanonical(otherEncoding, attrs)
    ensures encoding == otherEncoding
  {
    hide Ended, Pieces;
    var keys :| KeysOf(keys, attrs) && encoding == Ended(Pieces(keys, attrs));
    var otherKeys :| KeysOf(otherKeys, attrs) && otherEncoding == Ended(Pieces(otherKeys, attrs));
    OneOrder(keys, otherKeys);
  }

  /** What is hashed identifies the attributes and, with the name's suffix, the name too. */
  lemma EncodingIdentifies(attrs: Attributes, encoding: string, name: string, others: Attributes,
                           otherEncoding: string, otherName: string)
    requires IsCanonical(encoding, attrs) && IsCanonical(otherEncoding, others)
    requires PlainText(attrs) && PlainText(others) && NoSeparator(name) && NoSeparator(otherName)
    ensures encoding == otherEncoding ==> attrs == others
    ensures encoding + NameSuffix(name) == otherEncoding + NameSuffix(otherName) ==>
              attrs == others && name == otherName
  {
    var keys :| KeysOf(keys, attrs) && encoding == Ended(Pieces(keys, attrs));
    var otherKeys :| KeysOf(otherKeys, others) && otherEncoding == Ended(Pieces(otherKeys, others));
    var pieces, otherPieces := Pieces(keys, attrs), Pieces(otherKeys, others);
    PlainPieces(keys, attrs);
    PlainPieces(otherKeys, others);
    hide Ended, Pieces, NameSuffix, NoSeparator, PlainText;
    if encoding + NameSuffix(name) == otherEncoding + NameSuffix(otherName) {
      NamedPiecesBack(pieces, name, otherPieces, otherName);
      PiecesIdentify(keys, attrs, otherKeys, others);
    }
    if encoding == otherEncoding {
      NamedPiecesBack(pieces, name, otherPieces, name);
      PiecesIdentify(keys, attrs, otherKeys, others);
    }
  }

  /** A data point's fingerprint starts from its scope's, and that from its resource's: together they hash the three
      encodings as one text. */
  lemma Chained(resource: string, scope: string, point: string)
    ensures Fold(Fold(Fold(INITIAL_OFFSET, resource), scope), point) == Fold(INITIAL_OFFSET, resource + scope + point)
  {
    hide AddByte, Fold;
    FoldAppend(INITIAL_OFFSET, resource, scope);
    FoldAppend(INITIAL_OFFSET, resource + scope, point);
  }
}
