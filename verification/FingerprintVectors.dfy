/** Known answers of the fingerprint, so that its constants and the order of its two operations are what they are. */
module FingerprintVectors {
  import opened Fingerprint
  import FingerprintLevels
  import opened SortedKeys
  import ByteValues

  lemma Letters()
    ensures ByteOf('k') == 107 && ByteOf('e') == 101 && ByteOf('y') == 121
    ensures ByteOf('v') == 118 && ByteOf('a') == 97 && ByteOf('l') == 108 && ByteOf('u') == 117
    ensures ByteOf('1') == 49 && ByteOf('2') == 50 && ByteOf(SEPARATOR) == 255
  {
    assert 'k' as int % 256 == 107;
    ByteValues.Is107('k' as int % 256);
    assert 'e' as int % 256 == 101;
    ByteValues.Is101('e' as int % 256);
    assert 'y' as int % 256 == 121;
    ByteValues.Is121('y' as int % 256);
    assert 'v' as int % 256 == 118;
    ByteValues.Is118('v' as int % 256);
    assert 'a' as int % 256 == 97;
    ByteValues.Is97('a' as int % 256);
    assert 'l' as int % 256 == 108;
    ByteValues.Is108('l' as int % 256);
    assert 'u' as int % 256 == 117;
    ByteValues.Is117('u' as int % 256);
    assert '1' as int % 256 == 49;
    ByteValues.Is49('1' as int % 256);
    assert '2' as int % 256 == 50;
    ByteValues.Is50('2' as int % 256);
    assert SEPARATOR as int % 256 == 255;
    ByteValues.Is255(SEPARATOR as int % 256);
  }

  lemma NoBytes(h: bv64)
    ensures Fold(h, "") == h
  {
  }

  lemma NextByte(start: bv64, s: string, h: bv64, c: char, next: bv64) returns (r: string)
    requires Fold(start, s) == h && AddByte(h, c) == next
    ensures r == s + [c] && Fold(start, r) == next
  {
    hide AddByte;
    r := s + [c];
    assert r[..|s|] == s;
  }

  lemma Key1()
    ensures Fold(0x0, "key1" + [SEPARATOR]) == 0x517c2dcf8e6d49af
  {
    hide ByteOf, Fold;
    Letters();
    var h: bv64, s: string := 0x0, "";
    NoBytes(h);
    s := NextByte(h, s, 0x0, 'k', 0x6b000000b5d1);
    s := NextByte(h, s, 0x6b000000b5d1, 'e', 0x16b85000134c0dc);
    s := NextByte(h, s, 0x16b85000134c0dc, 'y', 0x9e73a4020ca3585f);
    s := NextByte(h, s, 0x9e73a4020ca3585f, '1', 0xe1d81d7b798f42ea);
    s := NextByte(h, s, 0xe1d81d7b798f42ea, SEPARATOR, 0x517c2dcf8e6d49af);
    assert s == "key1" + [SEPARATOR];
  }

  lemma Value1()
    ensures Fold(0x517c2dcf8e6d49af, "value1" + [SEPARATOR]) == 0x7275fb59768d7110
  {
    hide ByteOf, Fold;
    Letters();
    var h: bv64, s: string := 0x517c2dcf8e6d49af, "";
    NoBytes(h);
    s := NextByte(h, s, 0x517c2dcf8e6d49af, 'v', 0xe34bb0af03b47bbb);
    s := NextByte(h, s, 0xe34bb0af03b47bbb, 'a', 0xee1913634bae736e);
    s := NextByte(h, s, 0xee1913634bae736e, 'l', 0x430ef3b9996d6c66);
    s := NextByte(h, s, 0x430ef3b9996d6c66, 'u', 0x5fd4375fb4eea449);
    s := NextByte(h, s, 0x5fd4375fb4eea449, 'e', 0xc43e43a07180f6c4);
    s := NextByte(h, s, 0xc43e43a07180f6c4, '1', 0xf6c3dea0de23a24f);
    s := NextByte(h, s, 0xf6c3dea0de23a24f, SEPARATOR, 0x7275fb59768d7110);
    assert s == "value1" + [SEPARATOR];
  }

  lemma Key2()
    ensures Fold(0x7275fb59768d7110, "key2" + [SEPARATOR]) == 0xdbb93242961f7a8
  {
    hide ByteOf, Fold;
    Letters();
    var h: bv64, s: string := 0x7275fb59768d7110, "";
    NoBytes(h);
    s := NextByte(h, s, 0x7275fb59768d7110, 'k', 0xbeb94047257d401);
    s := NextByte(h, s, 0xbeb94047257d401, 'e', 0x9920e78e4b3de5ec);
    s := NextByte(h, s, 0x9920e78e4b3de5ec, 'y', 0x70cf0bc9da2d1c2f);
    s := NextByte(h, s, 0x70cf0bc9da2d1c2f, '2', 0xdced24fdbaa6c547);
    s := NextByte(h, s, 0xdced24fdbaa6c547, SEPARATOR, 0xdbb93242961f7a8);
    assert s == "key2" + [SEPARATOR];
  }

  lemma Value2()
    ensures Fold(0xdbb93242961f7a8, "value2" + [SEPARATOR]) == 0x40d73cddfe8fceca
  {
    hide ByteOf, Fold;
    Letters();
    var h: bv64, s: string := 0xdbb93242961f7a8, "";
    NoBytes(h);
    s := NextByte(h, s, 0xdbb93242961f7a8, 'v', 0xb7b2e47251782e3a);
    s := NextByte(h, s, 0xb7b2e47251782e3a, 'a', 0x9d2889406f36c4a1);
    s := NextByte(h, s, 0x9d2889406f36c4a1, 'l', 0x42a6057cfa106857);
    s := NextByte(h, s, 0x42a6057cfa106857, 'u', 0x5083755ce9e0f1c6);
    s := NextByte(h, s, 0x5083755ce9e0f1c6, 'e', 0xb0520fe1693a97f9);
    s := NextByte(h, s, 0xb0520fe1693a97f9, '2', 0xd608c705ce8fedf1);
    s := NextByte(h, s, 0xd608c705ce8fedf1, SEPARATOR, 0x40d73cddfe8fceca);
    assert s == "value2" + [SEPARATOR];
  }

  lemma KeysInOrder()
    ensures Less("key1", "key2")
  {
    assert Less("1", "2");
    hide Less;
    FingerprintLevels.LessAfter("key", "1", "2");
    assert "key1" == "key" + "1" && "key2" == "key" + "2";
  }

  lemma OnlyKeys(keys: seq<string>, attrs: Attributes)
    requires KeysOf(keys, attrs) && attrs == map["key1" := "value1", "key2" := "value2"]
    ensures keys == ["key1", "key2"]
  {
    KeysInOrder();
    LessIsOrder("key1", "key1", "key1");
    hide Less;
    var both := ["key1", "key2"];
    assert Ascending(both);
    assert forall k :: k in attrs <==> k == "key1" || k == "key2";
    OneOrder(keys, both);
  }

  lemma FourPieces(attrs: Attributes)
    requires attrs == map["key1" := "value1", "key2" := "value2"]
    ensures Pieces(["key1", "key2"], attrs) == ["key1", "value1", "key2", "value2"]
  {
    var keys := ["key1", "key2"];
    assert keys[..1] == ["key1"] && ["key1"][..0] == [];
    assert Pieces(["key1"], attrs) == ["key1", "value1"];
  }

  lemma EndedOne(pieces: seq<string>, piece: string)
    ensures Ended(pieces + [piece]) == Ended(pieces) + (piece + [SEPARATOR])
  {
    assert (pieces + [piece])[..|pieces|] == pieces;
  }

  lemma FourEnded()
    ensures Ended(["key1", "value1", "key2", "value2"])
            == "key1" + [SEPARATOR] + ("value1" + [SEPARATOR]) + ("key2" + [SEPARATOR]) + ("value2" + [SEPARATOR])
  {
    assert Ended([]) == "";
    hide Ended;
    EndedOne([], "key1");
    EndedOne(["key1"], "value1");
    EndedOne(["key1", "value1"], "key2");
    EndedOne(["key1", "value1", "key2"], "value2");
    assert [] + ["key1"] == ["key1"] && ["key1"] + ["value1"] == ["key1", "value1"];
    assert ["key1", "value1"] + ["key2"] == ["key1", "value1", "key2"];
    assert ["key1", "value1", "key2"] + ["value2"] == ["key1", "value1", "key2", "value2"];
  }

  /** The fingerprint of two labels, as the repository's own test has it. */
  lemma TwoLabels(encoding: string)
    requires IsCanonical(encoding, map["key1" := "value1", "key2" := "value2"])
    ensures Fold(0, encoding) == 4672270062576455370
  {
    var attrs: Attributes := map["key1" := "value1", "key2" := "value2"];
    hide Fold, Ended, Pieces;
    var keys :| KeysOf(keys, attrs) && encoding == Ended(Pieces(keys, attrs));
    OnlyKeys(keys, attrs);
    FourPieces(attrs);
    FourEnded();
    Key1();
    Value1();
    Key2();
    Value2();
    FoldAppend(0, "key1" + [SEPARATOR], "value1" + [SEPARATOR]);
    FoldAppend(0, "key1" + [SEPARATOR] + ("value1" + [SEPARATOR]), "key2" + [SEPARATOR]);
    FoldAppend(0, "key1" + [SEPARATOR] + ("value1" + [SEPARATOR]) + ("key2" + [SEPARATOR]), "value2" + [SEPARATOR]);
  }
}
