/** Bytes of the known answers of FingerprintVectors, as bit vectors: one lemma for each, apart from everything else,
    since conversions of integers to bit vectors are costly for the solver when they meet other facts. */
module ByteValues {
  lemma Is107(n: int)
    requires n == 107
    ensures n as bv64 == 107
  {
  }

  lemma Is101(n: int)
    requires n == 101
    ensures n as bv64 == 101
  {
  }

  lemma Is121(n: int)
    requires n == 121
    ensures n as bv64 == 121
  {
  }

  lemma Is118(n: int)
    requires n == 118
    ensures n as bv64 == 118
  {
  }

  lemma Is97(n: int)
    requires n == 97
    ensures n as bv64 == 97
  {
  }

  lemma Is108(n: int)
    requires n == 108
    ensures n as bv64 == 108
  {
  }

  lemma Is117(n: int)
    requires n == 117
    ensures n as bv64 == 117
  {
  }

  lemma Is49(n: int)
    requires n == 49
    ensures n as bv64 == 49
  {
  }

  lemma Is50(n: int)
    requires n == 50
    ensures n as bv64 == 50
  {
  }

  lemma Is255(n: int)
    requires n == 255
    ensures n as bv64 == 255
  {
  }
}
