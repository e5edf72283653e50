/** Native histograms: sparse spans of buckets, with deltas or absolute counts, become dense arrays. */
module NativeHistogram {
  import opened Numbers

  const TWO_TO_63: nat := 0x8000_0000_0000_0000

  /** A span of consecutive buckets: the offset of the first span is where it starts, that of a later one the gap after
      the span before. */
  datatype Span = Span(offset: int, length: nat)

  // ---- The dense layout ---------------------------------------------------------------------------------------

  /** Empty slots written before span `s`. */
  function Gap(spans: seq<Span>, s: nat): nat
    requires s < |spans|
  {
    if s > 0 && spans[s].offset > 0 then spans[s].offset else 0
  }

  /** Buckets held by the first `n` spans. */
  function Filled(spans: seq<Span>, n: nat): nat
    requires n <= |spans|
  {
    if n == 0 then 0 else Filled(spans, n - 1) + spans[n - 1].length
  }

  /** Slots taken by the first `n` spans and the gaps between them. */
  function Width(spans: seq<Span>, n: nat): nat
    requires n <= |spans|
  {
    if n == 0 then 0 else Width(spans, n - 1) + Gap(spans, n - 1) + spans[n - 1].length
  }

  function Zeros(n: nat): (r: seq<nat>)
    ensures |r| == n && forall i :: 0 <= i < n ==> r[i] == 0
  {
    seq(n, _ => 0)
  }

  function Dense(spans: seq<Span>, n: nat, values: seq<nat>): (r: seq<nat>)
    requires n <= |spans| && Filled(spans, n) <= |values|
    ensures |r| == Width(spans, n)
  {
    if n == 0 then []
    else Dense(spans, n - 1, values) + Zeros(Gap(spans, n - 1)) + values[Filled(spans, n - 1)..Filled(spans, n)]
  }

  lemma {:induction false} FilledGrows(spans: seq<Span>, m: nat, n: nat)
    requires m <= n <= |spans|
    ensures Filled(spans, m) <= Filled(spans, n) && Width(spans, m) <= Width(spans, n)
    ensures m < n ==> Filled(spans, m) + spans[m].length <= Filled(spans, n)
                      && Width(spans, m) + Gap(spans, m) + spans[m].length <= Width(spans, n)
  {
    if m < n {
      FilledGrows(spans, m, n - 1);
    }
  }

  /** Bucket `i` of span `s` stands right after the gap before the span. */
  lemma {:induction false} DenseAt(spans: seq<Span>, n: nat, values: seq<nat>, s: nat, i: nat)
    requires s < n <= |spans| && Filled(spans, n) <= |values| && i < spans[s].length
    ensures Filled(spans, s) + i < Filled(spans, n) && Width(spans, s) + Gap(spans, s) + i < Width(spans, n)
    ensures Dense(spans, n, values)[Width(spans, s) + Gap(spans, s) + i] == values[Filled(spans, s) + i]
  {
    FilledGrows(spans, s, n);
    if s < n - 1 {
      DenseAt(spans, n - 1, values, s, i);
    }
  }

  lemma {:induction false} DenseGap(spans: seq<Span>, n: nat, values: seq<nat>, s: nat, j: nat)
    requires s < n <= |spans| && Filled(spans, n) <= |values| && j < Gap(spans, s)
    ensures Width(spans, s) + j < Width(spans, n) && Dense(spans, n, values)[Width(spans, s) + j] == 0
  {
    FilledGrows(spans, s, n);
    if s < n - 1 {
      DenseGap(spans, n - 1, values, s, j);
    }
  }

  /** Every slot is in a gap or belongs to a bucket. */
  lemma {:induction false} SlotBelongs(spans: seq<Span>, n: nat, p: nat) returns (s: nat, inGap: bool, i: nat)
    requires n <= |spans| && p < Width(spans, n)
    ensures s < n
    ensures inGap ==> i < Gap(spans, s) && p == Width(spans, s) + i
    ensures !inGap ==> i < spans[s].length && p == Width(spans, s) + Gap(spans, s) + i
  {
    if p < Width(spans, n - 1) {
      s, inGap, i := SlotBelongs(spans, n - 1, p);
    } else if p < Width(spans, n - 1) + Gap(spans, n - 1) {
      s, inGap, i := n - 1, true, p - Width(spans, n - 1);
    } else {
      s, inGap, i := n - 1, false, p - Width(spans, n - 1) - Gap(spans, n - 1);
    }
  }

  /** The Prometheus index of the first bucket of span `s`. */
  function PromStart(spans: seq<Span>, s: nat): int
    requires s < |spans|
  {
    if s == 0 then spans[0].offset else PromStart(spans, s - 1) + spans[s - 1].length + spans[s].offset
  }

  /** In a valid histogram spans do not run backwards. */
  predicate Forward(spans: seq<Span>) { forall s :: 0 < s < |spans| ==> spans[s].offset >= 0 }

  /** A bucket's slot is its Prometheus index counted from the start of the first span, which is the point's offset. */
  lemma {:induction false} SlotIsIndex(spans: seq<Span>, s: nat)
    requires s < |spans| && Forward(spans)
    ensures Width(spans, s) + Gap(spans, s) == PromStart(spans, s) - spans[0].offset
  {
    if s > 0 {
      SlotIsIndex(spans, s - 1);
    }
  }

  lemma {:induction false} FirstSpans(spans: seq<Span>, span: Span, n: nat)
    requires n <= |spans|
    ensures Filled(spans + [span], n) == Filled(spans, n) && Width(spans + [span], n) == Width(spans, n)
    ensures n > 0 ==> Gap(spans + [span], n - 1) == Gap(spans, n - 1)
    ensures n > 0 ==> PromStart(spans + [span], n - 1) == PromStart(spans, n - 1)
  {
    if n > 0 {
      FirstSpans(spans, span, n - 1);
      assert (spans + [span])[n - 1] == spans[n - 1];
      assert n > 1 ==> (spans + [span])[n - 2] == spans[n - 2];
    }
  }

  lemma {:induction false} FirstSlots(spans: seq<Span>, span: Span, values: seq<nat>, more: seq<nat>, n: nat)
    requires n <= |spans| && Filled(spans, n) <= |values| && Filled(spans + [span], n) == Filled(spans, n)
    ensures Dense(spans + [span], n, values + more) == Dense(spans, n, values)
  {
    hide Filled, Width, Gap, PromStart;
    if n > 0 {
      FirstSpans(spans, span, n);
      FirstSpans(spans, span, n - 1);
      FilledGrows(spans, n - 1, n);
      FirstSlots(spans, span, values, more, n - 1);
      SameSlice(values, more, Filled(spans, n - 1), Filled(spans, n));
    }
  }

  lemma SameSlice(values: seq<nat>, more: seq<nat>, i: nat, j: nat)
    requires i <= j <= |values|
    ensures (values + more)[i..j] == values[i..j]
  {
  }

  lemma SpanAfter(spans: seq<Span>, span: Span)
    requires spans != [] ==> span.offset >= 0
    ensures var all, n := spans + [span], |spans|;
            && Gap(all, n) == (if n == 0 then 0 else span.offset)
            && Filled(all, n) == Filled(spans, n) && Filled(all, n + 1) == Filled(spans, n) + span.length
            && PromStart(all, n) == span.offset + if n == 0 then 0 else PromStart(spans, n - 1) + spans[n - 1].length
  {
    FirstSpans(spans, span, |spans|);
    assert spans != [] ==> (spans + [span])[|spans| - 1] == spans[|spans| - 1];
  }

  lemma DenseUnfolds(spans: seq<Span>, n: nat, values: seq<nat>)
    requires 0 < n <= |spans| && Filled(spans, n - 1) <= Filled(spans, n) <= |values|
    ensures Dense(spans, n, values) == Dense(spans, n - 1, values) + Zeros(Gap(spans, n - 1))
                                       + values[Filled(spans, n - 1)..Filled(spans, n)]
  {
    hide Filled, Width, Gap;
  }

  /** One more span leaves as many empty slots as its offset says and then has its buckets; its index goes on as much.
      The offset of the first span is its index and leaves no slots. */
  lemma OneMoreSpan(spans: seq<Span>, span: Span, values: seq<nat>, more: seq<nat>)
    requires Filled(spans, |spans|) == |values| && span.length == |more|
    requires spans != [] ==> span.offset >= 0
    ensures Filled(spans + [span], |spans| + 1) == |values + more|
    ensures Dense(spans + [span], |spans| + 1, values + more)
            == Dense(spans, |spans|, values) + seq(if spans == [] then 0 else span.offset, _ => 0) + more
    ensures PromStart(spans + [span], |spans|)
            == span.offset + if spans == [] then 0 else PromStart(spans, |spans| - 1) + spans[|spans| - 1].length
  {
    hide Filled, Width, Gap, PromStart, Dense;
    SpanAfter(spans, span);
    FirstSlots(spans, span, values, more, |spans|);
    DenseUnfolds(spans + [span], |spans| + 1, values + more);
    assert (values + more)[|values|..|values| + |more|] == more;
  }

  lemma {:induction false} SumAppend(a: seq<nat>, b: seq<nat>)
    ensures Sum(a + b) == Sum(a) + Sum(b)
  {
    if b == [] {
      assert a + b == a;
    } else {
      assert (a + b)[..|a + b| - 1] == a + b[..|b| - 1];
      SumAppend(a, b[..|b| - 1]);
    }
  }

  lemma {:induction false} SumZeros(n: nat)
    ensures Sum(Zeros(n)) == 0
  {
    if n > 0 {
      SumZeros(n - 1);
      assert Zeros(n)[..n - 1] == Zeros(n - 1);
    }
  }

  /** No count is lost or made up. */
  lemma {:induction false} DenseTotal(spans: seq<Span>, n: nat, values: seq<nat>)
    requires n <= |spans| && Filled(spans, n) <= |values|
    ensures Sum(Dense(spans, n, values)) == Sum(values[..Filled(spans, n)])
  {
    hide Sum;
    if n == 0 {
      assert values[..0] == [];
    } else {
      var before, gap, own := Dense(spans, n - 1, values), Zeros(Gap(spans, n - 1)),
          values[Filled(spans, n - 1)..Filled(spans, n)];
      DenseTotal(spans, n - 1, values);
      SumAppend(before + gap, own);
      SumAppend(before, gap);
      SumZeros(Gap(spans, n - 1));
      assert values[..Filled(spans, n)] == values[..Filled(spans, n - 1)] + own;
      SumAppend(values[..Filled(spans, n - 1)], own);
    }
  }

  // ---- Machine integers ---------------------------------------------------------------------------------------

  /** Conversion of an integer to uint64, and addition of int64 values, both wrapping around. */
  function ToUint64(n: int): nat { n % TWO_TO_64 }

  function AddInt64(a: int, b: int): (r: int)
    ensures 0 <= r + TWO_TO_63 < TWO_TO_64 && (r - a - b) % TWO_TO_64 == 0
  {
    var m := ToUint64(a + b);
    if m < TWO_TO_63 then m else m - TWO_TO_64
  }

  function PrefixSum(deltas: seq<int>, n: nat): int
    requires n <= |deltas|
  {
    if n == 0 then 0 else PrefixSum(deltas, n - 1) + deltas[n - 1]
  }

  /** The absolute counts that a sequence of deltas stands for. */
  function Absolute(deltas: seq<int>): (r: seq<int>)
    ensures |r| == |deltas| && forall k :: 0 <= k < |r| ==> r[k] == PrefixSum(deltas, k + 1)
  {
    seq(|deltas|, k requires 0 <= k < |deltas| => PrefixSum(deltas, k + 1))
  }

  function Converted<C>(counts: seq<C>, toUint64: C -> nat): (r: seq<nat>)
    ensures |r| == |counts| && forall k :: 0 <= k < |r| ==> r[k] == toUint64(counts[k])
  {
    seq(|counts|, k requires 0 <= k < |counts| => toUint64(counts[k]))
  }

  lemma ModUnique(x: int, m: int, q: int)
    requires 0 <= m < TWO_TO_64 && x == m + q * TWO_TO_64
    ensures ToUint64(x) == m
  {
  }

  /** An int64 running sum shows the same 64 bits as the exact one, overflow or not. */
  lemma RunningSum(a: int, exact: int, delta: int)
    requires ToUint64(a) == ToUint64(exact)
    ensures ToUint64(AddInt64(a, delta)) == ToUint64(exact + delta)
  {
  }

  // ---- Exponential buckets ------------------------------------------------------------------------------------

  method AppendZeros(buckets: seq<nat>, offset: int) returns (r: seq<nat>)
    ensures r == buckets + Zeros(if offset > 0 then offset else 0)
  {
    r := buckets;
    var i := 0;
    while i < offset
      invariant 0 <= i && (i <= offset || i == 0) && r == buckets + Zeros(i)
      decreases offset - i
    {
      r := r + [0];
      i := i + 1;
      assert Zeros(i) == Zeros(i - 1) + [0];
    }
  }

  method ConvertAbsoluteBuckets<C>(spans: seq<Span>, counts: seq<C>, toUint64: C -> nat) returns (buckets: seq<nat>)
    requires Filled(spans, |spans|) <= |counts|
    ensures buckets == Dense(spans, |spans|, Converted(counts, toUint64))
  {
    ghost var values := Converted(counts, toUint64);
    buckets := [];
    var bucketIdx := 0;
    for spanIdx := 0 to |spans|
      invariant bucketIdx == Filled(spans, spanIdx) <= Filled(spans, |spans|)
      invariant buckets == Dense(spans, spanIdx, values)
    {
      FilledGrows(spans, spanIdx, |spans|);
      if spanIdx > 0 {
        buckets := AppendZeros(buckets, spans[spanIdx].offset);
      }
      ghost var start := buckets;
      for i := 0 to spans[spanIdx].length
        invariant bucketIdx == Filled(spans, spanIdx) + i
        invariant buckets == start + values[Filled(spans, spanIdx)..bucketIdx]
      {
        buckets := buckets + [toUint64(counts[bucketIdx])];
        bucketIdx := bucketIdx + 1;
      }
    }
  }

  /** What the deltas amount to, slot by slot: the running sum as a uint64. */
  function Running(deltas: seq<int>): seq<nat> { Converted(Absolute(deltas), ToUint64) }

  lemma RunningAt(deltas: seq<int>, k: nat)
    requires k < |deltas|
    ensures |Running(deltas)| == |deltas| && Running(deltas)[k] == ToUint64(PrefixSum(deltas, k + 1))
  {
  }

  lemma RunningLength(deltas: seq<int>)
    ensures |Running(deltas)| == |deltas|
  {
  }

  /** The inner loop: the buckets of one span. */
  method AppendSpan(buckets: seq<nat>, deltas: seq<int>, bucketIdx: nat, length: nat, bucketCount: int)
    returns (buckets': seq<nat>, bucketCount': int)
    requires bucketIdx + length <= |deltas| && ToUint64(bucketCount) == ToUint64(PrefixSum(deltas, bucketIdx))
    ensures |Running(deltas)| == |deltas| && buckets' == buckets + Running(deltas)[bucketIdx..bucketIdx + length]
    ensures ToUint64(bucketCount') == ToUint64(PrefixSum(deltas, bucketIdx + length))
  {
    RunningLength(deltas);
    hide ToUint64, AddInt64, Running;
    buckets', bucketCount' := buckets, bucketCount;
    for i := 0 to length
      invariant ToUint64(bucketCount') == ToUint64(PrefixSum(deltas, bucketIdx + i))
      invariant buckets' == buckets + Running(deltas)[bucketIdx..bucketIdx + i]
    {
      RunningSum(bucketCount', PrefixSum(deltas, bucketIdx + i), deltas[bucketIdx + i]);
      RunningAt(deltas, bucketIdx + i);
      bucketCount' := AddInt64(bucketCount', deltas[bucketIdx + i]);
      buckets' := buckets' + [ToUint64(bucketCount')];
    }
  }

  method ConvertDeltaBuckets(spans: seq<Span>, deltas: seq<int>) returns (buckets: seq<nat>)
    requires Filled(spans, |spans|) <= |deltas|
    ensures |Running(deltas)| == |deltas| && buckets == Dense(spans, |spans|, Running(deltas))
  {
    RunningLength(deltas);
    hide ToUint64, Running;
    buckets := [];
    var bucketIdx := 0;
    var bucketCount := 0;
    for spanIdx := 0 to |spans|
      invariant bucketIdx == Filled(spans, spanIdx) <= Filled(spans, |spans|)
      invariant ToUint64(bucketCount) == ToUint64(PrefixSum(deltas, bucketIdx))
      invariant buckets == Dense(spans, spanIdx, Running(deltas))
    {
      FilledGrows(spans, spanIdx, |spans|);
      if spanIdx > 0 {
        buckets := AppendZeros(buckets, spans[spanIdx].offset);
      }
      buckets, bucketCount := AppendSpan(buckets, deltas, bucketIdx, spans[spanIdx].length, bucketCount);
      bucketIdx := bucketIdx + spans[spanIdx].length;
    }
  }

  /** The deltas of a valid histogram: running sums that are counts. */
  ghost predicate Counts(deltas: seq<int>) { forall n :: 0 <= n <= |deltas| ==> 0 <= PrefixSum(deltas, n) < TWO_TO_63 }

  /** The slot of the point that stands for bucket `i` of span `s`: its Prometheus index less that of the first span. */
  function PromSlot(spans: seq<Span>, s: nat, i: nat): int
    requires s < |spans|
  {
    PromStart(spans, s) + i - spans[0].offset
  }

  predicate Holds(spans: seq<Span>, deltas: seq<int>, buckets: seq<nat>, s: nat, i: nat)
    requires s < |spans|
  {
    && 0 <= PromSlot(spans, s, i) < |buckets| && Filled(spans, s) + i < |deltas|
    && buckets[PromSlot(spans, s, i)] == PrefixSum(deltas, Filled(spans, s) + i + 1)
  }

  /** Delta buckets become, at the slot of their Prometheus index, their running sum. */
  lemma DeltaBucketHolds(spans: seq<Span>, deltas: seq<int>, buckets: seq<nat>, s: nat, i: nat)
    requires Filled(spans, |spans|) == |deltas| == |Running(deltas)| && Forward(spans) && Counts(deltas)
    requires buckets == Dense(spans, |spans|, Running(deltas)) && s < |spans| && i < spans[s].length
    ensures Holds(spans, deltas, buckets, s, i)
  {
    hide Running, Counts;
    SlotIsIndex(spans, s);
    DenseAt(spans, |spans|, Running(deltas), s, i);
    RunningAt(deltas, Filled(spans, s) + i);
    CountFits(deltas, Filled(spans, s) + i + 1);
  }

  lemma CountFits(deltas: seq<int>, n: nat)
    requires Counts(deltas) && n <= |deltas|
    ensures ToUint64(PrefixSum(deltas, n)) == PrefixSum(deltas, n)
  {
    ModUnique(PrefixSum(deltas, n), PrefixSum(deltas, n), 0);
  }

  ghost predicate NoBucketAt(spans: seq<Span>, p: int) {
    forall s, i :: 0 <= s < |spans| && 0 <= i < spans[s].length ==> PromSlot(spans, s, i) != p
  }

  /** A slot that no bucket stands at is in a gap. */
  lemma GapAt(spans: seq<Span>, p: nat) returns (s: nat, i: nat)
    requires Forward(spans) && p < Width(spans, |spans|) && NoBucketAt(spans, p)
    ensures s < |spans| && i < Gap(spans, s) && p == Width(spans, s) + i
  {
    hide Width, Gap, PromStart, Forward;
    var inGap;
    s, inGap, i := SlotBelongs(spans, |spans|, p);
    SlotIsIndex(spans, s);
    assert !inGap ==> PromSlot(spans, s, i) == p;
  }

  /** And so it holds zero. */
  lemma GapsAreEmpty(spans: seq<Span>, values: seq<nat>, p: nat)
    requires Filled(spans, |spans|) <= |values| && Forward(spans) && p < Width(spans, |spans|)
    requires NoBucketAt(spans, p)
    ensures Dense(spans, |spans|, values)[p] == 0
  {
    hide Dense, Filled, Width, Gap, NoBucketAt, Forward;
    var s, i := GapAt(spans, p);
    DenseGap(spans, |spans|, values, s, i);
  }

  /** The dense array of delta buckets: each bucket at its index, zeros between the spans, and as many observations as
      the histogram has. */
  lemma DeltaBuckets(spans: seq<Span>, deltas: seq<int>, buckets: seq<nat>)
    requires Filled(spans, |spans|) == |deltas| == |Running(deltas)| && Forward(spans) && Counts(deltas)
    requires buckets == Dense(spans, |spans|, Running(deltas))
    ensures forall s, i :: 0 <= s < |spans| && 0 <= i < spans[s].length ==> Holds(spans, deltas, buckets, s, i)
    ensures forall p :: 0 <= p < |buckets| && NoBucketAt(spans, p) ==> buckets[p] == 0
    ensures Sum(buckets) == Sum(Running(deltas))
  {
    hide Running, Holds, Dense, PromSlot, Counts, Forward, NoBucketAt;
    forall s, i | 0 <= s < |spans| && 0 <= i < spans[s].length
      ensures Holds(spans, deltas, buckets, s, i)
    {
      DeltaBucketHolds(spans, deltas, buckets, s, i);
    }
    forall p | 0 <= p < |buckets| && NoBucketAt(spans, p)
      ensures buckets[p] == 0
    {
      GapsAreEmpty(spans, Running(deltas), p);
    }
    DenseTotal(spans, |spans|, Running(deltas));
    assert Running(deltas)[..|deltas|] == Running(deltas);
  }

  /** The two encodings of one histogram convert alike: deltas as their running sums. */
  method ConvertBothWays(spans: seq<Span>, deltas: seq<int>) returns (fromDeltas: seq<nat>, fromCounts: seq<nat>)
    requires Filled(spans, |spans|) <= |deltas|
    ensures fromDeltas == fromCounts
  {
    fromDeltas := ConvertDeltaBuckets(spans, deltas);
    fromCounts := ConvertAbsoluteBuckets(spans, Absolute(deltas), ToUint64);
  }

  // ---- Custom buckets -----------------------------------------------------------------------------------------

  /** The spans of a histogram with custom buckets lie within its `slots` buckets. */
  predicate Fits(spans: seq<Span>, slots: nat) {
    && Forward(spans) && (spans != [] ==> spans[0].offset >= 0)
    && First(spans) + Width(spans, |spans|) <= slots
  }

  function First(spans: seq<Span>): nat { if spans != [] && spans[0].offset > 0 then spans[0].offset else 0 }

  /** The dense layout, starting at the first span's own offset and padded to all slots. */
  function Padded(spans: seq<Span>, slots: nat, values: seq<nat>): (r: seq<nat>)
    requires Fits(spans, slots) && Filled(spans, |spans|) <= |values|
    ensures |r| == slots
  {
    Zeros(First(spans)) + Dense(spans, |spans|, values) + Zeros(slots - First(spans) - Width(spans, |spans|))
  }

  /** Where the first bucket of span `s` is written. */
  function Slot(spans: seq<Span>, s: nat): nat
    requires s < |spans|
  {
    First(spans) + Width(spans, s) + Gap(spans, s)
  }

  lemma PaddedAt(spans: seq<Span>, slots: nat, values: seq<nat>, s: nat, i: nat)
    requires Fits(spans, slots) && Filled(spans, |spans|) <= |values| && s < |spans| && i < spans[s].length
    ensures Slot(spans, s) + i < slots && Filled(spans, s) + i < |values|
    ensures Padded(spans, slots, values)[Slot(spans, s) + i] == values[Filled(spans, s) + i]
  {
    DenseAt(spans, |spans|, values, s, i);
  }

  lemma PaddedTotal(spans: seq<Span>, slots: nat, values: seq<nat>)
    requires Fits(spans, slots) && Filled(spans, |spans|) <= |values|
    ensures Sum(Padded(spans, slots, values)) == Sum(values[..Filled(spans, |spans|)])
  {
    hide Dense, Filled, Sum, Gap, Forward;
    var lead, rest := Zeros(First(spans)), Zeros(slots - First(spans) - Width(spans, |spans|));
    var dense := Dense(spans, |spans|, values);
    SumAppend(lead + dense, rest);
    SumAppend(lead, dense);
    SumZeros(|lead|);
    SumZeros(|rest|);
    DenseTotal(spans, |spans|, values);
  }

  /** How far the slots are filled before span `s`. */
  function Reached(spans: seq<Span>, s: nat): nat
    requires s <= |spans|
  {
    if s == 0 then 0 else First(spans) + Width(spans, s)
  }

  /** What the loops rely on at span `s`: adding its offset skips a gap of zeros, and its buckets have room. */
  lemma AtSpan(spans: seq<Span>, slots: nat, values: seq<nat>, s: nat)
    requires Fits(spans, slots) && Filled(spans, |spans|) <= |values| && s < |spans|
    ensures Reached(spans, s) + spans[s].offset == Slot(spans, s)
            && Slot(spans, s) + spans[s].length == Reached(spans, s + 1) <= slots
    ensures Filled(spans, s) + spans[s].length <= Filled(spans, |spans|)
    ensures forall p :: Reached(spans, s) <= p < Slot(spans, s) ==> Padded(spans, slots, values)[p] == 0
  {
    FilledGrows(spans, s, |spans|);
    forall p | Reached(spans, s) <= p < Slot(spans, s)
      ensures Padded(spans, slots, values)[p] == 0
    {
      if s > 0 {
        DenseGap(spans, |spans|, values, s, p - Reached(spans, s));
      }
    }
  }

  /** The slots below `n` are final, the others still zero. */
  predicate Copied(a: seq<nat>, target: seq<nat>, n: int) {
    |a| == |target| && forall p :: 0 <= p < |a| ==> a[p] == if p < n then target[p] else 0
  }

  /** How many buckets of a span are written: as many as it has, as there are slots left and as the source holds. */
  function Written(start: int, length: nat, slots: nat, available: nat): (n: nat)
    ensures n <= length && n <= available
  {
    if start >= slots then 0 else Min(length, Min(slots - start, available))
  }

  /** From `a` to `b`, `n` values of `source` were written, from index `start` on; those at negative indices are
      dropped. */
  predicate WrittenTo(a: seq<nat>, b: seq<nat>, start: int, n: nat, source: seq<nat>) {
    && |a| == |b| && n <= |source|
    && forall p :: 0 <= p < |a| ==> b[p] == if start <= p < start + n then source[p - start] else a[p]
  }

  function Overwritten(a: seq<nat>, start: int, n: nat, source: seq<nat>): (r: seq<nat>)
    requires n <= |source|
    ensures WrittenTo(a, r, start, n, source)
  {
    seq(|a|, p requires 0 <= p < |a| => if start <= p < start + n then source[p - start] else a[p])
  }

  lemma WrittenIsOverwritten(a: seq<nat>, b: seq<nat>, start: int, n: nat, source: seq<nat>)
    requires WrittenTo(a, b, start, n, source)
    ensures b == Overwritten(a, start, n, source)
  {
  }

  /** The slots, the index of the next one, and how many values were read. */
  datatype Cursor = Cursor(slots: seq<nat>, bucketIdx: int, taken: nat)

  /** Where the conversion of any histogram, valid or not, is after `n` spans. The float form starts reading again in
      every span (`restart`). */
  function Walked(spans: seq<Span>, n: nat, slots: nat, values: seq<nat>, restart: bool): (c: Cursor)
    requires n <= |spans|
    ensures |c.slots| == slots && c.taken <= |values| && (restart ==> c.taken == 0)
  {
    if n == 0 then Cursor(Zeros(slots), 0, 0)
    else
      var c := Walked(spans, n - 1, slots, values, restart);
      var start, source := c.bucketIdx + spans[n - 1].offset, values[c.taken..];
      var written := Written(start, spans[n - 1].length, slots, |source|);
      Cursor(Overwritten(c.slots, start, written, source), start + written, if restart then 0 else c.taken + written)
  }

  /** The inner loop of the integer form. */
  method WriteDeltaSpan(bucketCounts: array<nat>, start: int, length: nat, deltas: seq<int>, deltaIdx: nat,
                        bucketCount: int)
    returns (deltaIdx': nat, bucketCount': int)
    requires deltaIdx <= |deltas| == |Running(deltas)| && ToUint64(bucketCount) == ToUint64(PrefixSum(deltas, deltaIdx))
    modifies bucketCounts
    ensures deltaIdx' == deltaIdx + Written(start, length, bucketCounts.Length, |deltas| - deltaIdx) <= |deltas|
    ensures ToUint64(bucketCount') == ToUint64(PrefixSum(deltas, deltaIdx'))
    ensures WrittenTo(old(bucketCounts[..]), bucketCounts[..], start, deltaIdx' - deltaIdx, Running(deltas)[deltaIdx..])
  {
    hide ToUint64, AddInt64, Running;
    var bucketIdx := start;
    deltaIdx', bucketCount' := deltaIdx, bucketCount;
    var i := 0;
    while i < length && bucketIdx < bucketCounts.Length && deltaIdx' < |deltas|
      invariant i <= Written(start, length, bucketCounts.Length, |deltas| - deltaIdx)
      invariant bucketIdx == start + i && deltaIdx' == deltaIdx + i <= |deltas|
      invariant ToUint64(bucketCount') == ToUint64(PrefixSum(deltas, deltaIdx'))
      invariant forall p :: 0 <= p < bucketCounts.Length ==>
                  bucketCounts[p] == if start <= p < start + i then Running(deltas)[deltaIdx + p - start]
                    else old(bucketCounts[p])
    {
      RunningAt(deltas, deltaIdx');
      RunningSum(bucketCount', PrefixSum(deltas, deltaIdx'), deltas[deltaIdx']);
      bucketCount' := AddInt64(bucketCount', deltas[deltaIdx']);
      deltaIdx' := deltaIdx' + 1;
      if bucketIdx >= 0 {
        bucketCounts[bucketIdx] := ToUint64(bucketCount');
      }
      bucketIdx := bucketIdx + 1;
      i := i + 1;
    }
  }

  /** Integer custom buckets: for every histogram, valid or not, the walk above, and so for one that fits the dense
      layout of the running sums. */
  method ConvertNHCBDeltaBuckets(spans: seq<Span>, deltas: seq<int>, customValues: nat)
    returns (bucketCounts: array<nat>)
    ensures fresh(bucketCounts)
            && bucketCounts[..] == Walked(spans, |spans|, customValues + 1, Running(deltas), false).slots
    ensures Fits(spans, customValues + 1) && Filled(spans, |spans|) == |deltas| ==>
              |Running(deltas)| == |deltas| && bucketCounts[..] == Padded(spans, customValues + 1, Running(deltas))
  {
    hide ToUint64, AddInt64, Running, WrittenTo, Written, Filled, Padded, Fits, Overwritten;
    bucketCounts := new nat[customValues + 1](_ => 0);
    var bucketIdx: int, deltaIdx: nat, bucketCount := 0, 0, 0;
    RunningLength(deltas);
    ghost var slots := customValues + 1;
    assert bucketCounts[..] == Zeros(slots);
    for s := 0 to |spans|
      invariant deltaIdx <= |deltas| && ToUint64(bucketCount) == ToUint64(PrefixSum(deltas, deltaIdx))
      invariant Cursor(bucketCounts[..], bucketIdx, deltaIdx) == Walked(spans, s, slots, Running(deltas), false)
    {
      ghost var before := bucketCounts[..];
      var start := deltaIdx;
      bucketIdx := bucketIdx + spans[s].offset;
      deltaIdx, bucketCount := WriteDeltaSpan(bucketCounts, bucketIdx, spans[s].length, deltas, deltaIdx, bucketCount);
      WrittenIsOverwritten(before, bucketCounts[..], bucketIdx, deltaIdx - start, Running(deltas)[start..]);
      bucketIdx := bucketIdx + deltaIdx - start;
    }
    if Fits(spans, slots) && Filled(spans, |spans|) == |deltas| {
      WalkedDeltas(spans, slots, Running(deltas), |spans|);
    }
  }

  lemma NothingFilled(spans: seq<Span>)
    ensures Filled(spans, 0) == 0
  {
  }

  lemma FilledStep(spans: seq<Span>, s: nat)
    requires s < |spans|
    ensures Filled(spans, s + 1) == Filled(spans, s) + spans[s].length <= Filled(spans, |spans|)
  {
    FilledGrows(spans, s, |spans|);
  }

  /** `n` entries of `a`, from `from` on, are those of `b` from `to` on. */
  predicate SameRun(a: seq<nat>, from: nat, b: seq<nat>, to: nat, n: nat) {
    from + n <= |a| && to + n <= |b| && forall i :: from <= i < from + n ==> a[i] == b[i - from + to]
  }

  lemma SameRunChain(a: seq<nat>, from: nat, b: seq<nat>, mid: nat, c: seq<nat>, to: nat, n: nat)
    requires SameRun(a, from, b, mid, n) && SameRun(b, mid, c, to, n)
    ensures SameRun(a, from, c, to, n)
  {
  }

  lemma SameRunStep(a: seq<nat>, from: nat, b: seq<nat>, to: nat, n: nat)
    requires SameRun(a, from, b, to, n) && from + n < |a| && to + n < |b| && a[from + n] == b[to + n]
    ensures SameRun(a, from, b, to, n + 1)
  {
  }

  lemma SameRunStart(a: seq<nat>, from: nat, b: seq<nat>, to: nat)
    requires from <= |a| && to <= |b|
    ensures SameRun(a, from, b, to, 0)
  {
  }

  lemma TailRun(a: seq<nat>, from: nat, n: nat)
    requires from + n <= |a|
    ensures SameRun(a, from, a[from..], 0, n)
  {
  }

  /** Zeros skipped and a run of values written: the finished part grows over both. */
  lemma CopyWritten(a: seq<nat>, b: seq<nat>, target: seq<nat>, reached: nat, start: nat, n: nat, source: seq<nat>)
    requires Copied(a, target, reached) && reached <= start
    requires forall p :: reached <= p < start && p < |target| ==> target[p] == 0
    requires WrittenTo(a, b, start, n, source) && SameRun(target, start, source, 0, n)
    ensures Copied(b, target, start + n)
  {
  }

  /** Writing the buckets of span `s` extends the finished part of the slots over its gap and its buckets. */
  lemma SpanDone(spans: seq<Span>, slots: nat, values: seq<nat>, s: nat, a: seq<nat>, b: seq<nat>, source: seq<nat>)
    requires Fits(spans, slots) && Filled(spans, |spans|) <= |values| && s < |spans|
    requires Copied(a, Padded(spans, slots, values), Reached(spans, s))
    requires SameRun(values, Filled(spans, s), source, 0, spans[s].length)
    requires WrittenTo(a, b, Reached(spans, s) + spans[s].offset, spans[s].length, source)
    ensures Copied(b, Padded(spans, slots, values), Reached(spans, s + 1))
  {
    AtSpan(spans, slots, values, s);
    PaddedSpan(spans, slots, values, s);
    hide Padded, Copied, Fits, WrittenTo, Slot, Reached, Filled, SameRun;
    var target := Padded(spans, slots, values);
    SameRunChain(target, Slot(spans, s), values, Filled(spans, s), source, 0, spans[s].length);
    CopyWritten(a, b, target, Reached(spans, s), Slot(spans, s), spans[s].length, source);
  }

  lemma PaddedSpan(spans: seq<Span>, slots: nat, values: seq<nat>, s: nat)
    requires Fits(spans, slots) && Filled(spans, |spans|) <= |values| && s < |spans|
    ensures SameRun(Padded(spans, slots, values), Slot(spans, s), values, Filled(spans, s), spans[s].length)
  {
    hide Padded, Fits, Slot, Reached, Gap, Width, Filled, SameRun;
    AtSpan(spans, slots, values, s);
    var target, from, to := Padded(spans, slots, values), Slot(spans, s), Filled(spans, s);
    SameRunStart(target, from, values, to);
    for i := 0 to spans[s].length
      invariant SameRun(target, from, values, to, i)
    {
      PaddedAt(spans, slots, values, s, i);
      SameRunStep(target, from, values, to, i);
    }
  }

  /** In a histogram that fits, no guard of the inner loop cuts a span short. */
  lemma WholeSpan(spans: seq<Span>, slots: nat, s: nat, available: nat)
    requires Fits(spans, slots) && s < |spans| && spans[s].length <= available
    ensures Written(Reached(spans, s) + spans[s].offset, spans[s].length, slots, available) == spans[s].length
    ensures Reached(spans, s) + spans[s].offset + spans[s].length == Reached(spans, s + 1)
  {
    AtSpan(spans, slots, Zeros(Filled(spans, |spans|)), s);
  }

  /** How far the conversion of a histogram that fits has come before span `s`. */
  ghost predicate Progress(spans: seq<Span>, slots: nat, values: seq<nat>, s: nat, bucketIdx: int, a: seq<nat>)
    requires s <= |spans|
  {
    Fits(spans, slots) && Filled(spans, |spans|) <= |values| ==>
      bucketIdx == Reached(spans, s) && Copied(a, Padded(spans, slots, values), bucketIdx)
  }

  lemma ProgressStarts(spans: seq<Span>, slots: nat, values: seq<nat>, a: seq<nat>)
    requires |a| == slots && forall p :: 0 <= p < |a| ==> a[p] == 0
    ensures Progress(spans, slots, values, 0, 0, a)
  {
  }

  lemma ProgressStep(spans: seq<Span>, slots: nat, values: seq<nat>, s: nat, bucketIdx: int, a: seq<nat>, b: seq<nat>,
                     written: nat, available: nat, source: seq<nat>)
    requires s < |spans| && Progress(spans, slots, values, s, bucketIdx, a)
    requires written == Written(bucketIdx + spans[s].offset, spans[s].length, slots, available)
    requires WrittenTo(a, b, bucketIdx + spans[s].offset, written, source)
    requires Fits(spans, slots) && Filled(spans, |spans|) <= |values| ==>
               spans[s].length <= available && SameRun(values, Filled(spans, s), source, 0, spans[s].length)
    ensures Progress(spans, slots, values, s + 1, bucketIdx + spans[s].offset + written, b)
    ensures Fits(spans, slots) && Filled(spans, |spans|) <= |values| ==> written == spans[s].length
  {
    hide Fits, Filled, Copied, WrittenTo, Written, SameRun, Padded, Reached;
    if Fits(spans, slots) && Filled(spans, |spans|) <= |values| {
      WholeSpan(spans, slots, s, available);
      SpanDone(spans, slots, values, s, a, b, source);
    }
  }

  lemma ProgressEnds(spans: seq<Span>, slots: nat, values: seq<nat>, bucketIdx: int, a: seq<nat>)
    requires Progress(spans, slots, values, |spans|, bucketIdx, a)
    ensures Fits(spans, slots) && Filled(spans, |spans|) <= |values| ==> a == Padded(spans, slots, values)
  {
  }

  /** What the float form reads: the source index starts again at zero in every span. */
  function Restarted(spans: seq<Span>, n: nat, values: seq<nat>): (r: seq<nat>)
    requires n <= |spans| && Filled(spans, n) <= |values|
    ensures |r| == Filled(spans, n)
  {
    if n == 0 then [] else Restarted(spans, n - 1, values) + values[..spans[n - 1].length]
  }

  lemma {:induction false} RestartedAt(spans: seq<Span>, n: nat, values: seq<nat>, s: nat, i: nat)
    requires s < n <= |spans| && Filled(spans, n) <= |values| && i < spans[s].length
    ensures Filled(spans, s) + i < Filled(spans, n) && Restarted(spans, n, values)[Filled(spans, s) + i] == values[i]
  {
    FilledGrows(spans, s, n);
    if s < n - 1 {
      RestartedAt(spans, n - 1, values, s, i);
    }
  }

  /** The inner loop of the float form. */
  method WriteCountSpan<C>(bucketCounts: array<nat>, start: int, length: nat, counts: seq<C>, toUint64: C -> nat)
    returns (written: nat)
    modifies bucketCounts
    ensures written == Written(start, length, bucketCounts.Length, |counts|) <= |counts|
    ensures WrittenTo(old(bucketCounts[..]), bucketCounts[..], start, written, Converted(counts, toUint64))
  {
    var bucketIdx := start;
    var i := 0;
    while i < length && bucketIdx < bucketCounts.Length && i < |counts|
      invariant i <= Written(start, length, bucketCounts.Length, |counts|) && bucketIdx == start + i
      invariant forall p :: 0 <= p < bucketCounts.Length ==>
                  bucketCounts[p] == if start <= p < start + i then toUint64(counts[p - start])
                    else old(bucketCounts[p])
    {
      if bucketIdx >= 0 {
        bucketCounts[bucketIdx] := toUint64(counts[i]);
      }
      bucketIdx := bucketIdx + 1;
      i := i + 1;
    }
    written := i;
  }

  /** Float custom buckets, in the same generality. */
  method ConvertNHCBAbsoluteBuckets<C>(spans: seq<Span>, counts: seq<C>, customValues: nat, toUint64: C -> nat)
    returns (bucketCounts: array<nat>)
    ensures fresh(bucketCounts)
    ensures bucketCounts[..] == Walked(spans, |spans|, customValues + 1, Converted(counts, toUint64), true).slots
    ensures Fits(spans, customValues + 1) && Filled(spans, |spans|) == |counts| ==>
              bucketCounts[..]
                == Padded(spans, customValues + 1, Restarted(spans, |spans|, Converted(counts, toUint64)))
  {
    hide Converted, Restarted, WrittenTo, Written, Filled, Padded, Fits, Overwritten;
    bucketCounts := new nat[customValues + 1](_ => 0);
    var bucketIdx: int := 0;
    ghost var slots, values := customValues + 1, Converted(counts, toUint64);
    assert bucketCounts[..] == Zeros(slots) && values[0..] == values;
    for s := 0 to |spans|
      invariant Cursor(bucketCounts[..], bucketIdx, 0) == Walked(spans, s, slots, values, true)
    {
      ghost var before := bucketCounts[..];
      bucketIdx := bucketIdx + spans[s].offset;
      var written := WriteCountSpan(bucketCounts, bucketIdx, spans[s].length, counts, toUint64);
      WrittenIsOverwritten(before, bucketCounts[..], bucketIdx, written, values);
      bucketIdx := bucketIdx + written;
    }
    if Fits(spans, slots) && Filled(spans, |spans|) == |counts| {
      WalkedCounts(spans, slots, values, |spans|);
    }
  }

  /** In a histogram that fits, the integer form has laid out the running sums of the first `n` spans. */
  lemma {:induction false} WalkedDeltas(spans: seq<Span>, slots: nat, values: seq<nat>, n: nat)
    requires n <= |spans| && Fits(spans, slots) && Filled(spans, |spans|) == |values|
    ensures var c := Walked(spans, n, slots, values, false);
            && c.taken == Filled(spans, n) && Progress(spans, slots, values, n, c.bucketIdx, c.slots)
            && (n == |spans| ==> c.slots == Padded(spans, slots, values))
  {
    hide Progress, WrittenTo, Written, SameRun, Filled, Padded, Fits, Overwritten;
    if n == 0 {
      NothingFilled(spans);
      ProgressStarts(spans, slots, values, Zeros(slots));
    } else {
      WalkedDeltas(spans, slots, values, n - 1);
      var c := Walked(spans, n - 1, slots, values, false);
      var start, source := c.bucketIdx + spans[n - 1].offset, values[c.taken..];
      var written := Written(start, spans[n - 1].length, slots, |source|);
      FilledStep(spans, n - 1);
      TailRun(values, c.taken, spans[n - 1].length);
      ProgressStep(spans, slots, values, n - 1, c.bucketIdx, c.slots,
                   Overwritten(c.slots, start, written, source), written,
                   |source|, source);
    }
    if n == |spans| {
      ProgressEnds(spans, slots, values, Walked(spans, n, slots, values, false).bucketIdx,
                   Walked(spans, n, slots, values, false).slots);
    }
  }

  /** Likewise the float form, with what it reads. */
  lemma {:induction false} WalkedCounts(spans: seq<Span>, slots: nat, values: seq<nat>, n: nat)
    requires n <= |spans| && Fits(spans, slots) && Filled(spans, |spans|) == |values|
    ensures var c, restarted := Walked(spans, n, slots, values, true), Restarted(spans, |spans|, values);
            && Progress(spans, slots, restarted, n, c.bucketIdx, c.slots)
            && (n == |spans| ==> c.slots == Padded(spans, slots, restarted))
  {
    hide Progress, WrittenTo, Written, SameRun, Filled, Padded, Fits, Overwritten, Restarted;
    var restarted := Restarted(spans, |spans|, values);
    if n == 0 {
      ProgressStarts(spans, slots, restarted, Zeros(slots));
    } else {
      WalkedCounts(spans, slots, values, n - 1);
      var c := Walked(spans, n - 1, slots, values, true);
      assert values[0..] == values;
      var start := c.bucketIdx + spans[n - 1].offset;
      var written := Written(start, spans[n - 1].length, slots, |values|);
      FilledStep(spans, n - 1);
      RestartedSpan(spans, values, n - 1);
      ProgressStep(spans, slots, restarted, n - 1, c.bucketIdx, c.slots,
                   Overwritten(c.slots, start, written, values), written,
                   |values|, values);
    }
    if n == |spans| {
      ProgressEnds(spans, slots, restarted, Walked(spans, n, slots, values, true).bucketIdx,
                   Walked(spans, n, slots, values, true).slots);
    }
  }

  lemma RestartedSpan(spans: seq<Span>, values: seq<nat>, s: nat)
    requires s < |spans| && Filled(spans, |spans|) <= |values|
    ensures SameRun(Restarted(spans, |spans|, values), Filled(spans, s), values, 0, spans[s].length)
  {
    hide Restarted, Filled, Width, Gap, SameRun;
    FilledStep(spans, s);
    var restarted, from := Restarted(spans, |spans|, values), Filled(spans, s);
    SameRunStart(restarted, from, values, 0);
    for i := 0 to spans[s].length
      invariant SameRun(restarted, from, values, 0, i)
    {
      RestartedAt(spans, |spans|, values, s, i);
      SameRunStep(restarted, from, values, 0, i);
    }
  }

  predicate AtMostOneNonEmpty(spans: seq<Span>) {
    forall s, t :: 0 <= s < t < |spans| ==> spans[s].length == 0 || spans[t].length == 0
  }

  lemma {:induction false} NothingBefore(spans: seq<Span>, n: nat, t: nat)
    requires n <= t < |spans| && AtMostOneNonEmpty(spans) && spans[t].length > 0
    ensures Filled(spans, n) == 0
  {
    if n > 0 {
      NothingBefore(spans, n - 1, t);
    }
  }

  /** The float form places these counts where they belong. */
  predicate FloatFormRight(spans: seq<Span>, slots: nat, values: seq<nat>)
    requires Fits(spans, slots) && |values| == Filled(spans, |spans|)
  {
    Padded(spans, slots, Restarted(spans, |spans|, values)) == Padded(spans, slots, values)
  }

  /** The counts of every span are the first ones of all. */
  ghost predicate Repeats(spans: seq<Span>, values: seq<nat>) {
    forall s, i :: 0 <= s < |spans| && 0 <= i < spans[s].length ==> RepeatsAt(spans, values, s, i)
  }

  predicate RepeatsAt(spans: seq<Span>, values: seq<nat>, s: nat, i: nat)
    requires s < |spans|
  {
    Filled(spans, s) + i < |values| && values[Filled(spans, s) + i] == values[i]
  }

  lemma {:induction false} RepeatedIsWhole(spans: seq<Span>, n: nat, values: seq<nat>)
    requires n <= |spans| && Filled(spans, n) <= |values| && Repeats(spans, values)
    ensures Restarted(spans, n, values) == values[..Filled(spans, n)]
  {
    if n > 0 {
      RepeatedIsWhole(spans, n - 1, values);
      var from, length := Filled(spans, n - 1), spans[n - 1].length;
      forall i | 0 <= i < length
        ensures values[from + i] == values[i]
      {
        assert RepeatsAt(spans, values, n - 1, i);
      }
      assert values[..from + length] == values[..from] + values[..length];
    }
  }

  /** The float form places the counts of a histogram right exactly when every span repeats the first counts. */
  lemma FloatFormIsRight(spans: seq<Span>, slots: nat, values: seq<nat>)
    requires Fits(spans, slots) && |values| == Filled(spans, |spans|)
    ensures FloatFormRight(spans, slots, values) <==> Repeats(spans, values)
  {
    hide Padded, Fits, Slot;
    if Repeats(spans, values) {
      RepeatedIsWhole(spans, |spans|, values);
      assert values[..|values|] == values;
    }
    if FloatFormRight(spans, slots, values) {
      forall s, i | 0 <= s < |spans| && 0 <= i < spans[s].length
        ensures RepeatsAt(spans, values, s, i)
      {
        FilledGrows(spans, s, |spans|);
        PaddedAt(spans, slots, values, s, i);
        PaddedAt(spans, slots, Restarted(spans, |spans|, values), s, i);
        RestartedAt(spans, |spans|, values, s, i);
      }
    }
  }

  lemma RightForOneSpan(spans: seq<Span>, slots: nat, values: seq<nat>)
    requires Fits(spans, slots) && |values| == Filled(spans, |spans|) && AtMostOneNonEmpty(spans)
    ensures FloatFormRight(spans, slots, values)
  {
    hide Fits, FloatFormRight;
    forall s, i | 0 <= s < |spans| && 0 <= i < spans[s].length
      ensures RepeatsAt(spans, values, s, i)
    {
      NothingBefore(spans, s, s);
      FilledGrows(spans, s, |spans|);
    }
    FloatFormIsRight(spans, slots, values);
  }

  lemma WrongForTwoSpans(spans: seq<Span>, slots: nat, values: seq<nat>, s: nat, t: nat)
    requires Fits(spans, slots) && |values| == Filled(spans, |spans|)
    requires s < t < |spans| && spans[s].length > 0 && spans[t].length > 0
    requires forall k :: 0 <= k < |values| ==> values[k] == k + 1
    ensures !FloatFormRight(spans, slots, values)
  {
    hide Fits, FloatFormRight;
    FilledGrows(spans, s, t);
    FilledGrows(spans, t, |spans|);
    assert !RepeatsAt(spans, values, t, 0);
    FloatFormIsRight(spans, slots, values);
  }

  /** So it is right for all counts exactly when at most one span is non-empty. */
  lemma FloatFormForAllCounts(spans: seq<Span>, slots: nat)
    requires Fits(spans, slots)
    ensures AtMostOneNonEmpty(spans) <==>
              forall values: seq<nat> :: |values| == Filled(spans, |spans|) ==> FloatFormRight(spans, slots, values)
  {
    hide FloatFormRight;
    if AtMostOneNonEmpty(spans) {
      forall values: seq<nat> | |values| == Filled(spans, |spans|)
        ensures FloatFormRight(spans, slots, values)
      {
        RightForOneSpan(spans, slots, values);
      }
    } else {
      var s, t :| 0 <= s < t < |spans| && spans[s].length > 0 && spans[t].length > 0;
      var values: seq<nat> := seq(Filled(spans, |spans|), k requires 0 <= k => k + 1);
      WrongForTwoSpans(spans, slots, values, s, t);
    }
  }
}
