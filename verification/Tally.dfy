/** Counting over sequences. The state machines of this project keep one entry per goroutine (or per call to a
    consumer) in a sequence; how often they hold a given thing, all together, is a total over that sequence. */
module Tally {

  /** The total of `f` over the first `n` entries. */
  function TotalTo<T>(ts: seq<T>, n: nat, f: T -> nat): nat
    requires n <= |ts|
  {
    if n == 0 then 0 else TotalTo(ts, n - 1, f) + f(ts[n - 1])
  }

  function Total<T>(ts: seq<T>, f: T -> nat): nat { TotalTo(ts, |ts|, f) }

  lemma {:induction false} TotalPrefix<T>(ts: seq<T>, us: seq<T>, n: nat, f: T -> nat)
    requires n <= |ts| && n <= |us| && ts[..n] == us[..n]
    ensures TotalTo(ts, n, f) == TotalTo(us, n, f)
  {
    if n > 0 {
      assert ts[..n - 1] == ts[..n][..n - 1] == us[..n][..n - 1] == us[..n - 1];
      assert ts[n - 1] == ts[..n][n - 1] == us[..n][n - 1] == us[n - 1];
      TotalPrefix(ts, us, n - 1, f);
    }
  }

  lemma TotalSnoc<T>(ts: seq<T>, t: T, f: T -> nat)
    ensures Total(ts + [t], f) == Total(ts, f) + f(t)
  {
    TotalPrefix(ts + [t], ts, |ts|, f);
  }

  lemma {:induction false} TotalAppend<T>(ts: seq<T>, us: seq<T>, f: T -> nat)
    ensures Total(ts + us, f) == Total(ts, f) + Total(us, f)
  {
    if us == [] {
      assert ts + us == ts;
    } else {
      var n := |us| - 1;
      assert ts + us == ts + us[..n] + [us[n]];
      assert us == us[..n] + [us[n]];
      TotalSnoc(ts + us[..n], us[n], f);
      TotalSnoc(us[..n], us[n], f);
      TotalAppend(ts, us[..n], f);
    }
  }

  lemma TotalHead<T>(ts: seq<T>, f: T -> nat)
    requires ts != []
    ensures Total(ts, f) == f(ts[0]) + Total(ts[1..], f)
  {
    assert ts == [ts[0]] + ts[1..];
    TotalAppend([ts[0]], ts[1..], f);
    assert TotalTo([ts[0]], 0, f) == 0;
  }

  /** Replacing one entry exchanges its contribution for the new one. */
  lemma TotalUpdate<T>(ts: seq<T>, i: nat, t: T, f: T -> nat)
    requires i < |ts|
    ensures Total(ts[i := t], f) + f(ts[i]) == Total(ts, f) + f(t)
    ensures f(ts[i]) <= Total(ts, f)
  {
    assert ts == ts[..i] + [ts[i]] + ts[i + 1..];
    assert ts[i := t] == ts[..i] + [t] + ts[i + 1..];
    TotalSnoc(ts[..i], ts[i], f);
    TotalSnoc(ts[..i], t, f);
    TotalAppend(ts[..i] + [ts[i]], ts[i + 1..], f);
    TotalAppend(ts[..i] + [t], ts[i + 1..], f);
  }

  lemma {:induction false} TotalZero<T>(ts: seq<T>, f: T -> nat)
    requires forall t :: t in ts ==> f(t) == 0
    ensures Total(ts, f) == 0
  {
    if ts != [] {
      TotalHead(ts, f);
      assert ts[0] in ts;
      TotalZero(ts[1..], f);
    }
  }

  lemma {:induction false} TotalAtMost<T>(ts: seq<T>, n: nat, f: T -> nat, g: T -> nat)
    requires n <= |ts| && forall t :: t in ts ==> f(t) <= g(t)
    ensures TotalTo(ts, n, f) <= TotalTo(ts, n, g)
  {
    if n > 0 {
      assert ts[n - 1] in ts;
      TotalAtMost(ts, n - 1, f, g);
    }
  }

  function Is<T(==)>(x: T): T -> nat {
    (y: T) => if y == x then 1 else 0
  }

  /** How often `x` occurs in `ts`. */
  function Count<T(==)>(ts: seq<T>, x: T): nat { Total(ts, Is(x)) }

  lemma CountAppend<T>(ts: seq<T>, us: seq<T>, x: T)
    ensures Count(ts + us, x) == Count(ts, x) + Count(us, x)
  {
    TotalAppend(ts, us, Is(x));
  }

  lemma CountSnoc<T>(ts: seq<T>, t: T, x: T)
    ensures Count(ts + [t], x) == Count(ts, x) + (if t == x then 1 else 0)
  {
    TotalSnoc(ts, t, Is(x));
  }

  lemma CountHead<T>(ts: seq<T>, x: T)
    requires ts != []
    ensures Count(ts, x) == (if ts[0] == x then 1 else 0) + Count(ts[1..], x)
  {
    TotalHead(ts, Is(x));
  }

  lemma {:induction false} CountIsMultiplicity<T>(ts: seq<T>, x: T)
    ensures Count(ts, x) == multiset(ts)[x]
  {
    if ts != [] {
      assert ts == [ts[0]] + ts[1..];
      CountHead(ts, x);
      CountIsMultiplicity(ts[1..], x);
    }
  }

  lemma CountPositive<T>(ts: seq<T>, x: T)
    ensures Count(ts, x) > 0 <==> x in ts
  {
    CountIsMultiplicity(ts, x);
  }

  /** A sequence that lists each member of a finite set once, and nothing else, has the set's size. */
  lemma {:induction false} CountsOfSet<T>(ts: seq<T>, xs: set<T>)
    requires forall x :: Count(ts, x) == (if x in xs then 1 else 0)
    ensures |ts| == |xs|
    ensures forall x :: x in ts <==> x in xs
    ensures forall i, j :: 0 <= i < j < |ts| ==> ts[i] != ts[j]
  {
    forall x
      ensures multiset(ts)[x] == multiset(xs)[x]
      ensures x in ts <==> x in xs
    {
      CountIsMultiplicity(ts, x);
      assert multiset(ts)[x] > 0 <==> x in ts;
    }
    assert multiset(ts) == multiset(xs);
    assert |multiset(ts)| == |ts| && |multiset(xs)| == |xs|;
    forall i, j | 0 <= i < j < |ts|
      ensures ts[i] != ts[j]
    {
      assert ts == ts[..j] + [ts[j]] + ts[j + 1..];
      CountSnoc(ts[..j], ts[j], ts[j]);
      CountAppend(ts[..j] + [ts[j]], ts[j + 1..], ts[j]);
      CountPositive(ts[..j], ts[j]);
      assert ts[..j][i] == ts[i];
    }
  }
}
