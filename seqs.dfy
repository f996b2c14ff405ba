/** Sequence helpers shared by the scanners: the list a `foreach` builds by
    appending what each element yields, and de-duplication by `Contains`. */
module Seqs {

  /** The concatenation of `f(x)` over `xs`, in order: what a loop that
      appends the results of `f` builds. */
  function FlatMap<A, B>(f: A -> seq<B>, xs: seq<A>): seq<B> {
    if xs == [] then [] else FlatMap(f, xs[..|xs| - 1]) + f(xs[|xs| - 1])
  }

  lemma AppendAssociative<T>(a: seq<T>, b: seq<T>, c: seq<T>)
    ensures (a + b) + c == a + (b + c)
  {
  }

  lemma DropLastAppend<T>(xs: seq<T>)
    requires xs != []
    ensures xs[..|xs| - 1] + [xs[|xs| - 1]] == xs
  {
  }

  lemma FlatMapStep<A, B>(f: A -> seq<B>, xs: seq<A>, i: nat)
    requires i < |xs|
    ensures FlatMap(f, xs[..i + 1]) == FlatMap(f, xs[..i]) + f(xs[i])
  {
    assert xs[..i + 1][..i] == xs[..i];
  }

  lemma {:induction false} FlatMapAppend<A, B>(f: A -> seq<B>, xs: seq<A>, ys: seq<A>)
    ensures FlatMap(f, xs + ys) == FlatMap(f, xs) + FlatMap(f, ys)
  {
    if ys == [] {
      assert xs + ys == xs;
    } else {
      FlatMapAppend(f, xs, ys[..|ys| - 1]);
      assert (xs + ys)[..|xs + ys| - 1] == xs + ys[..|ys| - 1];
    }
  }

  /** An element of the result comes from some element of the input, and
      every element's results are in it. */
  lemma {:induction false} FlatMapIff<A, B>(f: A -> seq<B>, xs: seq<A>, y: B)
    ensures y in FlatMap(f, xs) <==> exists i | 0 <= i < |xs| :: y in f(xs[i])
  {
    if xs != [] {
      var n := |xs| - 1;
      var init := xs[..n];
      FlatMapIff(f, init, y);
      if exists i | 0 <= i < |xs| :: y in f(xs[i]) {
        var i :| 0 <= i < |xs| && y in f(xs[i]);
        if i < n {
          assert init[i] == xs[i];
        }
      }
      if y in FlatMap(f, init) {
        var i :| 0 <= i < n && y in f(init[i]);
        assert init[i] == xs[i];
      }
    }
  }

  /** A function that keeps each element of `xs` as it is leaves `xs` unchanged. */
  lemma {:induction false} FlatMapUnit<A>(f: A -> seq<A>, xs: seq<A>)
    requires forall i | 0 <= i < |xs| :: f(xs[i]) == [xs[i]]
    ensures FlatMap(f, xs) == xs
  {
    if xs != [] {
      var n := |xs| - 1;
      forall i | 0 <= i < n
        ensures f(xs[..n][i]) == [xs[..n][i]]
      {
        assert xs[..n][i] == xs[i];
      }
      FlatMapUnit(f, xs[..n]);
      assert xs[..n] + [xs[n]] == xs;
    }
  }

  predicate Distinct<T(==)>(xs: seq<T>) {
    forall i, j | 0 <= i < j < |xs| :: xs[i] != xs[j]
  }

  /** `xs` without repetitions, keeping each element where it first occurs:
      what appending only the elements a list does not yet `Contains` builds. */
  function Dedup<T(==)>(xs: seq<T>): seq<T> {
    if xs == [] then []
    else
      var d := Dedup(xs[..|xs| - 1]);
      if xs[|xs| - 1] in d then d else d + [xs[|xs| - 1]]
  }

  /** The position of the first occurrence of `x` in `xs`. */
  function FirstIndex<T(==)>(xs: seq<T>, x: T): (r: nat)
    requires x in xs
    ensures r < |xs| && xs[r] == x
    ensures forall j | 0 <= j < r :: xs[j] != x
  {
    if xs[0] == x then 0 else 1 + FirstIndex(xs[1..], x)
  }

  lemma {:induction false} DedupElements<T>(xs: seq<T>)
    ensures forall x :: x in Dedup(xs) <==> x in xs
  {
    if xs != [] {
      DedupElements(xs[..|xs| - 1]);
      assert xs == xs[..|xs| - 1] + [xs[|xs| - 1]];
    }
  }

  lemma {:induction false} DedupDistinct<T>(xs: seq<T>)
    ensures Distinct(Dedup(xs))
  {
    if xs != [] {
      DedupDistinct(xs[..|xs| - 1]);
    }
  }

  lemma {:induction false} DedupHead<T>(xs: seq<T>)
    requires xs != []
    ensures Dedup(xs) != [] && Dedup(xs)[0] == xs[0]
  {
    if |xs| > 1 {
      DedupHead(xs[..|xs| - 1]);
    }
  }

  /** Every kept element comes from the input. */
  lemma DedupIndexIn<T>(xs: seq<T>, k: nat)
    requires k < |Dedup(xs)|
    ensures Dedup(xs)[k] in xs
  {
    DedupElements(xs);
    var y := Dedup(xs)[k];
    assert y in Dedup(xs);
  }

  /** An element of the input without its last entry is first seen at the same place. */
  lemma FirstIndexInit<T>(xs: seq<T>, x: T)
    requires xs != [] && x in xs[..|xs| - 1]
    ensures FirstIndex(xs, x) == FirstIndex(xs[..|xs| - 1], x)
  {
    var init := xs[..|xs| - 1];
    var a, b := FirstIndex(xs, x), FirstIndex(init, x);
    assert xs[b] == x;
    assert a <= b;
    assert init[a] == x;
  }

  /** A new last element is first seen after every kept element. */
  lemma {:induction false} FirstSeenOrderNewLast<T>(xs: seq<T>, d: seq<T>, e: seq<T>)
    requires xs != [] && xs[|xs| - 1] !in xs[..|xs| - 1]
    requires forall k | 0 <= k < |d| :: d[k] in xs[..|xs| - 1]
    requires forall i, j | 0 <= i < j < |d| :: FirstIndex(xs[..|xs| - 1], d[i]) < FirstIndex(xs[..|xs| - 1], d[j])
    requires e == d + [xs[|xs| - 1]]
    ensures forall k | 0 <= k < |e| :: e[k] in xs
    ensures forall i, j | 0 <= i < j < |e| :: FirstIndex(xs, e[i]) < FirstIndex(xs, e[j])
  {
    var init, last := xs[..|xs| - 1], xs[|xs| - 1];
    assert FirstIndex(xs, last) == |init|;
    forall k | 0 <= k < |e|
      ensures e[k] in xs
    {
      if k < |d| {
        assert e[k] == d[k] && d[k] in init;
      }
    }
    forall i, j | 0 <= i < j < |e|
      ensures FirstIndex(xs, e[i]) < FirstIndex(xs, e[j])
    {
      assert e[i] == d[i] && d[i] in init;
      FirstIndexInit(xs, d[i]);
      if j < |d| {
        assert e[j] == d[j] && d[j] in init;
        FirstIndexInit(xs, d[j]);
      }
    }
  }

  /** Without a new last element the kept elements keep their order. */
  lemma FirstSeenOrderOldLast<T>(xs: seq<T>, d: seq<T>)
    requires xs != []
    requires forall k | 0 <= k < |d| :: d[k] in xs[..|xs| - 1]
    requires forall i, j | 0 <= i < j < |d| :: FirstIndex(xs[..|xs| - 1], d[i]) < FirstIndex(xs[..|xs| - 1], d[j])
    ensures forall k | 0 <= k < |d| :: d[k] in xs
    ensures forall i, j | 0 <= i < j < |d| :: FirstIndex(xs, d[i]) < FirstIndex(xs, d[j])
  {
    var init := xs[..|xs| - 1];
    forall k | 0 <= k < |d|
      ensures d[k] in xs && FirstIndex(xs, d[k]) == FirstIndex(init, d[k])
    {
      assert d[k] in init;
      FirstIndexInit(xs, d[k]);
    }
  }

  /** The kept elements appear in the order of their first occurrences. */
  lemma {:induction false} DedupFirstSeenOrder<T>(xs: seq<T>)
    ensures forall x :: x in Dedup(xs) <==> x in xs
    ensures forall i, j | 0 <= i < j < |Dedup(xs)| :: FirstIndex(xs, Dedup(xs)[i]) < FirstIndex(xs, Dedup(xs)[j])
  {
    DedupElements(xs);
    if xs != [] {
      var init := xs[..|xs| - 1];
      var last := xs[|xs| - 1];
      var d := Dedup(init);
      DedupFirstSeenOrder(init);
      forall k | 0 <= k < |d|
        ensures d[k] in init
      {
        DedupIndexIn(init, k);
      }
      if last !in d {
        FirstSeenOrderNewLast(xs, d, Dedup(xs));
      } else {
        FirstSeenOrderOldLast(xs, d);
      }
    }
  }

  /** Appending at most one element to the input extends the result only
      when that element is new. */
  lemma DedupAppend<T>(xs: seq<T>, ys: seq<T>)
    requires |ys| <= 1
    ensures Dedup(xs + ys) == if ys == [] || ys[0] in Dedup(xs) then Dedup(xs) else Dedup(xs) + ys
  {
    if ys != [] {
      assert (xs + ys)[..|xs|] == xs;
    } else {
      assert xs + ys == xs;
    }
  }
}
