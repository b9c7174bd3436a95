/** Small general-purpose vocabulary shared by every stage of the pipeline:
    optional values, outcomes of a script run that may abort, order-preserving
    subsequences, filtering and counting. */
module Base {

  /** A value that may be missing (Python's `None`). */
  datatype Option<T> = None | Some(value: T)

  /** The outcome of a computation that may abort with an uncaught exception. */
  datatype Outcome<T> = Done(value: T) | Aborted

  function Max(a: int, b: int): int { if a >= b then a else b }

  function Min(a: int, b: int): int { if a <= b then a else b }

  lemma AppendAssoc<T>(x: seq<T>, y: seq<T>, z: seq<T>)
    ensures x + (y + z) == (x + y) + z
  {
  }

  /** Splitting a non-empty concatenation at its first element. */
  lemma ConsAppend<T>(a: seq<T>, b: seq<T>)
    requires |a| > 0
    ensures (a + b)[0] == a[0] && (a + b)[1..] == a[1..] + b
  {
  }

  /** A suffix cut at one more point. */
  lemma SuffixCut<T>(s: seq<T>, a: nat, b: nat)
    requires a <= b <= |s|
    ensures s[a..] == s[a..b] + s[b..]
  {
  }

  /** A suffix cut at two more points. */
  lemma SuffixSplit<T>(s: seq<T>, a: nat, b: nat, c: nat)
    requires a <= b <= c <= |s|
    ensures s[a..] == s[a..b] + s[b..c] + s[c..]
  {
  }

  /** `ix` picks the elements of `a` out of `b`, at strictly increasing positions. */
  ghost predicate Embedding<T>(ix: seq<nat>, a: seq<T>, b: seq<T>) {
    && |ix| == |a|
    && (forall j :: 0 <= j < |ix| ==> ix[j] < |b| && a[j] == b[ix[j]])
    && (forall i, j :: 0 <= i < j < |ix| ==> ix[i] < ix[j])
  }

  /** `a` is an order-preserving subsequence of `b`. */
  ghost predicate IsSubsequence<T>(a: seq<T>, b: seq<T>) {
    exists ix: seq<nat> :: Embedding(ix, a, b)
  }

  lemma SubsequenceEmpty<T>(b: seq<T>)
    ensures IsSubsequence([], b)
  {
    assert Embedding([], [], b);
  }

  /** Skipping an element at the end of `b` keeps `a` a subsequence. */
  lemma SubsequenceSkipLast<T>(a: seq<T>, b: seq<T>, x: T)
    requires IsSubsequence(a, b)
    ensures IsSubsequence(a, b + [x])
  {
    var ix: seq<nat> :| Embedding(ix, a, b);
    assert Embedding(ix, a, b + [x]);
  }

  /** Taking the last element of `b` extends the subsequence. */
  lemma SubsequenceTakeLast<T>(a: seq<T>, b: seq<T>, x: T)
    requires IsSubsequence(a, b)
    ensures IsSubsequence(a + [x], b + [x])
  {
    var ix: seq<nat> :| Embedding(ix, a, b);
    var ix' := ix + [|b|];
    assert Embedding(ix', a + [x], b + [x]);
  }

  /** Skipping an element at the front of `b` keeps `a` a subsequence. */
  lemma SubsequenceSkipFirst<T>(a: seq<T>, b: seq<T>, x: T)
    requires IsSubsequence(a, b)
    ensures IsSubsequence(a, [x] + b)
  {
    var ix: seq<nat> :| Embedding(ix, a, b);
    var ix' := seq(|ix|, j requires 0 <= j < |ix| => ix[j] + 1);
    assert Embedding(ix', a, [x] + b);
  }

  /** Taking the first element of `b` extends the subsequence at the front. */
  lemma SubsequenceTakeFirst<T>(a: seq<T>, b: seq<T>, x: T)
    requires IsSubsequence(a, b)
    ensures IsSubsequence([x] + a, [x] + b)
  {
    var ix: seq<nat> :| Embedding(ix, a, b);
    var ix' := [0] + seq(|ix|, j requires 0 <= j < |ix| => ix[j] + 1);
    assert Embedding(ix', [x] + a, [x] + b);
  }

  /** Number of elements of `xs` that satisfy `p`. */
  function CountIf<T>(xs: seq<T>, p: T -> bool): (n: nat)
    ensures n <= |xs|
  {
    if |xs| == 0 then 0
    else CountIf(xs[..|xs| - 1], p) + (if p(xs[|xs| - 1]) then 1 else 0)
  }

  /** Counting over one more element. */
  lemma CountIfSnoc<T>(xs: seq<T>, x: T, p: T -> bool)
    ensures CountIf(xs + [x], p) == CountIf(xs, p) + (if p(x) then 1 else 0)
  {
    assert (xs + [x])[..|xs|] == xs;
  }

  /** `p` holds between corresponding elements of two sequences of the same
      length. */
  predicate Pairwise<S, T>(xs: seq<S>, ys: seq<T>, p: (S, T) -> bool) {
    |xs| == |ys| && forall j :: 0 <= j < |xs| ==> p(xs[j], ys[j])
  }

  /** `Pairwise` over one more pair of elements. */
  lemma PairwiseSnoc<S, T>(xs: seq<S>, ys: seq<T>, p: (S, T) -> bool)
    requires |xs| == |ys| > 0 && Pairwise(xs[..|xs| - 1], ys[..|ys| - 1], p)
    requires p(xs[|xs| - 1], ys[|ys| - 1])
    ensures Pairwise(xs, ys, p)
  {
    var xs', ys' := xs[..|xs| - 1], ys[..|ys| - 1];
    forall j | 0 <= j < |xs| - 1 ensures p(xs[j], ys[j]) {
      assert xs[j] == xs'[j] && ys[j] == ys'[j];
    }
  }

  /** Some element of `xs` satisfies `p` (Python's `any`). */
  predicate Any<T>(xs: seq<T>, p: T -> bool) {
    exists j :: 0 <= j < |xs| && p(xs[j])
  }

  /** `any` over one more element. */
  lemma AnySnoc<T>(xs: seq<T>, p: T -> bool)
    requires |xs| > 0
    ensures Any(xs, p) <==> Any(xs[..|xs| - 1], p) || p(xs[|xs| - 1])
  {
    var init := xs[..|xs| - 1];
    if Any(init, p) {
      var j :| 0 <= j < |init| && p(init[j]);
      assert init[j] == xs[j];
    }
    if Any(xs, p) && !p(xs[|xs| - 1]) {
      var j :| 0 <= j < |xs| && p(xs[j]);
      assert j < |init| && init[j] == xs[j];
    }
  }

  /** `f` aborts on `x`. */
  function AbortsOn<T, U>(f: T -> Outcome<U>): T -> bool {
    x => f(x).Aborted?
  }

  /** `f` applied to every element of `xs` in order and the results
      concatenated; `Aborted` when `f` aborts on some element. */
  function ConcatMap<T, U>(xs: seq<T>, f: T -> Outcome<seq<U>>): (r: Outcome<seq<U>>)
    ensures r.Aborted? <==> Any(xs, AbortsOn(f))
  {
    if |xs| == 0 then Done([])
    else
      AnySnoc(xs, AbortsOn(f));
      match ConcatMap(xs[..|xs| - 1], f)
      case Aborted => Aborted
      case Done(out) =>
        match f(xs[|xs| - 1])
        case Aborted => Aborted
        case Done(o) => Done(out + o)
  }

  /** One more element: its output follows the earlier ones, and the fold
      aborts when the earlier ones or the new one abort. */
  lemma ConcatMapSnoc<T, U>(xs: seq<T>, x: T, f: T -> Outcome<seq<U>>)
    ensures ConcatMap(xs + [x], f) ==
              match ConcatMap(xs, f)
              case Aborted => Aborted
              case Done(out) =>
                match f(x)
                case Aborted => Aborted
                case Done(o) => Done(out + o)
  {
    assert (xs + [x])[..|xs|] == xs && (xs + [x])[|xs|] == x;
  }

  /** `ConcatMap` over two sequences one after the other concatenates the
      results of each. */
  lemma {:induction false} ConcatMapAppend<T, U>(a: seq<T>, b: seq<T>, f: T -> Outcome<seq<U>>)
    requires ConcatMap(a, f).Done? && ConcatMap(b, f).Done?
    ensures ConcatMap(a + b, f) == Done(ConcatMap(a, f).value + ConcatMap(b, f).value)
    decreases |b|
  {
    if |b| == 0 {
      assert a + b == a && ConcatMap(b, f) == Done([]);
      assert ConcatMap(a, f).value + [] == ConcatMap(a, f).value;
    } else {
      var b' := b[..|b| - 1];
      assert (a + b)[..|a + b| - 1] == a + b' && (a + b)[|a + b| - 1] == b[|b| - 1];
      ConcatMapAppend(a, b', f);
      AppendAssoc(ConcatMap(a, f).value, ConcatMap(b', f).value, f(b[|b| - 1]).value);
    }
  }

  /** The elements of `xs` that satisfy `p`, in their original order
      (a Python list comprehension with an `if`). */
  function Filter<T>(xs: seq<T>, p: T -> bool): (r: seq<T>)
    ensures IsSubsequence(r, xs)
    ensures forall j :: 0 <= j < |r| ==> p(r[j]) && r[j] in xs
    ensures |r| == CountIf(xs, p)
  {
    if |xs| == 0 then
      SubsequenceEmpty(xs);
      []
    else
      var init := xs[..|xs| - 1];
      var x := xs[|xs| - 1];
      var r' := Filter(init, p);
      assert xs == init + [x];
      if p(x) then
        SubsequenceTakeLast(r', init, x);
        r' + [x]
      else
        SubsequenceSkipLast(r', init, x);
        r'
  }

  /** Filtering one more element at the end. */
  lemma FilterSnoc<T>(xs: seq<T>, x: T, p: T -> bool)
    ensures Filter(xs + [x], p) == Filter(xs, p) + (if p(x) then [x] else [])
  {
    assert (xs + [x])[..|xs|] == xs;
  }

  /** A subsequence of `xs` made only of elements satisfying `p` that is as long
      as the number of such elements is the filter itself: the three facts in
      `Filter`'s contract determine its result. */
  lemma {:induction false} FilterIsDetermined<T>(xs: seq<T>, p: T -> bool, r: seq<T>)
    requires IsSubsequence(r, xs)
    requires forall j :: 0 <= j < |r| ==> p(r[j])
    requires |r| == CountIf(xs, p)
    ensures r == Filter(xs, p)
    decreases |xs|
  {
    var ix: seq<nat> :| Embedding(ix, r, xs);
    if |xs| == 0 {
      assert |r| == 0;
    } else {
      var init := xs[..|xs| - 1];
      var x := xs[|xs| - 1];
      if |r| > 0 && ix[|r| - 1] == |xs| - 1 {
        // the last element of r is x, the rest embeds into init
        var r' := r[..|r| - 1];
        var ix' := ix[..|r| - 1];
        assert Embedding(ix', r', init);
        assert p(x) by { assert r[|r| - 1] == x; }
        SubsequenceCountBound(r', init, p);
        FilterIsDetermined(init, p, r');
        assert r == r' + [x];
      } else {
        assert Embedding(ix, r, init);
        SubsequenceCountBound(r, init, p);
        if p(x) {
          assert false;
        }
        FilterIsDetermined(init, p, r);
      }
    }
  }

  /** A subsequence whose elements all satisfy `p` has at most as many elements
      as `xs` has elements satisfying `p`. */
  lemma {:induction false} SubsequenceCountBound<T>(r: seq<T>, xs: seq<T>, p: T -> bool)
    requires IsSubsequence(r, xs)
    requires forall j :: 0 <= j < |r| ==> p(r[j])
    ensures |r| <= CountIf(xs, p)
    decreases |xs|
  {
    var ix: seq<nat> :| Embedding(ix, r, xs);
    if |r| > 0 {
      assert ix[|r| - 1] < |xs|;
      var init := xs[..|xs| - 1];
      if ix[|r| - 1] == |xs| - 1 {
        assert Embedding(ix[..|r| - 1], r[..|r| - 1], init);
        SubsequenceCountBound(r[..|r| - 1], init, p);
        assert p(xs[|xs| - 1]) by { assert r[|r| - 1] == xs[|xs| - 1]; }
      } else {
        assert Embedding(ix, r, init);
        SubsequenceCountBound(r, init, p);
      }
    }
  }

  /** Every pair of `ns` is a position of `xs` with the value `f` finds
      there. */
  ghost predicate NumbersVia<S, T>(ns: seq<(nat, T)>, xs: seq<S>, f: S -> Option<T>) {
    forall j :: 0 <= j < |ns| ==> ns[j].0 < |xs| && f(xs[ns[j].0]) == Some(ns[j].1)
  }

  /** The positions of `ns` increase strictly. */
  ghost predicate Increasing<T>(ns: seq<(nat, T)>) {
    forall i, j :: 0 <= i < j < |ns| ==> ns[i].0 < ns[j].0
  }

  /** Every position of `xs` where `f` finds a value is numbered in `ns`. */
  ghost predicate NumbersEvery<S, T>(ns: seq<(nat, T)>, xs: seq<S>, f: S -> Option<T>) {
    forall i :: 0 <= i < |xs| && f(xs[i]).Some? ==> exists j :: 0 <= j < |ns| && ns[j].0 == i
  }

  /** The numbered value of one more position, if it holds one. */
  function NumberOpt<T>(n: nat, o: Option<T>): seq<(nat, T)> {
    match o
    case None => []
    case Some(v) => [(n, v)]
  }

  /** Numbering one more element keeps the numbers increasing and each pair
      at its element. */
  lemma NumbersViaSnoc<S, T>(ns: seq<(nat, T)>, xs: seq<S>, x: S, f: S -> Option<T>)
    requires NumbersVia(ns, xs, f) && Increasing(ns)
    ensures NumbersVia(ns + NumberOpt(|xs|, f(x)), xs + [x], f)
    ensures Increasing(ns + NumberOpt(|xs|, f(x)))
  {
    if f(x).Some? {
      var ns' := ns + [(|xs|, f(x).value)];
      assert ns + NumberOpt(|xs|, f(x)) == ns';
      forall j | 0 <= j < |ns'| ensures ns'[j].0 < |xs| + 1 && f((xs + [x])[ns'[j].0]) == Some(ns'[j].1) {
        if j < |ns| {
          assert ns'[j] == ns[j];
        }
      }
    } else {
      assert ns + NumberOpt(|xs|, f(x)) == ns;
      forall j | 0 <= j < |ns| ensures f((xs + [x])[ns[j].0]) == Some(ns[j].1) {
        assert (xs + [x])[ns[j].0] == xs[ns[j].0];
      }
    }
  }

  /** Numbering one more element leaves out no element that has a value. */
  lemma NumbersEverySnoc<S, T>(ns: seq<(nat, T)>, xs: seq<S>, x: S, f: S -> Option<T>)
    requires NumbersEvery(ns, xs, f)
    ensures NumbersEvery(ns + NumberOpt(|xs|, f(x)), xs + [x], f)
  {
    var ns' := ns + NumberOpt(|xs|, f(x));
    var xs' := xs + [x];
    forall i | 0 <= i < |xs'| && f(xs'[i]).Some? ensures exists j :: 0 <= j < |ns'| && ns'[j].0 == i {
      if i < |xs| {
        assert xs'[i] == xs[i];
        var j :| 0 <= j < |ns| && ns[j].0 == i;
        assert ns'[j] == ns[j];
      } else {
        assert ns'[|ns|].0 == i;
      }
    }
  }

  /** Every pair but the last numbers a position before the last one. */
  lemma NumbersBeforeLast<S, T>(ns: seq<(nat, T)>, xs: seq<S>, f: S -> Option<T>)
    requires |xs| > 0 && NumbersVia(ns, xs, f) && Increasing(ns)
    ensures forall j :: 0 <= j < |ns| - 1 ==> ns[j].0 < |xs| - 1
  {
    forall j | 0 <= j < |ns| - 1 ensures ns[j].0 < |xs| - 1 {
      assert ns[j].0 < ns[|ns| - 1].0;
    }
  }

  /** A last element with a value is the last one numbered, with that value. */
  lemma NumbersEndAtLast<S, T>(ns: seq<(nat, T)>, xs: seq<S>, f: S -> Option<T>)
    requires |xs| > 0 && NumbersVia(ns, xs, f) && Increasing(ns) && NumbersEvery(ns, xs, f)
    requires f(xs[|xs| - 1]).Some?
    ensures |ns| > 0 && ns[|ns| - 1] == (|xs| - 1, f(xs[|xs| - 1]).value)
  {
    var j :| 0 <= j < |ns| && ns[j].0 == |xs| - 1;
    NumbersBeforeLast(ns, xs, f);
  }

  /** Dropping the last element when the numbering ends with it. */
  lemma NumbersInitLast<S, T>(ns: seq<(nat, T)>, xs: seq<S>, f: S -> Option<T>)
    requires |xs| > 0 && NumbersVia(ns, xs, f) && Increasing(ns) && NumbersEvery(ns, xs, f)
    requires |ns| > 0 && ns[|ns| - 1].0 == |xs| - 1
    ensures var ns', xs' := ns[..|ns| - 1], xs[..|xs| - 1];
            NumbersVia(ns', xs', f) && Increasing(ns') && NumbersEvery(ns', xs', f)
  {
    var n := |xs| - 1;
    var ns', xs' := ns[..|ns| - 1], xs[..n];
    NumbersBeforeLast(ns, xs, f);
    forall j | 0 <= j < |ns'| ensures ns'[j].0 < n && f(xs'[ns'[j].0]) == Some(ns'[j].1) {
      assert ns'[j] == ns[j];
    }
    forall i | 0 <= i < n && f(xs'[i]).Some? ensures exists j :: 0 <= j < |ns'| && ns'[j].0 == i {
      assert xs[i] == xs'[i];
      var j :| 0 <= j < |ns| && ns[j].0 == i;
      assert ns'[j] == ns[j];
    }
  }

  /** Dropping a last element that has no value. */
  lemma NumbersInitNone<S, T>(ns: seq<(nat, T)>, xs: seq<S>, f: S -> Option<T>)
    requires |xs| > 0 && NumbersVia(ns, xs, f) && Increasing(ns) && NumbersEvery(ns, xs, f)
    requires f(xs[|xs| - 1]).None?
    ensures NumbersVia(ns, xs[..|xs| - 1], f) && NumbersEvery(ns, xs[..|xs| - 1], f)
  {
    var n := |xs| - 1;
    var xs' := xs[..n];
    NumbersBeforeLast(ns, xs, f);
    assert |ns| > 0 ==> ns[|ns| - 1].0 != n by {
      if |ns| > 0 {
        assert f(xs[ns[|ns| - 1].0]) == Some(ns[|ns| - 1].1);
      }
    }
    forall j | 0 <= j < |ns| ensures ns[j].0 < n && f(xs'[ns[j].0]) == Some(ns[j].1) {
    }
    forall i | 0 <= i < n && f(xs'[i]).Some? ensures exists j :: 0 <= j < |ns| && ns[j].0 == i {
      assert xs[i] == xs'[i];
    }
  }

  /** Two numberings of `xs` whose last element has a value both end with
      it, and are numberings of the rest before that. */
  lemma NumberingsEndAlike<S, T>(ns: seq<(nat, T)>, ms: seq<(nat, T)>, xs: seq<S>, f: S -> Option<T>)
    requires |xs| > 0 && f(xs[|xs| - 1]).Some?
    requires NumbersVia(ns, xs, f) && Increasing(ns) && NumbersEvery(ns, xs, f)
    requires NumbersVia(ms, xs, f) && Increasing(ms) && NumbersEvery(ms, xs, f)
    ensures |ns| > 0 && |ms| > 0
    ensures var ns', ms', xs' := ns[..|ns| - 1], ms[..|ms| - 1], xs[..|xs| - 1];
            && NumbersVia(ns', xs', f) && Increasing(ns') && NumbersEvery(ns', xs', f)
            && NumbersVia(ms', xs', f) && Increasing(ms') && NumbersEvery(ms', xs', f)
            && (ns' == ms' ==> ns == ms)
  {
    NumbersEndAtLast(ns, xs, f);
    NumbersEndAtLast(ms, xs, f);
    NumbersInitLast(ns, xs, f);
    NumbersInitLast(ms, xs, f);
    assert ns == ns[..|ns| - 1] + [ns[|ns| - 1]];
    assert ms == ms[..|ms| - 1] + [ms[|ms| - 1]];
  }

  /** There is only one numbering of the values `f` finds in `xs`. */
  lemma {:induction false} NumberingUnique<S, T>(ns: seq<(nat, T)>, ms: seq<(nat, T)>, xs: seq<S>, f: S -> Option<T>)
    requires NumbersVia(ns, xs, f) && Increasing(ns) && NumbersEvery(ns, xs, f)
    requires NumbersVia(ms, xs, f) && Increasing(ms) && NumbersEvery(ms, xs, f)
    ensures ns == ms
    decreases |xs|
  {
    if |xs| > 0 {
      var n := |xs| - 1;
      if f(xs[n]).Some? {
        NumberingsEndAlike(ns, ms, xs, f);
        NumberingUnique(ns[..|ns| - 1], ms[..|ms| - 1], xs[..n], f);
      } else {
        NumbersInitNone(ns, xs, f);
        NumbersInitNone(ms, xs, f);
        NumberingUnique(ns, ms, xs[..n], f);
      }
    } else {
      assert |ns| > 0 ==> ns[0].0 < |xs|;
      assert |ms| > 0 ==> ms[0].0 < |xs|;
    }
  }

  /** When `f` finds a value in every element, the numbering counts them 0,
      1, 2, ... */
  lemma {:induction false} NumbersEveryPosition<S, T>(ns: seq<(nat, T)>, xs: seq<S>, f: S -> Option<T>)
    requires NumbersVia(ns, xs, f) && Increasing(ns) && NumbersEvery(ns, xs, f)
    requires forall i :: 0 <= i < |xs| ==> f(xs[i]).Some?
    ensures |ns| == |xs| && forall j :: 0 <= j < |ns| ==> ns[j].0 == j
    decreases |xs|
  {
    if |xs| > 0 {
      var n := |xs| - 1;
      NumbersEndAtLast(ns, xs, f);
      NumbersInitLast(ns, xs, f);
      var ns' := ns[..|ns| - 1];
      NumbersEveryPosition(ns', xs[..n], f);
      assert forall j :: 0 <= j < |ns'| ==> ns[j] == ns'[j];
    } else {
      assert |ns| > 0 ==> ns[0].0 < |xs|;
    }
  }

  /** The elements of `xs` are pairwise distinct. */
  predicate Distinct<T(==)>(xs: seq<T>) {
    forall i, j :: 0 <= i < j < |xs| ==> xs[i] != xs[j]
  }

  /** A sequence of pairwise distinct elements has as many distinct values as elements. */
  lemma {:induction false} DistinctCardinality<T>(xs: seq<T>)
    requires Distinct(xs)
    ensures |set x | x in xs| == |xs|
  {
    if |xs| > 0 {
      var init := xs[..|xs| - 1];
      var x := xs[|xs| - 1];
      DistinctCardinality(init);
      assert (set y | y in xs) == (set y | y in init) + {x};
      assert x !in (set y | y in init);
    }
  }
}
