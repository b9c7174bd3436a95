/** The accept/skip loop that both deduplication scripts run: a record is
    written only if its signature has not been written before and its key's
    quota is not yet full. The duplicate test comes first, and only an
    accepted record enters the seen set and its key's counter. */
module QuotaFilter {
  import opened Base

  /** The loop's variables after some prefix of the records: the signatures
      written so far, the per-key counter (`collections.Counter`), the written
      records, and the two skip counters. */
  datatype Tally<T, D, K> = Tally(seen: set<D>, counts: map<K, nat>, written: seq<T>, dups: nat, capped: nat)

  /** `counts[k]` of a `collections.Counter`: 0 for a key never counted. */
  function Count<K>(counts: map<K, nat>, k: K): nat {
    if k in counts then counts[k] else 0
  }

  /** Number of records in `xs` whose key is `k`. */
  function KeyCount<T, K(==)>(xs: seq<T>, keyOf: T -> K, k: K): nat {
    if |xs| == 0 then 0
    else KeyCount(xs[..|xs| - 1], keyOf, k) + (if keyOf(xs[|xs| - 1]) == k then 1 else 0)
  }

  /** Some record of `xs` has signature `d`. */
  ghost predicate HasSig<T, D>(xs: seq<T>, sigOf: T -> D, d: D) {
    exists j :: 0 <= j < |xs| && sigOf(xs[j]) == d
  }

  /** One iteration of the loop. */
  function Step<T, D(==), K(==)>(t: Tally<T, D, K>, x: T, sigOf: T -> D, keyOf: T -> K, cap: nat): Tally<T, D, K> {
    var d := sigOf(x);
    if d in t.seen then t.(dups := t.dups + 1)
    else
      var k := keyOf(x);
      if Count(t.counts, k) >= cap then t.(capped := t.capped + 1)
      else t.(seen := t.seen + {d}, counts := t.counts[k := Count(t.counts, k) + 1], written := t.written + [x])
  }

  /** The loop over all records, in order. */
  function Run<T, D(==), K(==)>(xs: seq<T>, sigOf: T -> D, keyOf: T -> K, cap: nat): Tally<T, D, K> {
    if |xs| == 0 then Tally({}, map[], [], 0, 0)
    else Step(Run(xs[..|xs| - 1], sigOf, keyOf, cap), xs[|xs| - 1], sigOf, keyOf, cap)
  }

  /** The seen set holds exactly the signatures of the written records. */
  ghost predicate SeenIsWrittenSigs<T, D(!new), K(!new)>(t: Tally<T, D, K>, sigOf: T -> D) {
    forall d :: d in t.seen <==> HasSig(t.written, sigOf, d)
  }

  /** No two records of `w` share a signature. */
  ghost predicate SigsDistinct<T, D>(w: seq<T>, sigOf: T -> D) {
    forall i, j :: 0 <= i < j < |w| ==> sigOf(w[i]) != sigOf(w[j])
  }

  /** Every counter is the number of written records with its key, at most `cap`. */
  ghost predicate CountsAreKeyCounts<T, D(!new), K(!new)>(t: Tally<T, D, K>, keyOf: T -> K, cap: nat) {
    forall k :: Count(t.counts, k) == KeyCount(t.written, keyOf, k) <= cap
  }

  /** What the loop keeps true after every prefix `xs` of the records. */
  ghost predicate Inv<T, D(!new), K(!new)>(xs: seq<T>, t: Tally<T, D, K>, sigOf: T -> D, keyOf: T -> K, cap: nat) {
    && |t.written| + t.dups + t.capped == |xs|
    && IsSubsequence(t.written, xs)
    && SeenIsWrittenSigs(t, sigOf)
    && SigsDistinct(t.written, sigOf)
    && CountsAreKeyCounts(t, keyOf, cap)
  }

  lemma AcceptKeepsSeen<T, D(!new), K(!new)>(t0: Tally<T, D, K>, x: T, sigOf: T -> D, t: Tally<T, D, K>)
    requires SeenIsWrittenSigs(t0, sigOf)
    requires t.seen == t0.seen + {sigOf(x)} && t.written == t0.written + [x]
    ensures SeenIsWrittenSigs(t, sigOf)
  {
    forall d ensures d in t.seen <==> HasSig(t.written, sigOf, d) {
      if HasSig(t.written, sigOf, d) && d != sigOf(x) {
        var j :| 0 <= j < |t.written| && sigOf(t.written[j]) == d;
        assert j < |t0.written| && t0.written[j] == t.written[j];
      }
      if d in t0.seen {
        var j :| 0 <= j < |t0.written| && sigOf(t0.written[j]) == d;
        assert t.written[j] == t0.written[j];
      }
      if d == sigOf(x) {
        assert sigOf(t.written[|t.written| - 1]) == d;
      }
    }
  }

  lemma AcceptKeepsDistinct<T, D(!new), K(!new)>(t0: Tally<T, D, K>, x: T, sigOf: T -> D)
    requires SeenIsWrittenSigs(t0, sigOf) && SigsDistinct(t0.written, sigOf)
    requires sigOf(x) !in t0.seen
    ensures SigsDistinct(t0.written + [x], sigOf)
  {
    var w := t0.written + [x];
    forall i, j | 0 <= i < j < |w|
      ensures sigOf(w[i]) != sigOf(w[j])
    {
      assert w[i] == t0.written[i];
      if j == |w| - 1 {
        assert HasSig(t0.written, sigOf, sigOf(w[i]));
      } else {
        assert w[j] == t0.written[j];
      }
    }
  }

  lemma AcceptKeepsCounts<T, D(!new), K(!new)>(t0: Tally<T, D, K>, x: T, keyOf: T -> K, cap: nat, t: Tally<T, D, K>)
    requires CountsAreKeyCounts(t0, keyOf, cap)
    requires Count(t0.counts, keyOf(x)) < cap
    requires t.counts == t0.counts[keyOf(x) := Count(t0.counts, keyOf(x)) + 1] && t.written == t0.written + [x]
    ensures CountsAreKeyCounts(t, keyOf, cap)
  {
    assert t.written[..|t.written| - 1] == t0.written;
    forall k ensures Count(t.counts, k) == KeyCount(t.written, keyOf, k) <= cap {
      assert KeyCount(t.written, keyOf, k) == KeyCount(t0.written, keyOf, k) + (if keyOf(x) == k then 1 else 0);
    }
  }

  /** One iteration keeps the invariant. */
  lemma StepKeepsInv<T, D(!new), K(!new)>(xs: seq<T>, t0: Tally<T, D, K>, x: T, sigOf: T -> D, keyOf: T -> K, cap: nat)
    requires Inv(xs, t0, sigOf, keyOf, cap)
    ensures Inv(xs + [x], Step(t0, x, sigOf, keyOf, cap), sigOf, keyOf, cap)
  {
    var t := Step(t0, x, sigOf, keyOf, cap);
    if sigOf(x) in t0.seen || Count(t0.counts, keyOf(x)) >= cap {
      SubsequenceSkipLast(t0.written, xs, x);
    } else {
      SubsequenceTakeLast(t0.written, xs, x);
      AcceptKeepsSeen(t0, x, sigOf, t);
      AcceptKeepsDistinct(t0, x, sigOf);
      AcceptKeepsCounts(t0, x, keyOf, cap, t);
    }
  }

  /** The invariant holds after every prefix of the records. */
  lemma {:induction false} RunInvariant<T, D(!new), K(!new)>(xs: seq<T>, sigOf: T -> D, keyOf: T -> K, cap: nat)
    ensures Inv(xs, Run(xs, sigOf, keyOf, cap), sigOf, keyOf, cap)
    decreases |xs|
  {
    if |xs| == 0 {
      SubsequenceEmpty(xs);
    } else {
      var init := xs[..|xs| - 1];
      assert xs == init + [xs[|xs| - 1]];
      RunInvariant(init, sigOf, keyOf, cap);
      StepKeepsInv(init, Run(init, sigOf, keyOf, cap), xs[|xs| - 1], sigOf, keyOf, cap);
    }
  }

  /** The written records are an order-preserving subsequence of the input,
      and every record is written or counted as skipped exactly once. */
  lemma WrittenIsOrderedSubsequence<T, D(!new), K(!new)>(xs: seq<T>, sigOf: T -> D, keyOf: T -> K, cap: nat)
    ensures IsSubsequence(Run(xs, sigOf, keyOf, cap).written, xs)
    ensures var t := Run(xs, sigOf, keyOf, cap); |t.written| + t.dups + t.capped == |xs|
  {
    RunInvariant(xs, sigOf, keyOf, cap);
  }

  /** No two written records share a signature. */
  lemma WrittenSignaturesDistinct<T, D(!new), K(!new)>(xs: seq<T>, sigOf: T -> D, keyOf: T -> K, cap: nat)
    ensures var w := Run(xs, sigOf, keyOf, cap).written;
            forall i, j :: 0 <= i < j < |w| ==> sigOf(w[i]) != sigOf(w[j])
  {
    RunInvariant(xs, sigOf, keyOf, cap);
  }

  /** The counter of every key is the number of written records with that
      key, and never exceeds the cap. */
  lemma CountsMatchWritten<T, D(!new), K(!new)>(xs: seq<T>, sigOf: T -> D, keyOf: T -> K, cap: nat, k: K)
    ensures var t := Run(xs, sigOf, keyOf, cap);
            Count(t.counts, k) == KeyCount(t.written, keyOf, k) <= cap
  {
    RunInvariant(xs, sigOf, keyOf, cap);
  }

  /** A record whose signature was already written is counted as a duplicate
      and changes nothing else, whatever the state of its key's quota. */
  lemma DuplicateSkippedFirst<T, D(!new), K(!new)>(xs: seq<T>, x: T, sigOf: T -> D, keyOf: T -> K, cap: nat)
    requires HasSig(Run(xs, sigOf, keyOf, cap).written, sigOf, sigOf(x))
    ensures var t := Run(xs, sigOf, keyOf, cap);
            Run(xs + [x], sigOf, keyOf, cap) == t.(dups := t.dups + 1)
  {
    RunInvariant(xs, sigOf, keyOf, cap);
    assert (xs + [x])[..|xs|] == xs;
  }

  /** A new signature whose key already has `cap` written records is counted
      as over the cap, and its signature does not enter the seen set. */
  lemma CapSkipLeavesSeenUnchanged<T, D(!new), K(!new)>(xs: seq<T>, x: T, sigOf: T -> D, keyOf: T -> K, cap: nat)
    requires !HasSig(Run(xs, sigOf, keyOf, cap).written, sigOf, sigOf(x))
    requires KeyCount(Run(xs, sigOf, keyOf, cap).written, keyOf, keyOf(x)) >= cap
    ensures var t := Run(xs, sigOf, keyOf, cap);
            Run(xs + [x], sigOf, keyOf, cap) == t.(capped := t.capped + 1)
  {
    RunInvariant(xs, sigOf, keyOf, cap);
    assert (xs + [x])[..|xs|] == xs;
  }

  /** Any other record is written, at the end. */
  lemma FreshRecordWritten<T, D(!new), K(!new)>(xs: seq<T>, x: T, sigOf: T -> D, keyOf: T -> K, cap: nat)
    requires !HasSig(Run(xs, sigOf, keyOf, cap).written, sigOf, sigOf(x))
    requires KeyCount(Run(xs, sigOf, keyOf, cap).written, keyOf, keyOf(x)) < cap
    ensures Run(xs + [x], sigOf, keyOf, cap).written == Run(xs, sigOf, keyOf, cap).written + [x]
    ensures sigOf(x) in Run(xs + [x], sigOf, keyOf, cap).seen
  {
    RunInvariant(xs, sigOf, keyOf, cap);
    assert (xs + [x])[..|xs|] == xs;
  }

  /** The records written before record `i` was read. */
  function WrittenBefore<T, D(==), K(==)>(xs: seq<T>, i: nat, sigOf: T -> D, keyOf: T -> K, cap: nat): seq<T>
    requires i <= |xs|
  {
    Run(xs[..i], sigOf, keyOf, cap).written
  }

  /** Record `i` passes both tests against the records written before it: no
      written record has its signature, and fewer than `cap` have its key. */
  ghost predicate Admitted<T, D(!new), K(!new)>(xs: seq<T>, i: nat, sigOf: T -> D, keyOf: T -> K, cap: nat)
    requires i < |xs|
  {
    var w := WrittenBefore(xs, i, sigOf, keyOf, cap);
    !HasSig(w, sigOf, sigOf(xs[i])) && KeyCount(w, keyOf, keyOf(xs[i])) < cap
  }

  /** Record `i` is written, after the records written before it, exactly
      when it is `Admitted`; otherwise the output does not change. */
  lemma WrittenWhenAdmitted<T, D(!new), K(!new)>(xs: seq<T>, i: nat, sigOf: T -> D, keyOf: T -> K, cap: nat)
    requires i < |xs|
    ensures WrittenBefore(xs, i + 1, sigOf, keyOf, cap)
         == WrittenBefore(xs, i, sigOf, keyOf, cap) + (if Admitted(xs, i, sigOf, keyOf, cap) then [xs[i]] else [])
  {
    var pre := xs[..i + 1];
    assert pre[..|pre| - 1] == xs[..i] && pre[|pre| - 1] == xs[i];
    RunInvariant(xs[..i], sigOf, keyOf, cap);
  }

  /** Every record is decided on its own: it is written, after the records
      written before it, exactly when it is `Admitted`. */
  ghost predicate RecordByRecord<T, D(!new), K(!new)>(xs: seq<T>, sigOf: T -> D, keyOf: T -> K, cap: nat) {
    forall i :: 0 <= i < |xs| ==>
      WrittenBefore(xs, i + 1, sigOf, keyOf, cap)
      == WrittenBefore(xs, i, sigOf, keyOf, cap) + (if Admitted(xs, i, sigOf, keyOf, cap) then [xs[i]] else [])
  }

  /** The whole output, decided record by record: nothing is written before
      the first record, each record is written exactly when it is
      `Admitted`, and the output is what has been written after the last
      record. */
  lemma WrittenExactlyAdmitted<T, D(!new), K(!new)>(xs: seq<T>, sigOf: T -> D, keyOf: T -> K, cap: nat)
    ensures WrittenBefore(xs, 0, sigOf, keyOf, cap) == []
    ensures RecordByRecord(xs, sigOf, keyOf, cap)
    ensures Run(xs, sigOf, keyOf, cap).written == WrittenBefore(xs, |xs|, sigOf, keyOf, cap)
  {
    forall i | 0 <= i < |xs|
      ensures WrittenBefore(xs, i + 1, sigOf, keyOf, cap)
              == WrittenBefore(xs, i, sigOf, keyOf, cap) + (if Admitted(xs, i, sigOf, keyOf, cap) then [xs[i]] else [])
    {
      WrittenWhenAdmitted(xs, i, sigOf, keyOf, cap);
    }
    assert xs[..|xs|] == xs;
  }

  /** No record that `bad` marks reaches the quota test: each one's signature
      was already seen when it came. */
  ghost predicate BadOnlyAsDuplicates<T, D(!new), K(!new)>(xs: seq<T>, sigOf: T -> D, keyOf: T -> K, cap: nat, bad: T -> bool) {
    forall i :: 0 <= i < |xs| && bad(xs[i]) ==> sigOf(xs[i]) in Run(xs[..i], sigOf, keyOf, cap).seen
  }

  /** The loop when looking up the counter raises for the records `bad`
      marks: such a record passes the duplicate test, which comes first, and
      only raises when its signature is new. */
  function RunChecked<T, D(!new), K(!new)>(xs: seq<T>, sigOf: T -> D, keyOf: T -> K, cap: nat, bad: T -> bool): (r: Outcome<Tally<T, D, K>>)
    ensures r.Done? <==> BadOnlyAsDuplicates(xs, sigOf, keyOf, cap, bad)
    ensures r.Done? ==> r.value == Run(xs, sigOf, keyOf, cap)
  {
    if |xs| == 0 then Done(Run(xs, sigOf, keyOf, cap))
    else
      var init := xs[..|xs| - 1];
      var x := xs[|xs| - 1];
      BadOnlyAsDuplicatesSnoc(init, x, sigOf, keyOf, cap, bad);
      assert init + [x] == xs;
      match RunChecked(init, sigOf, keyOf, cap, bad)
      case Aborted => Aborted
      case Done(t) =>
        if bad(x) && sigOf(x) !in t.seen then Aborted
        else Done(Step(t, x, sigOf, keyOf, cap))
  }

  lemma BadOnlyAsDuplicatesSnoc<T, D(!new), K(!new)>(xs: seq<T>, x: T, sigOf: T -> D, keyOf: T -> K, cap: nat, bad: T -> bool)
    ensures BadOnlyAsDuplicates(xs + [x], sigOf, keyOf, cap, bad)
            <==> BadOnlyAsDuplicates(xs, sigOf, keyOf, cap, bad)
                 && (bad(x) ==> sigOf(x) in Run(xs, sigOf, keyOf, cap).seen)
  {
    var xs' := xs + [x];
    assert xs'[..|xs|] == xs;
    forall i | 0 <= i < |xs| ensures xs'[i] == xs[i] && xs'[..i] == xs[..i] {
    }
  }
}
