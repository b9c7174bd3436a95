/** The first pass of `long_entries.py`: keep the `topk` entries with the most
    tokens in a min-heap of `(tokens, line number, line)` tuples. An entry
    enters while the heap has room; afterwards it replaces the heap's minimum
    only when it has strictly more tokens. The heap is modelled as the
    sequence of its elements; only its minimum is ever consulted. */
module TopK {
  import opened Base

  /** A heap element: token count, 1-based line number, the line itself. */
  datatype Entry = Entry(tokens: int, index: nat, line: string)

  /** Python's tuple order on heap elements. Line numbers are distinct, so the
      line text is never compared. */
  predicate Below(a: Entry, b: Entry) {
    a.tokens < b.tokens || (a.tokens == b.tokens && a.index < b.index)
  }

  /** The position of the heap's minimum, `topk[0]`. */
  function MinPos(kept: seq<Entry>): (m: nat)
    requires |kept| > 0
    ensures m < |kept|
    ensures forall j :: 0 <= j < |kept| ==> !Below(kept[j], kept[m])
  {
    if |kept| == 1 then 0
    else
      var m' := MinPos(kept[..|kept| - 1]);
      assert forall j :: 0 <= j < |kept| - 1 ==> kept[..|kept| - 1][j] == kept[j];
      if Below(kept[|kept| - 1], kept[m']) then |kept| - 1 else m'
  }

  /** `kept` without its element at position `m`. */
  function Remove(kept: seq<Entry>, m: nat): (r: seq<Entry>)
    requires m < |kept|
    ensures |r| == |kept| - 1
    ensures forall j :: 0 <= j < |r| ==> r[j] == kept[if j < m then j else j + 1]
    ensures multiset(r) + multiset{kept[m]} == multiset(kept)
  {
    assert kept == kept[..m] + [kept[m]] + kept[m + 1..];
    kept[..m] + kept[m + 1..]
  }

  /** The heap's elements, and (for the proof) the entries it let go: those
      evicted as the minimum and those not admitted. */
  datatype Heap = Heap(kept: seq<Entry>, dropped: seq<Entry>)

  /** One iteration of the scan. With `topk <= 0` the heap never has room, and
      reading `topk[0]` of the empty heap raises. */
  function Offer(h: Heap, e: Entry, k: int): Outcome<Heap> {
    if |h.kept| < k then Done(Heap(h.kept + [e], h.dropped))
    else if |h.kept| == 0 then Aborted
    else
      var m := MinPos(h.kept);
      if e.tokens > h.kept[m].tokens then Done(Heap(Remove(h.kept, m) + [e], h.dropped + [h.kept[m]]))
      else Done(Heap(h.kept, h.dropped + [e]))
  }

  /** The scan over the entries in file order. */
  function Scan(entries: seq<Entry>, k: int): Outcome<Heap> {
    if |entries| == 0 then Done(Heap([], []))
    else
      match Scan(entries[..|entries| - 1], k)
      case Aborted => Aborted
      case Done(h) => Offer(h, entries[|entries| - 1], k)
  }

  /** No dropped entry has more tokens than a kept one. */
  predicate DroppedBelowKept(h: Heap) {
    forall i, j :: 0 <= i < |h.dropped| && 0 <= j < |h.kept| ==> h.dropped[i].tokens <= h.kept[j].tokens
  }

  /** What the scan keeps true after every prefix of the entries. */
  predicate Inv(entries: seq<Entry>, h: Heap, k: int) {
    && |h.kept| == Min(k, |entries|)
    && |h.kept| + |h.dropped| == |entries|
    && multiset(h.kept) + multiset(h.dropped) == multiset(entries)
    && DroppedBelowKept(h)
  }

  /** Evicting the minimum for a larger entry keeps every let-go entry at or
      below every kept one. */
  lemma ReplaceKeepsOrder(h: Heap, e: Entry, m: nat)
    requires m < |h.kept| && DroppedBelowKept(h)
    requires forall j :: 0 <= j < |h.kept| ==> !Below(h.kept[j], h.kept[m])
    requires e.tokens > h.kept[m].tokens
    ensures DroppedBelowKept(Heap(Remove(h.kept, m) + [e], h.dropped + [h.kept[m]]))
  {
    var min := h.kept[m];
    var rest := Remove(h.kept, m);
    var h' := Heap(rest + [e], h.dropped + [min]);
    forall i, j | 0 <= i < |h'.dropped| && 0 <= j < |h'.kept|
      ensures h'.dropped[i].tokens <= h'.kept[j].tokens
    {
      if j < |rest| {
        assert h'.kept[j] == h.kept[if j < m then j else j + 1];
        assert !Below(h'.kept[j], min);
      }
      if i < |h.dropped| {
        assert h'.dropped[i] == h.dropped[i];
        assert h.dropped[i].tokens <= min.tokens;
      }
    }
  }

  /** Letting go an entry no larger than the minimum keeps the order. */
  lemma DropKeepsOrder(h: Heap, e: Entry, m: nat)
    requires m < |h.kept| && DroppedBelowKept(h)
    requires forall j :: 0 <= j < |h.kept| ==> !Below(h.kept[j], h.kept[m])
    requires e.tokens <= h.kept[m].tokens
    ensures DroppedBelowKept(Heap(h.kept, h.dropped + [e]))
  {
    var h' := Heap(h.kept, h.dropped + [e]);
    forall i, j | 0 <= i < |h'.dropped| && 0 <= j < |h'.kept|
      ensures h'.dropped[i].tokens <= h'.kept[j].tokens
    {
      assert !Below(h.kept[j], h.kept[m]);
      if i < |h.dropped| {
        assert h'.dropped[i] == h.dropped[i];
      }
    }
  }

  /** One offer keeps the invariant. */
  lemma OfferKeepsInv(entries: seq<Entry>, h: Heap, e: Entry, k: int)
    requires k >= 1 && Inv(entries, h, k)
    ensures Offer(h, e, k).Done? && Inv(entries + [e], Offer(h, e, k).value, k)
  {
    assert multiset(entries + [e]) == multiset(entries) + multiset{e};
    if |h.kept| < k {
      assert |h.dropped| == 0;
    } else {
      var m := MinPos(h.kept);
      if e.tokens > h.kept[m].tokens {
        ReplaceKeepsOrder(h, e, m);
      } else {
        DropKeepsOrder(h, e, m);
      }
    }
  }

  /** With room for at least one entry the scan never aborts, and afterwards
      holds `min(topk, n)` of the entries; every entry it does not hold has no
      more tokens than any entry it holds. */
  lemma {:induction false} ScanInvariant(entries: seq<Entry>, k: int)
    requires k >= 1
    ensures Scan(entries, k).Done? && Inv(entries, Scan(entries, k).value, k)
    decreases |entries|
  {
    if |entries| > 0 {
      var init := entries[..|entries| - 1];
      assert entries == init + [entries[|entries| - 1]];
      ScanInvariant(init, k);
      OfferKeepsInv(init, Scan(init, k).value, entries[|entries| - 1], k);
    }
  }

  /** `h` holds `min(k, |entries|)` of the entries, and no entry left out has
      more tokens than an entry held. */
  predicate KeptLargest(entries: seq<Entry>, h: Heap, k: int) {
    && |h.kept| == Min(k, |entries|) <= k
    && multiset(h.kept) <= multiset(entries)
    && forall d, x :: d in multiset(entries) - multiset(h.kept) && x in h.kept ==> d.tokens <= x.tokens
  }

  /** The heap ends up with exactly the `topk` largest token counts: it never
      holds more than `topk` entries, every entry is either held or let go, and
      no entry let go outranks an entry held. */
  lemma KeepsLargest(entries: seq<Entry>, k: int)
    requires k >= 1
    ensures Scan(entries, k).Done?
    ensures KeptLargest(entries, Scan(entries, k).value, k)
  {
    ScanInvariant(entries, k);
    InvKeepsLargest(entries, Scan(entries, k).value, k);
  }

  /** What the invariant says about the entries held, in terms of the entries
      seen. */
  lemma InvKeepsLargest(entries: seq<Entry>, h: Heap, k: int)
    requires Inv(entries, h, k)
    ensures multiset(h.kept) <= multiset(entries)
    ensures forall d, x :: d in multiset(entries) - multiset(h.kept) && x in h.kept ==> d.tokens <= x.tokens
  {
    assert multiset(entries) - multiset(h.kept) == multiset(h.dropped);
    forall d, x | d in multiset(entries) - multiset(h.kept) && x in h.kept ensures d.tokens <= x.tokens {
      var i :| 0 <= i < |h.dropped| && h.dropped[i] == d;
      var j :| 0 <= j < |h.kept| && h.kept[j] == x;
    }
  }

  /** Once the heap is full, an entry that only ties the minimum's token count
      is not admitted. */
  lemma TieNotAdmitted(h: Heap, e: Entry, k: int)
    requires |h.kept| == k >= 1
    requires e.tokens == h.kept[MinPos(h.kept)].tokens
    ensures Offer(h, e, k) == Done(Heap(h.kept, h.dropped + [e]))
  {
  }

  /** With `topk <= 0` the first entry makes the scan raise. */
  lemma {:induction false} NoRoomAborts(entries: seq<Entry>, k: int)
    requires k <= 0 && |entries| > 0
    ensures Scan(entries, k).Aborted?
    decreases |entries|
  {
    var init := entries[..|entries| - 1];
    if |init| > 0 {
      NoRoomAborts(init, k);
    }
  }

  /** The heap never holds more than `topk` entries. */
  lemma ScanBound(entries: seq<Entry>, k: int)
    ensures Scan(entries, k).Done? ==> |Scan(entries, k).value.kept| <= Max(0, k)
  {
    if k >= 1 {
      ScanInvariant(entries, k);
    } else if |entries| > 0 {
      NoRoomAborts(entries, k);
    }
  }
}
