/** `create_train_val.py`: shuffle the line numbers with a fixed seed, send the
    first `max(1, 5%)` of them to the validation file and every other record
    to the training file, and end every output with a stop marker. The
    shuffle is an oracle: any permutation of the line numbers. */
module TrainVal {
  import opened Base
  import opened Text
  import opened Json
  import opened Lines

  /** The marker appended to every output. */
  const STOP: string := "\n<|end_of_scene|>"

  /** `v = max(1, int(total * VAL_PCT))` with `VAL_PCT = 0.05`, read as
      `total / 20`. */
  function ValSize(total: nat): (v: nat)
    requires total >= 1
    ensures 1 <= v <= total
    ensures v == 1 || 20 * v <= total < 20 * v + 20
  {
    Max(1, total / 20)
  }

  /** What `random.Random(SEED).shuffle(indices)` produces from
      `list(range(total))`. */
  predicate IsPermutation(perm: seq<nat>, total: nat) {
    && |perm| == total
    && (forall i :: 0 <= i < total ==> perm[i] < total)
    && Distinct(perm)
  }

  /** `val_idx = set(indices[:v])`: `v` distinct line numbers, all in range. */
  function ValIndices(perm: seq<nat>, total: nat): (s: set<nat>)
    requires total >= 1 && IsPermutation(perm, total)
    ensures |s| == ValSize(total)
    ensures forall i :: i in s ==> i < total
  {
    var pre := perm[..ValSize(total)];
    assert Distinct(pre) by {
      forall i, j | 0 <= i < j < |pre| ensures pre[i] != pre[j] {
        assert pre[i] == perm[i] && pre[j] == perm[j];
      }
    }
    DistinctCardinality(pre);
    set x | x in pre
  }

  /** `s` ends with `suffix`. */
  predicate EndsWith(s: string, suffix: string) {
    |s| >= |suffix| && s[|s| - |suffix|..] == suffix
  }

  /** `output.rstrip() + STOP`: the output without its trailing whitespace
      (so the character before the marker, if any, is not whitespace), then
      the marker. */
  function Mark(output: string): (m: string)
    ensures EndsWith(m, STOP)
    ensures m[..|m| - |STOP|] <= output && AllSpace(output[|m| - |STOP|..])
    ensures |m| == |STOP| || !IsSpace(m[|m| - |STOP| - 1])
  {
    var r := RStrip(output);
    assert (r + STOP)[..|r|] == r;
    r + STOP
  }

  /** The marker does not recognise itself: marking an output twice leaves two
      markers, whatever the comment in the script says. */
  lemma MarkTwice(output: string)
    ensures Mark(Mark(output)) == RStrip(output) + STOP + STOP
    ensures Mark(Mark(output)) != Mark(output)
  {
    var m := RStrip(output) + STOP;
    assert m[|m| - 1] == '>';
    assert RStrip(m) == m;
  }

  /** What the script demands of a record: an object (the first pass calls
      `obj.get`) whose output is missing or a string (it calls `.rstrip()`). */
  predicate Processable(obj: Json) {
    HasTextField(obj, "output")
  }

  /** The first pass's `found_key`: a truthy `source_file`, else the parsed
      input's `movie_title` when truthy, else its `movie_details.title`
      (`movie_details` defaulting to `{}`). An input that is not a string,
      does not parse or is not an object, or a `movie_details` that is not an
      object, makes a call inside the `try` raise, which leaves None. */
  function FoundKey(obj: Json, parse: string -> Option<Json>): Option<Json>
    requires obj.JObj?
  {
    if Selects(obj.fields, "source_file") then Some(obj.fields["source_file"])
    else
      var inp := GetOr(obj.fields, "input", JStr(""));
      if !inp.JStr? then None
      else
        match parse(inp.s)
        case Some(JObj(p)) =>
          if Selects(p, "movie_title") then Some(p["movie_title"])
          else
            (match GetOr(p, "movie_details", JObj(map[]))
             case JObj(md) => Some(GetOr(md, "title", JNull))
             case _ => None)
        case _ => None
  }

  /** `meta_counter.update([found_key])` runs outside any `try` on a truthy
      key, and a list or an object is not hashable: the first pass raises. */
  predicate UnhashableKey(obj: Json, parse: string -> Option<Json>) {
    obj.JObj? &&
    match FoundKey(obj, parse)
    case Some(v) => Truthy(v) && (v.JList? || v.JObj?)
    case None => false
  }

  /** What makes the script raise on a record: the first pass's counter, or
      the second pass's `.rstrip()` on an output that is not a string. */
  predicate Raises(obj: Json, parse: string -> Option<Json>) {
    !Processable(obj) || UnhashableKey(obj, parse)
  }

  /** A truthy list under `source_file` raises before any file is written. */
  lemma ListSourceFileRaises(obj: Json, parse: string -> Option<Json>)
    requires obj.JObj? && "source_file" in obj.fields && obj.fields["source_file"].JList?
    requires |obj.fields["source_file"].items| > 0
    ensures Raises(obj, parse)
  {
  }

  /** The output is a string ending with the marker. */
  predicate IsMarked(o: Json) {
    o.JObj? && "output" in o.fields && o.fields["output"].JStr? && EndsWith(o.fields["output"].s, STOP)
  }

  /** The record as written: its output marked, everything else unchanged. */
  function MarkRecord(obj: Json): (o: Json)
    requires Processable(obj)
    ensures o.JObj? && o.fields.Keys == obj.fields.Keys + {"output"}
    ensures forall k :: k in obj.fields && k != "output" ==> o.fields[k] == obj.fields[k]
    ensures o.fields["output"] == JStr(Mark(TextOf(obj, "output")))
    ensures IsMarked(o)
  {
    JObj(obj.fields["output" := JStr(Mark(TextOf(obj, "output")))])
  }

  /** The two output files, as records. */
  datatype Split = Split(train: seq<Json>, val: seq<Json>)

  /** The writing loop, over the records with their line numbers: a record
      goes to the validation file when its number is in `valIdx`. */
  function Distribute(ns: seq<(nat, Json)>, valIdx: set<nat>): (s: Split)
    requires forall p :: p in ns ==> Processable(p.1)
    ensures |s.train| + |s.val| == |ns|
    ensures forall o :: o in s.train ==> IsMarked(o)
    ensures forall o :: o in s.val ==> IsMarked(o)
  {
    if |ns| == 0 then Split([], [])
    else
      var x := ns[|ns| - 1];
      var s := Distribute(ns[..|ns| - 1], valIdx);
      var o := MarkRecord(x.1);
      if x.0 in valIdx then s.(val := s.val + [o]) else s.(train := s.train + [o])
  }

  /** Membership of a numbered record's line in the validation set. */
  function InVal(valIdx: set<nat>): ((nat, Json)) -> bool {
    (p: (nat, Json)) => p.0 in valIdx
  }

  /** Membership of a numbered record's line in the training set. */
  function NotInVal(valIdx: set<nat>): ((nat, Json)) -> bool {
    (p: (nat, Json)) => p.0 !in valIdx
  }

  /** The written form of numbered records. */
  function MarkAll(ps: seq<(nat, Json)>): (r: seq<Json>)
    requires forall p :: p in ps ==> Processable(p.1)
    ensures |r| == |ps| && forall j :: 0 <= j < |ps| ==> r[j] == MarkRecord(ps[j].1)
  {
    seq(|ps|, j requires 0 <= j < |ps| => MarkRecord(ps[j].1))
  }

  lemma MarkAllSnoc(ps: seq<(nat, Json)>, x: (nat, Json))
    requires forall p :: p in ps ==> Processable(p.1)
    requires Processable(x.1)
    ensures MarkAll(ps + [x]) == MarkAll(ps) + [MarkRecord(x.1)]
  {
  }

  /** The validation file holds, in file order, the marked records whose line
      number is in `val_idx`, and the training file all the others: every
      record goes to exactly one file. */
  lemma {:induction false} DistributeIsPartition(ns: seq<(nat, Json)>, valIdx: set<nat>)
    requires forall p :: p in ns ==> Processable(p.1)
    ensures var s := Distribute(ns, valIdx);
            && s.val == MarkAll(Filter(ns, InVal(valIdx)))
            && s.train == MarkAll(Filter(ns, NotInVal(valIdx)))
    decreases |ns|
  {
    if |ns| > 0 {
      var init := ns[..|ns| - 1];
      var x := ns[|ns| - 1];
      assert ns == init + [x];
      DistributeIsPartition(init, valIdx);
      FilterSnoc(init, x, InVal(valIdx));
      FilterSnoc(init, x, NotInVal(valIdx));
      MarkAllSnoc(Filter(init, InVal(valIdx)), x);
      MarkAllSnoc(Filter(init, NotInVal(valIdx)), x);
    }
  }

  /** The members of `s` below `n`. */
  function MembersBelow(s: set<nat>, n: nat): set<nat> {
    set i | i in s && i < n
  }

  /** Counting the numbered records in `s` counts the members of `s` below the
      number of records, when the records are numbered 0, 1, 2, ... */
  lemma {:induction false} CountMembers(xs: seq<(nat, Json)>, s: set<nat>, p: ((nat, Json)) -> bool)
    requires forall j :: 0 <= j < |xs| ==> xs[j].0 == j
    requires forall x :: p(x) == (x.0 in s)
    ensures CountIf(xs, p) == |MembersBelow(s, |xs|)|
    decreases |xs|
  {
    if |xs| == 0 {
      assert MembersBelow(s, 0) == {};
    } else {
      var n := |xs| - 1;
      CountMembers(xs[..n], s, p);
      var below := MembersBelow(s, n);
      assert xs[n].0 == n;
      if n in s {
        assert MembersBelow(s, |xs|) == below + {n};
      } else {
        assert MembersBelow(s, |xs|) == below;
      }
    }
  }

  /** The two output files of a run that does not raise. */
  function SplitRecords(lines: seq<string>, parse: string -> Option<Json>, perm: seq<nat>): (s: Split)
    requires |lines| >= 1 && IsPermutation(perm, |lines|)
    requires forall obj :: obj in Records(lines, parse, EmptyBlank) ==> Processable(obj)
    ensures forall p :: p in NumberedRecords(lines, parse, EmptyBlank) ==> Processable(p.1)
    ensures var ns := NumberedRecords(lines, parse, EmptyBlank);
            var valIdx := ValIndices(perm, |lines|);
            && s.val == MarkAll(Filter(ns, InVal(valIdx)))
            && s.train == MarkAll(Filter(ns, NotInVal(valIdx)))
    ensures |s.train| + |s.val| == |Records(lines, parse, EmptyBlank)|
    ensures forall o :: o in s.train + s.val ==> IsMarked(o)
  {
    var ns := NumberedRecords(lines, parse, EmptyBlank);
    var valIdx := ValIndices(perm, |lines|);
    NumberedProcessable(lines, parse);
    RecordsAreNumbered(lines, parse, EmptyBlank);
    DistributeIsPartition(ns, valIdx);
    Distribute(ns, valIdx)
  }

  /** The numbered records are the file's records. */
  lemma NumberedProcessable(lines: seq<string>, parse: string -> Option<Json>)
    requires forall obj :: obj in Records(lines, parse, EmptyBlank) ==> Processable(obj)
    ensures forall p :: p in NumberedRecords(lines, parse, EmptyBlank) ==> Processable(p.1)
  {
    var ns := NumberedRecords(lines, parse, EmptyBlank);
    var recs := Records(lines, parse, EmptyBlank);
    RecordsAreNumbered(lines, parse, EmptyBlank);
    forall p | p in ns ensures Processable(p.1) {
      var j :| 0 <= j < |ns| && ns[j] == p;
      assert recs[j] in recs;
    }
  }

  /** `create_train_val.py` end to end. An empty file raises `SystemExit`; a
      record whose key the first pass cannot count, or whose output the second
      pass cannot strip, raises as well. Both passes see the same records: the
      first skips a blank line because `json.loads` rejects it. */
  function CreateTrainVal(lines: seq<string>, parse: string -> Option<Json>, perm: seq<nat>): (r: Outcome<Split>)
    requires IsPermutation(perm, |lines|)
    ensures r.Aborted? <==> |lines| == 0 || exists obj :: obj in Records(lines, parse, EmptyBlank) && Raises(obj, parse)
    ensures r.Done? ==> |r.value.train| + |r.value.val| == |Records(lines, parse, EmptyBlank)| <= |lines|
    ensures r.Done? ==>
              && |lines| >= 1
              && (forall p :: p in NumberedRecords(lines, parse, EmptyBlank) ==> Processable(p.1))
              && r.value.val == MarkAll(Filter(NumberedRecords(lines, parse, EmptyBlank), InVal(ValIndices(perm, |lines|))))
              && r.value.train == MarkAll(Filter(NumberedRecords(lines, parse, EmptyBlank), NotInVal(ValIndices(perm, |lines|))))
    ensures r.Done? ==> forall o :: o in r.value.train + r.value.val ==> IsMarked(o)
  {
    if |lines| == 0 then Aborted
    else if exists obj :: obj in Records(lines, parse, EmptyBlank) && Raises(obj, parse) then Aborted
    else Done(SplitRecords(lines, parse, perm))
  }

  /** Records numbered 0, 1, 2, ... send to the validation file exactly those
      whose number is in `valIdx`. */
  lemma DistributeSizes(ns: seq<(nat, Json)>, valIdx: set<nat>)
    requires forall p :: p in ns ==> Processable(p.1)
    requires forall j :: 0 <= j < |ns| ==> ns[j].0 == j
    ensures |Distribute(ns, valIdx).val| == |MembersBelow(valIdx, |ns|)|
    ensures |Distribute(ns, valIdx).train| == |ns| - |MembersBelow(valIdx, |ns|)|
  {
    DistributeIsPartition(ns, valIdx);
    CountMembers(ns, valIdx, InVal(valIdx));
  }

  lemma MembersBelowAll(s: set<nat>, n: nat)
    requires forall i :: i in s ==> i < n
    ensures MembersBelow(s, n) == s
  {
  }

  /** The sizes of the two files when every line is a record. */
  lemma SplitSizes(lines: seq<string>, parse: string -> Option<Json>, perm: seq<nat>)
    requires |lines| >= 1 && IsPermutation(perm, |lines|)
    requires forall i :: 0 <= i < |lines| ==> WellFormed(lines[i], parse, EmptyBlank)
    requires forall obj :: obj in Records(lines, parse, EmptyBlank) ==> Processable(obj)
    ensures |SplitRecords(lines, parse, perm).val| == ValSize(|lines|)
    ensures |SplitRecords(lines, parse, perm).train| == |lines| - ValSize(|lines|)
  {
    var valIdx := ValIndices(perm, |lines|);
    var n := NumberedRecords(lines, parse, EmptyBlank);
    NumberedProcessable(lines, parse);
    assert SplitRecords(lines, parse, perm) == Distribute(n, valIdx);
    NumberedAll(lines, parse, EmptyBlank);
    DistributeSizes(n, valIdx);
    MembersBelowAll(valIdx, |n|);
  }

  /** When every line is a record, nothing is lost and the validation file
      gets exactly `v` records: `written_train + written_val == total`. */
  lemma AllRecordsSplitExactly(lines: seq<string>, parse: string -> Option<Json>, perm: seq<nat>)
    requires |lines| >= 1 && IsPermutation(perm, |lines|)
    requires forall i :: 0 <= i < |lines| ==> WellFormed(lines[i], parse, EmptyBlank)
    requires forall obj :: obj in Records(lines, parse, EmptyBlank) ==> !Raises(obj, parse)
    ensures var r := CreateTrainVal(lines, parse, perm);
            && r.Done?
            && |r.value.val| == ValSize(|lines|)
            && |r.value.train| == |lines| - ValSize(|lines|)
  {
    assert CreateTrainVal(lines, parse, perm) == Done(SplitRecords(lines, parse, perm));
    SplitSizes(lines, parse, perm);
  }
}
