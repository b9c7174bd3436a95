/** `validate_jsonl_dataset.py`: a read-only pass over a dataset that counts
    the records, those missing a key, those with an empty output and those
    whose signature repeats an earlier one, and keeps the first few records
    as samples. The printed medians, means and genre table are not modelled. */
module Validate {
  import opened Base
  import opened Text
  import opened Json
  import opened Lines

  /** Characters of input and of output in a signature. */
  const SIG_PREFIX: nat := 200

  /** Number of records kept as samples. */
  const SAMPLES: nat := 5

  /** What the loop demands of a record: an object (it calls `obj.get`) whose
      input and output are missing, falsy or strings (it slices `inp or ""`
      and `out or ""` and calls `out.strip()` on a truthy output). */
  predicate Processable(obj: Json) {
    HasTextOrFalsyField(obj, "input") && HasTextOrFalsyField(obj, "output")
  }

  /** `instr is None or inp is None or out is None`: a key is absent or null. */
  predicate MissingKey(obj: Json)
    requires obj.JObj?
  {
    exists k :: k in ["instruction", "input", "output"] && GetOr(obj.fields, k, JNull) == JNull
  }

  /** `not (out and out.strip())`: the output is falsy or only whitespace. */
  predicate EmptyOutput(obj: Json)
    requires Processable(obj)
  {
    var out := GetOr(obj.fields, "output", JNull);
    !Truthy(out) || (out.JStr? && Strip(out.s) == "")
  }

  /** An empty output is one that strips to nothing once read as text. */
  lemma EmptyOutputIsBlankText(obj: Json)
    requires Processable(obj)
    ensures EmptyOutput(obj) <==> Strip(TextOf(obj, "output")) == ""
  {
  }

  /** `(inp or "")[:200] + "||" + (out or "")[:200]`. */
  function Sig(obj: Json): (s: string)
    ensures |s| <= 2 * SIG_PREFIX + 2
    ensures Take(TextOf(obj, "input"), SIG_PREFIX) <= s
  {
    PairSig(TextOf(obj, "input"), TextOf(obj, "output"), SIG_PREFIX)
  }

  /** Two records whose input and output agree on their first 200 characters
      have the same signature. */
  lemma SigIgnoresTail(a: Json, b: Json)
    requires Take(TextOf(a, "input"), SIG_PREFIX) == Take(TextOf(b, "input"), SIG_PREFIX)
    requires Take(TextOf(a, "output"), SIG_PREFIX) == Take(TextOf(b, "output"), SIG_PREFIX)
    ensures Sig(a) == Sig(b)
  {
  }

  /** The signatures of the records, in order. */
  function Sigs(recs: seq<Json>): (r: seq<string>)
    ensures |r| == |recs| && forall j :: 0 <= j < |recs| ==> r[j] == Sig(recs[j])
  {
    seq(|recs|, j requires 0 <= j < |recs| => Sig(recs[j]))
  }

  /** The distinct values of `xs`. */
  function Values(xs: seq<string>): set<string> {
    set x | x in xs
  }

  /** How many elements of `xs` repeat an element before them. */
  function Repeats(xs: seq<string>): nat {
    if |xs| == 0 then 0
    else Repeats(xs[..|xs| - 1]) + (if xs[|xs| - 1] in xs[..|xs| - 1] then 1 else 0)
  }

  /** Every element is either the first of its value or a repeat. */
  lemma {:induction false} RepeatsPlusValues(xs: seq<string>)
    ensures Repeats(xs) + |Values(xs)| == |xs|
  {
    if |xs| > 0 {
      var init := xs[..|xs| - 1];
      var x := xs[|xs| - 1];
      RepeatsPlusValues(init);
      assert Values(xs) == Values(init) + {x};
      if x in init {
        assert x in Values(init);
        assert Values(xs) == Values(init);
        assert Repeats(xs) == Repeats(init) + 1;
      } else {
        assert x !in Values(init);
        assert |Values(xs)| == |Values(init)| + 1;
        assert Repeats(xs) == Repeats(init);
      }
    }
  }

  /** No element repeats exactly when the elements are pairwise distinct. */
  lemma {:induction false} NoRepeatsIffDistinct(xs: seq<string>)
    ensures Repeats(xs) == 0 <==> Distinct(xs)
  {
    if |xs| > 0 {
      var init := xs[..|xs| - 1];
      var x := xs[|xs| - 1];
      NoRepeatsIffDistinct(init);
      if Distinct(xs) {
        assert Distinct(init) by {
          forall i, j | 0 <= i < j < |init| ensures init[i] != init[j] {
            assert init[i] == xs[i] && init[j] == xs[j];
          }
        }
        assert x !in init by {
          forall i | 0 <= i < |init| ensures init[i] != x {
            assert init[i] == xs[i];
          }
        }
      }
      if Repeats(xs) == 0 {
        forall i, j | 0 <= i < j < |xs| ensures xs[i] != xs[j] {
          if j < |init| {
            assert init[i] == xs[i] && init[j] == xs[j];
          } else {
            assert init[i] == xs[i];
          }
        }
      }
    }
  }

  /** The counters of the loop, the signature set and the samples. */
  datatype Report = Report(count: nat, missingKeys: nat, emptyOutputs: nat, seen: set<string>, dupeCount: nat, samples: seq<Json>)

  /** One record of the loop. */
  function Step(rep: Report, obj: Json): Report
    requires Processable(obj)
  {
    var sig := Sig(obj);
    Report(
      rep.count + 1,
      rep.missingKeys + (if MissingKey(obj) then 1 else 0),
      rep.emptyOutputs + (if EmptyOutput(obj) then 1 else 0),
      rep.seen + {sig},
      rep.dupeCount + (if sig in rep.seen then 1 else 0),
      if |rep.samples| < SAMPLES then rep.samples + [obj] else rep.samples)
  }

  /** Every record is one the loop can handle. */
  predicate AllProcessable(recs: seq<Json>) {
    forall j :: 0 <= j < |recs| ==> Processable(recs[j])
  }

  /** The loop over the records, in file order. */
  function Run(recs: seq<Json>): Report
    requires AllProcessable(recs)
  {
    if |recs| == 0 then Report(0, 0, 0, {}, 0, [])
    else Step(Run(recs[..|recs| - 1]), recs[|recs| - 1])
  }

  /** A record counted under `missing_keys`. */
  predicate CountsMissing(o: Json) {
    o.JObj? && MissingKey(o)
  }

  /** A record counted under `empty_outputs`. */
  predicate CountsEmpty(o: Json) {
    Processable(o) && EmptyOutput(o)
  }

  /** The three counters of a report, described on their own terms. */
  predicate CountsDescribe(recs: seq<Json>, rep: Report) {
    && rep.count == |recs|
    && rep.missingKeys == CountIf(recs, CountsMissing)
    && rep.emptyOutputs == CountIf(recs, CountsEmpty)
  }

  /** The signature set and the duplicate counter of a report. */
  predicate SigsDescribe(recs: seq<Json>, rep: Report) {
    rep.seen == Values(Sigs(recs)) && rep.dupeCount == Repeats(Sigs(recs))
  }

  /** The report of a run, each field described on its own terms. */
  predicate Describes(recs: seq<Json>, rep: Report) {
    && CountsDescribe(recs, rep)
    && SigsDescribe(recs, rep)
    && rep.samples == recs[..Min(SAMPLES, |recs|)]
  }

  lemma SigsSnoc(recs: seq<Json>, x: Json)
    ensures Sigs(recs + [x]) == Sigs(recs) + [Sig(x)]
  {
  }

  lemma RepeatsSnoc(xs: seq<string>, y: string)
    ensures Repeats(xs + [y]) == Repeats(xs) + (if y in Values(xs) then 1 else 0)
  {
    assert (xs + [y])[..|xs|] == xs;
  }

  lemma ValuesSnoc(xs: seq<string>, y: string)
    ensures Values(xs + [y]) == Values(xs) + {y}
  {
  }

  lemma SamplesSnoc(recs: seq<Json>, x: Json)
    ensures (recs + [x])[..Min(SAMPLES, |recs| + 1)]
            == if |recs| < SAMPLES then recs + [x] else recs[..SAMPLES]
  {
    if |recs| < SAMPLES {
      assert (recs + [x])[..|recs| + 1] == recs + [x];
    } else {
      assert (recs + [x])[..SAMPLES] == recs[..SAMPLES];
    }
  }

  /** One step keeps the counters. */
  lemma StepCounts(recs: seq<Json>, x: Json, rep: Report)
    requires Processable(x) && CountsDescribe(recs, rep)
    ensures CountsDescribe(recs + [x], Step(rep, x))
  {
    CountIfSnoc(recs, x, CountsMissing);
    CountIfSnoc(recs, x, CountsEmpty);
  }

  /** One step keeps the signature set and the duplicate counter. */
  lemma StepSigs(recs: seq<Json>, x: Json, rep: Report)
    requires Processable(x) && SigsDescribe(recs, rep)
    ensures SigsDescribe(recs + [x], Step(rep, x))
  {
    SigsSnoc(recs, x);
    RepeatsSnoc(Sigs(recs), Sig(x));
    ValuesSnoc(Sigs(recs), Sig(x));
  }

  /** One step keeps the samples. */
  lemma StepSamples(recs: seq<Json>, x: Json, rep: Report)
    requires Processable(x) && rep.samples == recs[..Min(SAMPLES, |recs|)]
    ensures Step(rep, x).samples == (recs + [x])[..Min(SAMPLES, |recs| + 1)]
  {
    SamplesSnoc(recs, x);
  }

  /** One step keeps the report describing the records read so far. */
  lemma StepDescribes(recs: seq<Json>, x: Json, rep: Report)
    requires Processable(x) && Describes(recs, rep)
    ensures Describes(recs + [x], Step(rep, x))
  {
    StepCounts(recs, x, rep);
    StepSigs(recs, x, rep);
    StepSamples(recs, x, rep);
  }

  lemma {:induction false} RunDescribes(recs: seq<Json>)
    requires AllProcessable(recs)
    ensures Describes(recs, Run(recs))
    decreases |recs|
  {
    if |recs| > 0 {
      var init := recs[..|recs| - 1];
      var x := recs[|recs| - 1];
      assert recs == init + [x];
      RunDescribes(init);
      StepDescribes(init, x, Run(init));
    }
  }

  /** A non-blank line on which `json.loads` raises something other than
      `JSONDecodeError` (a `RecursionError` on deep nesting, a `ValueError` on
      an over-long integer literal): the `except` does not catch it. The
      oracle `fatal` tells which stripped lines those are. */
  predicate FatalLine(line: string, fatal: string -> bool) {
    Strip(line) != "" && fatal(Strip(line))
  }

  /** A sample the closing report can print: `s.get("input")[:180]` and
      `s.get("output")[:180]` followed by `.replace` need both fields present
      and strings. */
  predicate Printable(obj: Json) {
    && obj.JObj?
    && "input" in obj.fields && obj.fields["input"].JStr?
    && "output" in obj.fields && obj.fields["output"].JStr?
  }

  /** The first records, kept as samples, can all be printed. */
  predicate SamplesPrintable(recs: seq<Json>) {
    forall j :: 0 <= j < Min(SAMPLES, |recs|) ==> Printable(recs[j])
  }

  /** The kept samples can be printed exactly when the first records can. */
  lemma SamplesArePrefix(recs: seq<Json>, samples: seq<Json>)
    requires samples == recs[..Min(SAMPLES, |recs|)]
    ensures SamplesPrintable(samples) <==> SamplesPrintable(recs)
  {
    assert forall j :: 0 <= j < |samples| ==> samples[j] == recs[j];
  }

  /** Some non-blank line makes `json.loads` raise past the `except`. */
  predicate HasFatalLine(lines: seq<string>, fatal: string -> bool) {
    exists i :: 0 <= i < |lines| && FatalLine(lines[i], fatal)
  }

  /** `validate_jsonl_dataset.py` over a file's lines. It raises on a line
      whose parse error is not a `JSONDecodeError`, on a record the loop cannot
      handle, and, after the counters are printed, on a sample it cannot
      preview. */
  function ValidateFile(lines: seq<string>, parse: string -> Option<Json>, fatal: string -> bool): (r: Outcome<Report>)
    ensures var recs := Records(lines, parse, StrippedBlank);
            r.Aborted? <==> HasFatalLine(lines, fatal) || !AllProcessable(recs) || !SamplesPrintable(recs)
    ensures r.Done? ==> Describes(Records(lines, parse, StrippedBlank), r.value)
  {
    var recs := Records(lines, parse, StrippedBlank);
    if HasFatalLine(lines, fatal) || !AllProcessable(recs) then Aborted
    else
      RunDescribes(recs);
      SamplesArePrefix(recs, Run(recs).samples);
      if !SamplesPrintable(Run(recs).samples) then Aborted
      else Done(Run(recs))
  }

  /** A file whose first record has no input raises when the samples are
      printed, even though the loop itself counts it as missing a key. */
  lemma SampleWithoutInputAborts(lines: seq<string>, parse: string -> Option<Json>, fatal: string -> bool)
    requires |Records(lines, parse, StrippedBlank)| > 0
    requires Records(lines, parse, StrippedBlank)[0].JObj? && "input" !in Records(lines, parse, StrippedBlank)[0].fields
    ensures ValidateFile(lines, parse, fatal).Aborted?
    ensures CountsMissing(Records(lines, parse, StrippedBlank)[0])
  {
    var recs := Records(lines, parse, StrippedBlank);
    assert !SamplesPrintable(recs) by {
      assert !Printable(recs[0]);
    }
    MissingInputIsMissingKey(recs[0]);
  }

  /** An object without an input is missing a key. */
  lemma MissingInputIsMissingKey(obj: Json)
    requires obj.JObj? && "input" !in obj.fields
    ensures MissingKey(obj)
  {
    var keys := ["instruction", "input", "output"];
    assert keys[1] in keys && GetOr(obj.fields, keys[1], JNull) == JNull;
  }

  /** A file with no fatal line whose records all carry string input and
      output never raises. */
  lemma TextRecordsValidate(lines: seq<string>, parse: string -> Option<Json>, fatal: string -> bool)
    requires forall i :: 0 <= i < |lines| ==> !FatalLine(lines[i], fatal)
    requires forall j :: 0 <= j < |Records(lines, parse, StrippedBlank)| ==> Printable(Records(lines, parse, StrippedBlank)[j])
    ensures ValidateFile(lines, parse, fatal).Done?
  {
    var recs := Records(lines, parse, StrippedBlank);
    assert AllProcessable(recs);
  }

  /** `count` is the number of non-blank lines that parse; every record is
      either the first with its signature or a duplicate; and no duplicate is
      reported exactly when all signatures differ. */
  lemma ReportCounts(lines: seq<string>, parse: string -> Option<Json>, fatal: string -> bool)
    requires ValidateFile(lines, parse, fatal).Done?
    ensures var rep := ValidateFile(lines, parse, fatal).value;
            && rep.count == CountIf(lines, l => WellFormed(l, parse, StrippedBlank))
            && rep.dupeCount + |rep.seen| == rep.count
            && (rep.dupeCount == 0 <==> Distinct(Sigs(Records(lines, parse, StrippedBlank))))
            && rep.missingKeys <= rep.count && rep.emptyOutputs <= rep.count
  {
    var recs := Records(lines, parse, StrippedBlank);
    RepeatsPlusValues(Sigs(recs));
    NoRepeatsIffDistinct(Sigs(recs));
  }
}
