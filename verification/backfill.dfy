/** `backfill.py`: find, for every record, the raw script its output was
    taken from (by a case-insensitive substring search, with a fuzzy match on
    file names as a last resort), and record that file in the record. The
    fuzzy matcher (`difflib.get_close_matches`) is an oracle. */
module Backfill {
  import opened Base
  import opened Text
  import opened Json
  import opened Lines

  /** A raw script: its file name and its text. */
  datatype RawFile = RawFile(name: string, text: string)

  /** `file_texts`: every file with its text lower-cased, in listing order. */
  function Index(files: seq<RawFile>): (r: seq<RawFile>)
    ensures |r| == |files|
    ensures forall i :: 0 <= i < |files| ==> r[i] == RawFile(files[i].name, Lower(files[i].text))
  {
    seq(|files|, i requires 0 <= i < |files| => RawFile(files[i].name, Lower(files[i].text)))
  }

  /** `list(file_texts.keys())`. */
  function Names(files: seq<RawFile>): (r: seq<string>)
    ensures |r| == |files| && forall i :: 0 <= i < |files| ==> r[i] == files[i].name
  {
    seq(|files|, i requires 0 <= i < |files| => files[i].name)
  }

  /** The first file whose text contains `s`. */
  function FirstContaining(files: seq<RawFile>, s: string): (r: Option<nat>)
    ensures r.Some? ==> r.value < |files| && Contains(files[r.value].text, s)
    ensures r.Some? ==> forall j :: 0 <= j < r.value ==> !Contains(files[j].text, s)
    ensures r.None? ==> forall j :: 0 <= j < |files| ==> !Contains(files[j].text, s)
  {
    if |files| == 0 then None
    else if Contains(files[0].text, s) then Some(0)
    else
      match FirstContaining(files[1..], s)
      case None => None
      case Some(i) => Some(i + 1)
  }

  /** The fuzzy matcher: a prefix of the candidate and the file names give at
      most one name. */
  type Fuzzy = (string, seq<string>) -> Option<string>

  /** Characters of the candidate the fuzzy matcher sees. */
  const FUZZY_PREFIX: nat := 50

  /** `find_file_by_substring(substr)` over the lower-cased texts. */
  function FindFile(texts: seq<RawFile>, substr: string, fuzzy: Fuzzy): (r: Option<string>)
    ensures FirstContaining(texts, Lower(substr)).Some? ==>
              r == Some(texts[FirstContaining(texts, Lower(substr)).value].name)
    ensures FirstContaining(texts, Lower(substr)).None? ==>
              r == fuzzy(Take(substr, FUZZY_PREFIX), Names(texts))
  {
    match FirstContaining(texts, Lower(substr))
    case Some(i) => Some(texts[i].name)
    case None => fuzzy(Take(substr, FUZZY_PREFIX), Names(texts))
  }

  /** The fuzzy matcher decides nothing when some file contains the candidate. */
  lemma FuzzyOnlyAsFallback(texts: seq<RawFile>, substr: string, f1: Fuzzy, f2: Fuzzy, i: nat)
    requires i < |texts| && Contains(texts[i].text, Lower(substr))
    ensures FindFile(texts, substr, f1) == FindFile(texts, substr, f2)
    ensures FindFile(texts, substr, f1).Some?
  {
  }

  /** Lower-casing preserves an occurrence. */
  lemma LowerKeepsOccurrence(text: string, sub: string, k: nat)
    requires k + |sub| <= |text| && Lower(text[k..k + |sub|]) == Lower(sub)
    ensures OccursAt(Lower(text), Lower(sub), k)
  {
    assert Lower(text)[k..k + |sub|] == Lower(text[k..k + |sub|]);
  }

  /** The search ignores letter case: a file whose raw text holds the
      candidate in any mix of cases is found, or an earlier file is. */
  lemma FindsIgnoringCase(files: seq<RawFile>, substr: string, fuzzy: Fuzzy, i: nat, k: nat)
    requires i < |files| && k + |substr| <= |files[i].text|
    requires Lower(files[i].text[k..k + |substr|]) == Lower(substr)
    ensures var texts := Index(files);
            var r := FirstContaining(texts, Lower(substr));
            && r.Some? && r.value <= i
            && FindFile(texts, substr, fuzzy) == Some(files[r.value].name)
  {
    var texts := Index(files);
    LowerKeepsOccurrence(files[i].text, substr, k);
    assert Contains(texts[i].text, Lower(substr));
  }

  /** The prefix put in front of an input that is not JSON. The stem is
      inserted as it is, without JSON escaping. */
  function TitlePrefix(stem: string): string {
    "{\"movie_title\":\"" + stem + "\", \"previous_scene\":\"\"}"
  }

  /** `inject_source(obj, fname)`. `json.loads` of an input that is not a
      string raises `TypeError`, which is caught, and then the fallback's
      `str + input` raises again, uncaught. */
  function InjectSource(obj: Json, fname: string, codec: Codec): (r: Outcome<Json>)
    requires obj.JObj?
    ensures r.Aborted? <==> !HasTextField(obj, "input")
    ensures r.Done? ==> r.value.JObj? && obj.fields.Keys + {"source_file"} <= r.value.fields.Keys <= obj.fields.Keys + {"source_file", "input"}
    ensures r.Done? ==> r.value.fields["source_file"] == JStr(fname)
    ensures r.Done? ==> forall k :: k in obj.fields && k != "source_file" && k != "input" ==> r.value.fields[k] == obj.fields[k]
    ensures HasTextField(obj, "input") && codec.parse(TextOf(obj, "input")).None? ==>
              r == Done(JObj(obj.fields["source_file" := JStr(fname)]["input" := JStr(TitlePrefix(Stem(fname)) + TextOf(obj, "input"))]))
  {
    var fields := obj.fields["source_file" := JStr(fname)];
    var input := GetOr(fields, "input", JStr(""));
    if !input.JStr? then Aborted
    else
      match codec.parse(input.s)
      case None => Done(JObj(fields["input" := JStr(TitlePrefix(Stem(fname)) + input.s)]))
      case Some(JObj(p)) =>
        if Truthy(GetOr(p, "movie_title", JNull)) then Done(JObj(fields))
        else Done(JObj(fields["input" := JStr(codec.dump(JObj(p["movie_title" := JStr(Stem(fname))])))]))
      case Some(_) => Done(JObj(fields))
  }

  /** A missing input is read as "", which `json.loads` rejects, so it falls
      to the fallback and becomes the bare title prefix. */
  lemma MissingInputGetsPrefix(obj: Json, fname: string, codec: Codec)
    requires obj.JObj? && "input" !in obj.fields && codec.parse("").None?
    ensures InjectSource(obj, fname, codec) == Done(JObj(obj.fields["source_file" := JStr(fname)]["input" := JStr(TitlePrefix(Stem(fname)))]))
  {
    assert TitlePrefix(Stem(fname)) + "" == TitlePrefix(Stem(fname));
  }

  /** A truthy `movie_title` in the input, or an input that is JSON but not an
      object, is never touched: only `source_file` changes. */
  lemma ExistingTitleKept(obj: Json, fname: string, codec: Codec)
    requires obj.JObj? && "input" in obj.fields && obj.fields["input"].JStr?
    requires match codec.parse(obj.fields["input"].s)
             case Some(JObj(p)) => Truthy(GetOr(p, "movie_title", JNull))
             case Some(_) => true
             case None => false
    ensures InjectSource(obj, fname, codec) == Done(JObj(obj.fields["source_file" := JStr(fname)]))
  {
  }

  /** An object input without a title gets the file's stem as its title, and
      when `json.dumps` and `json.loads` round-trip, reading the new input back
      gives the same object with that title. */
  lemma MissingTitleFilledFromFileName(obj: Json, fname: string, codec: Codec, p: map<string, Json>)
    requires obj.JObj? && "input" in obj.fields && obj.fields["input"].JStr?
    requires codec.parse(obj.fields["input"].s) == Some(JObj(p))
    requires !Truthy(GetOr(p, "movie_title", JNull))
    requires var q := JObj(p["movie_title" := JStr(Stem(fname))]); codec.parse(codec.dump(q)) == Some(q)
    ensures var r := InjectSource(obj, fname, codec);
            && r.Done? && r.value.fields["input"].JStr?
            && codec.parse(r.value.fields["input"].s) == Some(JObj(p["movie_title" := JStr(Stem(fname))]))
  {
  }

  /** For an object input, injecting the same file twice changes nothing more
      than injecting it once, provided `json.loads` reads back what
      `json.dumps` wrote and the stem is not empty. */
  lemma InjectObjectIdempotent(obj: Json, fname: string, codec: Codec, p: map<string, Json>)
    requires obj.JObj? && "input" in obj.fields && obj.fields["input"].JStr?
    requires codec.parse(obj.fields["input"].s) == Some(JObj(p))
    requires Stem(fname) != ""
    requires var q := JObj(p["movie_title" := JStr(Stem(fname))]); codec.parse(codec.dump(q)) == Some(q)
    ensures var once := InjectSource(obj, fname, codec);
            && once.Done? && once.value.JObj?
            && InjectSource(once.value, fname, codec) == once
  {
    var once := InjectSource(obj, fname, codec).value;
    var fields := obj.fields["source_file" := JStr(fname)];
    if Truthy(GetOr(p, "movie_title", JNull)) {
      assert once == JObj(fields);
      assert fields["source_file" := JStr(fname)] == fields;
    } else {
      var q := p["movie_title" := JStr(Stem(fname))];
      assert Truthy(GetOr(q, "movie_title", JNull));
      assert once.fields["source_file" := JStr(fname)] == once.fields;
    }
  }

  /** The counters and the records written. */
  datatype Tally = Tally(found: nat, notFound: nat, out: seq<Json>)

  /** What the loop demands of a record before searching: an object (it calls
      `obj.get`) whose output is missing or a string (it calls `.strip()`). */
  predicate Searchable(obj: Json) {
    HasTextField(obj, "output")
  }

  /** The search parameters: the lower-cased texts, the fuzzy matcher and the
      candidate length `--substr_len`. */
  datatype Search = Search(texts: seq<RawFile>, fuzzy: Fuzzy, substrLen: int)

  /** The file a record is attributed to, if any. A blank output is never
      searched; otherwise the candidate is the stripped output cut to
      `--substr_len` characters (a negative length drops characters from the
      end, as a Python slice does), and a search that finds nothing or an
      empty name attributes nothing. */
  function SourceOf(obj: Json, search: Search): (r: Option<string>)
    requires Searchable(obj)
    ensures r.Some? ==> r.value != ""
    ensures Strip(TextOf(obj, "output")) == "" ==> r.None?
    ensures var outtext := Strip(TextOf(obj, "output"));
            var f := FindFile(search.texts, Take(outtext, search.substrLen), search.fuzzy);
            && (r.Some? <==> outtext != "" && f.Some? && f.value != "")
            && (r.Some? ==> r == f)
  {
    var outtext := Strip(TextOf(obj, "output"));
    if outtext == "" then None
    else
      match FindFile(search.texts, Take(outtext, search.substrLen), search.fuzzy)
      case Some(f) => if f != "" then Some(f) else None
      case None => None
  }

  /** One record of the loop. */
  function Step(t: Tally, obj: Json, search: Search, codec: Codec): Outcome<Tally> {
    if !Searchable(obj) then Aborted
    else
      match SourceOf(obj, search)
      case None => Done(t.(notFound := t.notFound + 1, out := t.out + [obj]))
      case Some(f) =>
        match InjectSource(obj, f, codec)
        case Aborted => Aborted
        case Done(o) => Done(t.(found := t.found + 1, out := t.out + [o]))
  }

  /** The loop over the records, in file order. */
  function Run(recs: seq<Json>, search: Search, codec: Codec): Outcome<Tally> {
    if |recs| == 0 then Done(Tally(0, 0, []))
    else
      match Run(recs[..|recs| - 1], search, codec)
      case Aborted => Aborted
      case Done(t) => Step(t, recs[|recs| - 1], search, codec)
  }

  /** A record the loop raises on: one that is not an object with a missing or
      string output, or one attributed to a file whose input is neither
      missing nor a string. */
  predicate Fails(obj: Json, search: Search) {
    !Searchable(obj) || (SourceOf(obj, search).Some? && !HasTextField(obj, "input"))
  }

  /** `Fails` as a test on one record. */
  function Failing(search: Search): Json -> bool {
    obj => Fails(obj, search)
  }

  /** The records that count as found. */
  function HasSource(search: Search): Json -> bool {
    obj => Searchable(obj) && SourceOf(obj, search).Some?
  }

  /** `o` is `obj` with `source_file` set to `f` and at most its input
      rewritten. */
  predicate Attributed(obj: Json, f: string, o: Json) {
    && obj.JObj? && o.JObj?
    && "source_file" in o.fields && o.fields["source_file"] == JStr(f)
    && obj.fields.Keys <= o.fields.Keys <= obj.fields.Keys + {"source_file", "input"}
    && forall k :: k in obj.fields && k != "source_file" && k != "input" ==> o.fields[k] == obj.fields[k]
  }

  /** How a record is written: unchanged when no file is found for it, and as
      `inject_source` leaves it otherwise. */
  predicate WrittenAs(obj: Json, search: Search, codec: Codec, o: Json) {
    && Searchable(obj)
    && match SourceOf(obj, search)
       case None => o == obj
       case Some(f) => InjectSource(obj, f, codec) == Done(o)
  }

  /** A record written with a file found for it is attributed to that file. */
  lemma WrittenIsAttributed(obj: Json, search: Search, codec: Codec, o: Json)
    requires WrittenAs(obj, search, codec, o) && SourceOf(obj, search).Some?
    ensures Attributed(obj, SourceOf(obj, search).value, o)
  {
  }

  /** What the loop keeps true: one written record per record read, in order,
      each written as `WrittenAs` says; `found` counts the records with a
      source and `not_found` the others. */
  predicate RunInv(recs: seq<Json>, search: Search, codec: Codec, t: Tally) {
    && Pairwise(recs, t.out, Written(search, codec))
    && t.found == CountIf(recs, HasSource(search))
    && t.notFound == |recs| - t.found
  }

  /** One record either raises, exactly when it `Fails`, or adds one written
      record and one count to `found` when it has a source and to `not_found`
      otherwise. */
  lemma StepWrites(t: Tally, obj: Json, search: Search, codec: Codec)
    ensures Step(t, obj, search, codec).Aborted? <==> Fails(obj, search)
    ensures var s := Step(t, obj, search, codec);
            s.Done? ==>
              && s.value.out == t.out + [s.value.out[|t.out|]]
              && s.value.found == t.found + (if HasSource(search)(obj) then 1 else 0)
              && s.value.notFound == t.notFound + (if HasSource(search)(obj) then 0 else 1)
              && WrittenAs(obj, search, codec, s.value.out[|t.out|])
  {
  }

  /** `WrittenAs` as a relation between a record read and a record written. */
  function Written(search: Search, codec: Codec): (Json, Json) -> bool {
    (obj, o) => WrittenAs(obj, search, codec, o)
  }

  /** Writing the last record as `WrittenAs` says, after the others, keeps the
      invariant. */
  lemma RunInvSnoc(recs: seq<Json>, search: Search, codec: Codec, t: Tally, t': Tally)
    requires |recs| > 0 && RunInv(recs[..|recs| - 1], search, codec, t)
    requires |t'.out| == |t.out| + 1 && t'.out[..|t.out|] == t.out
    requires t'.found == t.found + (if HasSource(search)(recs[|recs| - 1]) then 1 else 0)
    requires t'.notFound == t.notFound + (if HasSource(search)(recs[|recs| - 1]) then 0 else 1)
    requires Written(search, codec)(recs[|recs| - 1], t'.out[|t.out|])
    ensures RunInv(recs, search, codec, t')
  {
    FoundSnoc(recs, search);
    PairwiseSnoc(recs, t'.out, Written(search, codec));
  }

  /** Counting the records with a source over one more record. */
  lemma FoundSnoc(recs: seq<Json>, search: Search)
    requires |recs| > 0
    ensures CountIf(recs, HasSource(search))
         == CountIf(recs[..|recs| - 1], HasSource(search)) + (if HasSource(search)(recs[|recs| - 1]) then 1 else 0)
  {
  }

  /** The loop raises exactly when some record `Fails`. */
  lemma {:induction false} RunAbortsIff(recs: seq<Json>, search: Search, codec: Codec)
    ensures Run(recs, search, codec).Aborted? <==> Any(recs, Failing(search))
    decreases |recs|
  {
    if |recs| > 0 {
      var init := recs[..|recs| - 1];
      RunAbortsIff(init, search, codec);
      AnySnoc(recs, Failing(search));
      if Run(init, search, codec).Done? {
        StepWrites(Run(init, search, codec).value, recs[|recs| - 1], search, codec);
      }
    }
  }

  /** A loop that does not raise ends in a tally that satisfies `RunInv`. */
  lemma {:induction false} RunKeepsInv(recs: seq<Json>, search: Search, codec: Codec)
    requires Run(recs, search, codec).Done?
    ensures RunInv(recs, search, codec, Run(recs, search, codec).value)
    decreases |recs|
  {
    if |recs| > 0 {
      var init := recs[..|recs| - 1];
      var x := recs[|recs| - 1];
      assert Run(init, search, codec).Done?;
      RunKeepsInv(init, search, codec);
      var t0 := Run(init, search, codec).value;
      assert Run(recs, search, codec) == Step(t0, x, search, codec);
      StepWrites(t0, x, search, codec);
      var t := Run(recs, search, codec).value;
      assert t.out[..|t0.out|] == t0.out;
      RunInvSnoc(recs, search, codec, t0, t);
    }
  }

  /** `backfill.py` over a file. The run raises exactly when some record
      `Fails`. Otherwise every line that parses is written exactly once, in
      order: unchanged when no file is found for it (always so for a blank
      output), and as `inject_source` leaves it, attributed to the file found,
      when one is; `found` counts the records with a source and `not_found`
      the rest. */
  function BackfillFile(lines: seq<string>, search: Search, codec: Codec): (r: Outcome<Tally>)
    ensures var recs := Records(lines, codec.parse, NoBlankCheck);
            r.Aborted? <==> Any(recs, Failing(search))
    ensures var recs := Records(lines, codec.parse, NoBlankCheck);
            r.Done? ==>
              && |r.value.out| == |recs|
              && r.value.found == CountIf(recs, HasSource(search))
              && r.value.notFound == |recs| - r.value.found
              && (forall j :: 0 <= j < |recs| ==> WrittenAs(recs[j], search, codec, r.value.out[j]))
              && (forall j :: 0 <= j < |recs| && Strip(TextOf(recs[j], "output")) == "" ==>
                    !HasSource(search)(recs[j]) && r.value.out[j] == recs[j])
  {
    var recs := Records(lines, codec.parse, NoBlankCheck);
    RunAbortsIff(recs, search, codec);
    if Run(recs, search, codec).Done? then
      RunKeepsInv(recs, search, codec);
      Run(recs, search, codec)
    else
      Aborted
  }
}
