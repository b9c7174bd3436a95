/** `dedupe.py` (an earlier version of the per-movie filter): signatures over
    the first 300 characters, and a movie key taken only from the input's
    `movie_details`. Every line must be a JSON object. */
module Dedupe {
  import opened Base
  import opened Text
  import opened Json
  import opened Lines
  import QuotaFilter

  const CAP: nat := 1000

  /** Characters of input and of output that enter the signature. */
  const SIG_PREFIX: nat := 300

  /** `sig(inp, out)`, with SHA-256 as the oracle `hash`. */
  function Sig(hash: string -> string, inp: string, out: string): string {
    hash(PairSig(inp, out, SIG_PREFIX))
  }

  /** `md.get("title") or md.get("movie") or md.get("genre")`. */
  const MOVIE_KEYS: seq<string> := ["title", "movie", "genre"]

  const UNKNOWN: Json := JStr("UNKNOWN")

  /** The movie of a record: the first truthy of `movie_details.title`,
      `.movie`, `.genre`, else "UNKNOWN". An input that does not parse, that is
      not an object, or whose `movie_details` is not an object makes a `.get`
      raise inside the `try`, which leaves "UNKNOWN". The value is used as it
      is, not converted to a string. */
  function MovieOf(parse: string -> Option<Json>, obj: Json): (m: Json)
    ensures Truthy(m)
  {
    match parse(TextOf(obj, "input"))
    case Some(JObj(p)) =>
      var md := GetOr(p, "movie_details", JObj(map[]));
      if md.JObj? then
        match FirstTruthy(md.fields, MOVIE_KEYS)
        case Some(v) => v
        case None => UNKNOWN
      else UNKNOWN
    case _ => UNKNOWN
  }

  /** An input that does not parse groups the record under "UNKNOWN". */
  lemma UnparseableInputIsUnknown(parse: string -> Option<Json>, obj: Json)
    requires parse(TextOf(obj, "input")).None?
    ensures MovieOf(parse, obj) == UNKNOWN
  {
  }

  /** A truthy title decides the movie, whatever `movie` and `genre` say. */
  lemma TitleDecides(parse: string -> Option<Json>, obj: Json, p: map<string, Json>, md: map<string, Json>)
    requires parse(TextOf(obj, "input")) == Some(JObj(p))
    requires "movie_details" in p && p["movie_details"] == JObj(md)
    requires "title" in md && Truthy(md["title"])
    ensures MovieOf(parse, obj) == md["title"]
  {
  }

  /** What the script demands of every line: it parses (there is no `try`
      around `json.loads`) to an object whose input and output, when present,
      are strings. */
  predicate Processable(parse: string -> Option<Json>, line: string) {
    parse(line).Some? && HasTextField(parse(line).value, "input") && HasTextField(parse(line).value, "output")
  }

  function RecordSig(hash: string -> string, obj: Json): string {
    Sig(hash, TextOf(obj, "input"), TextOf(obj, "output"))
  }

  /** The signature of a record, as a function of the record. */
  function SigOf(hash: string -> string): Json -> string {
    o => RecordSig(hash, o)
  }

  /** The movie of a record, as a function of the record. */
  function KeyOf(parse: string -> Option<Json>): Json -> Json {
    o => MovieOf(parse, o)
  }

  /** A record whose movie is a list or an object: `counts[movie]` raises
      `TypeError` on such an unhashable key. */
  function Unhashable(parse: string -> Option<Json>): Json -> bool {
    o => MovieOf(parse, o).JList? || MovieOf(parse, o).JObj?
  }

  /** The script's single loop over the lines. It raises when a record with
      an unhashable movie gets past the duplicate test; otherwise it is the
      quota loop, which writes a record exactly when no record written before
      it has its signature and fewer than the cap have its movie. */
  function DedupeLines(lines: seq<string>, parse: string -> Option<Json>, hash: string -> string): (r: Outcome<QuotaFilter.Tally<Json, string, Json>>)
    requires forall i :: 0 <= i < |lines| ==> Processable(parse, lines[i])
    ensures var recs := Records(lines, parse, NoBlankCheck);
            r.Done? <==> QuotaFilter.BadOnlyAsDuplicates(recs, SigOf(hash), KeyOf(parse), CAP, Unhashable(parse))
    ensures r.Done? ==>
            var recs := Records(lines, parse, NoBlankCheck);
            var t := r.value;
            && t == QuotaFilter.Run(recs, SigOf(hash), KeyOf(parse), CAP)
            && QuotaFilter.RecordByRecord(recs, SigOf(hash), KeyOf(parse), CAP)
            && t.written == QuotaFilter.WrittenBefore(recs, |recs|, SigOf(hash), KeyOf(parse), CAP)
            && |recs| == |lines|
            && IsSubsequence(t.written, recs)
            && |t.written| + t.dups + t.capped == |lines|
            && (forall i, j :: 0 <= i < j < |t.written| ==> RecordSig(hash, t.written[i]) != RecordSig(hash, t.written[j]))
            && (forall k :: QuotaFilter.Count(t.counts, k) == QuotaFilter.KeyCount(t.written, KeyOf(parse), k) <= CAP)
  {
    var recs := Records(lines, parse, NoBlankCheck);
    forall i | 0 <= i < |lines| ensures WellFormed(lines[i], parse, NoBlankCheck) {
      assert Processable(parse, lines[i]);
      assert ParseLine(lines[i], parse, NoBlankCheck) == parse(lines[i]);
    }
    QuotaFilter.RunInvariant(recs, SigOf(hash), KeyOf(parse), CAP);
    QuotaFilter.WrittenExactlyAdmitted(recs, SigOf(hash), KeyOf(parse), CAP);
    QuotaFilter.RunChecked(recs, SigOf(hash), KeyOf(parse), CAP, Unhashable(parse))
  }

  /** Every line is a record, and record `i` is line `i`'s object. */
  lemma RecordsAreLines(lines: seq<string>, parse: string -> Option<Json>)
    requires forall i :: 0 <= i < |lines| ==> Processable(parse, lines[i])
    ensures var recs := Records(lines, parse, NoBlankCheck);
            |recs| == |lines| && forall i :: 0 <= i < |lines| ==> recs[i] == parse(lines[i]).value
  {
    forall i | 0 <= i < |lines| ensures WellFormed(lines[i], parse, NoBlankCheck) {
      assert Processable(parse, lines[i]);
    }
    RecordsOfWellFormed(lines, parse, NoBlankCheck);
  }

  /** A first line whose movie is a list raises: nothing has been seen yet. */
  lemma UnhashableFirstMovieAborts(lines: seq<string>, parse: string -> Option<Json>, hash: string -> string)
    requires forall i :: 0 <= i < |lines| ==> Processable(parse, lines[i])
    requires |lines| > 0 && parse(lines[0]).Some? && MovieOf(parse, parse(lines[0]).value).JList?
    ensures DedupeLines(lines, parse, hash).Aborted?
  {
    var recs := Records(lines, parse, NoBlankCheck);
    RecordsAreLines(lines, parse);
    assert recs[..0] == [];
    assert Unhashable(parse)(recs[0]);
  }

  /** When every movie is hashable the script never raises. */
  lemma HashableMoviesNeverAbort(lines: seq<string>, parse: string -> Option<Json>, hash: string -> string)
    requires forall i :: 0 <= i < |lines| ==> Processable(parse, lines[i]) && !Unhashable(parse)(parse(lines[i]).value)
    ensures DedupeLines(lines, parse, hash).Done?
  {
    RecordsAreLines(lines, parse);
  }
}
