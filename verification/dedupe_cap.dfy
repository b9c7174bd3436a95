/** `dedupe_and_cap_per_movie.py`: drop exact duplicates (by a hash of the
    first 400 characters of input and output) and keep at most CAP records per
    movie, where the movie comes from a fixed priority chain over the record's
    fields. */
module DedupeCap {
  import opened Base
  import opened Text
  import opened Json
  import opened Lines
  import QuotaFilter

  const CAP: nat := 1000

  /** Characters of input and of output that enter the signature. */
  const SIG_PREFIX: nat := 400

  /** The text that is hashed for a pair. */
  function SigText(inp: string, out: string): string {
    PairSig(inp, out, SIG_PREFIX)
  }

  /** `sig(inp, out)`, with SHA-256 as the oracle `hash`. */
  function Sig(hash: string -> string, inp: string, out: string): string {
    hash(SigText(inp, out))
  }

  /** Only the first 400 characters of input and output reach the
      signature: pairs that agree there are duplicates of each other. */
  lemma SigIgnoresTail(hash: string -> string, a: string, b: string, c: string, d: string)
    requires Take(a, SIG_PREFIX) == Take(c, SIG_PREFIX) && Take(b, SIG_PREFIX) == Take(d, SIG_PREFIX)
    ensures Sig(hash, a, b) == Sig(hash, c, d)
  {
    PairSigIgnoresTail(a, b, c, d, SIG_PREFIX);
  }

  /** The separator does not keep pairs apart: moving a `"||"` and what
      follows it from the end of the input to the start of the output gives a
      different pair with the same hashed text, so the two are duplicates. */
  lemma SigTextNotInjective(a: string, b: string, c: string)
    requires |a| + 2 + |b| <= SIG_PREFIX && |b| + 2 + |c| <= SIG_PREFIX
    ensures (a + "||" + b, c) != (a, b + "||" + c)
    ensures SigText(a + "||" + b, c) == SigText(a, b + "||" + c)
  {
    assert |a + "||" + b| != |a|;
    assert SigText(a + "||" + b, c) == a + "||" + b + "||" + c;
    assert SigText(a, b + "||" + c) == a + "||" + (b + "||" + c);
  }

  /** Top-level fields tried first, in this order. */
  const TOP_KEYS: seq<string> := ["source_file", "movie_title", "title", "MovieTitle", "movie"]

  /** Fields of the parsed input tried next, in this (different) order. */
  const INPUT_KEYS: seq<string> := ["movie_title", "title", "MovieTitle", "movie", "source_file"]

  /** Fields of the input's `movie_details` object tried last. */
  const DETAIL_KEYS: seq<string> := ["title", "movie_title", "name"]

  const UNKNOWN: string := "UNKNOWN_MOVIE"

  /** The `movie_details` object of a parsed input: a title-like field, else
      `__GENRE_<g>__TONE_<t>` when genre and tone are both truthy, else
      `__GENRE_<g>`. The genre forms are not stripped. */
  function FromDetails(md: map<string, Json>, render: Json -> string): Option<string> {
    match FirstTruthy(md, DETAIL_KEYS)
    case Some(v) => Some(Strip(Str(v, render)))
    case None =>
      var genre := GetOr(md, "genre", JNull);
      var tone := GetOr(md, "tone", JNull);
      if Truthy(genre) && Truthy(tone) then Some("__GENRE_" + Str(genre, render) + "__TONE_" + Str(tone, render))
      else if Truthy(genre) then Some("__GENRE_" + Str(genre, render))
      else None
  }

  /** The parsed input object: its own movie fields, then `movie_details`. */
  function FromParsedInput(p: map<string, Json>, render: Json -> string): Option<string> {
    match FirstTruthy(p, INPUT_KEYS)
    case Some(v) => Some(Strip(Str(v, render)))
    case None =>
      if "movie_details" in p && p["movie_details"].JObj? then FromDetails(p["movie_details"].fields, render)
      else None
  }

  /** The first `try` block of `extract_movie_key`. A string input that parses
      to anything but an object either raises inside the block (subscripting a
      list, string or number with a key) or finds nothing; both fall through. */
  function FromFields(obj: Json, codec: Codec): Option<string> {
    if !obj.JObj? then None
    else match FirstTruthy(obj.fields, TOP_KEYS)
      case Some(v) => Some(Strip(Str(v, codec.render)))
      case None =>
        if "input" in obj.fields && obj.fields["input"].JStr? then
          match codec.parse(obj.fields["input"].s)
          case Some(JObj(p)) => FromParsedInput(p, codec.render)
          case _ => None
        else None
  }

  /** The second `try` block: `movie_details.genre` of an input whose stripped
      text starts with `{` and parses to a non-empty object. */
  function GenreFallback(obj: Json, codec: Codec): Option<string> {
    if !obj.JObj? then None
    else
      var inp := GetOr(obj.fields, "input", JStr(""));
      if inp.JStr? && "{" <= Strip(inp.s) then
        match codec.parse(inp.s)
        case Some(JObj(p)) =>
          if |p| > 0 then
            var md := GetOr(p, "movie_details", JObj(map[]));
            if md.JObj? && Truthy(GetOr(md.fields, "genre", JNull)) then
              Some("__GENRE_" + Str(GetOr(md.fields, "genre", JNull), codec.render))
            else None
          else None
        case _ => None
      else None
  }

  /** `extract_movie_key(obj)`: never None. */
  function ExtractMovieKey(obj: Json, codec: Codec): string {
    match FromFields(obj, codec)
    case Some(k) => k
    case None =>
      match GenreFallback(obj, codec)
      case Some(k) => k
      case None => UNKNOWN
  }

  /** The second `try` block never decides anything: whenever it would find a
      genre, the first block has already returned. The key is therefore the
      first truthy candidate of the chain, or UNKNOWN_MOVIE. */
  lemma GenreFallbackIsDead(obj: Json, codec: Codec)
    ensures ExtractMovieKey(obj, codec) == (match FromFields(obj, codec) case Some(k) => k case None => UNKNOWN)
  {
  }

  /** A top-level candidate field wins over everything in the input. */
  lemma TopLevelFieldWins(m: map<string, Json>, codec: Codec, v: Json, input: Json)
    requires FirstTruthy(m, TOP_KEYS) == Some(v)
    ensures ExtractMovieKey(JObj(m), codec) == Strip(Str(v, codec.render))
    ensures ExtractMovieKey(JObj(m["input" := input]), codec) == Strip(Str(v, codec.render))
  {
    FirstTruthyIgnoresOtherKeys(m, TOP_KEYS, "input", input);
  }

  /** A falsy top-level field (an empty string, null, 0, ...) behaves exactly
      as if it were missing: the chain moves on to the next candidate. */
  lemma FalsyTopLevelFieldFallsThrough(m: map<string, Json>, codec: Codec, k: string, v: Json)
    requires k in TOP_KEYS && !Truthy(v)
    ensures ExtractMovieKey(JObj(m[k := v]), codec) == ExtractMovieKey(JObj(m - {k}), codec)
  {
    FirstTruthyIgnoresFalsy(m, TOP_KEYS, k, v);
    assert "input" != k;
    assert (m[k := v])["input" := JNull]["input"] == JNull;
    if "input" in m {
      assert (m[k := v])["input"] == (m - {k})["input"];
    } else {
      assert "input" !in m[k := v] && "input" !in m - {k};
    }
  }

  /** A record that is not an object has no movie. */
  lemma NonObjectIsUnknown(obj: Json, codec: Codec)
    requires !obj.JObj?
    ensures ExtractMovieKey(obj, codec) == UNKNOWN
  {
  }

  /** A key taken from a title-like field is stripped. */
  lemma TitleKeysAreStripped(obj: Json, codec: Codec, v: Json)
    requires obj.JObj? && FirstTruthy(obj.fields, TOP_KEYS) == Some(v)
    ensures IsStripped(ExtractMovieKey(obj, codec))
  {
  }

  /** The genre forms are built without stripping: an input whose only movie
      field is `movie_details.genre` gives that genre verbatim, trailing
      whitespace included. */
  lemma GenreKeyKeepsSpaces(codec: Codec, s: string, g: string)
    requires g != ""
    requires codec.parse(s) == Some(JObj(map["movie_details" := JObj(map["genre" := JStr(g)])]))
    ensures ExtractMovieKey(JObj(map["input" := JStr(s)]), codec) == "__GENRE_" + g
  {
    var md := map["genre" := JStr(g)];
    assert FirstTruthy(md, DETAIL_KEYS).None? by {
      assert forall i :: 0 <= i < |DETAIL_KEYS| ==> DETAIL_KEYS[i] !in md;
    }
    var p := map["movie_details" := JObj(md)];
    assert FirstTruthy(p, INPUT_KEYS).None? by {
      assert forall i :: 0 <= i < |INPUT_KEYS| ==> INPUT_KEYS[i] !in p;
    }
    var obj := map["input" := JStr(s)];
    assert FirstTruthy(obj, TOP_KEYS).None? by {
      assert forall i :: 0 <= i < |TOP_KEYS| ==> TOP_KEYS[i] !in obj;
    }
    assert "tone" !in md;
    assert FromDetails(md, codec.render) == Some("__GENRE_" + g);
  }

  /** `main` strips the key before counting, so a genre with one trailing
      space is counted without it. */
  lemma CountedGenreKeyIsStripped(codec: Codec, s: string, w: string)
    requires w != "" && !IsSpace(w[|w| - 1])
    requires codec.parse(s) == Some(JObj(map["movie_details" := JObj(map["genre" := JStr(w + " ")])]))
    ensures MovieKey(codec, JObj(map["input" := JStr(s)])) == "__GENRE_" + w
  {
    GenreKeyKeepsSpaces(codec, s, w + " ");
    var k := "__GENRE_" + w;
    assert k[0] == '_' && k[|k| - 1] == w[|w| - 1];
    assert "__GENRE_" + (w + " ") == k + " ";
    StripTrailingSpace(k);
  }

  lemma StripTrailingSpace(w: string)
    requires |w| > 0 && !IsSpace(w[0]) && !IsSpace(w[|w| - 1])
    ensures Strip(w + " ") == w
  {
    var key := w + " ";
    assert key[0] == w[0];
    assert LStrip(key) == key;
    assert key[|key| - 1] == ' ';
    assert key[..|key| - 1] == w;
    assert RStrip(key) == RStrip(w);
    assert RStrip(w) == w;
  }

  /** What the script demands of every record it parses: an object (it calls
      `obj.get`) whose input and output, when present, are strings (it slices
      and concatenates them). Anything else raises and ends the run. */
  predicate Processable(obj: Json) {
    HasTextField(obj, "input") && HasTextField(obj, "output")
  }

  /** The key the record is counted under: `extract_movie_key(obj).strip()`. */
  function MovieKey(codec: Codec, obj: Json): (k: string)
    ensures IsStripped(k)
  {
    Strip(ExtractMovieKey(obj, codec))
  }

  function RecordSig(hash: string -> string, obj: Json): string {
    Sig(hash, TextOf(obj, "input"), TextOf(obj, "output"))
  }

  /** The signature of a record, as a function of the record. */
  function SigOf(hash: string -> string): Json -> string {
    o => RecordSig(hash, o)
  }

  /** The key of a record, as a function of the record. */
  function KeyOf(codec: Codec): Json -> string {
    o => MovieKey(codec, o)
  }

  /** The accept/skip loop of `main` over the file's lines. Record `i` is
      written exactly when no record written before it has its signature and
      fewer than 1000 have its key (`QuotaFilter.RecordByRecord`); the output
      is what has been written after the last record. */
  function DedupeAndCap(lines: seq<string>, codec: Codec, hash: string -> string): (t: QuotaFilter.Tally<Json, string, string>)
    requires forall obj :: obj in Records(lines, codec.parse, StrippedBlank) ==> Processable(obj)
    ensures var recs := Records(lines, codec.parse, StrippedBlank);
            && t == QuotaFilter.Run(recs, SigOf(hash), KeyOf(codec), CAP)
            && QuotaFilter.RecordByRecord(recs, SigOf(hash), KeyOf(codec), CAP)
            && t.written == QuotaFilter.WrittenBefore(recs, |recs|, SigOf(hash), KeyOf(codec), CAP)
    ensures var recs := Records(lines, codec.parse, StrippedBlank);
            && IsSubsequence(t.written, recs)
            && |t.written| + t.dups + t.capped == |recs|
            && (forall i, j :: 0 <= i < j < |t.written| ==> RecordSig(hash, t.written[i]) != RecordSig(hash, t.written[j]))
            && (forall k :: QuotaFilter.Count(t.counts, k) == QuotaFilter.KeyCount(t.written, KeyOf(codec), k) <= CAP)
  {
    var recs := Records(lines, codec.parse, StrippedBlank);
    QuotaFilter.RunInvariant(recs, SigOf(hash), KeyOf(codec), CAP);
    QuotaFilter.WrittenExactlyAdmitted(recs, SigOf(hash), KeyOf(codec), CAP);
    QuotaFilter.Run(recs, SigOf(hash), KeyOf(codec), CAP)
  }
}
