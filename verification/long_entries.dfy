/** `long_entries.py`: measure every record's input and output in tokens,
    report the longest ones, and rewrite the file so that a record over the
    budget is either cut into paragraph records or has its output truncated
    to fit. The tokenizer is an oracle. */
module LongEntries {
  import opened Base
  import opened Text
  import opened Json
  import opened Lines
  import opened ParagraphSplit
  import TopK

  /** The tokenizer: `encode` is `tokenizer(text)["input_ids"]` and `decode` is
      `tokenizer.decode(ids)`; None stands for an exception. */
  datatype Tokenizer = Tokenizer(encode: string -> Option<seq<int>>, decode: seq<int> -> Option<string>)

  /** `token_length_of`: the token count, or a quarter of the character count
      (at least 1) when the tokenizer raises. */
  function TokenLength(tok: Tokenizer, text: string): (n: nat)
    ensures tok.encode(text).Some? ==> n == |tok.encode(text).value|
    ensures tok.encode(text).None? ==> 1 <= n && (n == 1 || 4 * n <= |text| < 4 * n + 4)
  {
    match tok.encode(text)
    case Some(ids) => |ids|
    case None => Max(1, |text| / 4)
  }

  /** The fallback estimate is never 0, so only a tokenizer that succeeds can
      report an empty text. */
  lemma TokenLengthZeroOnlyWhenEncoded(tok: Tokenizer, text: string)
    requires TokenLength(tok, text) == 0
    ensures tok.encode(text) == Some([])
  {
  }

  /** The output tokens left once the input and one separator token are
      counted, or None when encoding the input raises. */
  function Budget(tok: Tokenizer, input: string, maxTokens: int): (b: Option<int>)
    ensures b.Some? <==> tok.encode(input).Some?
    ensures b.Some? ==> b.value + |tok.encode(input).value| + 1 == maxTokens
  {
    match tok.encode(input)
    case None => None
    case Some(ids) => Some(maxTokens - |ids| - 1)
  }

  /** A budget this small is not worth using for tokens. */
  const MIN_BUDGET: int := 20

  /** Characters kept when the budget is too small. */
  const SHORT_PREFIX: nat := 1000

  /** `truncate_output_tokenwise`. The tokenizer calls outside the `try` are
      not guarded, so their exceptions abort the run. */
  function TruncateOutput(tok: Tokenizer, input: string, output: string, maxTokens: int): (r: Outcome<string>)
    ensures r.Aborted? <==> (match Budget(tok, input, maxTokens)
                             case None => true
                             case Some(b) => b > MIN_BUDGET && tok.encode(output).None?)
    ensures Budget(tok, input, maxTokens).Some? && Budget(tok, input, maxTokens).value <= MIN_BUDGET
            ==> r == Done(Take(output, SHORT_PREFIX))
    ensures (r.Done? && Budget(tok, input, maxTokens).value > MIN_BUDGET
             && |tok.encode(output).value| <= Budget(tok, input, maxTokens).value) ==> r == Done(output)
  {
    match Budget(tok, input, maxTokens)
    case None => Aborted
    case Some(allowed) =>
      if allowed <= MIN_BUDGET then Done(Take(output, SHORT_PREFIX))
      else
        match tok.encode(output)
        case None => Aborted
        case Some(outIds) =>
          if |outIds| <= allowed then Done(output)
          else
            match tok.decode(outIds[..allowed])
            case Some(t) => Done(t)
            case None => Done(Take(output, Max(SHORT_PREFIX, allowed * 2)))
  }

  /** Decoding `ids` gives a text that encodes back into no more tokens. This is
      what the tokenizer must do for a truncated output to fit; the script
      takes it for granted. */
  predicate ReEncodesWithin(tok: Tokenizer, ids: seq<int>) {
    tok.decode(ids).Some? ==>
      tok.encode(tok.decode(ids).value).Some? && |tok.encode(tok.decode(ids).value).value| <= |ids|
  }

  /** Input and output together fit into `maxTokens`, counting one separator. */
  predicate Fits(tok: Tokenizer, input: string, output: string, maxTokens: int) {
    && tok.encode(input).Some? && tok.encode(output).Some?
    && |tok.encode(input).value| + |tok.encode(output).value| + 1 <= maxTokens
  }

  /** When the budget is usable and the tokenizer re-encodes decoded text
      within its length, the truncated output fits the budget, unless decoding
      raised and the character fallback was taken. */
  lemma TruncatedOutputFits(tok: Tokenizer, input: string, output: string, maxTokens: int)
    requires Budget(tok, input, maxTokens).Some? && Budget(tok, input, maxTokens).value > MIN_BUDGET
    requires tok.encode(output).Some?
    requires forall n :: 0 <= n <= |tok.encode(output).value| ==> ReEncodesWithin(tok, tok.encode(output).value[..n])
    ensures var r := TruncateOutput(tok, input, output, maxTokens);
            && r.Done?
            && (Fits(tok, input, r.value, maxTokens)
                || tok.decode(tok.encode(output).value[..Budget(tok, input, maxTokens).value]).None?)
  {
    var allowed := Budget(tok, input, maxTokens).value;
    var outIds := tok.encode(output).value;
    if |outIds| > allowed {
      assert ReEncodesWithin(tok, outIds[..allowed]);
    }
  }

  /** Truncation is a fixpoint: a truncated output is left alone when it is
      truncated again, under the same round-trip condition and when the
      character fallback for a failed decode was not taken. */
  lemma TruncateIsIdempotent(tok: Tokenizer, input: string, output: string, maxTokens: int)
    requires Budget(tok, input, maxTokens).Some?
    requires var allowed := Budget(tok, input, maxTokens).value;
             allowed > MIN_BUDGET ==>
               && tok.encode(output).Some?
               && ReEncodesWithin(tok, Take(tok.encode(output).value, allowed))
               && (|tok.encode(output).value| > allowed ==> tok.decode(tok.encode(output).value[..allowed]).Some?)
    ensures var r := TruncateOutput(tok, input, output, maxTokens);
            r.Done? && TruncateOutput(tok, input, r.value, maxTokens) == r
  {
    var allowed := Budget(tok, input, maxTokens).value;
    var r := TruncateOutput(tok, input, output, maxTokens);
    if allowed <= MIN_BUDGET {
      var t := Take(output, SHORT_PREFIX);
      assert Take(t, SHORT_PREFIX) == t;
    } else {
      var outIds := tok.encode(output).value;
      if |outIds| > allowed {
        assert Take(outIds, allowed) == outIds[..allowed];
      }
    }
  }

  /** `safe_json_load`: None both when `json.loads` raises and when the line
      is the JSON value `null`, so the script treats a `null` line as
      malformed. */
  function Load(codec: Codec): (load: string -> Option<Json>)
    ensures forall s :: load(s).Some? <==> codec.parse(s).Some? && codec.parse(s) != Some(JNull)
    ensures forall s :: load(s).Some? ==> load(s) == codec.parse(s)
  {
    (s: string) => if codec.parse(s) == Some(JNull) then None else codec.parse(s)
  }

  /** The command-line options that shape the rewrite. */
  datatype Options = Options(maxTokens: int, minParaChars: int, makePrevPara: bool)

  /** What `obj.get(...)` and `inp + "\n" + out` need to run. */
  predicate Processable(obj: Json) {
    HasTextOrFalsyField(obj, "input") && HasTextOrFalsyField(obj, "output")
  }

  /** The token count of a record: input and output joined by a newline. */
  function RecordLength(tok: Tokenizer, obj: Json): nat {
    TokenLength(tok, TextOf(obj, "input") + "\n" + TextOf(obj, "output"))
  }

  /** The `previous_scene` of chunk `i`: "" for the first chunk, otherwise the
      paragraph before it. */
  function PreviousParagraph(paras: seq<string>, i: nat): string
    requires i < |paras|
  {
    if i == 0 then "" else paras[i - 1]
  }

  /** The text put in front of an input that is not a JSON object. */
  function PrevParaPrefix(prev: string): string {
    "Previous paragraph:\n" + prev + "\n\n"
  }

  /** The input of a chunk under `--make_prev_para`: a JSON object input gets
      `previous_scene` set and is serialised again; any other string, including
      JSON that is not an object (item assignment raises and is caught), gets
      the textual prefix. */
  function PrevParaInput(codec: Codec, input: string, prev: string): (r: string) {
    match codec.parse(input)
    case Some(JObj(m)) => codec.dump(JObj(m["previous_scene" := JStr(prev)]))
    case _ => PrevParaPrefix(prev) + input
  }

  /** Chunk `i` of an over-budget record. Under `--make_prev_para` the input
      is read as text; an input that is not a string never gets here, because
      building its prefix raises first (see `HandleRecord`). */
  function ChunkAt(obj: Json, paras: seq<string>, i: nat, codec: Codec, makePrevPara: bool): (c: Json)
    requires obj.JObj? && i < |paras|
    ensures c.JObj? && c.fields.Keys == {"instruction", "input", "output"}
    ensures c.fields["output"] == JStr(paras[i])
    ensures c.fields["instruction"] == GetOr(obj.fields, "instruction", JNull)
    ensures !makePrevPara ==> c.fields["input"] == GetOr(obj.fields, "input", JNull)
  {
    var input := if makePrevPara then JStr(PrevParaInput(codec, TextOf(obj, "input"), PreviousParagraph(paras, i)))
                 else GetOr(obj.fields, "input", JNull);
    JObj(map["instruction" := GetOr(obj.fields, "instruction", JNull), "input" := input, "output" := JStr(paras[i])])
  }

  /** All chunks of an over-budget record, one per paragraph. */
  function Chunks(obj: Json, paras: seq<string>, codec: Codec, makePrevPara: bool): (cs: seq<Json>)
    requires obj.JObj?
    ensures |cs| == |paras|
    ensures forall i :: 0 <= i < |paras| ==> cs[i] == ChunkAt(obj, paras, i, codec, makePrevPara)
  {
    seq(|paras|, i requires 0 <= i < |paras| => ChunkAt(obj, paras, i, codec, makePrevPara))
  }

  /** `new_obj = dict(obj); new_obj["output"] = t`. */
  function WithOutput(obj: Json, t: string): (o: Json)
    requires obj.JObj?
    ensures SameExceptOutput(obj, o) && o.fields["output"] == JStr(t)
  {
    JObj(obj.fields["output" := JStr(t)])
  }

  /** What happened to a record, and the records written for it. */
  datatype Decision = Kept | Chunked | Truncated
  datatype Handled = Handled(decision: Decision, out: seq<Json>)

  /** `obj` and `o` are the same object except for `output`, which `o` has. */
  predicate SameExceptOutput(obj: Json, o: Json) {
    && obj.JObj? && o.JObj?
    && o.fields.Keys == obj.fields.Keys + {"output"}
    && forall k :: k in obj.fields && k != "output" ==> o.fields[k] == obj.fields[k]
  }

  /** The second pass's handling of one parsed record. Building the chunk
      prefix for a non-string input raises (`str + None`), as does anything
      that is not processable. */
  function HandleRecord(obj: Json, tok: Tokenizer, codec: Codec, opt: Options): (r: Outcome<Handled>)
    ensures r.Aborted? <==>
              || !Processable(obj)
              || (&& RecordLength(tok, obj) > opt.maxTokens
                  && if |Paragraphs(TextOf(obj, "output"), opt.minParaChars)| >= 2
                     then opt.makePrevPara && !GetOr(obj.fields, "input", JNull).JStr?
                     else TruncateOutput(tok, TextOf(obj, "input"), TextOf(obj, "output"), opt.maxTokens).Aborted?)
    ensures r.Done? ==> Processable(obj) && |r.value.out| >= 1
    ensures r.Done? ==> (r.value.decision == Kept <==> RecordLength(tok, obj) <= opt.maxTokens)
    ensures r.Done? && r.value.decision != Kept ==>
              (r.value.decision == Chunked <==> |Paragraphs(TextOf(obj, "output"), opt.minParaChars)| >= 2)
    ensures r.Done? && r.value.decision == Kept ==> r.value.out == [obj]
    ensures r.Done? && r.value.decision == Truncated ==>
              && |r.value.out| == 1 && SameExceptOutput(obj, r.value.out[0])
              && var t := TruncateOutput(tok, TextOf(obj, "input"), TextOf(obj, "output"), opt.maxTokens);
                 t.Done? && r.value.out[0].fields["output"] == JStr(t.value)
    ensures r.Done? && r.value.decision == Chunked ==>
              var paras := Paragraphs(TextOf(obj, "output"), opt.minParaChars);
              && |paras| >= 2 && |r.value.out| == |paras|
              && forall i :: 0 <= i < |paras| ==> r.value.out[i] == ChunkAt(obj, paras, i, codec, opt.makePrevPara)
  {
    if !Processable(obj) then Aborted
    else if RecordLength(tok, obj) <= opt.maxTokens then Done(Handled(Kept, [obj]))
    else
      var paras := Paragraphs(TextOf(obj, "output"), opt.minParaChars);
      if |paras| >= 2 then
        if opt.makePrevPara && !GetOr(obj.fields, "input", JNull).JStr? then Aborted
        else Done(Handled(Chunked, Chunks(obj, paras, codec, opt.makePrevPara)))
      else
        match TruncateOutput(tok, TextOf(obj, "input"), TextOf(obj, "output"), opt.maxTokens)
        case Aborted => Aborted
        case Done(t) => Done(Handled(Truncated, [WithOutput(obj, t)]))
  }

  /** The chunks of a record chain its paragraphs: chunk `i` carries paragraph
      `i` as output and paragraph `i - 1` (or "" for the first) as previous
      scene, inside the JSON input when it is an object and as a text prefix
      otherwise. */
  lemma ChunksChainParagraphs(obj: Json, tok: Tokenizer, codec: Codec, opt: Options, i: nat)
    requires opt.makePrevPara
    requires HandleRecord(obj, tok, codec, opt).Done?
    requires HandleRecord(obj, tok, codec, opt).value.decision == Chunked
    ensures var paras := Paragraphs(TextOf(obj, "output"), opt.minParaChars);
            var out := HandleRecord(obj, tok, codec, opt).value.out;
            var input := TextOf(obj, "input");
            i < |out| ==>
              && out[i].fields["output"] == JStr(paras[i])
              && out[i].fields["input"] ==
                   JStr(match codec.parse(input)
                        case Some(JObj(m)) => codec.dump(JObj(m["previous_scene" := JStr(if i == 0 then "" else paras[i - 1])]))
                        case _ => PrevParaPrefix(if i == 0 then "" else paras[i - 1]) + input)
  {
    var paras := Paragraphs(TextOf(obj, "output"), opt.minParaChars);
    var out := HandleRecord(obj, tok, codec, opt).value.out;
    if i < |out| {
      assert out[i] == ChunkAt(obj, paras, i, codec, true);
      ChunkInput(obj, paras, i, codec);
    }
  }

  lemma ChunkInput(obj: Json, paras: seq<string>, i: nat, codec: Codec)
    requires obj.JObj? && i < |paras|
    ensures var input := TextOf(obj, "input");
            ChunkAt(obj, paras, i, codec, true).fields["input"] ==
              JStr(match codec.parse(input)
                   case Some(JObj(m)) => codec.dump(JObj(m["previous_scene" := JStr(if i == 0 then "" else paras[i - 1])]))
                   case _ => PrevParaPrefix(if i == 0 then "" else paras[i - 1]) + input)
  {
  }

  /** The counters the second pass prints, and the records it writes. */
  datatype Stats = Stats(processed: nat, written: nat, chunked: nat, truncated: nat, skippedBad: nat, out: seq<Json>)

  /** One line of the second pass. */
  function StepLine(st: Stats, line: string, tok: Tokenizer, codec: Codec, opt: Options): Outcome<Stats> {
    var st := st.(processed := st.processed + 1);
    if line == "" then Done(st)
    else match Load(codec)(line)
      case None => Done(st.(skippedBad := st.skippedBad + 1))
      case Some(obj) =>
        match HandleRecord(obj, tok, codec, opt)
        case Aborted => Aborted
        case Done(h) =>
          Done(st.(written := st.written + |h.out|,
                   chunked := st.chunked + (if h.decision == Chunked then 1 else 0),
                   truncated := st.truncated + (if h.decision == Truncated then 1 else 0),
                   out := st.out + h.out))
  }

  /** The second pass over the file. */
  function Rewrite(lines: seq<string>, tok: Tokenizer, codec: Codec, opt: Options): Outcome<Stats> {
    if |lines| == 0 then Done(Stats(0, 0, 0, 0, 0, []))
    else
      match Rewrite(lines[..|lines| - 1], tok, codec, opt)
      case Aborted => Aborted
      case Done(st) => StepLine(st, lines[|lines| - 1], tok, codec, opt)
  }

  /** A non-empty line that does not parse. */
  predicate Malformed(codec: Codec, line: string) {
    line != "" && Load(codec)(line).None?
  }

  /** `Malformed`, as a predicate to count lines with. */
  function IsMalformed(codec: Codec): string -> bool {
    l => Malformed(codec, l)
  }

  /** What the second pass keeps true after every prefix of the lines. */
  predicate RewriteInv(lines: seq<string>, codec: Codec, st: Stats) {
    var recs := Records(lines, Load(codec), EmptyBlank);
    && st.processed == |lines|
    && st.written == |st.out| >= |recs|
    && st.skippedBad == CountIf(lines, IsMalformed(codec))
    && st.chunked + st.truncated <= |recs|
  }

  /** The counters agree with the lines and with what was written: every line
      is counted as processed, every malformed line as skipped, and every
      record writes at least one line. */
  lemma {:induction false} RewriteCounts(lines: seq<string>, tok: Tokenizer, codec: Codec, opt: Options)
    requires Rewrite(lines, tok, codec, opt).Done?
    ensures RewriteInv(lines, codec, Rewrite(lines, tok, codec, opt).value)
    decreases |lines|
  {
    if |lines| > 0 {
      var init := lines[..|lines| - 1];
      RewriteCounts(init, tok, codec, opt);
      StepLineKeepsInv(lines, Rewrite(init, tok, codec, opt).value, tok, codec, opt);
    }
  }

  /** The last line keeps the second pass's invariant. */
  lemma StepLineKeepsInv(lines: seq<string>, st: Stats, tok: Tokenizer, codec: Codec, opt: Options)
    requires |lines| > 0 && RewriteInv(lines[..|lines| - 1], codec, st)
    requires StepLine(st, lines[|lines| - 1], tok, codec, opt).Done?
    ensures RewriteInv(lines, codec, StepLine(st, lines[|lines| - 1], tok, codec, opt).value)
  {
    var init, line := lines[..|lines| - 1], lines[|lines| - 1];
    assert lines == init + [line];
    RecordsSnoc(init, line, Load(codec), EmptyBlank);
    CountIfSnoc(init, line, IsMalformed(codec));
  }

  /** The records `HandleRecord` writes for one record. */
  function Handler(tok: Tokenizer, codec: Codec, opt: Options): Json -> Outcome<seq<Json>> {
    obj =>
      match HandleRecord(obj, tok, codec, opt)
      case Aborted => Aborted
      case Done(h) => Done(h.out)
  }

  /** The second pass writes, in order, what `HandleRecord` writes for each
      record of the file, and raises exactly when it raises on some record:
      blank and malformed lines write nothing and never raise. */
  lemma {:induction false} RewriteHandlesRecords(lines: seq<string>, tok: Tokenizer, codec: Codec, opt: Options)
    ensures var h := ConcatMap(Records(lines, Load(codec), EmptyBlank), Handler(tok, codec, opt));
            && (Rewrite(lines, tok, codec, opt).Aborted? <==> h.Aborted?)
            && (Rewrite(lines, tok, codec, opt).Done? ==> Rewrite(lines, tok, codec, opt).value.out == h.value)
    decreases |lines|
  {
    if |lines| > 0 {
      var init := lines[..|lines| - 1];
      var line := lines[|lines| - 1];
      assert lines == init + [line];
      RecordsSnoc(init, line, Load(codec), EmptyBlank);
      RewriteHandlesRecords(init, tok, codec, opt);
      var recs := Records(init, Load(codec), EmptyBlank);
      match ParseLine(line, Load(codec), EmptyBlank)
      case None =>
        assert Records(lines, Load(codec), EmptyBlank) == recs;
      case Some(obj) =>
        assert Records(lines, Load(codec), EmptyBlank) == recs + [obj];
        ConcatMapSnoc(recs, obj, Handler(tok, codec, opt));
    }
  }

  /** A file whose records all fit the budget is written back record for
      record, unchanged. */
  lemma {:induction false} ShortRecordsPassThrough(lines: seq<string>, tok: Tokenizer, codec: Codec, opt: Options)
    requires forall obj :: obj in Records(lines, Load(codec), EmptyBlank) ==>
               Processable(obj) && RecordLength(tok, obj) <= opt.maxTokens
    ensures Rewrite(lines, tok, codec, opt).Done?
    ensures Rewrite(lines, tok, codec, opt).value.out == Records(lines, Load(codec), EmptyBlank)
    decreases |lines|
  {
    if |lines| > 0 {
      var init := lines[..|lines| - 1];
      var line := lines[|lines| - 1];
      assert lines == init + [line];
      RecordsSnoc(init, line, Load(codec), EmptyBlank);
      ShortRecordsPassThrough(init, tok, codec, opt);
      ShortLine(Rewrite(init, tok, codec, opt).value, line, tok, codec, opt);
    }
  }

  /** A line whose record, if any, fits is written back as it is. */
  lemma ShortLine(st: Stats, line: string, tok: Tokenizer, codec: Codec, opt: Options)
    requires match ParseLine(line, Load(codec), EmptyBlank)
             case None => true
             case Some(obj) => Processable(obj) && RecordLength(tok, obj) <= opt.maxTokens
    ensures StepLine(st, line, tok, codec, opt).Done?
    ensures StepLine(st, line, tok, codec, opt).value.out
            == st.out + (match ParseLine(line, Load(codec), EmptyBlank) case None => [] case Some(o) => [o])
  {
  }

  /** `es` holds one heap element per numbered record of `lines`, in order:
      its length, its 1-based line number and its line. */
  ghost predicate EntriesOf(es: seq<TopK.Entry>, ns: seq<(nat, Json)>, lines: seq<string>, tok: Tokenizer) {
    && |es| == |ns|
    && forall j :: 0 <= j < |es| ==>
         ns[j].0 < |lines| && es[j] == TopK.Entry(RecordLength(tok, ns[j].1), ns[j].0 + 1, lines[ns[j].0])
  }

  /** The heap element of one more line, if it carries a record. */
  function EntryOpt(tok: Tokenizer, n: nat, line: string, o: Option<Json>): seq<TopK.Entry> {
    match o
    case None => []
    case Some(obj) => [TopK.Entry(RecordLength(tok, obj), n + 1, line)]
  }

  lemma EntriesOfSnoc(es: seq<TopK.Entry>, ns: seq<(nat, Json)>, lines: seq<string>, line: string, tok: Tokenizer, o: Option<Json>)
    requires EntriesOf(es, ns, lines, tok)
    ensures EntriesOf(es + EntryOpt(tok, |lines|, line, o), ns + NumberOpt(|lines|, o), lines + [line], tok)
  {
    var lines' := lines + [line];
    forall j | 0 <= j < |ns| ensures lines'[ns[j].0] == lines[ns[j].0] {
    }
  }

  /** The heap elements of the first pass: one per record, in file order,
      numbered by its 1-based line (blank and malformed lines use up a number),
      measured by `RecordLength` and carrying its line. */
  function Entries(lines: seq<string>, tok: Tokenizer, codec: Codec): (es: seq<TopK.Entry>)
    ensures EntriesOf(es, NumberedRecords(lines, Load(codec), EmptyBlank), lines, tok)
  {
    if |lines| == 0 then []
    else
      var init := lines[..|lines| - 1];
      var line := lines[|lines| - 1];
      var o := ParseLine(line, Load(codec), EmptyBlank);
      var es := Entries(init, tok, codec);
      EntriesOfSnoc(es, NumberedRecords(init, Load(codec), EmptyBlank), init, line, tok, o);
      assert init + [line] == lines;
      es + EntryOpt(tok, |init|, line, o)
  }

  /** One heap element per record. */
  lemma EntriesCount(lines: seq<string>, tok: Tokenizer, codec: Codec)
    ensures |Entries(lines, tok, codec)| == |Records(lines, Load(codec), EmptyBlank)|
  {
    RecordsAreNumbered(lines, Load(codec), EmptyBlank);
  }

  /** A record whose input or output is present but not a string: the top-K
      report slices `obj.get("input", "")[:200]` and
      `obj.get("output", "")[:400]` outside any `try`, which raises. */
  predicate PreviewRaises(obj: Json) {
    !HasTextField(obj, "input") || !HasTextField(obj, "output")
  }

  /** The report re-parses the line of a kept entry; a line that does not
      parse is printed as malformed. */
  predicate EntryPreviewRaises(codec: Codec, e: TopK.Entry) {
    match Load(codec)(e.line)
    case Some(obj) => PreviewRaises(obj)
    case None => false
  }

  /** The report raises on some kept entry. */
  predicate ReportRaises(codec: Codec, h: TopK.Heap) {
    exists e :: e in h.kept && EntryPreviewRaises(codec, e)
  }

  /** What makes the script raise: a record the first pass cannot measure; any
      record at all when `topk <= 0` (the first one reads `topk[0]` of an
      empty heap); a kept record the report cannot preview; or a record on
      which `HandleRecord` raises in the second pass. */
  predicate RunRaises(lines: seq<string>, tok: Tokenizer, codec: Codec, opt: Options, topk: int) {
    var recs := Records(lines, Load(codec), EmptyBlank);
    var scan := TopK.Scan(Entries(lines, tok, codec), topk);
    || (exists obj :: obj in recs && !Processable(obj))
    || (topk <= 0 && |recs| > 0)
    || (scan.Done? && ReportRaises(codec, scan.value))
    || ConcatMap(recs, Handler(tok, codec, opt)).Aborted?
  }

  /** The first pass raises exactly when there is a record and no room, and
      the second pass exactly when `HandleRecord` raises on some record. */
  lemma AbortCauses(lines: seq<string>, tok: Tokenizer, codec: Codec, opt: Options, topk: int)
    ensures TopK.Scan(Entries(lines, tok, codec), topk).Aborted? <==> topk <= 0 && |Records(lines, Load(codec), EmptyBlank)| > 0
    ensures Rewrite(lines, tok, codec, opt).Aborted? <==> ConcatMap(Records(lines, Load(codec), EmptyBlank), Handler(tok, codec, opt)).Aborted?
  {
    var es := Entries(lines, tok, codec);
    EntriesCount(lines, tok, codec);
    if topk >= 1 {
      TopK.ScanInvariant(es, topk);
    } else if |es| > 0 {
      TopK.NoRoomAborts(es, topk);
    }
    RewriteHandlesRecords(lines, tok, codec, opt);
  }

  /** The whole script: the first pass raises on a record it cannot measure
      (or, when `topk <= 0`, on the first record) and otherwise keeps the
      `topk` longest records; the report raises on a kept record whose input
      or output is not text; and then the second pass writes, in order, what
      `HandleRecord` writes for each record. */
  function LongEntries(lines: seq<string>, tok: Tokenizer, codec: Codec, opt: Options, topk: int): (r: Outcome<(TopK.Heap, Stats)>)
    ensures r.Aborted? <==> RunRaises(lines, tok, codec, opt, topk)
    ensures r.Done? ==> forall obj :: obj in Records(lines, Load(codec), EmptyBlank) ==> Processable(obj)
    ensures r.Done? ==> |r.value.0.kept| <= Max(0, topk) && RewriteInv(lines, codec, r.value.1)
    ensures r.Done? && topk >= 1 ==> |r.value.0.kept| == Min(topk, |Records(lines, Load(codec), EmptyBlank)|)
    ensures r.Done? ==> forall e :: e in r.value.0.kept ==> !EntryPreviewRaises(codec, e)
    ensures r.Done? && topk >= 1 ==> TopK.KeptLargest(Entries(lines, tok, codec), r.value.0, topk)
    ensures r.Done? ==> ConcatMap(Records(lines, Load(codec), EmptyBlank), Handler(tok, codec, opt)) == Done(r.value.1.out)
  {
    AbortCauses(lines, tok, codec, opt, topk);
    if exists obj :: obj in Records(lines, Load(codec), EmptyBlank) && !Processable(obj) then Aborted
    else
      match TopK.Scan(Entries(lines, tok, codec), topk)
      case Aborted => Aborted
      case Done(h) =>
        if ReportRaises(codec, h) then Aborted
        else
          match Rewrite(lines, tok, codec, opt)
          case Aborted => Aborted
          case Done(st) =>
            FirstPassFacts(lines, tok, codec, topk);
            SecondPassFacts(lines, tok, codec, opt);
            Done((h, st))
  }

  /** What the first pass ends with: at most `max(0, topk)` kept entries, and
      for a positive `topk` the `topk` longest records. */
  lemma FirstPassFacts(lines: seq<string>, tok: Tokenizer, codec: Codec, topk: int)
    requires TopK.Scan(Entries(lines, tok, codec), topk).Done?
    ensures var h := TopK.Scan(Entries(lines, tok, codec), topk).value;
            && |h.kept| <= Max(0, topk)
            && (topk >= 1 ==> |h.kept| == Min(topk, |Records(lines, Load(codec), EmptyBlank)|))
            && (topk >= 1 ==> TopK.KeptLargest(Entries(lines, tok, codec), h, topk))
  {
    var es := Entries(lines, tok, codec);
    EntriesCount(lines, tok, codec);
    TopK.ScanBound(es, topk);
    if topk >= 1 {
      TopK.KeepsLargest(es, topk);
    }
  }

  /** What the second pass ends with: its counters agree with the lines, and
      it writes what `HandleRecord` writes for each record. */
  lemma SecondPassFacts(lines: seq<string>, tok: Tokenizer, codec: Codec, opt: Options)
    requires Rewrite(lines, tok, codec, opt).Done?
    ensures RewriteInv(lines, codec, Rewrite(lines, tok, codec, opt).value)
    ensures ConcatMap(Records(lines, Load(codec), EmptyBlank), Handler(tok, codec, opt)) == Done(Rewrite(lines, tok, codec, opt).value.out)
  {
    RewriteCounts(lines, tok, codec, opt);
    RewriteHandlesRecords(lines, tok, codec, opt);
  }

  /** When the heap has room for every record, a record whose input or output
      is present but not text makes the report raise, before the output file
      is opened: a one-line file `{"input": "x", "output": null}` aborts. */
  lemma PreviewCrashAborts(lines: seq<string>, tok: Tokenizer, codec: Codec, opt: Options, topk: int, obj: Json)
    requires 1 <= topk && |Records(lines, Load(codec), EmptyBlank)| <= topk
    requires obj in Records(lines, Load(codec), EmptyBlank) && PreviewRaises(obj)
    ensures LongEntries(lines, tok, codec, opt, topk).Aborted?
  {
    var recs := Records(lines, Load(codec), EmptyBlank);
    if forall o :: o in recs ==> Processable(o) {
      var es := Entries(lines, tok, codec);
      EntriesCount(lines, tok, codec);
      TopK.ScanInvariant(es, topk);
      var h := TopK.Scan(es, topk).value;
      var j :| 0 <= j < |recs| && recs[j] == obj;
      EntryOfRecord(lines, tok, codec, j);
      AllKept(es, h, topk);
      var e := es[j];
      assert e in es;
      assert EntryPreviewRaises(codec, e);
      assert ReportRaises(codec, h);
    }
  }

  /** The `j`-th heap element re-parses to the `j`-th record. */
  lemma EntryOfRecord(lines: seq<string>, tok: Tokenizer, codec: Codec, j: nat)
    requires j < |Records(lines, Load(codec), EmptyBlank)|
    ensures j < |Entries(lines, tok, codec)|
    ensures Load(codec)(Entries(lines, tok, codec)[j].line) == Some(Records(lines, Load(codec), EmptyBlank)[j])
  {
    var ns := NumberedRecords(lines, Load(codec), EmptyBlank);
    RecordsAreNumbered(lines, Load(codec), EmptyBlank);
    assert ParseLine(lines[ns[j].0], Load(codec), EmptyBlank) == Some(ns[j].1);
  }

  /** A heap with room for every entry keeps them all. */
  lemma AllKept(es: seq<TopK.Entry>, h: TopK.Heap, topk: int)
    requires TopK.Inv(es, h, topk) && |es| <= topk
    ensures forall e :: e in es ==> e in h.kept
  {
    assert |h.dropped| == 0;
    assert multiset(h.dropped) == multiset{};
    forall e | e in es ensures e in h.kept {
      assert e in multiset(es);
    }
  }
}
