/** `scenes_split.py`: cut a screenplay into scenes at the lines that begin
    with `INT.` or `EXT.`, and turn consecutive scenes into
    (previous scene -> next scene) training examples that carry the movie's
    genre, theme and tone. */
module Scenes {
  import opened Base
  import opened Text
  import opened Json

  /** The string begins with a scene heading. */
  predicate StartsHeading(s: string) {
    "INT." <= s || "EXT." <= s
  }

  /** The lookahead `(?=^INT\.|^EXT\.)` under `re.MULTILINE` matches at `p`:
      `p` starts a line and the line begins with `INT.` or `EXT.`. */
  predicate HeadingAt(text: string, p: nat) {
    p < |text| && (p == 0 || text[p - 1] == '\n') && StartsHeading(text[p..])
  }

  /** The first heading position at or after `i`, or the end of the text. */
  function NextCut(text: string, i: nat): (p: nat)
    requires i <= |text|
    ensures i <= p <= |text|
    ensures p < |text| ==> HeadingAt(text, p)
    ensures forall q :: i <= q < p ==> !HeadingAt(text, q)
    decreases |text| - i
  {
    if i == |text| || HeadingAt(text, i) then i else NextCut(text, i + 1)
  }

  /** Concatenation of a list of strings (`"".join`). */
  function Concat(ss: seq<string>): string {
    if |ss| == 0 then "" else ss[0] + Concat(ss[1..])
  }

  lemma ConcatCons(p: string, rest: seq<string>)
    ensures Concat([p] + rest) == p + Concat(rest)
  {
    assert ([p] + rest)[1..] == rest;
  }

  /** A heading at position `q > 0` of a piece is a heading of the whole text. */
  lemma LocalHeadingIsGlobal(text: string, a: nat, b: nat, q: nat)
    requires a <= b <= |text| && 0 < q < b - a
    requires HeadingAt(text[a..b], q)
    ensures HeadingAt(text, a + q)
  {
    var piece := text[a..b];
    assert piece[q - 1] == text[a + q - 1];
    assert piece[q..] <= text[a + q..];
  }

  /** The piece that runs from `start` up to the next heading. */
  lemma PieceFacts(text: string, start: nat, e: nat)
    requires start < |text| && e == NextCut(text, start + 1)
    ensures |text[start..e]| > 0
    ensures HeadingAt(text, start) ==> StartsHeading(text[start..e])
    ensures e < |text| ==> text[start..e][e - start - 1] == '\n'
    ensures forall q :: 0 < q < e - start ==> !HeadingAt(text[start..e], q)
  {
    var piece := text[start..e];
    forall q | 0 < q < |piece| ensures !HeadingAt(piece, q) {
      if HeadingAt(piece, q) {
        LocalHeadingIsGlobal(text, start, e, q);
      }
    }
    if HeadingAt(text, start) {
      var h := text[start..][..4];
      assert h == "INT." || h == "EXT.";
      assert e >= start + 4 by {
        forall q | start + 1 <= q < start + 4 ensures !HeadingAt(text, q) {
          assert text[q - 1] == h[q - 1 - start];
        }
      }
      assert piece[..4] == h;
    }
    if e < |text| {
      assert HeadingAt(text, e);
      assert piece[e - start - 1] == text[e - 1];
    }
  }

  /** Putting one more piece in front keeps the shape of a list of pieces. */
  lemma ConsPieces(p: string, rest: seq<string>, headFirst: bool)
    requires |p| > 0 && forall q :: 0 < q < |p| ==> !HeadingAt(p, q)
    requires headFirst ==> StartsHeading(p)
    requires |rest| > 0 ==> p[|p| - 1] == '\n'
    requires forall k :: 0 <= k < |rest| ==> |rest[k]| > 0 && StartsHeading(rest[k])
    requires forall k :: 0 <= k < |rest| - 1 ==> rest[k][|rest[k]| - 1] == '\n'
    requires forall k, q :: 0 <= k < |rest| && 0 < q < |rest[k]| ==> !HeadingAt(rest[k], q)
    ensures var r := [p] + rest;
            && (forall k :: 0 <= k < |r| ==> |r[k]| > 0)
            && (forall k :: 0 <= k < |r| && (k > 0 || headFirst) ==> StartsHeading(r[k]))
            && (forall k :: 0 <= k < |r| - 1 ==> r[k][|r[k]| - 1] == '\n')
            && (forall k, q :: 0 <= k < |r| && 0 < q < |r[k]| ==> !HeadingAt(r[k], q))
  {
    var r := [p] + rest;
    assert forall k :: 0 < k < |r| ==> r[k] == rest[k - 1];
  }

  /** The pieces `re.split` cuts `text[start..]` into, where `start` is 0 or a
      heading position: every piece runs up to the next heading. */
  function PiecesFrom(text: string, start: nat): (r: seq<string>)
    requires start <= |text|
    ensures Concat(r) == text[start..]
    ensures forall k :: 0 <= k < |r| ==> |r[k]| > 0
    ensures forall k :: 0 <= k < |r| && (k > 0 || HeadingAt(text, start)) ==> StartsHeading(r[k])
    ensures forall k :: 0 <= k < |r| - 1 ==> r[k][|r[k]| - 1] == '\n'
    ensures forall k, q :: 0 <= k < |r| && 0 < q < |r[k]| ==> !HeadingAt(r[k], q)
    decreases |text| - start
  {
    if start == |text| then []
    else
      var e := NextCut(text, start + 1);
      var piece := text[start..e];
      var rest := PiecesFrom(text, e);
      PieceFacts(text, start, e);
      assert |rest| > 0 ==> e < |text| && HeadingAt(text, e);
      ConsPieces(piece, rest, HeadingAt(text, start));
      ConcatCons(piece, rest);
      SuffixCut(text, start, e);
      [piece] + rest
  }

  /** The pieces of the whole script, before stripping. `re.split` also yields
      an empty piece in front when the script starts with a heading; the
      filter below drops it, so it is left out here. */
  function Pieces(text: string): seq<string> {
    PiecesFrom(text, 0)
  }

  /** `if s.strip()`: a stripped piece that is kept. */
  function NonEmpty(): string -> bool {
    s => s != ""
  }

  /** `split_script_into_scenes`: every stripped piece that is not empty, in
      order. The three facts below determine the result (see
      `Base.FilterIsDetermined`). */
  function SplitScenes(text: string): (r: seq<string>)
    ensures forall j :: 0 <= j < |r| ==> |r[j]| > 0 && IsStripped(r[j])
    ensures IsSubsequence(r, StripAll(Pieces(text)))
    ensures |r| == CountIf(StripAll(Pieces(text)), NonEmpty())
  {
    Filter(StripAll(Pieces(text)), NonEmpty())
  }

  /** Any other list of non-empty pieces, taken in order from the stripped
      pieces and as many as there are non-empty ones, is the split itself. */
  lemma SplitScenesIsDetermined(text: string, scenes: seq<string>)
    requires IsSubsequence(scenes, StripAll(Pieces(text)))
    requires forall j :: 0 <= j < |scenes| ==> scenes[j] != ""
    requires |scenes| == CountIf(StripAll(Pieces(text)), NonEmpty())
    ensures scenes == SplitScenes(text)
  {
    FilterIsDetermined(StripAll(Pieces(text)), NonEmpty(), scenes);
  }

  /** Stripping keeps a heading at the front of a piece. */
  lemma StripKeepsHeading(s: string)
    requires StartsHeading(s)
    ensures StartsHeading(Strip(s))
  {
    var h := s[..4];
    assert h == "INT." || h == "EXT.";
    assert LStrip(s) == s;
    RStripKeepsPrefix(s, h);
  }

  /** Every scene but possibly the first begins with `INT.` or `EXT.`, and the
      unstripped pieces put back together give the script. */
  lemma ScenesStartAtHeadings(text: string)
    ensures Concat(Pieces(text)) == text
    ensures var scenes := SplitScenes(text);
            forall j :: 1 <= j < |scenes| ==> StartsHeading(scenes[j])
  {
    var pieces := Pieces(text);
    var stripped := StripAll(pieces);
    forall k | 1 <= k < |stripped| ensures StartsHeading(stripped[k]) {
      StripKeepsHeading(pieces[k]);
    }
    var scenes := SplitScenes(text);
    var ix: seq<nat> :| Embedding(ix, scenes, stripped);
    forall j | 1 <= j < |scenes| ensures StartsHeading(scenes[j]) {
      assert ix[0] < ix[j];
      assert scenes[j] == stripped[ix[j]];
    }
  }

  /** The movie title of a script file: the file name without its extension,
      up to the first `_`. */
  function TitleOf(fileName: string): (t: string)
    ensures t <= Stem(fileName) && '_' !in t
    ensures |t| == |Stem(fileName)| || Stem(fileName)[|t|] == '_'
  {
    BeforeFirst(Stem(fileName), '_')
  }

  /** A file named `<title>_<anything>.txt` or `<title>.txt` belongs to `<title>`. */
  lemma TitleOfScriptFile(title: string, tail: string)
    requires |title| > 0 && '_' !in title && '.' !in title && '/' !in title
    requires '/' !in tail && (tail == "" || tail[0] == '_')
    ensures TitleOf(title + tail + ".txt") == title
  {
    var name := title + tail;
    assert name[0] == title[0] != '.';
    assert '/' !in name;
    StemOfExtension(name, ".txt");
    var t := TitleOf(title + tail + ".txt");
    assert Stem(title + tail + ".txt") == name;
    assert t == name[..|t|];
    assert name[..|title|] == title;
  }

  const INSTRUCTION: string := "You are a screenwriter. Given the details of a movie and the content of the preceding scene, write the next scene for the script."

  /** A training example before its input is serialised with `json.dumps`. */
  datatype Example = Example(instruction: string, input: Json, output: string)

  /** The `movie_details` object built from a metadata row; a missing column
      becomes "N/A". The title is not included. */
  function DetailsFor(row: map<string, Json>): (d: map<string, Json>)
    ensures d.Keys == {"genre", "theme", "tone"}
  {
    map["genre" := GetOr(row, "Genre", JStr("N/A")),
        "theme" := GetOr(row, "Theme", JStr("N/A")),
        "tone" := GetOr(row, "Tone", JStr("N/A"))]
  }

  /** The example for the pair (`prev`, `next`). */
  function MakeExample(details: map<string, Json>, prev: string, next: string): Example {
    Example(INSTRUCTION, JObj(map["movie_details" := JObj(details), "previous_scene" := JStr(prev)]), next)
  }

  /** The loop `for i in range(1, len(scenes))`. */
  function PairScenes(scenes: seq<string>, details: map<string, Json>): (r: seq<Example>)
    ensures |r| == Max(0, |scenes| - 1)
    ensures forall e :: e in r ==> e.instruction == INSTRUCTION
  {
    if |scenes| < 2 then []
    else seq(|scenes| - 1, i requires 0 <= i < |scenes| - 1 => MakeExample(details, scenes[i], scenes[i + 1]))
  }

  /** The scene an example continues from. */
  function PreviousScene(e: Example): string {
    if e.input.JObj? && "previous_scene" in e.input.fields && e.input.fields["previous_scene"].JStr?
    then e.input.fields["previous_scene"].s else ""
  }

  /** The scenes read back off a run of examples: the first example's previous
      scene, then every example's output. */
  function Unpair(exs: seq<Example>): seq<string>
    requires |exs| > 0
  {
    [PreviousScene(exs[0])] + seq(|exs|, i requires 0 <= i < |exs| => exs[i].output)
  }

  /** The examples of a script chain its scenes in order: example `i` continues
      scene `i` with scene `i + 1`, so the scenes can be read back off them. */
  lemma PairScenesRoundTrip(scenes: seq<string>, details: map<string, Json>)
    requires |scenes| >= 2
    ensures var r := PairScenes(scenes, details);
            && (forall i :: 0 <= i < |r| ==> PreviousScene(r[i]) == scenes[i] && r[i].output == scenes[i + 1])
            && Unpair(r) == scenes
  {
    var r := PairScenes(scenes, details);
    forall i | 0 <= i < |r| ensures PreviousScene(r[i]) == scenes[i] && r[i].output == scenes[i + 1] {
      assert r[i] == MakeExample(details, scenes[i], scenes[i + 1]);
    }
    var u := Unpair(r);
    assert |u| == |scenes|;
    forall k | 0 <= k < |u| ensures u[k] == scenes[k] {
      if k > 0 { assert u[k] == r[k - 1].output; }
    }
  }

  /** `exs` are the examples of `scenes` one after another: one fewer than
      the scenes, example `i` continuing scene `i` with scene `i + 1` and
      carrying `details`. */
  predicate Chains(exs: seq<Example>, scenes: seq<string>, details: map<string, Json>) {
    && |exs| == Max(0, |scenes| - 1)
    && forall i :: 0 <= i < |exs| ==>
         && PreviousScene(exs[i]) == scenes[i] && exs[i].output == scenes[i + 1]
         && exs[i].input.JObj? && "movie_details" in exs[i].input.fields
         && exs[i].input.fields["movie_details"] == JObj(details)
  }

  /** The examples of a script chain its scenes. */
  lemma PairScenesChains(scenes: seq<string>, details: map<string, Json>)
    ensures Chains(PairScenes(scenes, details), scenes, details)
  {
    var r := PairScenes(scenes, details);
    forall i | 0 <= i < |r|
      ensures PreviousScene(r[i]) == scenes[i] && r[i].output == scenes[i + 1]
      ensures r[i].input.JObj? && "movie_details" in r[i].input.fields
      ensures r[i].input.fields["movie_details"] == JObj(details)
    {
      assert r[i] == MakeExample(details, scenes[i], scenes[i + 1]);
    }
  }

  lemma MakeExampleShape(row: map<string, Json>, prev: string, next: string)
    ensures var e := MakeExample(DetailsFor(row), prev, next);
            && e.input.JObj? && e.input.fields.Keys == {"movie_details", "previous_scene"}
            && e.input.fields["movie_details"].JObj?
            && e.input.fields["movie_details"].fields.Keys == {"genre", "theme", "tone"}
  {
  }

  /** Every example's input holds exactly the movie details and the previous
      scene, and the details hold exactly genre, theme and tone. */
  lemma ExampleInputShape(scenes: seq<string>, row: map<string, Json>)
    ensures forall e :: e in PairScenes(scenes, DetailsFor(row)) ==>
              && e.instruction == INSTRUCTION
              && e.input.JObj? && e.input.fields.Keys == {"movie_details", "previous_scene"}
              && e.input.fields["movie_details"].JObj?
              && e.input.fields["movie_details"].fields.Keys == {"genre", "theme", "tone"}
  {
    var r := PairScenes(scenes, DetailsFor(row));
    forall e | e in r
      ensures e.input.JObj? && e.input.fields.Keys == {"movie_details", "previous_scene"}
      ensures e.input.fields["movie_details"].JObj?
      ensures e.input.fields["movie_details"].fields.Keys == {"genre", "theme", "tone"}
    {
      var i :| 0 <= i < |r| && r[i] == e;
      assert e == MakeExample(DetailsFor(row), scenes[i], scenes[i + 1]);
      MakeExampleShape(row, scenes[i], scenes[i + 1]);
    }
  }

  /** The examples one script file contributes: none when its title has no
      metadata row or when it yields fewer than two scenes; otherwise one per
      pair of consecutive scenes, in order, each carrying the title's
      details. */
  function ScriptExamples(fileName: string, content: string, table: map<string, map<string, Json>>): (r: seq<Example>)
    ensures TitleOf(fileName) !in table ==> r == []
    ensures |SplitScenes(content)| < 2 ==> r == []
    ensures TitleOf(fileName) in table ==> |r| == Max(0, |SplitScenes(content)| - 1)
    ensures forall e :: e in r ==> e.instruction == INSTRUCTION
    ensures TitleOf(fileName) in table ==> Chains(r, SplitScenes(content), DetailsFor(table[TitleOf(fileName)]))
  {
    var title := TitleOf(fileName);
    if title !in table then []
    else
      var scenes := SplitScenes(content);
      if |scenes| < 2 then []
      else
        PairScenesChains(scenes, DetailsFor(table[title]));
        PairScenes(scenes, DetailsFor(table[title]))
  }

  /** A script file as listed in the directory. */
  datatype ScriptFile = ScriptFile(name: string, content: string)

  /** `fname.endswith(".txt")`. */
  predicate IsScriptName(name: string) {
    |name| >= 4 && name[|name| - 4..] == ".txt"
  }

  /** The examples of one listed file; a file not ending in `.txt` is skipped. */
  function FileExamples(f: ScriptFile, table: map<string, map<string, Json>>): (r: seq<Example>)
    ensures !IsScriptName(f.name) ==> r == []
    ensures forall e :: e in r ==> e.instruction == INSTRUCTION
  {
    if IsScriptName(f.name) then ScriptExamples(f.name, f.content, table) else []
  }

  /** The whole output file: the examples of every `.txt` file, in listing order. */
  function Dataset(files: seq<ScriptFile>, table: map<string, map<string, Json>>): (r: seq<Example>)
    ensures forall e :: e in r ==> e.instruction == INSTRUCTION
  {
    if |files| == 0 then []
    else FileExamples(files[0], table) + Dataset(files[1..], table)
  }

  /** The dataset of two listings is the dataset of the first followed by that
      of the second: each file contributes independently, in listing order. */
  lemma {:induction false} DatasetAppend(a: seq<ScriptFile>, b: seq<ScriptFile>, table: map<string, map<string, Json>>)
    ensures Dataset(a + b, table) == Dataset(a, table) + Dataset(b, table)
    decreases |a|
  {
    if |a| == 0 {
      assert a + b == b;
    } else {
      ConsAppend(a, b);
      DatasetAppend(a[1..], b, table);
      var here := FileExamples(a[0], table);
      assert Dataset(a + b, table) == here + Dataset(a[1..] + b, table);
      AppendAssoc(here, Dataset(a[1..], table), Dataset(b, table));
    }
  }

  /** Files whose names do not end in `.txt` contribute nothing. */
  lemma {:induction false} OnlyScriptFilesCount(files: seq<ScriptFile>, table: map<string, map<string, Json>>)
    requires forall i :: 0 <= i < |files| ==> !IsScriptName(files[i].name)
    ensures Dataset(files, table) == []
    decreases |files|
  {
    if |files| > 0 {
      OnlyScriptFilesCount(files[1..], table);
    }
  }
}
