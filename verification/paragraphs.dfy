/** `paragraphs(text, min_chars)` of `long_entries.py`: split a text at blank
    lines (the pattern `\n\s*\n+`), strip the pieces, drop the empty ones and,
    when `min_chars` is non-zero, the short ones. */
module ParagraphSplit {
  import opened Base
  import opened Text

  /** A separator the pattern can match: a newline, any whitespace, and a
      final newline. */
  predicate IsBreak(sep: string) {
    |sep| >= 2 && sep[0] == '\n' && sep[|sep| - 1] == '\n' && AllSpace(sep)
  }

  /** No two newlines of `p` are separated by whitespace only, so the
      pattern matches nowhere inside `p`. */
  predicate NoBreak(p: string) {
    forall a, b :: 0 <= a < b < |p| && p[a] == '\n' && p[b] == '\n' ==> !AllSpace(p[a..b])
  }

  /** The whitespace at the front of `p` holds no newline: a separator always
      swallows every newline of the blank run it ends in. */
  predicate LeadsWithoutNewline(p: string) {
    forall j :: 0 <= j < |p| && AllSpace(p[..j + 1]) ==> p[j] != '\n'
  }

  /** The end of the run of whitespace that starts at `i`. */
  function RunEnd(s: string, i: nat): (e: nat)
    requires i <= |s|
    ensures i <= e <= |s|
    ensures forall k :: i <= k < e ==> IsSpace(s[k])
    ensures e == |s| || !IsSpace(s[e])
    decreases |s| - i
  {
    if i < |s| && IsSpace(s[i]) then RunEnd(s, i + 1) else i
  }

  /** The position of the last newline of `s[a..b]`. */
  function LastNewline(s: string, a: nat, b: nat): (r: Option<nat>)
    requires a <= b <= |s|
    ensures r.Some? ==> a <= r.value < b && s[r.value] == '\n'
    ensures r.Some? ==> forall k :: r.value < k < b ==> s[k] != '\n'
    ensures r.None? ==> forall k :: a <= k < b ==> s[k] != '\n'
    decreases b - a
  {
    if a == b then None
    else if s[b - 1] == '\n' then Some(b - 1)
    else LastNewline(s, a, b - 1)
  }

  /** After the last newline of a whitespace run, no newline can be reached
      across whitespace only. */
  lemma NoNewlineAfterRun(s: string, e: nat, run: nat)
    requires e <= run <= |s|
    requires forall k :: e <= k < run ==> s[k] != '\n'
    requires run == |s| || !IsSpace(s[run])
    ensures forall k :: e <= k < |s| && AllSpace(s[e..k + 1]) ==> s[k] != '\n'
  {
  }

  /** The end of the match of `\n\s*\n+` that starts at `i`, if any. The greedy
      `\s*` takes the whole whitespace run after the first newline and gives
      back only what `\n+` needs, so the match ends just past the last newline
      of that run; a run without a newline gives no match. */
  function MatchAt(s: string, i: nat): (r: Option<nat>)
    requires i < |s|
    ensures r.Some? ==> i + 2 <= r.value <= |s| && IsBreak(s[i..r.value])
    ensures r.Some? ==> forall k :: r.value <= k < |s| && AllSpace(s[r.value..k + 1]) ==> s[k] != '\n'
  {
    if s[i] != '\n' then None
    else
      var run := RunEnd(s, i + 1);
      match LastNewline(s, i + 1, run)
      case None => None
      case Some(last) =>
        NoNewlineAfterRun(s, last + 1, run);
        Some(last + 1)
  }

  /** A newline that starts no match is not followed, across whitespace only,
      by another newline. */
  lemma NoMatchNoBreak(s: string, a: nat, b: nat)
    requires a < b < |s| && s[a] == '\n' && s[b] == '\n'
    requires MatchAt(s, a).None?
    ensures !AllSpace(s[a..b])
  {
    var run := RunEnd(s, a + 1);
    assert LastNewline(s, a + 1, run).None?;
    assert run <= b;
    assert run != b;
    assert s[a..b][run - a] == s[run];
  }

  /** A match starting anywhere in `p` is a break inside `p`. */
  lemma MatchIsBreak(s: string, i: nat)
    requires i < |s| && MatchAt(s, i).Some?
    ensures s[i] == '\n' && s[MatchAt(s, i).value - 1] == '\n' && i < MatchAt(s, i).value - 1
    ensures AllSpace(s[i..MatchAt(s, i).value - 1])
  {
    var e := MatchAt(s, i).value;
    assert s[i..e][0] == s[i];
    assert s[i..e][e - 1 - i] == s[e - 1];
    assert forall k :: 0 <= k < e - 1 - i ==> s[i..e - 1][k] == s[i..e][k];
  }

  /** The pieces and the separators `re.split` produces. */
  datatype Cut = Cut(pieces: seq<string>, seps: seq<string>)

  /** The pieces put back together with the separators between them. */
  function Join(pieces: seq<string>, seps: seq<string>): string
    requires |pieces| == |seps| + 1
    decreases |seps|
  {
    if |seps| == 0 then pieces[0] else pieces[0] + seps[0] + Join(pieces[1..], seps[1..])
  }

  /** The substring `s[start..i]` has no break inside when no match starts in it. */
  lemma MatchFreeSpan(s: string, start: nat, i: nat)
    requires start <= i <= |s|
    requires forall j :: start <= j < i ==> MatchAt(s, j).None?
    ensures NoBreak(s[start..i])
  {
    var p := s[start..i];
    forall a, b | 0 <= a < b < |p| && p[a] == '\n' && p[b] == '\n' ensures !AllSpace(p[a..b]) {
      NoMatchNoBreak(s, start + a, start + b);
      assert forall m :: 0 <= m < b - a ==> p[a..b][m] == s[start + a..start + b][m];
      assert p[a..b] == s[start + a..start + b];
    }
  }

  /** A prefix of the text after a match has no newline in its leading
      whitespace. */
  lemma PrefixAfterMatchLeads(s: string, e: nat, p: string)
    requires e <= |s| && p <= s[e..]
    requires forall k :: e <= k < |s| && AllSpace(s[e..k + 1]) ==> s[k] != '\n'
    ensures LeadsWithoutNewline(p)
  {
    forall j | 0 <= j < |p| && AllSpace(p[..j + 1]) ensures p[j] != '\n' {
      assert p[..j + 1] == s[e..e + j + 1];
      assert p[j] == s[e + j];
    }
  }

  /** Putting a piece and a separator in front of a cut keeps its shape. */
  lemma ConsCut(p0: string, sep: string, rest: Cut)
    requires |rest.pieces| == |rest.seps| + 1
    requires NoBreak(p0) && IsBreak(sep)
    requires forall k :: 0 <= k < |rest.seps| ==> IsBreak(rest.seps[k])
    requires forall k :: 0 <= k < |rest.pieces| ==> NoBreak(rest.pieces[k])
    requires forall k :: 0 <= k < |rest.pieces| ==> LeadsWithoutNewline(rest.pieces[k])
    ensures var c := Cut([p0] + rest.pieces, [sep] + rest.seps);
            && |c.pieces| == |c.seps| + 1 && c.pieces[0] == p0
            && Join(c.pieces, c.seps) == p0 + sep + Join(rest.pieces, rest.seps)
            && (forall k :: 0 <= k < |c.seps| ==> IsBreak(c.seps[k]))
            && (forall k :: 0 <= k < |c.pieces| ==> NoBreak(c.pieces[k]))
            && (forall k :: 1 <= k < |c.pieces| ==> LeadsWithoutNewline(c.pieces[k]))
  {
    var c := Cut([p0] + rest.pieces, [sep] + rest.seps);
    assert c.pieces[1..] == rest.pieces && c.seps[1..] == rest.seps;
  }

  /** `re.split` of `s[start..]`, scanning from `i` for the leftmost match;
      no match starts in `s[start..i]`. */
  function SplitFrom(s: string, start: nat, i: nat): (c: Cut)
    requires start <= i <= |s|
    requires forall j :: start <= j < i ==> MatchAt(s, j).None?
    ensures |c.pieces| == |c.seps| + 1
    ensures Join(c.pieces, c.seps) == s[start..]
    ensures c.pieces[0] <= s[start..]
    ensures forall k :: 0 <= k < |c.seps| ==> IsBreak(c.seps[k])
    ensures forall k :: 0 <= k < |c.pieces| ==> NoBreak(c.pieces[k])
    ensures forall k :: 1 <= k < |c.pieces| ==> LeadsWithoutNewline(c.pieces[k])
    decreases |s| - i, 1
  {
    if i == |s| then
      MatchFreeSpan(s, start, i);
      assert s[start..i] == s[start..];
      Cut([s[start..]], [])
    else
      match MatchAt(s, i)
      case None => SplitFrom(s, start, i + 1)
      case Some(e) => Cut1(s, start, i, e)
  }

  /** The step of `SplitFrom` at a match `s[i..e]`. */
  function Cut1(s: string, start: nat, i: nat, e: nat): (c: Cut)
    requires start <= i < |s| && MatchAt(s, i) == Some(e)
    requires forall j :: start <= j < i ==> MatchAt(s, j).None?
    ensures |c.pieces| == |c.seps| + 1
    ensures Join(c.pieces, c.seps) == s[start..]
    ensures c.pieces[0] <= s[start..]
    ensures forall k :: 0 <= k < |c.seps| ==> IsBreak(c.seps[k])
    ensures forall k :: 0 <= k < |c.pieces| ==> NoBreak(c.pieces[k])
    ensures forall k :: 1 <= k < |c.pieces| ==> LeadsWithoutNewline(c.pieces[k])
    decreases |s| - i, 0
  {
    MatchFreeSpan(s, start, i);
    var rest := SplitFrom(s, e, e);
    PrefixAfterMatchLeads(s, e, rest.pieces[0]);
    ConsCut(s[start..i], s[i..e], rest);
    SuffixSplit(s, start, i, e);
    Cut([s[start..i]] + rest.pieces, [s[i..e]] + rest.seps)
  }

  /** `PARA_SPLIT_RE.split(text)`. */
  function Split(text: string): (c: Cut)
    ensures |c.pieces| == |c.seps| + 1 && Join(c.pieces, c.seps) == text
    ensures forall k :: 0 <= k < |c.seps| ==> IsBreak(c.seps[k])
    ensures forall k :: 0 <= k < |c.pieces| ==> NoBreak(c.pieces[k])
  {
    assert text[0..] == text;
    SplitFrom(text, 0, 0)
  }

  /** A piece is kept when it is non-empty after stripping and, for a non-zero
      `min_chars`, at least that long. The script filters twice, first on
      emptiness and then on length; one filter on both conditions keeps the
      same pieces in the same order. */
  predicate Keeps(minChars: int, p: string) {
    p != "" && (minChars == 0 || |p| >= minChars)
  }

  /** `paragraphs(text, min_chars)`. */
  function Paragraphs(text: string, minChars: int): (r: seq<string>)
    ensures forall j :: 0 <= j < |r| ==> |r[j]| > 0 && IsStripped(r[j])
    ensures minChars != 0 ==> forall j :: 0 <= j < |r| ==> |r[j]| >= minChars
    ensures IsSubsequence(r, StripAll(Split(text).pieces))
    ensures |r| == CountIf(StripAll(Split(text).pieces), p => Keeps(minChars, p))
  {
    Filter(StripAll(Split(text).pieces), p => Keeps(minChars, p))
  }

  /** With no blank line anywhere, the scan finds no match and the text stays
      one piece. */
  lemma {:induction false} NoBreakOnePiece(s: string, i: nat)
    requires i <= |s| && NoBreak(s)
    requires forall j :: 0 <= j < i ==> MatchAt(s, j).None?
    ensures SplitFrom(s, 0, i) == Cut([s], [])
    decreases |s| - i
  {
    if i < |s| {
      if MatchAt(s, i).Some? {
        MatchIsBreak(s, i);
        assert false;
      }
      NoBreakOnePiece(s, i + 1);
    } else {
      assert s[0..] == s;
    }
  }

  /** A text without a blank line is a single paragraph when it is long
      enough, and none otherwise. */
  lemma SingleParagraph(text: string, minChars: int)
    requires NoBreak(text)
    ensures Paragraphs(text, minChars) == if Keeps(minChars, Strip(text)) then [Strip(text)] else []
  {
    NoBreakOnePiece(text, 0);
    assert Split(text).pieces == [text];
    var xs := StripAll([text]);
    assert xs == [Strip(text)];
    var r := Paragraphs(text, minChars);
    assert CountIf(xs, p => Keeps(minChars, p)) == CountIf(xs[..0], p => Keeps(minChars, p)) + (if Keeps(minChars, Strip(text)) then 1 else 0);
    if |r| == 1 {
      var ix: seq<nat> :| Embedding(ix, r, xs);
      assert r[0] == xs[ix[0]];
    }
  }
}
