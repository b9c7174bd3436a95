/** The string operations of Python that the scripts rely on: whitespace
    stripping, prefix slicing, substring search, lower-casing and the
    file-name helpers `os.path.splitext` and `str.split`. */
module Text {
  import opened Base

  /** Python's `str.isspace` for a single character. */
  predicate IsSpace(c: char) {
    || c == ' '
    || ('\t' <= c <= '\r')
    || ('\U{001C}' <= c <= '\U{001F}')
    || c == '\U{0085}' || c == '\U{00A0}' || c == '\U{1680}'
    || ('\U{2000}' <= c <= '\U{200A}')
    || c == '\U{2028}' || c == '\U{2029}' || c == '\U{202F}' || c == '\U{205F}'
    || c == '\U{3000}'
  }

  /** Every character of `s` is whitespace (vacuously true of ""). */
  predicate AllSpace(s: string) {
    forall i :: 0 <= i < |s| ==> IsSpace(s[i])
  }

  /** `s` neither begins nor ends with whitespace. */
  predicate IsStripped(s: string) {
    |s| == 0 || (!IsSpace(s[0]) && !IsSpace(s[|s| - 1]))
  }

  /** A leading space followed by a suffix after whitespace only is still a
      suffix after whitespace only. */
  lemma LStripStep(s: string, n: nat)
    requires 0 < |s| && IsSpace(s[0]) && n < |s|
    requires AllSpace(s[1..][..|s| - 1 - n])
    ensures s[1..][|s| - 1 - n..] == s[|s| - n..]
    ensures AllSpace(s[..|s| - n])
  {
    var pre := s[..|s| - n];
    forall i | 0 < i < |pre| ensures IsSpace(pre[i]) {
      assert pre[i] == s[1..][..|s| - 1 - n][i - 1];
    }
  }

  /** Python's `s.lstrip()`. */
  function LStrip(s: string): (r: string)
    ensures |r| <= |s| && r == s[|s| - |r|..]
    ensures AllSpace(s[..|s| - |r|])
    ensures |r| == 0 || !IsSpace(r[0])
  {
    if |s| > 0 && IsSpace(s[0]) then
      var r := LStrip(s[1..]);
      LStripStep(s, |r|);
      r
    else s
  }

  /** The mirror image of `LStripStep`. */
  lemma RStripStep(s: string, n: nat)
    requires 0 < |s| && IsSpace(s[|s| - 1]) && n < |s|
    requires AllSpace(s[..|s| - 1][n..])
    ensures s[..|s| - 1][..n] == s[..n]
    ensures AllSpace(s[n..])
  {
    var post := s[n..];
    forall i | 0 <= i < |post| - 1 ensures IsSpace(post[i]) {
      assert post[i] == s[..|s| - 1][n..][i];
    }
  }

  /** Python's `s.rstrip()`. */
  function RStrip(s: string): (r: string)
    ensures |r| <= |s| && r == s[..|r|]
    ensures AllSpace(s[|r|..])
    ensures |r| == 0 || !IsSpace(r[|r| - 1])
  {
    if |s| > 0 && IsSpace(s[|s| - 1]) then
      var r := RStrip(s[..|s| - 1]);
      RStripStep(s, |r|);
      r
    else s
  }

  /** `rstrip` keeps any prefix that ends in a non-space character. */
  lemma RStripKeepsPrefix(s: string, p: string)
    requires p <= s && |p| > 0 && !IsSpace(p[|p| - 1])
    ensures p <= RStrip(s)
  {
    var r := RStrip(s);
    assert |r| >= |p|;
    assert p == s[..|p|] == r[..|p|];
  }

  /** Python's `s.strip()`. */
  function Strip(s: string): (r: string)
    ensures IsStripped(r)
    ensures |r| == 0 <==> AllSpace(s)
    ensures |s| > 0 && !IsSpace(s[0]) ==> r <= s
    ensures IsStripped(s) ==> r == s
  {
    var l := LStrip(s);
    var r := RStrip(l);
    assert |r| == 0 ==> |l| == 0 by {
      assert |r| == 0 ==> l[|r|..] == l;
    }
    assert AllSpace(l) ==> AllSpace(s) by {
      if AllSpace(l) {
        assert |l| == 0;
        assert s[..|s| - |l|] == s;
      }
    }
    assert IsStripped(s) ==> l == s;
    r
  }

  /** Python's `[s.strip() for s in xs]`. */
  function StripAll(xs: seq<string>): (r: seq<string>)
    ensures |r| == |xs| && forall i :: 0 <= i < |xs| ==> r[i] == Strip(xs[i])
  {
    seq(|xs|, i requires 0 <= i < |xs| => Strip(xs[i]))
  }

  /** Python's slice `s[:n]`, including its meaning for a negative `n`
      (all but the last `-n` elements). */
  function Take<T>(s: seq<T>, n: int): (r: seq<T>)
    ensures r <= s
    ensures |r| == if n >= 0 then Min(n, |s|) else Max(0, |s| + n)
  {
    if n >= 0 then (if n <= |s| then s[..n] else s)
    else if |s| + n >= 0 then s[..|s| + n] else []
  }

  /** `inp[:n] + "||" + out[:n]`: the text the dedupe scripts hash, and the
      validator keeps, as the signature of an input/output pair. */
  function PairSig(inp: string, out: string, n: nat): string {
    Take(inp, n) + "||" + Take(out, n)
  }

  /** Only the first `n` characters of input and output reach the signature:
      pairs that agree there have the same signature, whatever follows. */
  lemma PairSigIgnoresTail(a: string, b: string, c: string, d: string, n: nat)
    requires Take(a, n) == Take(c, n) && Take(b, n) == Take(d, n)
    ensures PairSig(a, b, n) == PairSig(c, d, n)
  {
  }

  /** Conversely, two pairs whose input prefixes have the same length share a
      signature only if they agree on both prefixes. */
  lemma PairSigSplitsAtLength(a: string, b: string, c: string, d: string, n: nat)
    requires |Take(a, n)| == |Take(c, n)|
    requires PairSig(a, b, n) == PairSig(c, d, n)
    ensures Take(a, n) == Take(c, n) && Take(b, n) == Take(d, n)
  {
    var k := |Take(a, n)|;
    assert Take(a, n) == PairSig(a, b, n)[..k];
    assert Take(c, n) == PairSig(c, d, n)[..k];
    assert Take(b, n) == PairSig(a, b, n)[k + 2..];
    assert Take(d, n) == PairSig(c, d, n)[k + 2..];
  }

  /** `sub` occurs in `text` starting at position `i`. */
  ghost predicate OccursAt(text: string, sub: string, i: int) {
    0 <= i && i + |sub| <= |text| && text[i..i + |sub|] == sub
  }

  /** Python's `sub in text`, searching from position `from`. */
  function ContainsFrom(text: string, sub: string, from: nat): (b: bool)
    ensures b <==> exists i :: from <= i && OccursAt(text, sub, i)
    decreases |text| - from
  {
    if from + |sub| > |text| then
      assert forall i :: from <= i ==> !OccursAt(text, sub, i);
      false
    else if text[from..from + |sub|] == sub then
      assert OccursAt(text, sub, from);
      true
    else
      var b := ContainsFrom(text, sub, from + 1);
      assert forall i :: from <= i && OccursAt(text, sub, i) ==> from + 1 <= i;
      b
  }

  /** Python's `sub in text`. */
  function Contains(text: string, sub: string): (b: bool)
    ensures b <==> exists i :: OccursAt(text, sub, i)
  {
    var b := ContainsFrom(text, sub, 0);
    assert forall i :: OccursAt(text, sub, i) ==> 0 <= i;
    b
  }

  function LowerChar(c: char): char {
    if 'A' <= c <= 'Z' then (c as int + 32) as char else c
  }

  /** Python's `s.lower()` on the ASCII letters. */
  function Lower(s: string): (r: string)
    ensures |r| == |s|
    ensures forall i :: 0 <= i < |s| ==> r[i] == LowerChar(s[i])
  {
    seq(|s|, i requires 0 <= i < |s| => LowerChar(s[i]))
  }

  /** Position of the last occurrence of `c` in `s` (Python's `rfind`). */
  function LastIndex(s: string, c: char): (r: Option<nat>)
    ensures r.Some? ==> r.value < |s| && s[r.value] == c && c !in s[r.value + 1..]
    ensures r.None? ==> c !in s
  {
    if |s| == 0 then None
    else if s[|s| - 1] == c then Some(|s| - 1)
    else
      var r := LastIndex(s[..|s| - 1], c);
      assert s == s[..|s| - 1] + [s[|s| - 1]];
      if r.Some? then
        assert s[r.value + 1..] == s[..|s| - 1][r.value + 1..] + [s[|s| - 1]];
        r
      else r
  }

  /** The first component of Python's `os.path.splitext(p)` with `/` as
      separator: the last `.` starts the extension only when it comes after
      the last `/` and something other than dots precedes it in the final
      component (so ".bashrc" has no extension). */
  function Stem(p: string): (r: string)
    ensures r <= p
  {
    var sep: int := match LastIndex(p, '/') case Some(i) => i case None => -1;
    match LastIndex(p, '.')
    case None => p
    case Some(dot) =>
      if dot as int > sep && exists k :: sep + 1 <= k < dot && p[k] != '.' then p[..dot]
      else p
  }

  /** Stripping an extension the name was given gives the name back. */
  lemma StemOfExtension(base: string, ext: string)
    requires '/' !in base && '/' !in ext
    requires exists k :: 0 <= k < |base| && base[k] != '.'
    requires |ext| > 0 && ext[0] == '.' && '.' !in ext[1..]
    ensures Stem(base + ext) == base
  {
    var p := base + ext;
    assert forall i :: 0 <= i < |p| ==> p[i] == (if i < |base| then base[i] else ext[i - |base|]);
    assert '/' !in p;
    assert p[|base|] == '.';
    assert p[|base| + 1..] == ext[1..];
    assert LastIndex(p, '.') == Some(|base|);
    var k :| 0 <= k < |base| && base[k] != '.';
    assert p[k] != '.';
    assert p[..|base|] == base;
  }

  /** Python's `s.split(c)[0]`: everything before the first `c`. */
  function BeforeFirst(s: string, c: char): (r: string)
    ensures r <= s
    ensures c !in r
    ensures |r| == |s| || s[|r|] == c
  {
    if |s| == 0 || s[0] == c then []
    else [s[0]] + BeforeFirst(s[1..], c)
  }
}
