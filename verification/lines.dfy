/** Reading a JSON-lines file: each script decides differently which lines
    carry no record, and skips the lines `json.loads` rejects. Lines are
    modelled without their terminating newline. */
module Lines {
  import opened Base
  import opened Text
  import opened Json

  /** How a script recognises a line to skip before parsing it. */
  datatype BlankRule =
    | StrippedBlank  // `line = line.strip(); if not line: continue`, then parse the stripped line
    | EmptyBlank     // `line = line.rstrip("\n"); if not line: continue`
    | NoBlankCheck   // every line goes to the parser

  /** The record a line carries under `rule`, or None when it is skipped. */
  function ParseLine(line: string, parse: string -> Option<Json>, rule: BlankRule): Option<Json> {
    match rule
    case StrippedBlank => if Strip(line) == "" then None else parse(Strip(line))
    case EmptyBlank => if line == "" then None else parse(line)
    case NoBlankCheck => parse(line)
  }

  /** The line carries a record. */
  predicate WellFormed(line: string, parse: string -> Option<Json>, rule: BlankRule) {
    ParseLine(line, parse, rule).Some?
  }

  /** `ParseLine` under fixed oracle and rule, as a function of the line. */
  function LineParser(parse: string -> Option<Json>, rule: BlankRule): string -> Option<Json> {
    l => ParseLine(l, parse, rule)
  }

  /** Every pair of `ns` is a line number of `lines` with the record that
      line carries. */
  ghost predicate NumbersLines(ns: seq<(nat, Json)>, lines: seq<string>, parse: string -> Option<Json>, rule: BlankRule) {
    NumbersVia(ns, lines, LineParser(parse, rule))
  }

  /** The records of a file, each with its 0-based line number, in file order:
      what `enumerate` over the file sees once blank and malformed lines are
      skipped. */
  function NumberedRecords(lines: seq<string>, parse: string -> Option<Json>, rule: BlankRule): (ns: seq<(nat, Json)>)
    ensures NumbersLines(ns, lines, parse, rule) && Increasing(ns)
  {
    if |lines| == 0 then []
    else
      var init := lines[..|lines| - 1];
      var line := lines[|lines| - 1];
      var ns := NumberedRecords(init, parse, rule);
      NumbersViaSnoc(ns, init, line, LineParser(parse, rule));
      assert init + [line] == lines;
      ns + NumberOpt(|init|, ParseLine(line, parse, rule))
  }

  /** The numbering leaves out no line that carries a record. */
  lemma {:induction false} NumberedRecordsComplete(lines: seq<string>, parse: string -> Option<Json>, rule: BlankRule)
    ensures NumbersEvery(NumberedRecords(lines, parse, rule), lines, LineParser(parse, rule))
  {
    if |lines| > 0 {
      var init := lines[..|lines| - 1];
      var line := lines[|lines| - 1];
      NumberedRecordsComplete(init, parse, rule);
      NumbersEverySnoc(NumberedRecords(init, parse, rule), init, line, LineParser(parse, rule));
      assert init + [line] == lines;
    }
  }

  /** `NumberedRecords` is the only numbering of a file's records: any
      sequence that pairs lines with their records, in increasing line order,
      and leaves out no line that carries one, is it. */
  lemma NumberingIsUnique(ns: seq<(nat, Json)>, lines: seq<string>, parse: string -> Option<Json>, rule: BlankRule)
    requires NumbersLines(ns, lines, parse, rule) && Increasing(ns)
    requires NumbersEvery(ns, lines, LineParser(parse, rule))
    ensures ns == NumberedRecords(lines, parse, rule)
  {
    NumberedRecordsComplete(lines, parse, rule);
    NumberingUnique(ns, NumberedRecords(lines, parse, rule), lines, LineParser(parse, rule));
  }

  /** The records of numbered records, in order. */
  function RecordsOf(ns: seq<(nat, Json)>): (r: seq<Json>)
    ensures |r| == |ns| && forall j :: 0 <= j < |ns| ==> r[j] == ns[j].1
  {
    seq(|ns|, j requires 0 <= j < |ns| => ns[j].1)
  }

  /** The records of a file, in file order. */
  function Records(lines: seq<string>, parse: string -> Option<Json>, rule: BlankRule): (r: seq<Json>)
    ensures |r| == CountIf(lines, l => WellFormed(l, parse, rule))
    ensures |r| == |lines| <==> forall i :: 0 <= i < |lines| ==> WellFormed(lines[i], parse, rule)
  {
    if |lines| == 0 then []
    else
      var init := lines[..|lines| - 1];
      var line := lines[|lines| - 1];
      var r := Records(init, parse, rule);
      assert forall i :: 0 <= i < |init| ==> init[i] == lines[i];
      match ParseLine(line, parse, rule)
      case None => r
      case Some(obj) => r + [obj]
  }

  /** The records of a file are those of its numbered lines, in order: record
      `j` is what the `j`-th line that carries one parses to. */
  lemma {:induction false} RecordsAreNumbered(lines: seq<string>, parse: string -> Option<Json>, rule: BlankRule)
    ensures Records(lines, parse, rule) == RecordsOf(NumberedRecords(lines, parse, rule))
  {
    if |lines| > 0 {
      var init := lines[..|lines| - 1];
      var line := lines[|lines| - 1];
      RecordsAreNumbered(init, parse, rule);
      RecordsOfSnoc(NumberedRecords(init, parse, rule), NumberOpt(|init|, ParseLine(line, parse, rule)));
    }
  }

  lemma RecordsOfSnoc(ns: seq<(nat, Json)>, tail: seq<(nat, Json)>)
    ensures RecordsOf(ns + tail) == RecordsOf(ns) + RecordsOf(tail)
  {
  }

  /** The `i`-th line's record sits in the output right after the records of
      the lines before it. */
  lemma RecordsSnoc(lines: seq<string>, line: string, parse: string -> Option<Json>, rule: BlankRule)
    ensures Records(lines + [line], parse, rule)
            == Records(lines, parse, rule) + (match ParseLine(line, parse, rule) case None => [] case Some(o) => [o])
  {
    assert (lines + [line])[..|lines|] == lines;
  }

  /** When every line is a record, the records are numbered 0, 1, 2, ...,
      one per line (`enumerate` over a file without blank or malformed
      lines). */
  lemma NumberedAll(lines: seq<string>, parse: string -> Option<Json>, rule: BlankRule)
    requires forall i :: 0 <= i < |lines| ==> WellFormed(lines[i], parse, rule)
    ensures |NumberedRecords(lines, parse, rule)| == |lines|
    ensures forall j :: 0 <= j < |lines| ==> NumberedRecords(lines, parse, rule)[j].0 == j
  {
    NumberedRecordsComplete(lines, parse, rule);
    assert forall i :: 0 <= i < |lines| ==> LineParser(parse, rule)(lines[i]).Some?;
    NumbersEveryPosition(NumberedRecords(lines, parse, rule), lines, LineParser(parse, rule));
  }

  /** When every line carries a record, record `i` is what line `i` parses to. */
  lemma RecordsOfWellFormed(lines: seq<string>, parse: string -> Option<Json>, rule: BlankRule)
    requires forall i :: 0 <= i < |lines| ==> WellFormed(lines[i], parse, rule)
    ensures |Records(lines, parse, rule)| == |lines|
    ensures forall i :: 0 <= i < |lines| ==> ParseLine(lines[i], parse, rule) == Some(Records(lines, parse, rule)[i])
  {
    var ns := NumberedRecords(lines, parse, rule);
    NumberedAll(lines, parse, rule);
    RecordsAreNumbered(lines, parse, rule);
    forall i | 0 <= i < |lines| ensures ParseLine(lines[i], parse, rule) == Some(Records(lines, parse, rule)[i]) {
      assert LineParser(parse, rule)(lines[ns[i].0]) == Some(ns[i].1);
    }
  }
}
