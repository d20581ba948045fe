/** The `generate-report` edge function: a CSV serialiser for report
    records and the request check that picks exactly one report to
    serialise. */
module GenerateReport {
  import Text

  /** One report record, `Record<string, string>`: its fields in
      `Object.keys` order. */
  type Record = seq<(string, string)>

  /** `Object.keys(item)`. */
  function Headers(item: Record): (hs: seq<string>)
    ensures |hs| == |item|
    ensures forall i :: 0 <= i < |item| ==> hs[i] == item[i].0
  {
    seq(|item|, i requires 0 <= i < |item| => item[i].0)
  }

  /** The values of a record, in key order. */
  function Values(item: Record): (vs: seq<string>)
    ensures |vs| == |item|
    ensures forall i :: 0 <= i < |item| ==> vs[i] == item[i].1
  {
    seq(|item|, i requires 0 <= i < |item| => item[i].1)
  }

  /** No key occurs twice, as in any object `Object.keys` lists. */
  predicate DistinctKeys(item: Record) {
    forall i, j :: 0 <= i < j < |item| ==> item[i].0 != item[j].0
  }

  /** `item[header]` as `join` prints it: the field's value, or "" for the
      `undefined` of a missing key. */
  function Field(item: Record, h: string): string {
    if item == [] then ""
    else if item[0].0 == h then item[0].1
    else Field(item[1..], h)
  }

  /** `headers.map((header) => item[header])`. */
  function Row(item: Record, headers: seq<string>): seq<string> {
    seq(|headers|, j requires 0 <= j < |headers| => Field(item, headers[j]))
  }

  /** The header line followed by one line per record, each joined by ','. */
  function Lines(report: seq<Record>): (lines: seq<string>)
    requires |report| > 0
    ensures |lines| == |report| + 1
  {
    var headers := Headers(report[0]);
    [Text.Join(headers, ',')] + seq(|report|, i requires 0 <= i < |report| => Text.Join(Row(report[i], headers), ','))
  }

  /** `generateCSV`: "" for an empty report, otherwise the lines joined by
      '\n', with no trailing newline. */
  function GenerateCSV(report: seq<Record>): string {
    if |report| == 0 then "" else Text.Join(Lines(report), '\n')
  }

  /** No key or value of any record contains `c`. */
  predicate Free(report: seq<Record>, c: char) {
    forall i, j :: 0 <= i < |report| && 0 <= j < |report[i]| ==> c !in report[i][j].0 && c !in report[i][j].1
  }

  /** A field of a distinct-keyed record is its value. */
  lemma {:induction false} FieldLookup(item: Record, i: int)
    requires DistinctKeys(item)
    requires 0 <= i < |item|
    ensures Field(item, item[i].0) == item[i].1
  {
    if i > 0 {
      assert item[0].0 != item[i].0;
      assert item[1..][i - 1] == item[i];
      FieldLookup(item[1..], i - 1);
    }
  }

  /** A key the record lacks reads as the empty field. */
  lemma {:induction false} FieldAbsent(item: Record, h: string)
    requires forall i :: 0 <= i < |item| ==> item[i].0 != h
    ensures Field(item, h) == ""
  {
    if item != [] {
      assert forall i :: 0 <= i < |item[1..]| ==> item[1..][i] == item[i + 1];
      FieldAbsent(item[1..], h);
    }
  }

  /** A field is one of the record's values, or empty. */
  lemma {:induction false} FieldFrom(item: Record, h: string)
    ensures Field(item, h) == "" || exists i :: 0 <= i < |item| && Field(item, h) == item[i].1
  {
    if item != [] && item[0].0 != h {
      FieldFrom(item[1..], h);
      if Field(item, h) != "" {
        var i :| 0 <= i < |item[1..]| && Field(item, h) == item[1..][i].1;
        assert item[1..][i] == item[i + 1];
      }
    }
  }

  /** A key appended after the others does not change the other fields. */
  lemma {:induction false} FieldAppend(item: Record, k: string, v: string, h: string)
    requires h != k
    ensures Field(item + [(k, v)], h) == Field(item, h)
  {
    if item != [] {
      assert (item + [(k, v)])[1..] == item[1..] + [(k, v)];
      FieldAppend(item[1..], k, v, h);
    }
  }

  /** Each cell of a row is the record's value under that header, or ""
      where the record lacks the header. */
  lemma RowCells(item: Record, headers: seq<string>, j: int)
    requires DistinctKeys(item)
    requires 0 <= j < |headers|
    ensures |Row(item, headers)| == |headers|
    ensures forall k :: 0 <= k < |item| && item[k].0 == headers[j] ==> Row(item, headers)[j] == item[k].1
    ensures (forall k :: 0 <= k < |item| ==> item[k].0 != headers[j]) ==> Row(item, headers)[j] == ""
  {
    forall k | 0 <= k < |item| && item[k].0 == headers[j] ensures Row(item, headers)[j] == item[k].1 {
      FieldLookup(item, k);
    }
    if forall k :: 0 <= k < |item| ==> item[k].0 != headers[j] {
      FieldAbsent(item, headers[j]);
    }
  }

  /** The first record's own row is its values in key order. */
  lemma FirstRowIsValues(item: Record)
    requires DistinctKeys(item)
    ensures Row(item, Headers(item)) == Values(item)
  {
    forall j | 0 <= j < |item| ensures Row(item, Headers(item))[j] == Values(item)[j] {
      FieldLookup(item, j);
    }
  }

  /** Keys a later record has beyond the headers are dropped. */
  lemma ExtraKeyDropped(item: Record, k: string, v: string, headers: seq<string>)
    requires k !in headers
    ensures Row(item + [(k, v)], headers) == Row(item, headers)
  {
    forall j | 0 <= j < |headers| ensures Row(item + [(k, v)], headers)[j] == Row(item, headers)[j] {
      FieldAppend(item, k, v, headers[j]);
    }
  }

  /** A character no value contains is in no cell of a row. */
  lemma RowFree(item: Record, headers: seq<string>, c: char)
    requires forall j :: 0 <= j < |item| ==> c !in item[j].1
    ensures forall j :: 0 <= j < |headers| ==> c !in Row(item, headers)[j]
  {
    forall j | 0 <= j < |headers| ensures c !in Row(item, headers)[j] {
      FieldFrom(item, headers[j]);
    }
  }

  /** No line of the report contains `c` when no key or value does and
      `c` is not the field separator. */
  lemma LinesFree(report: seq<Record>, c: char)
    requires |report| > 0
    requires c != ','
    requires Free(report, c)
    ensures forall i :: 0 <= i < |Lines(report)| ==> c !in Lines(report)[i]
  {
    var headers := Headers(report[0]);
    var lines := Lines(report);
    Text.JoinFree(headers, ',', c);
    assert c !in lines[0];
    forall i | 1 <= i < |lines| ensures c !in lines[i] {
      var item := report[i - 1];
      RowFree(item, headers, c);
      Text.JoinFree(Row(item, headers), ',', c);
    }
  }

  /** When no key or value contains a newline, splitting the CSV at '\n'
      gives back the header line and one line per record. */
  lemma CsvLines(report: seq<Record>)
    requires |report| > 0
    requires Free(report, '\n')
    ensures Text.Split(GenerateCSV(report), '\n') == Lines(report)
    ensures |Text.Split(GenerateCSV(report), '\n')| == |report| + 1
  {
    LinesFree(report, '\n');
    Text.SplitJoin(Lines(report), '\n');
  }

  /** When no key or value contains ',' or '\n', the CSV parses back into
      the first record's keys and, for each record, its row of cells. */
  lemma CsvRoundTrip(report: seq<Record>)
    requires |report| > 0
    requires Free(report, '\n') && Free(report, ',')
    ensures var lines := Text.Split(GenerateCSV(report), '\n');
            |lines| == |report| + 1 &&
            (|report[0]| > 0 ==> Text.Split(lines[0], ',') == Headers(report[0])) &&
            forall i :: 0 <= i < |report| && |report[0]| > 0 ==>
              Text.Split(lines[i + 1], ',') == Row(report[i], Headers(report[0]))
  {
    CsvLines(report);
    var headers := Headers(report[0]);
    var lines := Lines(report);
    if |report[0]| > 0 {
      Text.SplitJoin(headers, ',');
      forall i | 0 <= i < |report| ensures Text.Split(lines[i + 1], ',') == Row(report[i], headers) {
        RowFree(report[i], headers, ',');
        Text.SplitJoin(Row(report[i], headers), ',');
      }
    }
  }

  /** An empty report serialises to the empty string. */
  lemma EmptyReport()
    ensures GenerateCSV([]) == ""
  {
  }

  const ExampleRecord1: Record := [("header1", "value1"), ("header2", "value2")]
  const ExampleRecord2: Record := [("header1", "value3"), ("header2", "value4")]

  lemma ExampleRows()
    ensures Headers(ExampleRecord1) == ["header1", "header2"]
    ensures Row(ExampleRecord1, ["header1", "header2"]) == ["value1", "value2"]
    ensures Row(ExampleRecord2, ["header1", "header2"]) == ["value3", "value4"]
  {
    assert Headers(ExampleRecord1) == ["header1", "header2"];
    assert Row(ExampleRecord2, ["header1", "header2"]) == ["value3", "value4"];
  }

  lemma ExampleLines()
    ensures Lines([ExampleRecord1, ExampleRecord2]) == ["header1,header2", "value1,value2", "value3,value4"]
  {
    ExampleRows();
    var report := [ExampleRecord1, ExampleRecord2];
    var headers := ["header1", "header2"];
    JoinPair("header1", "header2", ',');
    JoinPair("value1", "value2", ',');
    JoinPair("value3", "value4", ',');
    assert Lines(report)[0] == Text.Join(headers, ',');
    assert Lines(report)[1] == Text.Join(Row(ExampleRecord1, headers), ',');
    assert Lines(report)[2] == Text.Join(Row(ExampleRecord2, headers), ',');
    assert "header1" + [','] + "header2" == "header1,header2";
    assert "value1" + [','] + "value2" == "value1,value2";
    assert "value3" + [','] + "value4" == "value3,value4";
  }

  /** Two records with the keys header1 and header2. */
  lemma ReportExample()
    ensures GenerateCSV([ExampleRecord1, ExampleRecord2]) == "header1,header2\nvalue1,value2\nvalue3,value4"
  {
    ExampleLines();
    JoinTriple("header1,header2", "value1,value2", "value3,value4", '\n');
  }

  lemma JoinPair(a: string, b: string, sep: char)
    ensures Text.Join([a, b], sep) == a + [sep] + b
  {
    assert [a, b][1..] == [b];
  }

  lemma JoinTriple(a: string, b: string, c: string, sep: char)
    ensures Text.Join([a, b, c], sep) == a + [sep] + b + [sep] + c
  {
    assert [a, b, c][1..] == [b, c];
    JoinPair(b, c, sep);
  }

  /** A report field of the request body: absent, `null`, or an array. */
  datatype ReportArg = Undefined | Null | Given(records: seq<Record>)

  /** The request body. */
  datatype Body = Body(format: string, allocationReport: ReportArg, projectReport: ReportArg,
                       individualReport: ReportArg, individualGroupReport: ReportArg)

  /** The four report fields, in the order the source lists them. */
  function Slots(body: Body): (args: seq<ReportArg>)
    ensures |args| == 4
  {
    [body.allocationReport, body.projectReport, body.individualReport, body.individualGroupReport]
  }

  /** The number of fields that are not `undefined` (`null` counts). */
  function CountSet(args: seq<ReportArg>): (n: nat)
    ensures n <= |args|
  {
    if args == [] then 0
    else (if args[0] != Undefined then 1 else 0) + CountSet(args[1..])
  }

  /** `isExactlyOneReportSet`. */
  predicate ExactlyOneReportSet(body: Body) {
    CountSet(Slots(body)) == 1
  }

  /** Exactly `i` is set among `args`. */
  predicate OnlySet(args: seq<ReportArg>, i: int) {
    0 <= i < |args| && args[i] != Undefined && forall j :: 0 <= j < |args| && j != i ==> args[j] == Undefined
  }

  lemma {:induction false} CountSetZero(args: seq<ReportArg>)
    ensures CountSet(args) == 0 <==> forall j :: 0 <= j < |args| ==> args[j] == Undefined
  {
    if args != [] {
      CountSetZero(args[1..]);
      assert forall j :: 1 <= j < |args| ==> args[1..][j - 1] == args[j];
    }
  }

  /** The count is one exactly when a single field is set. */
  lemma {:induction false} CountSetOne(args: seq<ReportArg>)
    ensures CountSet(args) == 1 <==> exists i :: OnlySet(args, i)
  {
    if args != [] {
      var rest := args[1..];
      assert forall j :: 1 <= j < |args| ==> rest[j - 1] == args[j];
      CountSetZero(rest);
      CountSetOne(rest);
      if CountSet(args) == 1 {
        if args[0] != Undefined {
          assert OnlySet(args, 0);
        } else {
          var i :| OnlySet(rest, i);
          assert OnlySet(args, i + 1);
        }
      }
      if exists i :: OnlySet(args, i) {
        var i :| OnlySet(args, i);
        if i == 0 {
          assert CountSet(rest) == 0;
        } else {
          assert OnlySet(rest, i - 1);
        }
      }
    }
  }

  /** `isExactlyOneReportSet` holds exactly when one of the four fields is
      not `undefined` and the other three are. */
  lemma ExactlyOneCharacterised(body: Body)
    ensures ExactlyOneReportSet(body) <==> exists i :: OnlySet(Slots(body), i)
  {
    CountSetOne(Slots(body));
  }

  /** The `if (allocationReport) … else if …` chain: the CSV of the first
      truthy field (arrays, even empty ones, are truthy; `null` is not), or
      "" when none is. */
  function ChosenCSV(args: seq<ReportArg>): string {
    if args == [] then ""
    else if args[0].Given? then GenerateCSV(args[0].records)
    else ChosenCSV(args[1..])
  }

  /** With a single field set, the chain serialises that field, or gives ""
      when it is `null`. */
  lemma {:induction false} ChosenIsOnlySet(args: seq<ReportArg>, i: int)
    requires OnlySet(args, i)
    ensures ChosenCSV(args) == if args[i].Given? then GenerateCSV(args[i].records) else ""
  {
    if i > 0 {
      assert OnlySet(args[1..], i - 1);
      ChosenIsOnlySet(args[1..], i - 1);
    } else {
      NoneChosen(args[1..]);
    }
  }

  lemma {:induction false} NoneChosen(args: seq<ReportArg>)
    requires forall j :: 0 <= j < |args| ==> args[j] == Undefined
    ensures ChosenCSV(args) == ""
  {
    if args != [] {
      assert forall j :: 0 <= j < |args[1..]| ==> args[1..][j] == args[j + 1];
      NoneChosen(args[1..]);
    }
  }

  /** The function's answer: a CSV attachment (status 200) or a JSON error
      (status 400). */
  datatype Response = Csv(content: string) | BadRequest(error: string)

  const ExactlyOneError := "Exactly one report must be set"
  const FormatError := "Invalid format or missing allocation report"

  /** The request handler after the body is parsed. */
  function HandleReport(body: Body): (r: Response)
    ensures r == BadRequest(ExactlyOneError) <==> !ExactlyOneReportSet(body)
    ensures r == BadRequest(FormatError) <==> ExactlyOneReportSet(body) && body.format != "csv"
    ensures r.Csv? <==> ExactlyOneReportSet(body) && body.format == "csv"
    ensures forall i :: OnlySet(Slots(body), i) && r.Csv? ==>
              r.content == if Slots(body)[i].Given? then GenerateCSV(Slots(body)[i].records) else ""
  {
    ExactlyOneCharacterised(body);
    forall i | OnlySet(Slots(body), i) ensures ChosenCSV(Slots(body)) == if Slots(body)[i].Given? then GenerateCSV(Slots(body)[i].records) else "" {
      ChosenIsOnlySet(Slots(body), i);
    }
    if !ExactlyOneReportSet(body) then BadRequest(ExactlyOneError)
    else if body.format == "csv" then Csv(ChosenCSV(Slots(body)))
    else BadRequest(FormatError)
  }
}
