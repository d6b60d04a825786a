/**
 * The CSV export of a report's verdicts: a header line, then one `member,True|False`
 * line per verdict, in the report's order. A reader for that text shows that nothing is
 * lost on the way.
 */
module Export {
  import opened Wrappers
  import opened Sequences
  import opened Text
  import opened Aggregation

  /** `str()` of a Python bool. */
  function BoolText(b: bool): string {
    if b then "True" else "False"
  }

  function CsvRow(v: Verdict): string {
    IntToDecimal(v.member) + "," + BoolText(v.attended) + "\n"
  }

  /** The rows for `data`, first verdict first. */
  function CsvRows(data: seq<Verdict>): string {
    if data == [] then "" else CsvRow(data[0]) + CsvRows(data[1..])
  }

  lemma {:induction false} CsvRowsSnoc(data: seq<Verdict>, v: Verdict)
    ensures CsvRows(data + [v]) == CsvRows(data) + CsvRow(v)
    decreases |data|
  {
    if data == [] {
      assert [v][1..] == [];
      assert CsvRows([v]) == CsvRow(v) + "";
    } else {
      assert (data + [v])[0] == data[0];
      assert (data + [v])[1..] == data[1..] + [v];
      CsvRowsSnoc(data[1..], v);
      AppendAssociative(CsvRow(data[0]), CsvRows(data[1..]), CsvRow(v));
    }
  }

  /** The header line followed by one line per verdict, appended in order. */
  method AttendanceDataToCsv(headers: string, data: seq<Verdict>) returns (csv: string)
    ensures csv == headers + "\n" + CsvRows(data)
  {
    csv := headers + "\n";
    var i := 0;
    while i < |data|
      invariant 0 <= i <= |data|
      invariant csv == headers + "\n" + CsvRows(data[..i])
    {
      var row := CsvRow(data[i]);
      assert csv + row == headers + "\n" + CsvRows(data[..i + 1]) by {
        CsvRowsSnoc(data[..i], data[i]);
        assert data[..i + 1] == data[..i] + [data[i]];
        AppendAssociative(headers + "\n", CsvRows(data[..i]), row);
      }
      csv := csv + row;
      i := i + 1;
    }
    assert data[..i] == data;
  }

  function ParseBool(s: string): Option<bool> {
    if s == "True" then Some(true) else if s == "False" then Some(false) else None
  }

  /** Reads one `member,attended` row (without its newline). */
  function ParseRow(row: string): Option<Verdict> {
    match Find(row, ',')
    case None => None
    case Some(k) =>
      match (ParseInt(row[..k]), ParseBool(row[k + 1..]))
      case (Some(member), Some(attended)) => Some(Verdict(member, attended))
      case _ => None
  }

  /** Reads newline-terminated rows up to the end of the text. */
  function ParseRows(s: string): Option<seq<Verdict>>
    decreases |s|
  {
    if s == [] then Some([])
    else
      match Find(s, '\n')
      case None => None
      case Some(k) =>
        match (ParseRow(s[..k]), ParseRows(s[k + 1..]))
        case (Some(v), Some(vs)) => Some([v] + vs)
        case _ => None
  }

  /** Splits off the header line, then reads the rows. */
  function ParseCsv(csv: string): Option<(string, seq<Verdict>)> {
    match Find(csv, '\n')
    case None => None
    case Some(k) =>
      match ParseRows(csv[k + 1..])
      case None => None
      case Some(data) => Some((csv[..k], data))
  }

  lemma DecimalHasNoSeparators(i: int)
    ensures ',' !in IntToDecimal(i) && '\n' !in IntToDecimal(i)
  {
    var s := IntToDecimal(i);
    forall k | 0 <= k < |s| ensures s[k] != ',' && s[k] != '\n' {
    }
  }

  lemma BoolRoundTrip(b: bool)
    ensures ParseBool(BoolText(b)) == Some(b) && '\n' !in BoolText(b)
  {
  }

  /** A row made of fields that read back on their own reads back as their verdict. */
  lemma ParseRowOf(digits: string, flag: string, v: Verdict)
    requires ',' !in digits
    requires ParseInt(digits) == Some(v.member) && ParseBool(flag) == Some(v.attended)
    ensures ParseRow(digits + "," + flag) == Some(v)
  {
    var row := digits + "," + flag;
    var k := |digits|;
    assert Find(row, ',') == Some(k) && row[..k] == digits && row[k + 1..] == flag by {
      assert row == digits + ("," + flag);
      FindAfter(digits, "," + flag, ',');
    }
  }

  lemma RowRoundTrip(v: Verdict)
    ensures '\n' !in IntToDecimal(v.member) + "," + BoolText(v.attended)
    ensures ParseRow(IntToDecimal(v.member) + "," + BoolText(v.attended)) == Some(v)
  {
    DecimalHasNoSeparators(v.member);
    IntDecimalRoundTrip(v.member);
    BoolRoundTrip(v.attended);
    ParseRowOf(IntToDecimal(v.member), BoolText(v.attended), v);
  }

  /** A row that reads back as `v`, then rows that read back as `vs`. */
  lemma ParseRowsCons(body: string, rest: string, v: Verdict, vs: seq<Verdict>)
    requires '\n' !in body && ParseRow(body) == Some(v)
    requires ParseRows(rest) == Some(vs)
    ensures ParseRows(body + ("\n" + rest)) == Some([v] + vs)
  {
    var s := body + ("\n" + rest);
    var k := |body|;
    assert Find(s, '\n') == Some(k) && s[..k] == body && s[k + 1..] == rest by {
      FindAfter(body, "\n" + rest, '\n');
    }
  }

  lemma {:induction false} RowsRoundTrip(data: seq<Verdict>)
    ensures ParseRows(CsvRows(data)) == Some(data)
    decreases |data|
  {
    if data != [] {
      var v := data[0];
      var body := IntToDecimal(v.member) + "," + BoolText(v.attended);
      var rest := CsvRows(data[1..]);
      assert CsvRows(data) == body + ("\n" + rest) by {
        AppendAssociative(body, "\n", rest);
      }
      RowRoundTrip(v);
      RowsRoundTrip(data[1..]);
      ParseRowsCons(body, rest, v, data[1..]);
      assert [v] + data[1..] == data;
    }
  }

  /** Reading the export back gives the header and every verdict, in order. */
  lemma CsvRoundTrip(headers: string, data: seq<Verdict>)
    requires '\n' !in headers
    ensures ParseCsv(headers + "\n" + CsvRows(data)) == Some((headers, data))
  {
    var rest := CsvRows(data);
    var csv := headers + "\n" + rest;
    assert csv == headers + ("\n" + rest);
    FindAfter(headers, "\n" + rest, '\n');
    assert csv[..|headers|] == headers;
    assert csv[|headers| + 1..] == rest;
    RowsRoundTrip(data);
  }

  lemma {:induction false} RowsNewlines(data: seq<Verdict>)
    ensures multiset(CsvRows(data))['\n'] == |data|
    decreases |data|
  {
    if data != [] {
      var v := data[0];
      RowRoundTrip(v);
      var body := IntToDecimal(v.member) + "," + BoolText(v.attended);
      assert multiset(body)['\n'] == 0;
      assert CsvRow(v) == body + "\n";
      RowsNewlines(data[1..]);
    }
  }

  /** The export has one line per verdict after the header line. */
  lemma CsvLineCount(headers: string, data: seq<Verdict>)
    requires '\n' !in headers
    ensures multiset(headers + "\n" + CsvRows(data))['\n'] == |data| + 1
  {
    assert multiset(headers)['\n'] == 0;
    RowsNewlines(data);
  }
}
