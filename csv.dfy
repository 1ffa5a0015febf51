/**
 * The two CSV exports: `downloadCSV` (the conversions) and
 * `downloadBrokerageReport` (the brokerage breakdowns). Every field is
 * wrapped in double quotes with no escaping, fields are joined with `,` and
 * lines with `\n`.
 */
module Csv {
  import opened Wrappers
  import opened Text
  import opened Hires
  import opened Matcher
  import opened Buckets
  import opened Reports

  // ---------------------------------------------------------------------------
  // Lines
  // ---------------------------------------------------------------------------

  /** `` `"${v}"` ``. */
  function Quote(v: string): string {
    "\"" + v + "\""
  }

  function QuoteAll(fields: seq<string>): (qs: seq<string>)
    ensures |qs| == |fields|
    ensures forall k :: 0 <= k < |fields| ==> qs[k] == Quote(fields[k])
  {
    if fields == [] then [] else [Quote(fields[0])] + QuoteAll(fields[1..])
  }

  /** `r.map(v => `"${v}"`).join(',')`. */
  function CsvLine(fields: seq<string>): string {
    Join(QuoteAll(fields), ",")
  }

  function CsvLines(rows: seq<seq<string>>): (lines: seq<string>)
    ensures |lines| == |rows|
    ensures forall k :: 0 <= k < |rows| ==> lines[k] == CsvLine(rows[k])
  {
    if rows == [] then [] else [CsvLine(rows[0])] + CsvLines(rows[1..])
  }

  /** `[header, ...rows].map(...).join('\n')`. */
  function CsvText(header: seq<string>, rows: seq<seq<string>>): string {
    Join(CsvLines([header] + rows), "\n")
  }

  /** A character in neither the parts nor the separator is not in their join. */
  lemma {:induction false} JoinAvoids(parts: seq<string>, sep: string, c: char)
    requires c !in sep
    requires forall k :: 0 <= k < |parts| ==> c !in parts[k]
    ensures c !in Join(parts, sep)
  {
    if |parts| > 1 {
      JoinAvoids(parts[1..], sep, c);
      assert Join(parts, sep) == parts[0] + sep + Join(parts[1..], sep);
    }
  }

  predicate NoNewline(fields: seq<string>) {
    forall k :: 0 <= k < |fields| ==> '\n' !in fields[k]
  }

  lemma {:induction false} LineHasNoNewline(fields: seq<string>)
    requires NoNewline(fields)
    ensures '\n' !in CsvLine(fields)
  {
    var qs := QuoteAll(fields);
    forall k | 0 <= k < |qs|
      ensures '\n' !in qs[k]
    {
      assert qs[k] == "\"" + fields[k] + "\"";
    }
    JoinAvoids(qs, ",", '\n');
  }

  /**
   * When no field holds a line break, the text splits back into exactly one
   * line per row plus the header line, each the row's CSV line.
   */
  lemma {:induction false} CsvTextLines(header: seq<string>, rows: seq<seq<string>>)
    requires NoNewline(header) && forall r :: r in rows ==> NoNewline(r)
    ensures Split(CsvText(header, rows), '\n') == CsvLines([header] + rows)
    ensures |Split(CsvText(header, rows), '\n')| == |rows| + 1
  {
    var all := [header] + rows;
    var lines := CsvLines(all);
    forall k | 0 <= k < |lines|
      ensures '\n' !in lines[k]
    {
      if k > 0 {
        assert all[k] in rows;
      }
      LineHasNoNewline(all[k]);
    }
    JoinSplit(lines, '\n');
  }

  // ---------------------------------------------------------------------------
  // Reading a line back
  // ---------------------------------------------------------------------------

  /**
   * Reads a line of quoted fields: a quote, the text up to the next quote, a
   * quote, then either the end or a comma and more fields.
   */
  function ReadFields(s: string): Option<seq<string>>
    decreases |s|
  {
    if |s| < 2 || s[0] != '"' || '"' !in s[1..] then None
    else
      var n := IndexOf(s[1..], '"');
      var field := s[1..1 + n];
      var rest := s[2 + n..];
      if rest == [] then Some([field])
      else if rest[0] != ',' then None
      else
        match ReadFields(rest[1..])
        case None => None
        case Some(more) => Some([field] + more)
  }

  predicate NoQuote(fields: seq<string>) {
    forall k :: 0 <= k < |fields| ==> '"' !in fields[k]
  }

  /** The first field of a line is read up to its closing quote. */
  lemma {:induction false} ReadFirstField(v: string, rest: string)
    requires '"' !in v
    ensures var s := Quote(v) + rest;
      && '"' in s[1..]
      && IndexOf(s[1..], '"') == |v|
      && s[2 + |v|..] == rest
  {
    var s := Quote(v) + rest;
    assert s[1..] == v + "\"" + rest;
    assert s[1..][|v|] == '"';
  }

  /** A line of two or more fields is the first quoted field, a comma and the line of the rest. */
  lemma {:induction false} CsvLineCons(fields: seq<string>)
    requires |fields| >= 2
    ensures CsvLine(fields) == Quote(fields[0]) + ("," + CsvLine(fields[1..]))
  {
    var qs := QuoteAll(fields);
    assert qs[1..] == QuoteAll(fields[1..]);
    assert Join(qs, ",") == qs[0] + "," + Join(qs[1..], ",");
  }

  /** Reading a quoted field followed by a comma reads the field, then the rest of the line. */
  lemma {:induction false} ReadFieldsCons(v: string, tail: string)
    requires '"' !in v
    ensures ReadFields(Quote(v) + ("," + tail)) ==
      match ReadFields(tail) case None => None case Some(more) => Some([v] + more)
  {
    var s := Quote(v) + ("," + tail);
    ReadFirstField(v, "," + tail);
    assert s[1..1 + |v|] == v;
    assert ("," + tail)[1..] == tail;
  }

  /** A line of fields without quote characters reads back as those fields. */
  lemma {:induction false} ReadFieldsOfLine(fields: seq<string>)
    requires |fields| >= 1 && NoQuote(fields)
    ensures ReadFields(CsvLine(fields)) == Some(fields)
    decreases |fields|
  {
    if |fields| == 1 {
      assert '"' !in fields[0];
      ReadFieldsSingle(fields[0]);
      assert CsvLine(fields) == Quote(fields[0]);
      assert fields == [fields[0]];
    } else {
      var rest := fields[1..];
      assert NoQuote(rest) by {
        forall k | 0 <= k < |rest|
          ensures '"' !in rest[k]
        {
          assert rest[k] == fields[k + 1];
        }
      }
      CsvLineCons(fields);
      ReadFieldsCons(fields[0], CsvLine(rest));
      ReadFieldsOfLine(rest);
      assert fields == [fields[0]] + rest;
    }
  }

  /** One quoted field without quote characters reads back as that field. */
  lemma {:induction false} ReadFieldsSingle(v: string)
    requires '"' !in v
    ensures ReadFields(Quote(v)) == Some([v])
  {
    var s := Quote(v);
    ReadFirstField(v, "");
    assert s + "" == s;
    assert s[1..1 + |v|] == v;
  }

  /**
   * Without escaping, a one-field line reads back as its value exactly when
   * the value has no quote character: an embedded quote ends the field early.
   */
  lemma {:induction false} QuoteRoundTrip(v: string)
    ensures ReadFields(CsvLine([v])) == Some([v]) <==> '"' !in v
  {
    assert CsvLine([v]) == Quote(v);
    if '"' !in v {
      ReadFieldsOfLine([v]);
    } else {
      var s := Quote(v);
      assert s[1..] == v + "\"";
      var n := IndexOf(s[1..], '"');
      var k := IndexOf(v, '"');
      assert s[1..][k] == '"';
      assert n <= k;
    }
  }

  /** Without line breaks in any field, line `k + 1` of the text reads back as row `k`. */
  lemma {:induction false} CsvReadBack(header: seq<string>, rows: seq<seq<string>>)
    requires NoNewline(header) && forall r :: r in rows ==> NoNewline(r)
    ensures var lines := Split(CsvText(header, rows), '\n');
      && |lines| == |rows| + 1
      && lines[0] == CsvLine(header)
      && forall k :: 0 <= k < |rows| && |rows[k]| >= 1 && NoQuote(rows[k]) ==> ReadFields(lines[k + 1]) == Some(rows[k])
  {
    CsvTextLines(header, rows);
    var all := [header] + rows;
    var lines := CsvLines(all);
    assert lines[0] == CsvLine(header);
    forall k | 0 <= k < |rows| && |rows[k]| >= 1 && NoQuote(rows[k])
      ensures ReadFields(lines[k + 1]) == Some(rows[k])
    {
      assert all[k + 1] == rows[k];
      ReadFieldsOfLine(rows[k]);
    }
  }

  // ---------------------------------------------------------------------------
  // Converted agents
  // ---------------------------------------------------------------------------

  const ConversionHeader: seq<string> :=
    ["Agent Name", "Brokerage", "Hire Date (YYYY-MM)", "Lead Source", "Lead Year", "Hire vs. Lead Gap (yrs)"]

  /** Neither header holds a line break. */
  lemma {:induction false} HeadersHaveNoNewline()
    ensures NoNewline(ConversionHeader) && NoNewline(BrokerageHeader)
  {
  }

  /** One exported conversion: `source || 'N/A'`, `leadYear || 'N/A'`, `gap || 'N/A'`. */
  function ConversionFields(m: Matched): seq<string> {
    [ m.hire.agent,
      m.hire.company,
      m.hire.date,
      if m.source != "" then m.source else "N/A",
      if m.leadYear.Some? && m.leadYear.value != "" then m.leadYear.value else "N/A",
      if m.gap.Some? && m.gap.value != 0 then IntToDecimal(m.gap.value) else "N/A" ]
  }

  /**
   * One row per conversion, under the six header columns: the agent, the
   * brokerage and the month as cleaned; the source, or "N/A" when it is
   * empty; the lead year, or "N/A" without one; and the gap, which is "N/A"
   * exactly when it is missing or zero and otherwise reads back as the gap.
   */
  function ConversionRows(conversions: seq<Matched>): (rows: seq<seq<string>>)
    ensures |rows| == |conversions|
    ensures forall k :: 0 <= k < |conversions| ==> rows[k] == ConversionFields(conversions[k])
    ensures forall k :: 0 <= k < |conversions| ==> var m, f := conversions[k], rows[k];
      && |f| == |ConversionHeader|
      && f[0] == m.hire.agent && f[1] == m.hire.company && f[2] == m.hire.date
      && (m.source == "" ==> f[3] == "N/A") && (m.source != "" ==> f[3] == m.source)
      && (m.leadYear.None? ==> f[4] == "N/A")
      && (m.leadYear.Some? && m.leadYear.value != "" ==> f[4] == m.leadYear.value)
      && (f[5] == "N/A" <==> m.gap.None? || m.gap == Some(0))
      && (m.gap.Some? && m.gap.value != 0 ==> ParseInt(f[5]) == m.gap)
  {
    var rows := seq(|conversions|, k requires 0 <= k < |conversions| => ConversionFields(conversions[k]));
    assert forall k | 0 <= k < |conversions| ::
      && (rows[k][5] == "N/A" <==> conversions[k].gap.None? || conversions[k].gap == Some(0))
      && (conversions[k].gap.Some? && conversions[k].gap.value != 0 ==> ParseInt(rows[k][5]) == conversions[k].gap)
    by {
      forall k | 0 <= k < |conversions|
        ensures rows[k][5] == "N/A" <==> conversions[k].gap.None? || conversions[k].gap == Some(0)
        ensures conversions[k].gap.Some? && conversions[k].gap.value != 0 ==> ParseInt(rows[k][5]) == conversions[k].gap
      {
        ConversionYearAndGap(conversions[k]);
      }
    }
    assert |ConversionHeader| == 6;
    rows
  }

  /** `downloadCSV`: nothing when there are no conversions, otherwise the CSV text. */
  function ConversionsCsv(conversions: seq<Matched>): (r: Option<string>)
    ensures r.None? <==> conversions == []
  {
    if |conversions| == 0 then None
    else Some(CsvText(ConversionHeader, ConversionRows(conversions)))
  }

  /**
   * The last two columns: a missing lead year and a missing or zero gap
   * export as "N/A"; a non-zero gap exports as text that reads back as the
   * gap.
   */
  lemma {:induction false} ConversionYearAndGap(m: Matched)
    ensures var f := ConversionFields(m);
      && |f| == 6
      && (m.leadYear.None? ==> f[4] == "N/A")
      && (f[5] == "N/A" <==> m.gap.None? || m.gap == Some(0))
      && (m.gap.Some? && m.gap.value != 0 ==> ParseInt(f[5]) == m.gap)
  {
    if m.gap.Some? {
      ParseIntOfDecimal(m.gap.value);
      assert ParseInt("N/A") == None;
    }
  }

  /**
   * A hire matched against a dated lead row (`Matcher.MatchFirstLead`)
   * exports that row's year as its lead year, and the gap as the years from
   * lead to hire, or "N/A" for a lead year of 0 or a hire in the lead's year.
   */
  lemma {:induction false} ConversionFieldsOfLead(h: Hire, y: int, src: string)
    ensures var f := ConversionFields(LeadMatch(h, y, src));
      && ParseInt(f[4]) == Some(y)
      && (if y != 0 && h.hireYear != y then ParseInt(f[5]) == Some(h.hireYear - y) else f[5] == "N/A")
  {
    ParseIntOfDecimal(y);
    ConversionYearAndGap(LeadMatch(h, y, src));
  }

  lemma {:induction false} ConversionRowsNoNewline(conversions: seq<Matched>)
    requires forall m :: m in conversions ==> NoNewline(ConversionFields(m))
    ensures forall r :: r in ConversionRows(conversions) ==> NoNewline(r)
  {
    var rows := ConversionRows(conversions);
    forall r | r in rows
      ensures NoNewline(r)
    {
      var k :| 0 <= k < |rows| && rows[k] == r;
      assert conversions[k] in conversions;
    }
  }

  /** The conversions export is one line per conversion after the header line, each reading back as its fields. */
  lemma {:induction false} ConversionsCsvLines(conversions: seq<Matched>)
    requires |conversions| > 0
    requires forall m :: m in conversions ==> NoNewline(ConversionFields(m))
    ensures var lines := Split(ConversionsCsv(conversions).value, '\n');
      && |lines| == |conversions| + 1
      && lines[0] == CsvLine(ConversionHeader)
      && forall k :: 0 <= k < |conversions| && NoQuote(ConversionFields(conversions[k])) ==>
           ReadFields(lines[k + 1]) == Some(ConversionFields(conversions[k]))
  {
    var rows := ConversionRows(conversions);
    ConversionRowsNoNewline(conversions);
    HeadersHaveNoNewline();
    CsvReadBack(ConversionHeader, rows);
  }

  // ---------------------------------------------------------------------------
  // Brokerages by year
  // ---------------------------------------------------------------------------

  const BrokerageHeader: seq<string> := ["Year", "Brokerage", "Conversions", "Leads", "Rate"]

  /** `[year, item.name, item.conversions, item.leads, item.rate]`, numbers as `String(n)`. */
  function BrokerageFields(year: string, item: Row): seq<string> {
    [year, item.name, IntToDecimal(item.conversions), IntToDecimal(item.leads), item.rate]
  }

  /**
   * One row per brokerage of a block, under the five header columns: the
   * block's year, the brokerage, its conversions and its leads as text that
   * reads back as those counts, and its rate.
   */
  function BlockRows(year: string, items: seq<Row>): (rows: seq<seq<string>>)
    ensures |rows| == |items|
    ensures forall k :: 0 <= k < |items| ==> rows[k] == BrokerageFields(year, items[k])
    ensures forall k :: 0 <= k < |items| ==>
      && |rows[k]| == |BrokerageHeader|
      && rows[k][0] == year && rows[k][1] == items[k].name && rows[k][4] == items[k].rate
      && ParseInt(rows[k][2]) == Some(items[k].conversions as int)
      && ParseInt(rows[k][3]) == Some(items[k].leads as int)
  {
    var rows := seq(|items|, k requires 0 <= k < |items| => BrokerageFields(year, items[k]));
    forall k | 0 <= k < |items|
      ensures ParseInt(rows[k][2]) == Some(items[k].conversions as int)
      ensures ParseInt(rows[k][3]) == Some(items[k].leads as int)
    {
      ParseIntOfDecimal(items[k].conversions);
      ParseIntOfDecimal(items[k].leads);
    }
    assert |BrokerageHeader| == 5;
    rows
  }

  lemma {:induction false} BlockRowsStep(year: string, items: seq<Row>, k: nat)
    requires k < |items|
    ensures BlockRows(year, items[..k + 1]) == BlockRows(year, items[..k]) + [BrokerageFields(year, items[k])]
  {
    var before, after := BlockRows(year, items[..k]), BlockRows(year, items[..k + 1]);
    assert |after| == |before| + 1;
    assert forall i :: 0 <= i < k ==> items[..k + 1][i] == items[..k][i];
  }

  /** The exported rows: blocks in order, skipping non-numeric years, rows of each block in order. */
  function FlattenBlocks(blocks: seq<Block>): seq<seq<string>> {
    if blocks == [] then []
    else
      var last := blocks[|blocks| - 1];
      FlattenBlocks(blocks[..|blocks| - 1]) + (if IsYearKey(last.year) then BlockRows(last.year, last.rows) else [])
  }

  /** The loop of `downloadBrokerageReport` that pushes one row per brokerage of every numeric year. */
  method BrokerageExportRows(blocks: seq<Block>) returns (rows: seq<seq<string>>)
    ensures rows == FlattenBlocks(blocks)
  {
    rows := [];
    var b := 0;
    while b < |blocks|
      invariant 0 <= b <= |blocks|
      invariant rows == FlattenBlocks(blocks[..b])
    {
      var block := blocks[b];
      assert blocks[..b + 1][..b] == blocks[..b];
      if IsYearKey(block.year) {
        var year := block.year;
        ghost var before := rows;
        var k := 0;
        while k < |block.rows|
          invariant 0 <= k <= |block.rows|
          invariant rows == before + BlockRows(year, block.rows[..k])
        {
          var item := block.rows[k];
          rows := rows + [[year, item.name, IntToDecimal(item.conversions), IntToDecimal(item.leads), item.rate]];
          BlockRowsStep(year, block.rows, k);
          k := k + 1;
        }
        assert block.rows[..|block.rows|] == block.rows;
      }
      b := b + 1;
    }
    assert blocks[..|blocks|] == blocks;
  }

  /** `downloadBrokerageReport`: nothing without a report or without year blocks, otherwise the CSV text. */
  function BrokerageCsv(report: Option<Report>): (r: Option<string>)
    ensures r.None? <==> report.None? || report.value.brokeragesByYear == []
  {
    if report.None? || |report.value.brokeragesByYear| == 0 then None
    else Some(CsvText(BrokerageHeader, FlattenBlocks(report.value.brokeragesByYear)))
  }

  /**
   * The brokerage export is one line per exported row after the header line,
   * each a five-field row reading back as that row's fields.
   */
  lemma {:induction false} BrokerageCsvLines(report: Option<Report>)
    requires report.Some? && |report.value.brokeragesByYear| > 0
    requires forall r :: r in FlattenBlocks(report.value.brokeragesByYear) ==> NoNewline(r)
    ensures var lines, rows := Split(BrokerageCsv(report).value, '\n'), FlattenBlocks(report.value.brokeragesByYear);
      && |lines| == |rows| + 1
      && lines[0] == CsvLine(BrokerageHeader)
      && (forall k :: 0 <= k < |rows| ==> |rows[k]| == |BrokerageHeader|)
      && (forall k :: 0 <= k < |rows| && NoQuote(rows[k]) ==> ReadFields(lines[k + 1]) == Some(rows[k]))
  {
    var rows := FlattenBlocks(report.value.brokeragesByYear);
    assert BrokerageCsv(report).value == CsvText(BrokerageHeader, rows);
    HeadersHaveNoNewline();
    FlattenedWidth(report.value.brokeragesByYear);
    CsvReadBack(BrokerageHeader, rows);
  }

  /** Every exported brokerage row has the five columns of the header. */
  lemma {:induction false} FlattenedWidth(blocks: seq<Block>)
    ensures forall k :: 0 <= k < |FlattenBlocks(blocks)| ==> |FlattenBlocks(blocks)[k]| == |BrokerageHeader|
  {
    if blocks != [] {
      var init, last := blocks[..|blocks| - 1], blocks[|blocks| - 1];
      FlattenedWidth(init);
      var before := FlattenBlocks(init);
      var added := if IsYearKey(last.year) then BlockRows(last.year, last.rows) else [];
      assert FlattenBlocks(blocks) == before + added;
      forall k | 0 <= k < |before + added|
        ensures |(before + added)[k]| == 5
      {
        if k >= |before| {
          assert (before + added)[k] == added[k - |before|];
        }
      }
    }
  }

  function RowCount(blocks: seq<Block>): nat {
    if blocks == [] then 0 else RowCount(blocks[..|blocks| - 1]) + |blocks[|blocks| - 1].rows|
  }

  /** When every block has a numeric year, every row of every block is exported. */
  lemma {:induction false} FlattenKeepsAll(blocks: seq<Block>)
    requires forall k :: 0 <= k < |blocks| ==> IsYearKey(blocks[k].year)
    ensures |FlattenBlocks(blocks)| == RowCount(blocks)
  {
    if blocks != [] {
      FlattenKeepsAll(blocks[..|blocks| - 1]);
    }
  }

  /**
   * Every exported brokerage row reads back: its year is a block's year, and
   * its conversions and leads parse as that row's counters.
   */
  lemma {:induction false} FlattenedRowsReadBack(blocks: seq<Block>)
    ensures forall r :: r in FlattenBlocks(blocks) ==>
      |r| == 5 && IsYearKey(r[0])
      && ParseInt(r[2]).Some? && ParseInt(r[2]).value >= 0
      && ParseInt(r[3]).Some? && ParseInt(r[3]).value >= 0
  {
    if blocks != [] {
      var init := blocks[..|blocks| - 1];
      var last := blocks[|blocks| - 1];
      FlattenedRowsReadBack(init);
      if IsYearKey(last.year) {
        var br := BlockRows(last.year, last.rows);
        forall r | r in br
          ensures |r| == 5 && IsYearKey(r[0])
            && ParseInt(r[2]).Some? && ParseInt(r[2]).value >= 0
            && ParseInt(r[3]).Some? && ParseInt(r[3]).value >= 0
        {
          var k :| 0 <= k < |br| && br[k] == r;
          ParseIntOfDecimal(last.rows[k].conversions);
          ParseIntOfDecimal(last.rows[k].leads);
        }
      }
    }
  }

  /** A generated report's brokerage blocks all have numeric years, so the export drops no row. */
  lemma {:induction false} ReportExportKeepsAll(records: seq<Matched>, leads: seq<Leads.LeadRow>)
    requires |records| > 0
    ensures var r := ReportOf(records, Some(leads)).value;
      |FlattenBlocks(r.brokeragesByYear)| == RowCount(r.brokeragesByYear)
  {
    var ys := YearsOf(records);
    var blocks := BrokerageBlocks(ys, records, leads);
    BrokerageBlocksAt(ys, records, leads);
    forall k | 0 <= k < |blocks|
      ensures IsYearKey(blocks[k].year)
    {
      YearKeysPassFilter(ys[k]);
    }
    FlattenKeepsAll(blocks);
  }
}
