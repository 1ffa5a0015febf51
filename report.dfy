/**
 * `generateReport`: hires grouped by hire year, newest year first; for each
 * year a yearly row, a source breakdown and a brokerage breakdown, with leads
 * credited per hire from all lead rows that name the same agent.
 */
module Reports {
  import opened Wrappers
  import opened Text
  import opened SourceTag
  import opened Hires
  import opened Leads
  import opened Matcher
  import opened Buckets

  /** One breakdown of one year: the year as text and its bucket rows. */
  datatype Block = Block(year: string, rows: seq<Row>)

  datatype Report = Report(yearly: seq<Row>, brokeragesByYear: seq<Block>, sourcesByYear: seq<Block>)

  // ---------------------------------------------------------------------------
  // Keys
  // ---------------------------------------------------------------------------

  /** `(h.source || 'N/A').toUpperCase().trim()`: the source bucket of a hire. */
  function SourceKey(m: Matched): string {
    Trim(Upper(if m.source != "" then m.source else "N/A"))
  }

  /** `h.company || 'Unknown'`: the brokerage bucket of a hire. */
  function BrokerageKey(m: Matched): string {
    if m.hire.company != "" then m.hire.company else "Unknown"
  }

  /** `accepted_agent_external_label?.trim() || 'N/A'`: the brokerage a lead row names. */
  function LeadLabel(l: LeadRow): string {
    var t := Trim(l.agentLabel);
    if t != "" then t else "N/A"
  }

  /** The source bucket a lead row is credited to: its own source tag. */
  function LeadSourceKey(l: LeadRow): string {
    ExtractSource(Blob(l))
  }

  /** A lead row counts for a hire when the canonical names agree and the label is the company, or the company is empty. */
  predicate IsAgentLead(m: Matched, l: LeadRow) {
    Canonical(l.name) == Canonical(m.hire.agent) && (LeadLabel(l) == m.hire.company || m.hire.company == "")
  }

  /** `leadsRaw.filter(...)`: the lead rows credited to one hire, in order. */
  function AgentLeads(m: Matched, leads: seq<LeadRow>): seq<LeadRow>
  {
    if leads == [] then []
    else
      var last := leads[|leads| - 1];
      var rest := AgentLeads(m, leads[..|leads| - 1]);
      if IsAgentLead(m, last) then rest + [last] else rest
  }

  /** `IsAgentLead` for one hire, as a predicate value. */
  function AgentLeadTest(m: Matched): LeadRow -> bool {
    l => IsAgentLead(m, l)
  }

  /** The positions of the lead rows that name a hire. */
  function AgentLeadPositions(m: Matched, leads: seq<LeadRow>): set<int> {
    Positions(AgentLeadTest(m), leads)
  }

  /** The positions of the entries of `s` that satisfy `p`. */
  function Positions<T>(p: T -> bool, s: seq<T>): set<int> {
    set j | 0 <= j < |s| && p(s[j])
  }

  /** The rows of `s` that satisfy `p`, in order. */
  function Filter<T>(p: T -> bool, s: seq<T>): seq<T> {
    if s == [] then [] else Filter(p, s[..|s| - 1]) + (if p(s[|s| - 1]) then [s[|s| - 1]] else [])
  }

  /** A filter keeps one entry per position that satisfies the predicate. */
  lemma {:induction false} FilterCount<T>(p: T -> bool, s: seq<T>)
    ensures |Filter(p, s)| == |Positions(p, s)|
    ensures |Filter(p, s)| <= |s|
  {
    if s != [] {
      var init, last := s[..|s| - 1], s[|s| - 1];
      FilterCount(p, init);
      var before, after := Positions(p, init), Positions(p, s);
      forall j
        ensures j in after <==> j in before || (p(last) && j == |init|)
      {
        if 0 <= j < |init| {
          assert s[j] == init[j];
        }
      }
      assert |init| !in before;
      if p(last) {
        assert after == before + {|init|};
      } else {
        assert after == before;
      }
    }
  }

  /** A filter keeps exactly the entries that satisfy the predicate. */
  lemma {:induction false} FilterMembers<T>(p: T -> bool, s: seq<T>)
    ensures forall x :: x in Filter(p, s) <==> x in s && p(x)
  {
    if s != [] {
      var init, last := s[..|s| - 1], s[|s| - 1];
      FilterMembers(p, init);
      assert s == init + [last];
      forall x
        ensures x in s <==> x in init || x == last
      {
      }
    }
  }

  /** A filter that no entry passes keeps nothing. */
  lemma {:induction false} FilterNone<T>(p: T -> bool, s: seq<T>)
    requires forall x :: x in s ==> !p(x)
    ensures Filter(p, s) == []
  {
    if s != [] {
      assert s[|s| - 1] in s;
      FilterNone(p, s[..|s| - 1]);
    }
  }

  lemma {:induction false} AgentLeadsIsFilter(m: Matched, leads: seq<LeadRow>)
    ensures AgentLeads(m, leads) == Filter(AgentLeadTest(m), leads)
  {
    if leads != [] {
      AgentLeadsIsFilter(m, leads[..|leads| - 1]);
    }
  }

  /**
   * The lead rows credited to a hire are exactly the rows that name it, one
   * entry per such row (a row repeated in the file is credited each time).
   */
  lemma {:induction false} AgentLeadsMembers(m: Matched, leads: seq<LeadRow>)
    ensures |AgentLeads(m, leads)| <= |leads|
    ensures |AgentLeads(m, leads)| == |AgentLeadPositions(m, leads)|
    ensures forall l :: l in AgentLeads(m, leads) <==> l in leads && IsAgentLead(m, l)
  {
    AgentLeadsIsFilter(m, leads);
    FilterCount(AgentLeadTest(m), leads);
    FilterMembers(AgentLeadTest(m), leads);
  }

  // ---------------------------------------------------------------------------
  // Years
  // ---------------------------------------------------------------------------

  /** The hires of one year, in their original order. */
  function YearHires(records: seq<Matched>, y: int): seq<Matched>
  {
    if records == [] then []
    else
      var last := records[|records| - 1];
      var rest := YearHires(records[..|records| - 1], y);
      if last.hire.hireYear == y then rest + [last] else rest
  }

  /** "Made in year `y`", as a predicate value. */
  function YearTest(y: int): Matched -> bool {
    (m: Matched) => m.hire.hireYear == y
  }

  /** The positions of the records made in year `y`. */
  function YearPositions(records: seq<Matched>, y: int): set<int> {
    Positions(YearTest(y), records)
  }

  lemma {:induction false} YearHiresIsFilter(records: seq<Matched>, y: int)
    ensures YearHires(records, y) == Filter(YearTest(y), records)
  {
    if records != [] {
      YearHiresIsFilter(records[..|records| - 1], y);
    }
  }

  /** A year's hires are exactly the records made in that year, one entry per record. */
  lemma {:induction false} YearHiresMembers(records: seq<Matched>, y: int)
    ensures |YearHires(records, y)| <= |records|
    ensures |YearHires(records, y)| == |YearPositions(records, y)|
    ensures forall m :: m in YearHires(records, y) <==> m in records && m.hire.hireYear == y
  {
    YearHiresIsFilter(records, y);
    FilterCount(YearTest(y), records);
    FilterMembers(YearTest(y), records);
  }

  predicate StrictlyDescending(ys: seq<int>) {
    forall i, j :: 0 <= i < j < |ys| ==> ys[i] > ys[j]
  }

  /** Adds a year to a strictly descending list of years. */
  function InsertYear(ys: seq<int>, y: int): (r: seq<int>)
    ensures forall x :: x in r <==> x in ys || x == y
  {
    if ys == [] then [y]
    else if y == ys[0] then ys
    else if y > ys[0] then [y] + ys
    else [ys[0]] + InsertYear(ys[1..], y)
  }

  /**
   * `Object.keys(hiresByYear).filter(...).sort(...)`: the distinct truthy
   * hire years, newest first (the keys of distinct years are distinct numbers,
   * so the order does not depend on the sort's tie handling).
   */
  function YearsOf(records: seq<Matched>): seq<int>
  {
    if records == [] then []
    else
      var ys := YearsOf(records[..|records| - 1]);
      var y := records[|records| - 1].hire.hireYear;
      if y == 0 then ys else InsertYear(ys, y)
  }

  lemma {:induction false} InsertYearDescending(ys: seq<int>, y: int)
    requires StrictlyDescending(ys)
    ensures StrictlyDescending(InsertYear(ys, y))
  {
    if ys != [] && y < ys[0] {
      var tail := ys[1..];
      assert StrictlyDescending(tail) by {
        forall i, j | 0 <= i < j < |tail|
          ensures tail[i] > tail[j]
        {
          assert tail[i] == ys[i + 1] && tail[j] == ys[j + 1];
        }
      }
      InsertYearDescending(tail, y);
      var r := InsertYear(tail, y);
      forall x | x in r
        ensures x < ys[0]
      {
        if x != y {
          var k :| 0 <= k < |tail| && tail[k] == x;
          assert ys[k + 1] == x;
        }
      }
      var out := InsertYear(ys, y);
      assert out == [ys[0]] + r;
      forall i, j | 0 <= i < j < |out|
        ensures out[i] > out[j]
      {
        assert out[j] == r[j - 1] && out[j] in r;
        if i > 0 {
          assert out[i] == r[i - 1];
        }
      }
    } else if ys != [] && y > ys[0] {
      assert InsertYear(ys, y) == [y] + ys;
      assert forall j :: 0 < j < |ys| ==> ys[0] > ys[j];
    }
  }

  /**
   * The year blocks are exactly the years some hire was made in, other than
   * the falsy year 0, and they come newest first with no year twice.
   */
  lemma {:induction false} YearsOfShape(records: seq<Matched>)
    ensures StrictlyDescending(YearsOf(records))
    ensures forall y :: y in YearsOf(records) <==> y != 0 && YearHires(records, y) != []
  {
    if records != [] {
      var init := records[..|records| - 1];
      var last := records[|records| - 1];
      YearsOfShape(init);
      if last.hire.hireYear != 0 {
        InsertYearDescending(YearsOf(init), last.hire.hireYear);
      }
      forall y
        ensures y in YearsOf(records) <==> y != 0 && YearHires(records, y) != []
      {
      }
    }
  }

  /**
   * `y && y !== 'null' && !isNaN(Number(y))` on a year key, with `Number`
   * read as "is an optionally signed run of decimal digits".
   */
  predicate IsYearKey(key: string) {
    key != "" && key != "null" && IsDecimalText(key)
  }

  /** Every year key passes the page's filter: `String` of a whole number is numeric text. */
  lemma {:induction false} YearKeysPassFilter(y: int)
    ensures IsYearKey(IntToDecimal(y))
  {
    DecimalTextOfInt(y);
    var key := IntToDecimal(y);
    assert key[0] != 'n';
  }

  /**
   * The first `forEach` of `generateReport`: hires with a truthy year are
   * pushed onto the list of their year.
   */
  method GroupByYear(records: seq<Matched>) returns (byYear: map<int, seq<Matched>>)
    ensures forall y :: y in byYear <==> y != 0 && YearHires(records, y) != []
    ensures forall y :: y in byYear ==> byYear[y] == YearHires(records, y)
  {
    byYear := map[];
    var i := 0;
    while i < |records|
      invariant 0 <= i <= |records|
      invariant forall y :: y in byYear <==> y != 0 && YearHires(records[..i], y) != []
      invariant forall y :: y in byYear ==> byYear[y] == YearHires(records[..i], y)
    {
      var row := records[i];
      assert records[..i + 1][..i] == records[..i];
      assert records[..i + 1][i] == row;
      var y := row.hire.hireYear;
      if y != 0 {
        if y !in byYear {
          byYear := byYear[y := []];
        }
        byYear := byYear[y := byYear[y] + [row]];
      }
      i := i + 1;
    }
    assert records[..|records|] == records;
  }

  // ---------------------------------------------------------------------------
  // One year
  // ---------------------------------------------------------------------------

  /** The source map after the conversion pass over a year's hires. */
  function SourceTally(hires: seq<Matched>): seq<Tally> {
    if hires == [] then [] else Bump(SourceTally(hires[..|hires| - 1]), SourceKey(hires[|hires| - 1]))
  }

  /** The brokerage map after the conversion pass over a year's hires. */
  function BrokerageTally(hires: seq<Matched>): seq<Tally> {
    if hires == [] then [] else Bump(BrokerageTally(hires[..|hires| - 1]), BrokerageKey(hires[|hires| - 1]))
  }

  /** Credits one hire's leads to the source map, each under its own source tag. */
  function CreditSources(c: seq<Tally>, ls: seq<LeadRow>): seq<Tally> {
    if ls == [] then c else Credit(CreditSources(c, ls[..|ls| - 1]), LeadSourceKey(ls[|ls| - 1]))
  }

  /** Credits one hire's leads to the brokerage map, each under its label. */
  function CreditBrokerages(c: seq<Tally>, ls: seq<LeadRow>): seq<Tally> {
    if ls == [] then c else Credit(CreditBrokerages(c, ls[..|ls| - 1]), LeadLabel(ls[|ls| - 1]))
  }

  /** The source map after the lead pass over `hires`. */
  function SourcesCredited(c: seq<Tally>, hires: seq<Matched>, leads: seq<LeadRow>): seq<Tally> {
    if hires == [] then c
    else CreditSources(SourcesCredited(c, hires[..|hires| - 1], leads), AgentLeads(hires[|hires| - 1], leads))
  }

  /** The brokerage map after the lead pass over `hires`. */
  function BrokeragesCredited(c: seq<Tally>, hires: seq<Matched>, leads: seq<LeadRow>): seq<Tally> {
    if hires == [] then c
    else CreditBrokerages(BrokeragesCredited(c, hires[..|hires| - 1], leads), AgentLeads(hires[|hires| - 1], leads))
  }

  /** The yearly lead total: the number of (hire, credited lead row) pairs. */
  function YearLeads(hires: seq<Matched>, leads: seq<LeadRow>): nat {
    if hires == [] then 0 else YearLeads(hires[..|hires| - 1], leads) + |AgentLeads(hires[|hires| - 1], leads)|
  }

  function YearRow(y: int, hires: seq<Matched>, leads: seq<LeadRow>): Row {
    Row(IntToDecimal(y), |hires|, YearLeads(hires, leads), RateText(|hires|, YearLeads(hires, leads)))
  }

  function SourceRows(hires: seq<Matched>, leads: seq<LeadRow>): seq<Row> {
    Breakdown(SourcesCredited(SourceTally(hires), hires, leads))
  }

  function BrokerageRows(hires: seq<Matched>, leads: seq<LeadRow>): seq<Row> {
    Breakdown(BrokeragesCredited(BrokerageTally(hires), hires, leads))
  }

  lemma {:induction false} TallyStep(hires: seq<Matched>, i: nat)
    requires i < |hires|
    ensures SourceTally(hires[..i + 1]) == Bump(SourceTally(hires[..i]), SourceKey(hires[i]))
    ensures BrokerageTally(hires[..i + 1]) == Bump(BrokerageTally(hires[..i]), BrokerageKey(hires[i]))
  {
    assert hires[..i + 1][..i] == hires[..i];
  }

  /** The first `hires.forEach` of a year: count the hire and add a conversion to its two buckets. */
  method ConversionPass(hires: seq<Matched>) returns (yearTotalHires: nat, sourceMap: seq<Tally>, brokerageMap: seq<Tally>)
    ensures yearTotalHires == |hires|
    ensures sourceMap == SourceTally(hires)
    ensures brokerageMap == BrokerageTally(hires)
  {
    sourceMap := [];
    brokerageMap := [];
    yearTotalHires := 0;
    var i := 0;
    while i < |hires|
      invariant 0 <= i <= |hires|
      invariant yearTotalHires == i
      invariant sourceMap == SourceTally(hires[..i])
      invariant brokerageMap == BrokerageTally(hires[..i])
    {
      var h := hires[i];
      TallyStep(hires, i);
      yearTotalHires := yearTotalHires + 1;
      sourceMap := Bump(sourceMap, SourceKey(h));
      brokerageMap := Bump(brokerageMap, BrokerageKey(h));
      i := i + 1;
    }
    assert hires[..|hires|] == hires;
  }

  /** The inner `agentLeads.forEach`: credit each lead row to its source and brokerage bucket, if they exist. */
  method CreditAgentLeads(sourceMap: seq<Tally>, brokerageMap: seq<Tally>, agentLeads: seq<LeadRow>)
    returns (sources: seq<Tally>, brokerages: seq<Tally>)
    ensures sources == CreditSources(sourceMap, agentLeads)
    ensures brokerages == CreditBrokerages(brokerageMap, agentLeads)
  {
    sources := sourceMap;
    brokerages := brokerageMap;
    var j := 0;
    while j < |agentLeads|
      invariant 0 <= j <= |agentLeads|
      invariant sources == CreditSources(sourceMap, agentLeads[..j])
      invariant brokerages == CreditBrokerages(brokerageMap, agentLeads[..j])
    {
      var lead := agentLeads[j];
      assert agentLeads[..j + 1][..j] == agentLeads[..j];
      sources := Credit(sources, LeadSourceKey(lead));
      brokerages := Credit(brokerages, LeadLabel(lead));
      j := j + 1;
    }
    assert agentLeads[..|agentLeads|] == agentLeads;
  }

  /** The second `hires.forEach` of a year: find each hire's lead rows, add them to the total and credit them. */
  method LeadPass(hires: seq<Matched>, leads: seq<LeadRow>, sourceMap: seq<Tally>, brokerageMap: seq<Tally>)
    returns (yearTotalLeads: nat, sources: seq<Tally>, brokerages: seq<Tally>)
    ensures yearTotalLeads == YearLeads(hires, leads)
    ensures sources == SourcesCredited(sourceMap, hires, leads)
    ensures brokerages == BrokeragesCredited(brokerageMap, hires, leads)
  {
    yearTotalLeads := 0;
    sources := sourceMap;
    brokerages := brokerageMap;
    var i := 0;
    while i < |hires|
      invariant 0 <= i <= |hires|
      invariant yearTotalLeads == YearLeads(hires[..i], leads)
      invariant sources == SourcesCredited(sourceMap, hires[..i], leads)
      invariant brokerages == BrokeragesCredited(brokerageMap, hires[..i], leads)
    {
      var h := hires[i];
      assert hires[..i + 1][..i] == hires[..i];
      var agentLeads := AgentLeads(h, leads);
      yearTotalLeads := yearTotalLeads + |agentLeads|;
      sources, brokerages := CreditAgentLeads(sources, brokerages, agentLeads);
      i := i + 1;
    }
    assert hires[..|hires|] == hires;
  }

  /**
   * The body of the per-year `forEach`: a conversion pass that counts hires
   * and creates buckets, then a lead pass that credits every matching lead
   * row to the buckets that exist, then the three rows.
   */
  method YearBlock(y: int, hires: seq<Matched>, leads: seq<LeadRow>) returns (yearly: Row, sources: seq<Row>, brokerages: seq<Row>)
    ensures yearly == YearRow(y, hires, leads)
    ensures sources == SourceRows(hires, leads)
    ensures brokerages == BrokerageRows(hires, leads)
  {
    var yearTotalHires, sourceMap, brokerageMap := ConversionPass(hires);
    var yearTotalLeads;
    yearTotalLeads, sourceMap, brokerageMap := LeadPass(hires, leads, sourceMap, brokerageMap);
    yearly := Row(IntToDecimal(y), yearTotalHires, yearTotalLeads, RateText(yearTotalHires, yearTotalLeads));
    sources := Breakdown(sourceMap);
    brokerages := Breakdown(brokerageMap);
  }

  // ---------------------------------------------------------------------------
  // Counting
  // ---------------------------------------------------------------------------

  /** After the conversion pass each map has one conversion per hire, no leads, only active buckets and no name twice. */
  lemma {:induction false} TallyCounts(hires: seq<Matched>)
    ensures SumConversions(SourceTally(hires)) == |hires| && SumLeads(SourceTally(hires)) == 0
    ensures SumConversions(BrokerageTally(hires)) == |hires| && SumLeads(BrokerageTally(hires)) == 0
    ensures AllActive(SourceTally(hires)) && AllActive(BrokerageTally(hires))
    ensures DistinctNames(SourceTally(hires)) && DistinctNames(BrokerageTally(hires))
  {
    if hires != [] {
      var init := hires[..|hires| - 1];
      var last := hires[|hires| - 1];
      TallyCounts(init);
      BumpCounts(SourceTally(init), SourceKey(last));
      BumpCounts(BrokerageTally(init), BrokerageKey(last));
    }
  }

  /** After the conversion pass every hire's brokerage has a bucket. */
  lemma {:induction false} TallyHasEveryBrokerage(hires: seq<Matched>)
    ensures forall m :: m in hires ==> HasName(BrokerageTally(hires), BrokerageKey(m))
  {
    if hires != [] {
      var init := hires[..|hires| - 1];
      var last := hires[|hires| - 1];
      TallyHasEveryBrokerage(init);
      BumpCounts(BrokerageTally(init), BrokerageKey(last));
      forall m | m in hires
        ensures HasName(BrokerageTally(hires), BrokerageKey(m))
      {
        if m != last {
          var k :| 0 <= k < |hires| && hires[k] == m;
          assert init[k] == m;
        }
      }
    }
  }

  /** "Filed under `n` by `key`", as a predicate value. */
  function KeyTest(key: Matched -> string, n: string): Matched -> bool {
    (m: Matched) => key(m) == n
  }

  /** Bumping the key of one more hire keeps a bucket for exactly the keys of the hires so far. */
  lemma {:induction false} BumpFollowsKeys(c: seq<Tally>, hires: seq<Matched>, key: Matched -> string)
    requires hires != []
    requires forall n :: HasName(c, n) <==> exists m :: m in hires[..|hires| - 1] && key(m) == n
    ensures var d := Bump(c, key(hires[|hires| - 1]));
      forall n :: HasName(d, n) <==> exists m :: m in hires && key(m) == n
  {
    var init, last := hires[..|hires| - 1], hires[|hires| - 1];
    var k := key(last);
    var d := Bump(c, k);
    assert hires == init + [last];
    BumpCounts(c, k);
    forall n
      ensures HasName(d, n) <==> exists m :: m in hires && key(m) == n
    {
      if HasName(d, n) && n != k {
        var i :| 0 <= i < |d| && d[i].name == n;
        assert i < |c| && c[i].name == n;
        assert HasName(c, n);
        var m :| m in init && key(m) == n;
        assert m in hires;
      }
      if exists m :: m in hires && key(m) == n {
        var m :| m in hires && key(m) == n;
        if m != last {
          assert m in init;
        }
      }
    }
  }

  /**
   * Bumping the key of one more hire keeps every bucket at one conversion per
   * hire filed under its name.
   */
  lemma {:induction false} BumpFollowsFilter(c: seq<Tally>, hires: seq<Matched>, key: Matched -> string)
    requires hires != [] && DistinctNames(c)
    requires forall n :: HasName(c, n) <==> exists m :: m in hires[..|hires| - 1] && key(m) == n
    requires forall j :: 0 <= j < |c| ==> c[j].conversions == |Filter(KeyTest(key, c[j].name), hires[..|hires| - 1])|
    ensures var d := Bump(c, key(hires[|hires| - 1]));
      forall j :: 0 <= j < |d| ==> d[j].conversions == |Filter(KeyTest(key, d[j].name), hires)|
  {
    var init, last := hires[..|hires| - 1], hires[|hires| - 1];
    var k := key(last);
    var d := Bump(c, k);
    BumpCounts(c, k);
    forall j | 0 <= j < |d|
      ensures d[j].conversions == |Filter(KeyTest(key, d[j].name), hires)|
    {
      var p := KeyTest(key, d[j].name);
      assert |Filter(p, hires)| == |Filter(p, init)| + (if k == d[j].name then 1 else 0);
      if j == |c| {
        assert d[j] == Tally(k, 1, 0);
        assert !HasName(c, k);
        assert forall m :: m in init ==> !p(m);
        FilterNone(p, init);
      }
    }
  }

  /** Both maps of the conversion pass, stated through `Filter`. */
  lemma {:induction false} TallyFilters(hires: seq<Matched>)
    ensures forall n :: HasName(SourceTally(hires), n) <==> exists m :: m in hires && SourceKey(m) == n
    ensures forall n :: HasName(BrokerageTally(hires), n) <==> exists m :: m in hires && BrokerageKey(m) == n
    ensures forall j :: 0 <= j < |SourceTally(hires)| ==>
      SourceTally(hires)[j].conversions == |Filter(KeyTest(SourceKey, SourceTally(hires)[j].name), hires)|
    ensures forall j :: 0 <= j < |BrokerageTally(hires)| ==>
      BrokerageTally(hires)[j].conversions == |Filter(KeyTest(BrokerageKey, BrokerageTally(hires)[j].name), hires)|
  {
    if hires != [] {
      var init := hires[..|hires| - 1];
      TallyFilters(init);
      TallyCounts(init);
      BumpFollowsKeys(SourceTally(init), hires, SourceKey);
      BumpFollowsKeys(BrokerageTally(init), hires, BrokerageKey);
      BumpFollowsFilter(SourceTally(init), hires, SourceKey);
      BumpFollowsFilter(BrokerageTally(init), hires, BrokerageKey);
    }
  }

  /**
   * After the conversion pass each map has a bucket for exactly the keys the
   * year's hires are filed under, and every bucket holds one conversion per
   * hire filed under its name.
   */
  lemma {:induction false} TallyBuckets(hires: seq<Matched>)
    ensures forall n :: HasName(SourceTally(hires), n) <==> exists m :: m in hires && SourceKey(m) == n
    ensures forall n :: HasName(BrokerageTally(hires), n) <==> exists m :: m in hires && BrokerageKey(m) == n
    ensures forall j :: 0 <= j < |SourceTally(hires)| ==>
      SourceTally(hires)[j].conversions == |Positions(KeyTest(SourceKey, SourceTally(hires)[j].name), hires)|
    ensures forall j :: 0 <= j < |BrokerageTally(hires)| ==>
      BrokerageTally(hires)[j].conversions == |Positions(KeyTest(BrokerageKey, BrokerageTally(hires)[j].name), hires)|
  {
    TallyFilters(hires);
    var sources, brokerages := SourceTally(hires), BrokerageTally(hires);
    forall j | 0 <= j < |sources|
      ensures sources[j].conversions == |Positions(KeyTest(SourceKey, sources[j].name), hires)|
    {
      FilterCount(KeyTest(SourceKey, sources[j].name), hires);
    }
    forall j | 0 <= j < |brokerages|
      ensures brokerages[j].conversions == |Positions(KeyTest(BrokerageKey, brokerages[j].name), hires)|
    {
      FilterCount(KeyTest(BrokerageKey, brokerages[j].name), hires);
    }
  }

  /** Crediting keeps names and conversions bucket by bucket. */
  lemma {:induction false} CreditKeepsBuckets(c: seq<Tally>, name: string)
    ensures |Credit(c, name)| == |c|
    ensures forall n :: HasName(Credit(c, name), n) <==> HasName(c, n)
    ensures AllActive(c) ==> AllActive(Credit(c, name))
  {
    CreditCounts(c, name);
    var d := Credit(c, name);
    forall n
      ensures HasName(d, n) <==> HasName(c, n)
    {
      if HasName(c, n) {
        var i :| 0 <= i < |c| && c[i].name == n;
        assert d[i].name == n;
      }
      if HasName(d, n) {
        var i :| 0 <= i < |d| && d[i].name == n;
        assert c[i].name == n;
      }
    }
  }

  /** One hire's lead rows add at most one lead each, no conversion and no bucket. */
  lemma {:induction false} CreditManyCounts(c: seq<Tally>, ls: seq<LeadRow>, sources: bool)
    ensures var d := if sources then CreditSources(c, ls) else CreditBrokerages(c, ls);
      && SumConversions(d) == SumConversions(c)
      && SumLeads(d) <= SumLeads(c) + |ls|
      && (AllActive(c) ==> AllActive(d))
      && (DistinctNames(c) ==> DistinctNames(d))
      && (forall n :: HasName(d, n) <==> HasName(c, n))
  {
    if ls != [] {
      var init := ls[..|ls| - 1];
      CreditManyCounts(c, init, sources);
      var d0 := if sources then CreditSources(c, init) else CreditBrokerages(c, init);
      var key := if sources then LeadSourceKey(ls[|ls| - 1]) else LeadLabel(ls[|ls| - 1]);
      CreditCounts(d0, key);
      CreditKeepsBuckets(d0, key);
    }
  }

  /** When every lead row's label names an existing brokerage bucket, each adds exactly one lead. */
  lemma {:induction false} CreditBrokeragesExact(c: seq<Tally>, ls: seq<LeadRow>)
    requires forall l :: l in ls ==> HasName(c, LeadLabel(l))
    ensures SumLeads(CreditBrokerages(c, ls)) == SumLeads(c) + |ls|
  {
    if ls != [] {
      var init := ls[..|ls| - 1];
      var last := ls[|ls| - 1];
      assert forall l :: l in init ==> l in ls;
      CreditBrokeragesExact(c, init);
      CreditManyCounts(c, init, false);
      CreditCounts(CreditBrokerages(c, init), LeadLabel(last));
    }
  }

  /** The lead pass over a year adds at most the yearly lead total to either map, no conversion and no bucket. */
  lemma {:induction false} LeadPassCounts(c: seq<Tally>, hires: seq<Matched>, leads: seq<LeadRow>)
    ensures SumConversions(SourcesCredited(c, hires, leads)) == SumConversions(c)
    ensures SumConversions(BrokeragesCredited(c, hires, leads)) == SumConversions(c)
    ensures SumLeads(SourcesCredited(c, hires, leads)) <= SumLeads(c) + YearLeads(hires, leads)
    ensures SumLeads(BrokeragesCredited(c, hires, leads)) <= SumLeads(c) + YearLeads(hires, leads)
    ensures AllActive(c) ==> AllActive(SourcesCredited(c, hires, leads)) && AllActive(BrokeragesCredited(c, hires, leads))
    ensures DistinctNames(c) ==> DistinctNames(SourcesCredited(c, hires, leads)) && DistinctNames(BrokeragesCredited(c, hires, leads))
    ensures forall n :: HasName(BrokeragesCredited(c, hires, leads), n) <==> HasName(c, n)
  {
    if hires != [] {
      var init := hires[..|hires| - 1];
      var ls := AgentLeads(hires[|hires| - 1], leads);
      LeadPassCounts(c, init, leads);
      CreditManyCounts(SourcesCredited(c, init, leads), ls, true);
      CreditManyCounts(BrokeragesCredited(c, init, leads), ls, false);
    }
  }

  /**
   * When every hire of the year has a company, every credited lead row's
   * label is a bucket, so the brokerage lead total is the yearly lead total.
   */
  lemma {:induction false} BrokerageLeadsExact(c: seq<Tally>, hires: seq<Matched>, leads: seq<LeadRow>)
    requires forall m :: m in hires ==> m.hire.company != "" && HasName(c, m.hire.company)
    ensures SumLeads(BrokeragesCredited(c, hires, leads)) == SumLeads(c) + YearLeads(hires, leads)
  {
    if hires != [] {
      var init := hires[..|hires| - 1];
      var last := hires[|hires| - 1];
      var ls := AgentLeads(last, leads);
      AgentLeadsMembers(last, leads);
      assert forall m :: m in init ==> m in hires;
      BrokerageLeadsExact(c, init, leads);
      LeadPassCounts(c, init, leads);
      var d := BrokeragesCredited(c, init, leads);
      assert HasName(d, last.hire.company);
      forall l | l in ls
        ensures HasName(d, LeadLabel(l))
      {
        assert IsAgentLead(last, l);
      }
      CreditBrokeragesExact(d, ls);
    }
  }

  /**
   * Conservation within a year: the yearly conversions are the year's hire
   * count, and so are the conversion totals of the source rows and of the
   * brokerage rows; neither breakdown credits more leads than the yearly
   * total; both are sorted, keep every bucket and name each bucket once.
   */
  lemma {:induction false} YearBlockCounts(y: int, hires: seq<Matched>, leads: seq<LeadRow>)
    ensures YearRow(y, hires, leads).conversions == |hires|
    ensures RowConversions(SourceRows(hires, leads)) == |hires|
    ensures RowConversions(BrokerageRows(hires, leads)) == |hires|
    ensures RowLeads(SourceRows(hires, leads)) <= YearLeads(hires, leads)
    ensures RowLeads(BrokerageRows(hires, leads)) <= YearLeads(hires, leads)
    ensures SortedRows(SourceRows(hires, leads)) && SortedRows(BrokerageRows(hires, leads))
    ensures |SourceRows(hires, leads)| == |SourcesCredited(SourceTally(hires), hires, leads)|
    ensures |BrokerageRows(hires, leads)| == |BrokeragesCredited(BrokerageTally(hires), hires, leads)|
    ensures DistinctRowNames(SourceRows(hires, leads)) && DistinctRowNames(BrokerageRows(hires, leads))
  {
    TallyCounts(hires);
    LeadPassCounts(SourceTally(hires), hires, leads);
    LeadPassCounts(BrokerageTally(hires), hires, leads);
    var s := SourcesCredited(SourceTally(hires), hires, leads);
    var b := BrokeragesCredited(BrokerageTally(hires), hires, leads);
    BreakdownOfActive(s);
    BreakdownOfActive(b);
    BreakdownDistinct(s);
    BreakdownDistinct(b);
    assert |multiset(Breakdown(s))| == |multiset(RowsOf(s))|;
    assert |multiset(Breakdown(b))| == |multiset(RowsOf(b))|;
  }

  /** When every hire of the year has a company, the brokerage rows account for every yearly lead. */
  lemma {:induction false} BrokerageRowsAccountForLeads(hires: seq<Matched>, leads: seq<LeadRow>)
    requires forall m :: m in hires ==> m.hire.company != ""
    ensures RowLeads(BrokerageRows(hires, leads)) == YearLeads(hires, leads)
  {
    TallyCounts(hires);
    TallyHasEveryBrokerage(hires);
    var t := BrokerageTally(hires);
    forall m | m in hires
      ensures HasName(t, m.hire.company)
    {
      assert BrokerageKey(m) == m.hire.company;
    }
    BrokerageLeadsExact(t, hires, leads);
    LeadPassCounts(t, hires, leads);
    BreakdownOfActive(BrokeragesCredited(t, hires, leads));
  }

  // ---------------------------------------------------------------------------
  // The report
  // ---------------------------------------------------------------------------

  function YearlyRows(ys: seq<int>, records: seq<Matched>, leads: seq<LeadRow>): seq<Row> {
    if ys == [] then []
    else
      var y := ys[|ys| - 1];
      YearlyRows(ys[..|ys| - 1], records, leads) + [YearRow(y, YearHires(records, y), leads)]
  }

  function BrokerageBlocks(ys: seq<int>, records: seq<Matched>, leads: seq<LeadRow>): seq<Block> {
    if ys == [] then []
    else
      var y := ys[|ys| - 1];
      BrokerageBlocks(ys[..|ys| - 1], records, leads) + [Block(IntToDecimal(y), BrokerageRows(YearHires(records, y), leads))]
  }

  function SourceBlocks(ys: seq<int>, records: seq<Matched>, leads: seq<LeadRow>): seq<Block> {
    if ys == [] then []
    else
      var y := ys[|ys| - 1];
      SourceBlocks(ys[..|ys| - 1], records, leads) + [Block(IntToDecimal(y), SourceRows(YearHires(records, y), leads))]
  }

  lemma {:induction false} YearlyStep(ys: seq<int>, y: int, records: seq<Matched>, leads: seq<LeadRow>)
    ensures YearlyRows(ys + [y], records, leads) == YearlyRows(ys, records, leads) + [YearRow(y, YearHires(records, y), leads)]
  {
    assert (ys + [y])[..|ys|] == ys;
  }

  lemma {:induction false} BrokerageStep(ys: seq<int>, y: int, records: seq<Matched>, leads: seq<LeadRow>)
    ensures BrokerageBlocks(ys + [y], records, leads)
         == BrokerageBlocks(ys, records, leads) + [Block(IntToDecimal(y), BrokerageRows(YearHires(records, y), leads))]
  {
    assert (ys + [y])[..|ys|] == ys;
  }

  lemma {:induction false} SourceStep(ys: seq<int>, y: int, records: seq<Matched>, leads: seq<LeadRow>)
    ensures SourceBlocks(ys + [y], records, leads)
         == SourceBlocks(ys, records, leads) + [Block(IntToDecimal(y), SourceRows(YearHires(records, y), leads))]
  {
    assert (ys + [y])[..|ys|] == ys;
  }

  /** Position `i` of the yearly list is the row of year `ys[i]`. */
  lemma {:induction false} YearlyAt(ys: seq<int>, records: seq<Matched>, leads: seq<LeadRow>)
    ensures |YearlyRows(ys, records, leads)| == |ys|
    ensures forall i :: 0 <= i < |ys| ==> YearlyRows(ys, records, leads)[i] == YearRow(ys[i], YearHires(records, ys[i]), leads)
  {
    if ys != [] {
      var init := ys[..|ys| - 1];
      YearlyAt(init, records, leads);
      assert ys == init + [ys[|ys| - 1]];
      YearlyStep(init, ys[|ys| - 1], records, leads);
    }
  }

  /** Position `i` of the brokerage list is the block of year `ys[i]`: its label and the rows of that year's hires. */
  lemma {:induction false} BrokerageBlocksAt(ys: seq<int>, records: seq<Matched>, leads: seq<LeadRow>)
    ensures |BrokerageBlocks(ys, records, leads)| == |ys|
    ensures forall i :: 0 <= i < |ys| ==> BrokerageBlocks(ys, records, leads)[i].year == IntToDecimal(ys[i])
    ensures forall i :: 0 <= i < |ys| ==> BrokerageBlocks(ys, records, leads)[i].rows == BrokerageRows(YearHires(records, ys[i]), leads)
  {
    if ys != [] {
      var init, y := ys[..|ys| - 1], ys[|ys| - 1];
      BrokerageBlocksAt(init, records, leads);
      var before, after := BrokerageBlocks(init, records, leads), BrokerageBlocks(ys, records, leads);
      assert |after| == |before| + 1 && after[|init|] == Block(IntToDecimal(y), BrokerageRows(YearHires(records, y), leads));
      forall i | 0 <= i < |ys|
        ensures after[i].year == IntToDecimal(ys[i])
        ensures after[i].rows == BrokerageRows(YearHires(records, ys[i]), leads)
      {
        if i < |init| {
          assert after[i] == before[i];
        }
      }
    }
  }

  /** Position `i` of the source list is the block of year `ys[i]`: its label and the rows of that year's hires. */
  lemma {:induction false} SourceBlocksAt(ys: seq<int>, records: seq<Matched>, leads: seq<LeadRow>)
    ensures |SourceBlocks(ys, records, leads)| == |ys|
    ensures forall i :: 0 <= i < |ys| ==> SourceBlocks(ys, records, leads)[i].year == IntToDecimal(ys[i])
    ensures forall i :: 0 <= i < |ys| ==> SourceBlocks(ys, records, leads)[i].rows == SourceRows(YearHires(records, ys[i]), leads)
  {
    if ys != [] {
      var init, y := ys[..|ys| - 1], ys[|ys| - 1];
      SourceBlocksAt(init, records, leads);
      var before, after := SourceBlocks(init, records, leads), SourceBlocks(ys, records, leads);
      assert |after| == |before| + 1 && after[|init|] == Block(IntToDecimal(y), SourceRows(YearHires(records, y), leads));
      forall i | 0 <= i < |ys|
        ensures after[i].year == IntToDecimal(ys[i])
        ensures after[i].rows == SourceRows(YearHires(records, ys[i]), leads)
      {
        if i < |init| {
          assert after[i] == before[i];
        }
      }
    }
  }

  /**
   * The report of the page, or `None` when it returns early: no hires, or no
   * lead rows loaded. Otherwise the three lists have one entry per year.
   */
  function ReportOf(records: seq<Matched>, leadsRaw: Option<seq<LeadRow>>): (r: Option<Report>)
    ensures r.None? <==> records == [] || leadsRaw.None?
    ensures r.Some? ==> |r.value.yearly| == |r.value.brokeragesByYear| == |r.value.sourcesByYear| == |YearsOf(records)|
  {
    if |records| == 0 || leadsRaw.None? then None
    else
      var ys := YearsOf(records);
      YearlyAt(ys, records, leadsRaw.value);
      BrokerageBlocksAt(ys, records, leadsRaw.value);
      SourceBlocksAt(ys, records, leadsRaw.value);
      Some(Report(YearlyRows(ys, records, leadsRaw.value),
                  BrokerageBlocks(ys, records, leadsRaw.value),
                  SourceBlocks(ys, records, leadsRaw.value)))
  }

  /**
   * `generateReport`: group the hires by year, then build the three lists one
   * year at a time, newest year first.
   */
  method GenerateReport(records: seq<Matched>, leadsRaw: Option<seq<LeadRow>>) returns (report: Option<Report>)
    ensures report == ReportOf(records, leadsRaw)
  {
    if |records| == 0 || leadsRaw.None? {
      return None;
    }
    var byYear := GroupByYear(records);
    var years := YearsOf(records);
    YearsOfShape(records);
    var yearly, brokeragesByYear, sourcesByYear := BuildBlocks(records, leadsRaw.value, byYear, years);
    report := Some(Report(yearly, brokeragesByYear, sourcesByYear));
  }

  /** The year loop of `generateReport`: one year block per year, pushed onto the three lists. */
  method BuildBlocks(records: seq<Matched>, leads: seq<LeadRow>, byYear: map<int, seq<Matched>>, years: seq<int>)
    returns (yearly: seq<Row>, brokeragesByYear: seq<Block>, sourcesByYear: seq<Block>)
    requires forall y :: y in years ==> y in byYear && byYear[y] == YearHires(records, y)
    ensures yearly == YearlyRows(years, records, leads)
    ensures brokeragesByYear == BrokerageBlocks(years, records, leads)
    ensures sourcesByYear == SourceBlocks(years, records, leads)
  {
    yearly := [];
    brokeragesByYear := [];
    sourcesByYear := [];
    for k := 0 to |years|
      invariant yearly == YearlyRows(years[..k], records, leads)
      invariant brokeragesByYear == BrokerageBlocks(years[..k], records, leads)
      invariant sourcesByYear == SourceBlocks(years[..k], records, leads)
    {
      var year := years[k];
      assert year in years;
      var hires := byYear[year];
      var row, sources, brokerages := YearBlock(year, hires, leads);
      YearlyStep(years[..k], year, records, leads);
      BrokerageStep(years[..k], year, records, leads);
      SourceStep(years[..k], year, records, leads);
      yearly := yearly + [row];
      brokeragesByYear := brokeragesByYear + [Block(IntToDecimal(year), brokerages)];
      sourcesByYear := sourcesByYear + [Block(IntToDecimal(year), sources)];
      assert years[..k + 1] == years[..k] + [year];
    }
    assert years[..|years|] == years;
  }

  /**
   * The shape of a report: the three lists run over the same years, newest
   * first, and each year's yearly conversions are its number of hires.
   */
  lemma {:induction false} ReportShape(records: seq<Matched>, leadsRaw: Option<seq<LeadRow>>)
    requires ReportOf(records, leadsRaw).Some?
    ensures var r := ReportOf(records, leadsRaw).value;
      && |r.yearly| == |r.brokeragesByYear| == |r.sourcesByYear| == |YearsOf(records)|
      && (forall i :: 0 <= i < |r.yearly| ==>
            r.yearly[i].name == r.brokeragesByYear[i].year == r.sourcesByYear[i].year
            && r.yearly[i].conversions == |YearHires(records, YearsOf(records)[i])|
            && ParseInt(r.yearly[i].name) == Some(YearsOf(records)[i]))
  {
    var ys := YearsOf(records);
    YearlyAt(ys, records, leadsRaw.value);
    BrokerageBlocksAt(ys, records, leadsRaw.value);
    SourceBlocksAt(ys, records, leadsRaw.value);
    forall i | 0 <= i < |ys|
      ensures ParseInt(IntToDecimal(ys[i])) == Some(ys[i])
    {
      ParseIntOfDecimal(ys[i]);
    }
  }

  /**
   * Conservation across the report: in every year block the source rows and
   * the brokerage rows each add up to the yearly conversions, which is the
   * number of that year's hires; neither adds up to more than the yearly
   * leads; both are sorted and name each bucket once.
   */
  lemma {:induction false} ReportConservation(records: seq<Matched>, leadsRaw: Option<seq<LeadRow>>)
    requires ReportOf(records, leadsRaw).Some?
    ensures var r := ReportOf(records, leadsRaw).value;
      && |r.sourcesByYear| == |r.brokeragesByYear| == |r.yearly|
      && forall i :: 0 <= i < |r.yearly| ==>
        var sources, brokerages := r.sourcesByYear[i].rows, r.brokeragesByYear[i].rows;
        && RowConversions(sources) == r.yearly[i].conversions
        && RowConversions(brokerages) == r.yearly[i].conversions
        && RowLeads(sources) <= r.yearly[i].leads
        && RowLeads(brokerages) <= r.yearly[i].leads
        && SortedRows(sources) && SortedRows(brokerages)
        && DistinctRowNames(sources) && DistinctRowNames(brokerages)
  {
    var ys, leads := YearsOf(records), leadsRaw.value;
    var r := ReportOf(records, leadsRaw).value;
    YearlyAt(ys, records, leads);
    BrokerageBlocksAt(ys, records, leads);
    SourceBlocksAt(ys, records, leads);
    forall i | 0 <= i < |r.yearly|
      ensures RowConversions(r.sourcesByYear[i].rows) == r.yearly[i].conversions
      ensures RowConversions(r.brokeragesByYear[i].rows) == r.yearly[i].conversions
      ensures RowLeads(r.sourcesByYear[i].rows) <= r.yearly[i].leads
      ensures RowLeads(r.brokeragesByYear[i].rows) <= r.yearly[i].leads
      ensures SortedRows(r.sourcesByYear[i].rows) && SortedRows(r.brokeragesByYear[i].rows)
      ensures DistinctRowNames(r.sourcesByYear[i].rows) && DistinctRowNames(r.brokeragesByYear[i].rows)
    {
      YearBlockCounts(ys[i], YearHires(records, ys[i]), leads);
    }
  }
}
