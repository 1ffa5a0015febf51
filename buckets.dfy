/**
 * The per-year counter maps of `generateReport` and the rows they become.
 *
 * A JavaScript `Map` iterates in insertion order, so a counter map is a
 * sequence of tallies with distinct names, in the order the names were first
 * set. `Bump` is "create with zero counts if absent, then add one conversion";
 * `Credit` is "add one lead if present, otherwise do nothing".
 */
module Buckets {
  import opened Wrappers
  import opened Text

  /** One map entry: a bucket name with its two counters. */
  datatype Tally = Tally(name: string, conversions: nat, leads: nat)

  /** One output row: name, counters and the formatted rate. */
  datatype Row = Row(name: string, conversions: nat, leads: nat, rate: string)

  predicate DistinctNames(c: seq<Tally>) {
    forall i, j :: 0 <= i < j < |c| ==> c[i].name != c[j].name
  }

  /** Every bucket has had at least one conversion. */
  predicate AllActive(c: seq<Tally>) {
    forall i :: 0 <= i < |c| ==> c[i].conversions >= 1
  }

  predicate HasName(c: seq<Tally>, name: string) {
    exists i :: 0 <= i < |c| && c[i].name == name
  }

  /** `map.has(name)`, with the position of the entry. */
  function Find(c: seq<Tally>, name: string): (r: Option<nat>)
    ensures r.Some? ==> r.value < |c| && c[r.value].name == name
    ensures r.None? <==> !HasName(c, name)
  {
    if c == [] then None
    else if c[|c| - 1].name == name then Some(|c| - 1)
    else
      var r := Find(c[..|c| - 1], name);
      assert forall i :: 0 <= i < |c| - 1 ==> c[..|c| - 1][i] == c[i];
      r
  }

  function SumConversions(c: seq<Tally>): nat {
    if c == [] then 0 else SumConversions(c[..|c| - 1]) + c[|c| - 1].conversions
  }

  function SumLeads(c: seq<Tally>): nat {
    if c == [] then 0 else SumLeads(c[..|c| - 1]) + c[|c| - 1].leads
  }

  /** `if (!map.has(name)) map.set(name, {0, 0}); map.get(name).conversions += 1`. */
  function Bump(c: seq<Tally>, name: string): (r: seq<Tally>)
    ensures HasName(r, name)
    ensures |r| == if HasName(c, name) then |c| else |c| + 1
  {
    match Find(c, name)
    case None =>
      var r := c + [Tally(name, 1, 0)];
      assert r[|c|].name == name;
      r
    case Some(i) =>
      var r := c[i := c[i].(conversions := c[i].conversions + 1)];
      assert r[i].name == name;
      r
  }

  /** `if (map.has(name)) map.get(name).leads += 1`. */
  function Credit(c: seq<Tally>, name: string): (r: seq<Tally>)
    ensures |r| == |c|
    ensures forall i :: 0 <= i < |c| ==> r[i].name == c[i].name && r[i].conversions == c[i].conversions
  {
    match Find(c, name)
    case None => c
    case Some(i) => c[i := c[i].(leads := c[i].leads + 1)]
  }

  /** Replacing one entry changes each sum by the difference at that entry. */
  lemma {:induction false} SumsOfUpdate(c: seq<Tally>, i: nat, t: Tally)
    requires i < |c|
    ensures SumConversions(c[i := t]) == SumConversions(c) - c[i].conversions + t.conversions
    ensures SumLeads(c[i := t]) == SumLeads(c) - c[i].leads + t.leads
  {
    var d := c[i := t];
    if i < |c| - 1 {
      assert d[..|d| - 1] == c[..|c| - 1][i := t];
      SumsOfUpdate(c[..|c| - 1], i, t);
    } else {
      assert d[..|d| - 1] == c[..|c| - 1];
    }
  }

  lemma {:induction false} SumsOfAppend(c: seq<Tally>, t: Tally)
    ensures SumConversions(c + [t]) == SumConversions(c) + t.conversions
    ensures SumLeads(c + [t]) == SumLeads(c) + t.leads
  {
    assert (c + [t])[..|c|] == c;
  }

  /**
   * Counting a conversion adds exactly one conversion, no lead, keeps names
   * distinct and every bucket active, and leaves `name` in the map: a new
   * bucket `{name, 1, 0}` at the end when `name` is absent, otherwise one more
   * conversion in the bucket called `name` and no other change.
   */
  lemma {:induction false} BumpCounts(c: seq<Tally>, name: string)
    ensures SumConversions(Bump(c, name)) == SumConversions(c) + 1
    ensures SumLeads(Bump(c, name)) == SumLeads(c)
    ensures DistinctNames(c) ==> DistinctNames(Bump(c, name))
    ensures AllActive(c) ==> AllActive(Bump(c, name))
    ensures HasName(Bump(c, name), name)
    ensures forall n :: HasName(c, n) ==> HasName(Bump(c, name), n)
    ensures !HasName(c, name) ==> Bump(c, name) == c + [Tally(name, 1, 0)]
    ensures DistinctNames(c) && HasName(c, name) ==>
      && |Bump(c, name)| == |c|
      && forall j :: 0 <= j < |c| ==>
           Bump(c, name)[j] == (if c[j].name == name then c[j].(conversions := c[j].conversions + 1) else c[j])
  {
    var d := Bump(c, name);
    match Find(c, name)
    case None =>
      assert d == c + [Tally(name, 1, 0)];
      SumsOfAppend(c, Tally(name, 1, 0));
      assert d[|c|].name == name;
      forall n | HasName(c, n)
        ensures HasName(d, n)
      {
        var i :| 0 <= i < |c| && c[i].name == n;
        assert d[i].name == n;
      }
    case Some(i) =>
      var t := c[i].(conversions := c[i].conversions + 1);
      assert d == c[i := t];
      SumsOfUpdate(c, i, t);
      if DistinctNames(c) {
        UpdateNamed(c, i, t);
      }
      forall n | HasName(c, n)
        ensures HasName(d, n)
      {
        var j :| 0 <= j < |c| && c[j].name == n;
        assert d[j].name == n;
      }
  }

  /** Replacing the entry at `i` by one of the same name touches only the entry of that name. */
  lemma {:induction false} UpdateNamed(c: seq<Tally>, i: nat, t: Tally)
    requires DistinctNames(c) && i < |c| && t.name == c[i].name
    ensures DistinctNames(c[i := t])
    ensures forall j :: 0 <= j < |c| ==> c[i := t][j] == (if c[j].name == t.name then t else c[j])
  {
    assert forall j :: 0 <= j < |c| && c[j].name == t.name ==> j == i;
  }

  /**
   * Crediting a lead adds one lead exactly when the bucket exists, never a
   * conversion, and keeps the names: one more lead in the bucket called
   * `name`, no other change, and no change at all when there is none.
   */
  lemma {:induction false} CreditCounts(c: seq<Tally>, name: string)
    ensures SumLeads(Credit(c, name)) == SumLeads(c) + (if HasName(c, name) then 1 else 0)
    ensures SumConversions(Credit(c, name)) == SumConversions(c)
    ensures |Credit(c, name)| == |c|
    ensures forall i :: 0 <= i < |c| ==> Credit(c, name)[i].name == c[i].name
    ensures forall i :: 0 <= i < |c| ==> Credit(c, name)[i].conversions == c[i].conversions
    ensures !HasName(c, name) ==> Credit(c, name) == c
    ensures DistinctNames(c) ==> DistinctNames(Credit(c, name))
    ensures DistinctNames(c) ==> forall j :: 0 <= j < |c| ==>
      Credit(c, name)[j] == (if c[j].name == name then c[j].(leads := c[j].leads + 1) else c[j])
  {
    var f := Find(c, name);
    if f.Some? {
      var i := f.value;
      var t := c[i].(leads := c[i].leads + 1);
      assert Credit(c, name) == c[i := t];
      SumsOfUpdate(c, i, t);
      if DistinctNames(c) {
        UpdateNamed(c, i, t);
      }
    } else {
      assert Credit(c, name) == c;
    }
  }

  // ---------------------------------------------------------------------------
  // Rates
  // ---------------------------------------------------------------------------

  /**
   * The rate `conversions / leads * 100` in hundredths of a percent, rounded
   * to the nearest hundredth with ties going up, as `toFixed(2)` does on the
   * exact value.
   */
  function RateHundredths(conversions: nat, leads: nat): nat
    requires leads > 0
  {
    (20000 * conversions + leads) / (2 * leads)
  }

  /** `n` hundredths of a percent as text: the whole percent, a dot, two digits and `%`. */
  function PercentText(n: nat): (r: string)
    ensures |r| >= 5 && r[|r| - 4] == '.' && r[|r| - 1] == '%'
    ensures forall i :: |r| - 3 <= i < |r| - 1 ==> IsDigit(r[i])
  {
    PadTwoOfSmall(n % 100);
    IntToDecimal(n / 100) + "." + PadTwo(IntToDecimal(n % 100)) + "%"
  }

  /**
   * The percent text reads back as its value: the part before the dot is the
   * whole percent and the two digits after it are the remaining hundredths.
   */
  lemma {:induction false} PercentTextValue(n: nat)
    ensures var r := PercentText(n);
      && ParseInt(r[..|r| - 4]) == Some(n / 100)
      && AllDigits(r[|r| - 3..|r| - 1]) && DigitsValue(r[|r| - 3..|r| - 1]) == n % 100
  {
    var whole, cents := IntToDecimal(n / 100), PadTwo(IntToDecimal(n % 100));
    PadTwoOfSmall(n % 100);
    ParseIntOfDecimal(n / 100);
    var r := PercentText(n);
    assert r == whole + "." + cents + "%";
    assert r[..|r| - 4] == whole;
    assert r[|r| - 3..|r| - 1] == cents;
  }

  /** The rate column: "0.00%" when there are no leads, so the page never divides by zero. */
  function RateText(conversions: nat, leads: nat): (r: string)
    ensures |r| >= 5 && r[|r| - 4] == '.' && r[|r| - 1] == '%'
    ensures forall i :: |r| - 3 <= i < |r| - 1 ==> IsDigit(r[i])
  {
    if leads > 0 then PercentText(RateHundredths(conversions, leads)) else "0.00%"
  }

  /**
   * With leads, the rate text spells out the rounded rate: whole percent
   * before the dot, the remaining hundredths as the two digits after it.
   */
  lemma {:induction false} RateTextValue(conversions: nat, leads: nat)
    requires leads > 0
    ensures var r, n := RateText(conversions, leads), RateHundredths(conversions, leads);
      && ParseInt(r[..|r| - 4]) == Some(n / 100)
      && AllDigits(r[|r| - 3..|r| - 1]) && DigitsValue(r[|r| - 3..|r| - 1]) == n % 100
  {
    PercentTextValue(RateHundredths(conversions, leads));
  }

  /** The rounded rate is within half a hundredth of a percent of the exact ratio. */
  lemma {:induction false} RateIsNearest(conversions: nat, leads: nat)
    requires leads > 0
    ensures var n := RateHundredths(conversions, leads);
      20000 * conversions - leads < 2 * leads * n <= 20000 * conversions + leads
  {
    var x := 20000 * conversions + leads;
    var d := 2 * leads;
    var n := x / d;
    assert x == d * n + x % d;
    assert 0 <= x % d < d;
  }

  /** With no leads the rate is "0.00%", which is also how zero hundredths of a percent are written. */
  lemma {:induction false} RateOfNoLeads(conversions: nat)
    ensures RateText(conversions, 0) == "0.00%" == PercentText(0)
  {
    var zero := IntToDecimal(0);
    assert zero == "0";
    assert PadTwo(zero) == "00";
  }

  // ---------------------------------------------------------------------------
  // Rows: map, filter, sort
  // ---------------------------------------------------------------------------

  function RowOf(t: Tally): Row {
    Row(t.name, t.conversions, t.leads, RateText(t.conversions, t.leads))
  }

  /** `Array.from(map.entries()).map(...)`: one row per bucket, in map order. */
  function RowsOf(c: seq<Tally>): (rs: seq<Row>)
    ensures |rs| == |c|
    ensures forall i :: 0 <= i < |c| ==> rs[i] == RowOf(c[i])
  {
    if c == [] then [] else RowsOf(c[..|c| - 1]) + [RowOf(c[|c| - 1])]
  }

  function RowConversions(rs: seq<Row>): nat {
    if rs == [] then 0 else RowConversions(rs[..|rs| - 1]) + rs[|rs| - 1].conversions
  }

  function RowLeads(rs: seq<Row>): nat {
    if rs == [] then 0 else RowLeads(rs[..|rs| - 1]) + rs[|rs| - 1].leads
  }

  /** `.filter(item => item.conversions > 0 || item.leads > 0)`. */
  function KeepActive(rs: seq<Row>): seq<Row>
  {
    if rs == [] then []
    else
      var last := rs[|rs| - 1];
      KeepActive(rs[..|rs| - 1]) + (if last.conversions > 0 || last.leads > 0 then [last] else [])
  }

  /** The comparator `b.conversions - a.conversions || b.leads - a.leads` is negative. */
  predicate RanksBefore(a: Row, b: Row) {
    a.conversions > b.conversions || (a.conversions == b.conversions && a.leads > b.leads)
  }

  /** No two rows share a name. */
  predicate DistinctRowNames(rs: seq<Row>) {
    forall i, j :: 0 <= i < j < |rs| ==> rs[i].name != rs[j].name
  }

  predicate SortedRows(rs: seq<Row>) {
    forall i, j :: 0 <= i < j < |rs| ==> !RanksBefore(rs[j], rs[i])
  }

  /** Places `x` after every row it does not rank before, so equal rows keep their order. */
  function InsertRow(s: seq<Row>, x: Row): seq<Row>
  {
    if s == [] then [x]
    else if RanksBefore(x, s[|s| - 1]) then InsertRow(s[..|s| - 1], x) + [s[|s| - 1]]
    else s + [x]
  }

  lemma {:induction false} InsertRowPermutes(s: seq<Row>, x: Row)
    ensures multiset(InsertRow(s, x)) == multiset(s) + multiset{x}
  {
    if s != [] && RanksBefore(x, s[|s| - 1]) {
      InsertRowPermutes(s[..|s| - 1], x);
      assert s == s[..|s| - 1] + [s[|s| - 1]];
    }
  }

  /** The stable sort of the page (ECMAScript's `Array.prototype.sort` is stable). */
  function SortRows(rs: seq<Row>): seq<Row>
  {
    if rs == [] then [] else InsertRow(SortRows(rs[..|rs| - 1]), rs[|rs| - 1])
  }

  /** Sorting is a permutation of the rows. */
  lemma {:induction false} SortRowsPermutes(rs: seq<Row>)
    ensures multiset(SortRows(rs)) == multiset(rs)
  {
    if rs != [] {
      var init, last := rs[..|rs| - 1], rs[|rs| - 1];
      SortRowsPermutes(init);
      InsertRowPermutes(SortRows(init), last);
      assert rs == init + [last];
      assert multiset(rs) == multiset(init) + multiset{last};
    }
  }

  lemma {:induction false} InsertRowSorted(s: seq<Row>, x: Row)
    requires SortedRows(s)
    ensures SortedRows(InsertRow(s, x))
  {
    if s != [] {
      var init := s[..|s| - 1];
      var last := s[|s| - 1];
      if RanksBefore(x, last) {
        InsertRowSorted(init, x);
        InsertRowPermutes(init, x);
        var r := InsertRow(init, x);
        forall e | e in r
          ensures !RanksBefore(last, e)
        {
          assert e in multiset(r);
          if e != x {
            assert e in multiset(init);
            var k :| 0 <= k < |init| && init[k] == e;
            assert s[k] == e;
          }
        }
      }
    }
  }

  /** The bucket lists come out ordered by conversions, then by leads, both descending. */
  lemma {:induction false} SortRowsSorted(rs: seq<Row>)
    ensures SortedRows(SortRows(rs))
  {
    if rs != [] {
      SortRowsSorted(rs[..|rs| - 1]);
      InsertRowSorted(SortRows(rs[..|rs| - 1]), rs[|rs| - 1]);
    }
  }

  /** Rows already in order are left exactly as they are. */
  lemma {:induction false} SortRowsOfSorted(rs: seq<Row>)
    requires SortedRows(rs)
    ensures SortRows(rs) == rs
  {
    if rs != [] {
      var init := rs[..|rs| - 1];
      SortRowsOfSorted(init);
      assert rs == init + [rs[|rs| - 1]];
    }
  }

  lemma {:induction false} InsertRowSums(s: seq<Row>, x: Row)
    ensures RowConversions(InsertRow(s, x)) == RowConversions(s) + x.conversions
    ensures RowLeads(InsertRow(s, x)) == RowLeads(s) + x.leads
  {
    if s != [] && RanksBefore(x, s[|s| - 1]) {
      var r := InsertRow(s[..|s| - 1], x);
      InsertRowSums(s[..|s| - 1], x);
      assert (r + [s[|s| - 1]])[..|r|] == r;
    } else {
      assert (s + [x])[..|s|] == s;
    }
  }

  /** Sorting moves rows but keeps both column totals. */
  lemma {:induction false} SortRowsSums(rs: seq<Row>)
    ensures RowConversions(SortRows(rs)) == RowConversions(rs)
    ensures RowLeads(SortRows(rs)) == RowLeads(rs)
  {
    if rs != [] {
      SortRowsSums(rs[..|rs| - 1]);
      InsertRowSums(SortRows(rs[..|rs| - 1]), rs[|rs| - 1]);
    }
  }

  /** One bucket list of a year block: rows in map order, active ones kept, sorted. */
  function Breakdown(c: seq<Tally>): seq<Row> {
    SortRows(KeepActive(RowsOf(c)))
  }

  /** The rows carry the map's counters: the same conversion and lead totals. */
  lemma {:induction false} RowsOfCounts(c: seq<Tally>)
    ensures RowConversions(RowsOf(c)) == SumConversions(c)
    ensures RowLeads(RowsOf(c)) == SumLeads(c)
  {
    if c != [] {
      var init := c[..|c| - 1];
      RowsOfCounts(init);
      assert RowsOf(c)[..|init|] == RowsOf(init);
    }
  }

  /** The activity filter drops nothing when every row has a conversion. */
  lemma {:induction false} KeepActiveKeepsAll(rs: seq<Row>)
    requires forall i :: 0 <= i < |rs| ==> rs[i].conversions >= 1
    ensures KeepActive(rs) == rs
  {
    if rs != [] {
      KeepActiveKeepsAll(rs[..|rs| - 1]);
      assert rs == rs[..|rs| - 1] + [rs[|rs| - 1]];
    }
  }

  /**
   * For a map where every bucket was created by a conversion, the bucket list
   * keeps every bucket, is sorted, and has the map's totals.
   */
  lemma {:induction false} BreakdownOfActive(c: seq<Tally>)
    requires AllActive(c)
    ensures SortedRows(Breakdown(c))
    ensures multiset(Breakdown(c)) == multiset(RowsOf(c))
    ensures RowConversions(Breakdown(c)) == SumConversions(c)
    ensures RowLeads(Breakdown(c)) == SumLeads(c)
  {
    RowsOfCounts(c);
    KeepActiveKeepsAll(RowsOf(c));
    SortRowsSorted(RowsOf(c));
    SortRowsPermutes(RowsOf(c));
    SortRowsSums(RowsOf(c));
  }

  /** The activity filter only drops rows. */
  lemma {:induction false} KeepActiveMembers(rs: seq<Row>)
    ensures forall r :: r in KeepActive(rs) ==> r in rs
  {
    if rs != [] {
      var init := rs[..|rs| - 1];
      KeepActiveMembers(init);
      assert forall r :: r in init ==> r in rs;
    }
  }

  /** Inserting a row whose name is new keeps the names distinct. */
  lemma {:induction false} InsertRowDistinct(s: seq<Row>, x: Row)
    requires DistinctRowNames(s)
    requires forall r :: r in s ==> r.name != x.name
    ensures DistinctRowNames(InsertRow(s, x))
  {
    if s != [] && RanksBefore(x, s[|s| - 1]) {
      var init, last := s[..|s| - 1], s[|s| - 1];
      assert forall r :: r in init ==> r in s;
      InsertRowDistinct(init, x);
      InsertRowPermutes(init, x);
      var r := InsertRow(init, x);
      var out := r + [last];
      assert InsertRow(s, x) == out;
      forall i, j | 0 <= i < j < |out|
        ensures out[i].name != out[j].name
      {
        if j == |r| {
          assert out[i] in multiset(init) + multiset{x};
          if out[i] != x {
            var k :| 0 <= k < |init| && init[k] == out[i];
            assert s[k] == out[i];
          }
        } else {
          assert out[i] == r[i] && out[j] == r[j];
        }
      }
    } else if s != [] {
      assert InsertRow(s, x) == s + [x];
    }
  }

  /** Sorting rows with distinct names gives rows with distinct names. */
  lemma {:induction false} SortRowsDistinct(rs: seq<Row>)
    requires DistinctRowNames(rs)
    ensures DistinctRowNames(SortRows(rs))
  {
    if rs != [] {
      var init, last := rs[..|rs| - 1], rs[|rs| - 1];
      SortRowsDistinct(init);
      SortRowsPermutes(init);
      forall r | r in SortRows(init)
        ensures r.name != last.name
      {
        assert r in multiset(init);
        var k :| 0 <= k < |init| && init[k] == r;
        assert rs[k] == r;
      }
      InsertRowDistinct(SortRows(init), last);
    }
  }

  /**
   * Every row of a bucket list comes from a bucket of the map, and its rate
   * is the rate of its own counters: "0.00%" when it has no leads.
   */
  lemma {:induction false} BreakdownRates(c: seq<Tally>)
    ensures forall r :: r in Breakdown(c) ==>
      && (exists i :: 0 <= i < |c| && r == RowOf(c[i]))
      && r.rate == RateText(r.conversions, r.leads)
      && (r.leads == 0 ==> r.rate == "0.00%")
  {
    var rows := RowsOf(c);
    var kept := KeepActive(rows);
    KeepActiveMembers(rows);
    SortRowsPermutes(kept);
    forall r | r in Breakdown(c)
      ensures exists i :: 0 <= i < |c| && r == RowOf(c[i])
      ensures r.rate == RateText(r.conversions, r.leads)
    {
      assert r in multiset(kept);
      assert r in rows;
      var i :| 0 <= i < |rows| && rows[i] == r;
      assert r == RowOf(c[i]);
    }
  }

  /** For a map with distinct names and only active buckets, the bucket list has one row per name. */
  lemma {:induction false} BreakdownDistinct(c: seq<Tally>)
    requires DistinctNames(c) && AllActive(c)
    ensures DistinctRowNames(Breakdown(c))
  {
    RowsOfCounts(c);
    KeepActiveKeepsAll(RowsOf(c));
    SortRowsDistinct(RowsOf(c));
  }
}
