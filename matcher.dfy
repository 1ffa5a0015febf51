/**
 * The second half of `processLeadsAndMatch`: every hire is looked up in the
 * lead index by its canonical name and annotated with whether it is a
 * conversion, the lead's source tag, the lead year and the years from lead to
 * hire.
 */
module Matcher {
  import opened Wrappers
  import opened Text
  import opened SourceTag
  import opened Hires
  import opened Leads

  /**
   * A hire with its match annotations. `leadYear` is the lead year as text,
   * `None` for the page's `null`; `gap` is `None` for the page's "N/A".
   */
  datatype Matched = Matched(hire: Hire, isConversion: bool, source: string, leadYear: Option<string>, gap: Option<int>)

  /**
   * Annotates one hire. The hire year is the integer itself: `parseInt` of a
   * whole number reads back that number (`Text.ParseIntOfDecimal`). A lead
   * year that does not parse, or parses to 0, counts as 0 in the conversion
   * test and leaves the gap unset.
   */
  function MatchHire(h: Hire, index: LeadIndex): (m: Matched)
    ensures m.hire == h
    ensures m.isConversion ==> Canonical(h.agent) in index
    ensures m.source != ""
    ensures m.gap.Some? ==> m.leadYear.Some?
  {
    var key := Canonical(h.agent);
    if key !in index then Matched(h, false, "N/A", None, None)
    else
      var entry := index[key];
      var leadYear := if entry.leadYear != "" then ParseInt(entry.leadYear) else None;
      var threshold := if leadYear.Some? then leadYear.value else 0;
      Matched(h,
        h.hireYear >= threshold,
        if entry.source != "" then entry.source else "N/A",
        if entry.leadYear != "" then Some(entry.leadYear) else None,
        if leadYear.Some? && leadYear.value != 0 then Some(h.hireYear - leadYear.value) else None)
  }

  /** `parsedData.map(...)`: every hire annotated, in order. */
  function MatchAll(hires: seq<Hire>, index: LeadIndex): (ms: seq<Matched>)
    ensures |ms| == |hires|
    ensures forall i :: 0 <= i < |hires| ==> ms[i].hire == hires[i]
  {
    seq(|hires|, i requires 0 <= i < |hires| => MatchHire(hires[i], index))
  }

  /** `matched.filter(m => m.isConversion)`. */
  function Conversions(ms: seq<Matched>): (cs: seq<Matched>)
    ensures |cs| <= |ms|
    ensures forall c :: c in cs ==> c in ms && c.isConversion
  {
    if ms == [] then []
    else
      var rest := Conversions(ms[..|ms| - 1]);
      var last := ms[|ms| - 1];
      if last.isConversion then rest + [last] else rest
  }

  /** The filter keeps every conversion: exactly the conversions, in their order of appearance. */
  lemma {:induction false} ConversionsComplete(ms: seq<Matched>, i: int)
    requires 0 <= i < |ms| && ms[i].isConversion
    ensures ms[i] in Conversions(ms)
  {
    if i < |ms| - 1 {
      var init := ms[..|ms| - 1];
      assert init[i] == ms[i];
      ConversionsComplete(init, i);
    }
  }

  /** The filter never keeps more than the number of matched records, and concatenation splits it. */
  lemma {:induction false} ConversionsAppend(a: seq<Matched>, b: seq<Matched>)
    ensures Conversions(a + b) == Conversions(a) + Conversions(b)
    decreases |b|
  {
    if b == [] {
      assert a + b == a;
    } else {
      var init := b[..|b| - 1];
      assert (a + b)[..|a + b| - 1] == a + init;
      assert (a + b)[|a + b| - 1] == b[|b| - 1];
      ConversionsAppend(a, init);
    }
  }

  /**
   * The whole of `processLeadsAndMatch` on the page's state: build the index,
   * annotate the hires, keep the conversions.
   */
  method ProcessLeadsAndMatch(hires: seq<Hire>, leadsRaw: seq<LeadRow>) returns (matched: seq<Matched>, conversions: seq<Matched>)
    ensures matched == MatchAll(hires, LeadIndexOf(leadsRaw))
    ensures conversions == Conversions(matched)
  {
    var index := BuildLeadIndex(leadsRaw);
    matched := MatchAll(hires, index);
    conversions := Conversions(matched);
  }

  /**
   * A hire whose canonical name first appears on lead row `i` is matched
   * against that row: a conversion exactly when it was hired in the lead's
   * year or later, with that row's year, its source tag (or "N/A") and, for a
   * non-zero lead year, the gap in years.
   */
  lemma {:induction false} MatchFirstLead(h: Hire, rows: seq<LeadRow>, i: nat)
    requires i < |rows| && KeyOf(rows[i]) == Some(Canonical(h.agent))
    requires forall j :: 0 <= j < i ==> KeyOf(rows[j]) != KeyOf(rows[i])
    ensures MatchHire(h, LeadIndexOf(rows)) == LeadMatch(h, rows[i].created.value, ExtractSource(Blob(rows[i])))
  {
    var index := LeadIndexOf(rows);
    var key := Canonical(h.agent);
    var y := rows[i].created.value;
    var src := ExtractSource(Blob(rows[i]));
    FirstWriteWins(rows, i);
    assert key in index && index[key] == EntryOf(rows[i]);
    assert EntryOf(rows[i]) == LeadEntry(src, IntToDecimal(y));
    MatchEntry(h, index, y, src);
  }

  /**
   * The annotation of a hire whose lead carries year `y` and source tag `src`:
   * a conversion exactly when hired in year `y` or later, the tag or "N/A",
   * the year as text and, for a non-zero year, the gap in years.
   */
  function LeadMatch(h: Hire, y: int, src: string): Matched {
    Matched(h, h.hireYear >= y, if src != "" then src else "N/A", Some(IntToDecimal(y)),
            if y != 0 then Some(h.hireYear - y) else None)
  }

  /** How a hire is annotated once its name is filed with source tag `src` and lead year `y`. */
  lemma {:induction false} MatchEntry(h: Hire, index: LeadIndex, y: int, src: string)
    requires Canonical(h.agent) in index && index[Canonical(h.agent)] == LeadEntry(src, IntToDecimal(y))
    ensures MatchHire(h, index) == LeadMatch(h, y, src)
  {
    ParseIntOfDecimal(y);
  }

  /** A hire with no dated lead under its canonical name is never a conversion and carries no lead data. */
  lemma {:induction false} MatchNoLead(h: Hire, rows: seq<LeadRow>)
    requires !HasKey(rows, Canonical(h.agent))
    ensures var m := MatchHire(h, LeadIndexOf(rows));
      && !m.isConversion && m.source == "N/A" && m.leadYear.None? && m.gap.None?
  {
    IndexKeys(rows, Canonical(h.agent));
  }

  /** Every conversion was hired no earlier than its lead year, and its lead year is on record. */
  lemma {:induction false} ConversionNotBeforeLead(h: Hire, rows: seq<LeadRow>)
    requires MatchHire(h, LeadIndexOf(rows)).isConversion
    ensures var m := MatchHire(h, LeadIndexOf(rows));
      && m.leadYear.Some?
      && ParseInt(m.leadYear.value).Some?
      && h.hireYear >= ParseInt(m.leadYear.value).value
  {
    var k := Canonical(h.agent);
    IndexKeys(rows, k);
    var i :| 0 <= i < |rows| && KeyOf(rows[i]) == Some(k);
    // the first row filed under k decides the entry
    var first := FirstKeyed(rows, k, i);
    FirstWriteWins(rows, first);
    ParseIntOfDecimal(rows[first].created.value);
  }

  /** The first row of `rows` filed under `k`, given some row that is. */
  lemma {:induction false} FirstKeyed(rows: seq<LeadRow>, k: string, i: nat) returns (first: nat)
    requires i < |rows| && KeyOf(rows[i]) == Some(k)
    ensures first <= i && KeyOf(rows[first]) == Some(k)
    ensures forall j :: 0 <= j < first ==> KeyOf(rows[j]) != Some(k)
    decreases i
  {
    if exists j :: 0 <= j < i && KeyOf(rows[j]) == Some(k) {
      var j :| 0 <= j < i && KeyOf(rows[j]) == Some(k);
      first := FirstKeyed(rows, k, j);
    } else {
      first := i;
    }
  }
}
