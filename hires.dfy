/**
 * Cleaning the rows of the growth (hires) workbooks: the validity filter, the
 * "Last, First" name reordering and the `YYYY-MM` hire month, and the upload
 * loop that cleans the files one after another and concatenates the results.
 */
module Hires {
  import opened Wrappers
  import opened Text

  /** What the spreadsheet date decoder returns for the hire date cell. */
  datatype DateCode = DateCode(y: int, m: int)

  /**
   * One decoded row of a growth sheet. Text cells that are missing are "".
   * `hired` is the numeric value of the "Hired" cell, `None` when the cell is
   * missing or not a number. `hireDate` is the decoded "Hire/Termination Date",
   * `None` when the cell is missing or zero.
   */
  datatype HireRow = HireRow(agent: string, hired: Option<int>, company: string, hireDate: Option<DateCode>)

  /** A cleaned hire: display name, company, `YYYY-MM` month and hire year. */
  datatype Hire = Hire(agent: string, company: string, date: string, hireYear: int)

  /**
   * The display name: a name that splits on ',' into exactly two parts
   * becomes "second first" (each part trimmed); any other name is kept.
   */
  function FormatName(raw: string): string
  {
    var parts := Split(raw, ',');
    if |parts| == 2 then Trim(parts[1]) + " " + Trim(parts[0]) else raw
  }

  /** "Doe, Jane" style names are reordered to "Jane Doe" style. */
  lemma {:induction false} FormatNameReorders(last: string, first: string)
    requires ',' !in last && ',' !in first
    ensures FormatName(last + "," + first) == Trim(first) + " " + Trim(last)
  {
    JoinSplit([last, first], ',');
    assert Join([last, first], [',']) == last + "," + first;
  }

  /** A name with no comma, or with two or more, is displayed as it is. */
  lemma {:induction false} FormatNameKeeps(raw: string)
    requires Count(raw, ',') != 1
    ensures FormatName(raw) == raw
  {
    SplitJoin(raw, ',');
  }

  /** `${y}-${String(m).padStart(2, '0')}`. */
  function YearMonth(y: int, m: int): string
  {
    IntToDecimal(y) + "-" + PadTwo(IntToDecimal(m))
  }

  /** The last '-' of a text, if any. */
  function LastIndexOf(s: string, c: char): (r: Option<nat>)
    ensures r.Some? ==> r.value < |s| && s[r.value] == c && forall j :: r.value < j < |s| ==> s[j] != c
    ensures r.None? ==> c !in s
  {
    if s == [] then None
    else if s[|s| - 1] == c then Some(|s| - 1)
    else
      var r := LastIndexOf(s[..|s| - 1], c);
      assert s == s[..|s| - 1] + [s[|s| - 1]];
      r
  }

  /** Reads a `YYYY-MM` text back into its year and month. */
  function ParseYearMonth(s: string): Option<(int, int)>
  {
    match LastIndexOf(s, '-')
    case None => None
    case Some(i) =>
      match (ParseInt(s[..i]), ParseInt(s[i + 1..]))
      case (Some(y), Some(m)) => Some((y, m))
      case _ => None
  }

  lemma {:induction false} PaddedMonth(m: int)
    requires 0 <= m < 100
    ensures var t := PadTwo(IntToDecimal(m));
      |t| == 2 && AllDigits(t) && DigitsValue(t) == m
  {
    var d := NatToDecimal(m);
    DigitsValueOfDecimal(m);
    if m < 10 {
      assert PadTwo(d) == ['0', d[0]];
      assert ['0', d[0]][..1] == ['0'];
    } else {
      assert NatToDecimal(m / 10) == [DigitChar(m / 10)];
    }
  }

  /** The hire month text reads back as the decoded year and month, with the month always two digits. */
  lemma {:induction false} YearMonthRoundTrip(y: int, m: int)
    requires 0 <= m < 100
    ensures ParseYearMonth(YearMonth(y, m)) == Some((y, m))
    ensures var t := YearMonth(y, m); |t| >= 3 && AllDigits(t[|t| - 2..]) && t[|t| - 3] == '-'
  {
    var ys := IntToDecimal(y);
    var ms := PadTwo(IntToDecimal(m));
    PaddedMonth(m);
    var s := ys + "-" + ms;
    LastDashSeparates(ys, ms);
    assert s[..|ys|] == ys;
    assert s[|ys| + 1..] == ms;
    ParseIntOfDecimal(y);
    ParseTwoDigits(ms);
    assert s[|s| - 2..] == ms;
  }

  lemma {:induction false} LastDashSeparates(ys: string, ms: string)
    requires AllDigits(ms)
    ensures LastIndexOf(ys + "-" + ms, '-') == Some(|ys|)
  {
    var s := ys + "-" + ms;
    assert s[|ys|] == '-';
    assert forall j :: |ys| < j < |s| ==> s[j] == ms[j - |ys| - 1];
    assert forall j :: |ys| < j < |s| ==> s[j] != '-';
    var r := LastIndexOf(s, '-');
    assert r.Some?;
  }

  lemma {:induction false} ParseTwoDigits(ms: string)
    requires |ms| == 2 && AllDigits(ms)
    ensures ParseInt(ms) == Some(DigitsValue(ms) as int)
  {
    TrimStartOfTrimmed(ms);
    DigitRunOfDigits(ms);
    assert ms[..2] == ms;
  }

  /**
   * The cleaning lambda: a row is kept exactly when Agent, Company Name and the
   * date are present and Hired is the number 1.
   */
  function CleanHireRow(row: HireRow): (r: Option<Hire>)
    ensures r.Some? <==> (row.agent != "" && row.company != "" && row.hireDate.Some? && row.hired == Some(1))
    ensures r.Some? ==> r.value.company == row.company && r.value.hireYear == row.hireDate.value.y
  {
    if row.agent == "" || row.company == "" || row.hireDate.None? || row.hired != Some(1) then None
    else
      var date := row.hireDate.value;
      Some(Hire(FormatName(row.agent), row.company, YearMonth(date.y, date.m), date.y))
  }

  /** A kept row's month text reads back as the decoded date and its display name is never empty. */
  lemma {:induction false} CleanedHireFields(row: HireRow)
    requires CleanHireRow(row).Some?
    requires 0 <= row.hireDate.value.m < 100
    ensures var h := CleanHireRow(row).value;
      && ParseYearMonth(h.date) == Some((row.hireDate.value.y, row.hireDate.value.m))
      && h.agent != ""
  {
    YearMonthRoundTrip(row.hireDate.value.y, row.hireDate.value.m);
  }

  /** `rows.map(clean).filter(Boolean)`. */
  function CleanRows(rows: seq<HireRow>): (r: seq<Hire>)
    ensures |r| <= |rows|
    ensures forall k :: 0 <= k < |r| ==> r[k].company != "" && r[k].agent != ""
  {
    if rows == [] then []
    else
      var prev := CleanRows(rows[..|rows| - 1]);
      match CleanHireRow(rows[|rows| - 1])
      case None => prev
      case Some(h) => prev + [h]
  }

  /** Cleaning two batches of rows one after the other is cleaning them together. */
  lemma {:induction false} CleanRowsAppend(a: seq<HireRow>, b: seq<HireRow>)
    ensures CleanRows(a + b) == CleanRows(a) + CleanRows(b)
    decreases |b|
  {
    if b == [] {
      assert a + b == a;
    } else {
      var b' := b[..|b| - 1];
      assert (a + b)[..|a + b| - 1] == a + b';
      assert (a + b)[|a + b| - 1] == b[|b| - 1];
      CleanRowsAppend(a, b');
    }
  }

  /** The rows of all files, in file order. */
  function Concat(files: seq<seq<HireRow>>): seq<HireRow>
  {
    if files == [] then [] else Concat(files[..|files| - 1]) + files[|files| - 1]
  }

  /**
   * The growth upload: each file is decoded and cleaned in turn and its kept
   * rows are pushed onto one list. The result is the cleaning of all rows of
   * all files, in file order.
   */
  method CollectHires(files: seq<seq<HireRow>>) returns (all: seq<Hire>)
    ensures all == CleanRows(Concat(files))
  {
    all := [];
    var i := 0;
    while i < |files|
      invariant 0 <= i <= |files|
      invariant all == CleanRows(Concat(files[..i]))
    {
      var cleaned := CleanRows(files[i]);
      all := all + cleaned;
      assert files[..i + 1][..i] == files[..i];
      CleanRowsAppend(Concat(files[..i]), files[i]);
      i := i + 1;
    }
    assert files[..|files|] == files;
  }
}
