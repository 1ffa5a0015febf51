/**
 * The lead index built at the top of `processLeadsAndMatch`: one entry per
 * canonical name, holding the source tag and the lead year of the FIRST dated
 * row filed under that name.
 */
module Leads {
  import opened Wrappers
  import opened Text
  import opened SourceTag

  /**
   * One decoded row of a leads sheet; missing text cells are "". `created` is
   * the calendar year of the first present date cell (lead_created_at, else
   * created_at) as the browser's date parser reads it, `None` when neither cell
   * is present or the date does not parse. `agentLabel` is
   * accepted_agent_external_label.
   */
  datatype LeadRow = LeadRow(name: string, leadText: string, leadAgentText: string, created: Option<int>, agentLabel: string)

  /** What the index keeps for a name: the source tag and the lead year, as text. */
  datatype LeadEntry = LeadEntry(source: string, leadYear: string)

  type LeadIndex = map<string, LeadEntry>

  /** `lead_text || lead_agent_text || ''`. */
  function Blob(row: LeadRow): string
  {
    if row.leadText != "" then row.leadText else row.leadAgentText
  }

  /**
   * The key a row is filed under: exactly the rows with a date and a non-blank
   * name are filed, under the canonical form of the name, which is the same
   * key whether or not the name was trimmed first.
   */
  function KeyOf(row: LeadRow): (k: Option<string>)
    ensures k.Some? <==> row.created.Some? && Trim(row.name) != ""
    ensures k.Some? ==> k.value == Canonical(row.name)
    ensures k.Some? ==> k.value != "" && IsCanonical(k.value)
  {
    var name := Trim(row.name);
    if row.created.None? || name == "" then None
    else
      TrimShape(row.name);
      CanonicalNotEmpty(name);
      CanonicalOfTrim(row.name);
      Some(Canonical(name))
  }

  /** The entry a dated row would file: its source tag and `String(year)`. */
  function EntryOf(row: LeadRow): LeadEntry
    requires row.created.Some?
  {
    LeadEntry(ExtractSource(Blob(row)), IntToDecimal(row.created.value))
  }

  /** One step of the indexing loop: file `row` unless it has no key or its name is already filed. */
  function File(index: LeadIndex, row: LeadRow): LeadIndex
  {
    match KeyOf(row)
    case None => index
    case Some(k) => if k in index then index else index[k := EntryOf(row)]
  }

  /** The index after the given rows, filed in order. */
  function LeadIndexOf(rows: seq<LeadRow>): LeadIndex
  {
    if rows == [] then map[] else File(LeadIndexOf(rows[..|rows| - 1]), rows[|rows| - 1])
  }

  /**
   * The `leadsRaw.forEach` loop: skip undated rows, and file a named row under
   * its canonical name unless that name is already filed.
   */
  method BuildLeadIndex(rows: seq<LeadRow>) returns (index: LeadIndex)
    ensures index == LeadIndexOf(rows)
  {
    index := map[];
    var i := 0;
    while i < |rows|
      invariant 0 <= i <= |rows|
      invariant index == LeadIndexOf(rows[..i])
    {
      var row := rows[i];
      var name := Trim(row.name);
      var source := ExtractSource(Blob(row));
      assert rows[..i + 1][..i] == rows[..i];
      assert LeadIndexOf(rows[..i + 1]) == File(index, row);
      if row.created.Some? {
        var leadYear := IntToDecimal(row.created.value);
        if name != "" {
          var key := Canonical(name);
          if key !in index {
            index := index[key := LeadEntry(source, leadYear)];
          }
        }
      }
      i := i + 1;
    }
    assert rows[..|rows|] == rows;
  }

  /** Some row of `rows` is filed under `k`. */
  predicate HasKey(rows: seq<LeadRow>, k: string)
  {
    exists i :: 0 <= i < |rows| && KeyOf(rows[i]) == Some(k)
  }

  /** A row filed earlier still has a row filed under its key once more rows are read. */
  lemma {:induction false} HasKeyInInit(rows: seq<LeadRow>, k: string)
    requires rows != [] && HasKey(rows[..|rows| - 1], k)
    ensures HasKey(rows, k)
  {
    var init := rows[..|rows| - 1];
    var i :| 0 <= i < |init| && KeyOf(init[i]) == Some(k);
    assert init[i] == rows[i];
  }

  /** A keyed row other than the last one is a keyed row of the rows before the last. */
  lemma {:induction false} KeyedRowInInit(rows: seq<LeadRow>, k: string, i: int)
    requires rows != [] && KeyOf(rows[|rows| - 1]) != Some(k)
    requires 0 <= i < |rows| && KeyOf(rows[i]) == Some(k)
    ensures HasKey(rows[..|rows| - 1], k)
  {
    assert i < |rows| - 1;
    var init := rows[..|rows| - 1];
    assert init[i] == rows[i];
  }

  /** Filing a row adds its key, if it has one, and no other. */
  lemma {:induction false} FileKeys(index: LeadIndex, row: LeadRow, k: string)
    ensures k in File(index, row) <==> k in index || KeyOf(row) == Some(k)
  {
  }

  /** A name is filed exactly when some dated row with a non-blank name has it as its key. */
  lemma {:induction false} IndexKeys(rows: seq<LeadRow>, k: string)
    ensures k in LeadIndexOf(rows) <==> HasKey(rows, k)
  {
    if rows != [] {
      var init, last := rows[..|rows| - 1], rows[|rows| - 1];
      IndexKeys(init, k);
      FileKeys(LeadIndexOf(init), last, k);
      if KeyOf(last) == Some(k) {
        assert rows[|rows| - 1] == last;
      } else {
        if HasKey(init, k) {
          HasKeyInInit(rows, k);
        }
        if HasKey(rows, k) {
          var i :| 0 <= i < |rows| && KeyOf(rows[i]) == Some(k);
          KeyedRowInInit(rows, k, i);
        }
      }
    }
  }

  /** When no row before row `i` has its key, the rows before it do not file that key. */
  lemma {:induction false} NoEarlierKey(rows: seq<LeadRow>, i: nat)
    requires i < |rows| && KeyOf(rows[i]).Some?
    requires forall j :: 0 <= j < i ==> KeyOf(rows[j]) != KeyOf(rows[i])
    ensures !HasKey(rows[..i], KeyOf(rows[i]).value)
  {
  }

  /** First write wins: a name's entry is the one of the first dated row filed under it. */
  lemma {:induction false} FirstWriteWins(rows: seq<LeadRow>, i: nat)
    requires i < |rows| && KeyOf(rows[i]).Some?
    requires forall j :: 0 <= j < i ==> KeyOf(rows[j]) != KeyOf(rows[i])
    ensures KeyOf(rows[i]).value in LeadIndexOf(rows)
    ensures LeadIndexOf(rows)[KeyOf(rows[i]).value] == EntryOf(rows[i])
  {
    var k := KeyOf(rows[i]).value;
    var init := rows[..|rows| - 1];
    if i == |rows| - 1 {
      NoEarlierKey(rows, i);
      IndexKeys(init, k);
    } else {
      assert forall j :: 0 <= j < i ==> init[j] == rows[j];
      FirstWriteWins(init, i);
      assert init[i] == rows[i];
    }
  }

  /** Filing more rows never removes or overwrites an entry. */
  lemma {:induction false} IndexOnlyGrows(rows: seq<LeadRow>, more: seq<LeadRow>)
    ensures forall k :: k in LeadIndexOf(rows) ==> k in LeadIndexOf(rows + more) && LeadIndexOf(rows + more)[k] == LeadIndexOf(rows)[k]
    decreases |more|
  {
    if more == [] {
      assert rows + more == rows;
    } else {
      var init := more[..|more| - 1];
      assert (rows + more)[..|rows + more| - 1] == rows + init;
      IndexOnlyGrows(rows, init);
    }
  }

  /** No entry is filed under the empty name, so a row without a name can never be matched. */
  lemma {:induction false} EmptyNameNeverFiled(rows: seq<LeadRow>)
    ensures "" !in LeadIndexOf(rows)
  {
    IndexKeys(rows, "");
  }
}
