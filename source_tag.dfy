/**
 * The lead-source tag buried in a lead's free text: the page matches
 * /source:\s*([^\n]+)/i and keeps the group, trimmed and upper-cased, or
 * "N/A" when nothing matches. The pattern is modelled by a hand-written scan
 * that is proved to find the same match as JavaScript's backtracking engine.
 */
module SourceTag {
  import opened Wrappers
  import opened Text

  /** The literal the pattern starts with, compared without regard to letter case. */
  const Header: string := "source:"

  /** The header, in any letter case, starts at `i`. */
  predicate HeaderAt(s: string, i: nat) {
    i + 7 <= |s| && Lower(s[i..i + 7]) == Header
  }

  /**
   * The pattern can match at `i` with its group spanning [g, e): the header at
   * `i`, then white space up to `g`, then one or more characters that are not a
   * line feed up to `e`.
   */
  ghost predicate MatchAt(s: string, i: int, g: int, e: int) {
    && 0 <= i && HeaderAt(s, i)
    && i + 7 <= g < e <= |s|
    && (forall j :: i + 7 <= j < g ==> IsSpace(s[j]))
    && (forall j :: g <= j < e ==> s[j] != '\n')
  }

  /**
   * The match JavaScript reports when it starts searching at `from`: the
   * leftmost start, then the longest `\s*` (greedy), then the longest group.
   */
  ghost predicate FirstMatchFrom(s: string, from: nat, i: int, g: int, e: int) {
    && from <= i
    && MatchAt(s, i, g, e)
    && (forall i', g', e' :: from <= i' < i ==> !MatchAt(s, i', g', e'))
    && (forall g', e' :: MatchAt(s, i, g', e') ==> g' <= g)
    && (forall e' :: MatchAt(s, i, g, e') ==> e' <= e)
  }

  /** Length of the run of white space that starts at `p`. */
  function SpaceRun(s: string, p: nat): (n: nat)
    requires p <= |s|
    ensures p + n <= |s|
    ensures forall j :: p <= j < p + n ==> IsSpace(s[j])
    ensures p + n == |s| || !IsSpace(s[p + n])
    decreases |s| - p
  {
    if p < |s| && IsSpace(s[p]) then 1 + SpaceRun(s, p + 1) else 0
  }

  /** The first line feed at or after `q`, or the end of the text. */
  function LineEnd(s: string, q: nat): (e: nat)
    requires q <= |s|
    ensures q <= e <= |s|
    ensures forall j :: q <= j < e ==> s[j] != '\n'
    ensures e == |s| || s[e] == '\n'
    decreases |s| - q
  {
    if q < |s| && s[q] != '\n' then LineEnd(s, q + 1) else q
  }

  /** The last position in [p, q) that is not a line feed. */
  function LastNonNewline(s: string, p: nat, q: nat): (r: Option<nat>)
    requires p <= q <= |s|
    ensures r.Some? ==> p <= r.value < q && s[r.value] != '\n'
    ensures r.Some? ==> forall j :: r.value < j < q ==> s[j] == '\n'
    ensures r.None? ==> forall j :: p <= j < q ==> s[j] == '\n'
    decreases q - p
  {
    if q == p then None
    else if s[q - 1] != '\n' then Some(q - 1)
    else LastNonNewline(s, p, q - 1)
  }

  /**
   * Tries the pattern at `i` the way the engine does: `\s*` first takes the
   * whole run of white space and gives back one character at a time until
   * `[^\n]+` can take at least one character, which it then extends to the
   * end of the line. Returns the group's bounds.
   */
  function TryAt(s: string, i: nat): Option<(nat, nat)>
  {
    if !HeaderAt(s, i) then None
    else
      var p := i + 7;
      var w := SpaceRun(s, p);
      if p + w < |s| then Some((p + w, LineEnd(s, p + w)))
      else match LastNonNewline(s, p, |s|)
        case None => None
        case Some(g) => Some((g, LineEnd(s, g)))
  }

  /** `TryAt` finds the greedy match at `i` when there is one, and only then. */
  lemma {:induction false} TryAtSound(s: string, i: nat)
    ensures TryAt(s, i).None? ==> forall g, e :: !MatchAt(s, i, g, e)
    ensures TryAt(s, i).Some? ==>
      var (g, e) := TryAt(s, i).value;
      && MatchAt(s, i, g, e)
      && (forall g', e' :: MatchAt(s, i, g', e') ==> g' <= g)
      && (forall e' :: MatchAt(s, i, g, e') ==> e' <= e)
  {
    if HeaderAt(s, i) {
      var p := i + 7;
      var w := SpaceRun(s, p);
      if p + w < |s| {
        assert !IsSpace(s[p + w]);
      } else {
        var last := LastNonNewline(s, p, |s|);
        forall g', e' | MatchAt(s, i, g', e')
          ensures last.Some? && g' <= last.value
        {
          assert s[g'] != '\n';
        }
      }
    }
  }

  /** The leftmost greedy match at or after `from`, as (start, group start, group end). */
  function Search(s: string, from: nat): (r: Option<(nat, nat, nat)>)
    ensures r.None? ==> forall i, g, e :: from <= i ==> !MatchAt(s, i, g, e)
    ensures r.Some? ==> FirstMatchFrom(s, from, r.value.0, r.value.1, r.value.2)
    decreases |s| - from
  {
    if from + 7 > |s| then None
    else
      TryAtSound(s, from);
      match TryAt(s, from)
      case Some((g, e)) => Some((from, g, e))
      case None => Search(s, from + 1)
  }

  /** There is at most one first match. */
  lemma {:induction false} FirstMatchUnique(s: string, i: int, g: int, e: int, i2: int, g2: int, e2: int)
    requires FirstMatchFrom(s, 0, i, g, e) && FirstMatchFrom(s, 0, i2, g2, e2)
    ensures i == i2 && g == g2 && e == e2
  {
  }

  /** The text `blob.match(/source:\s*([^\n]+)/i)[1]`, if the pattern matches. */
  function Capture(s: string): Option<string>
  {
    match Search(s, 0)
    case None => None
    case Some((i, g, e)) => Some(s[g..e])
  }

  /**
   * The source tag of a lead's text: the captured group trimmed and upper-cased,
   * or "N/A" when the pattern does not match anywhere.
   */
  function ExtractSource(blob: string): (r: string)
    ensures (forall i, g, e :: !MatchAt(blob, i, g, e)) ==> r == "N/A"
    ensures forall i, g, e :: FirstMatchFrom(blob, 0, i, g, e) ==> r == Upper(Trim(blob[g..e]))
  {
    match Search(blob, 0)
    case None => "N/A"
    case Some((i, g, e)) =>
      assert forall i2, g2, e2 :: FirstMatchFrom(blob, 0, i2, g2, e2) ==> i2 == i && g2 == g && e2 == e by {
        forall i2, g2, e2 | FirstMatchFrom(blob, 0, i2, g2, e2) ensures i2 == i && g2 == g && e2 == e {
          FirstMatchUnique(blob, i, g, e, i2, g2, e2);
        }
      }
      Upper(Trim(blob[g..e]))
  }

  /** A tag as the page stores it: no lower-case letter, no line feed, no white space at either end. */
  predicate IsNormalisedTag(t: string) {
    && NoLower(t)
    && (forall j :: 0 <= j < |t| ==> t[j] != '\n')
    && (t == [] || (!IsSpace(t[0]) && !IsSpace(t[|t| - 1])))
  }

  /** Every extracted source is a normalised tag ("N/A" is one too). */
  lemma {:induction false} ExtractedSourceIsNormalised(blob: string)
    ensures IsNormalisedTag(ExtractSource(blob))
  {
    assert IsNormalisedTag("N/A");
    match Search(blob, 0)
    case None =>
    case Some((i, g, e)) =>
      var c := blob[g..e];
      assert forall j :: 0 <= j < |c| ==> c[j] == blob[g + j];
      LineIsNormalised(c);
  }

  /** Trimming and upper-casing text without a line feed gives a normalised tag. */
  lemma {:induction false} LineIsNormalised(c: string)
    requires forall j :: 0 <= j < |c| ==> c[j] != '\n'
    ensures IsNormalisedTag(Upper(Trim(c)))
  {
    TrimShape(c);
    var t := Trim(c);
    var a := TrimCut(c);
    assert forall j :: 0 <= j < |t| ==> t[j] == c[a + j];
    var u := Upper(t);
    assert forall j :: 0 <= j < |u| ==> u[j] == UpperChar(t[j]);
  }

  /**
   * When the text starts with the header, any white space (line feeds
   * included) and then a line, the tag is that line trimmed and upper-cased:
   * "source: Zillow" gives "ZILLOW".
   */
  lemma {:induction false} SourceAfterHeader(spaces: string, line: string, rest: string)
    requires IsSpaceRun(spaces)
    requires line != [] && !IsSpace(line[0]) && forall j :: 0 <= j < |line| ==> line[j] != '\n'
    requires rest == [] || rest[0] == '\n'
    ensures ExtractSource(Header + (spaces + (line + rest))) == Upper(Trim(line))
  {
    var blob := Header + (spaces + (line + rest));
    var g := 7 + |spaces|;
    var e := g + |line|;
    assert blob[..7] == Header;
    assert NoUpper(Header);
    LowerOfNoUpper(Header);
    assert HeaderAt(blob, 0);
    assert forall j :: 7 <= j < g ==> blob[j] == spaces[j - 7];
    assert forall j :: g <= j < e ==> blob[j] == line[j - g];
    assert blob[g..e] == line;
    assert MatchAt(blob, 0, g, e);
    forall g', e' | MatchAt(blob, 0, g', e') ensures g' <= g {
      assert blob[g] == line[0];
    }
    forall e' | MatchAt(blob, 0, g, e') ensures e' <= e {
      if e < |blob| {
        assert blob[e] == rest[0];
      }
    }
    assert FirstMatchFrom(blob, 0, 0, g, e);
  }

  lemma {:induction false} UpperOfNoLower(t: string)
    requires NoLower(t)
    ensures Upper(t) == t
  {
  }

  /** Upper-casing and trimming a normalised tag again changes nothing. */
  lemma {:induction false} NormalisedTagIsStable(t: string)
    requires IsNormalisedTag(t)
    ensures Trim(Upper(t)) == t
  {
    UpperOfNoLower(t);
    TrimStartOfTrimmed(t);
    TrimEndOfTrimmed(t);
  }
}
