/**
 * The JavaScript string primitives the page relies on: `trim`, the `\s` class,
 * `toLowerCase` / `toUpperCase`, `replace(/\s+/g, ' ')`, `split(',')`, `join`,
 * `String(n)`, `parseInt` and `padStart(2, '0')`.
 */
module Text {
  import opened Wrappers

  // ---------------------------------------------------------------------------
  // Characters
  // ---------------------------------------------------------------------------

  /** ECMAScript WhiteSpace and LineTerminator: what `\s` matches and what `trim` strips. */
  predicate IsSpace(c: char) {
    c == ' ' || c == '\t' || c == '\n' || c == '\r' || c == '\U{000B}' || c == '\U{000C}'
    || c == '\U{00A0}' || c == '\U{1680}' || ('\U{2000}' <= c <= '\U{200A}')
    || c == '\U{2028}' || c == '\U{2029}' || c == '\U{202F}' || c == '\U{205F}'
    || c == '\U{3000}' || c == '\U{FEFF}'
  }

  predicate IsUpper(c: char) { 'A' <= c <= 'Z' }

  predicate IsLower(c: char) { 'a' <= c <= 'z' }

  predicate IsDigit(c: char) { '0' <= c <= '9' }

  function LowerChar(c: char): (r: char)
    ensures !IsUpper(r)
    ensures IsSpace(r) <==> IsSpace(c)
  {
    if IsUpper(c) then (c as int + 32) as char else c
  }

  function UpperChar(c: char): (r: char)
    ensures !IsLower(r)
    ensures IsSpace(r) <==> IsSpace(c)
  {
    if IsLower(c) then (c as int - 32) as char else c
  }

  /** `toLowerCase`, on the ASCII letters. */
  function Lower(s: string): (r: string)
    ensures |r| == |s|
    ensures forall i :: 0 <= i < |s| ==> r[i] == LowerChar(s[i])
  {
    if s == [] then [] else [LowerChar(s[0])] + Lower(s[1..])
  }

  /** `toUpperCase`, on the ASCII letters. */
  function Upper(s: string): (r: string)
    ensures |r| == |s|
    ensures forall i :: 0 <= i < |s| ==> r[i] == UpperChar(s[i])
  {
    if s == [] then [] else [UpperChar(s[0])] + Upper(s[1..])
  }

  predicate NoUpper(s: string) {
    forall i :: 0 <= i < |s| ==> !IsUpper(s[i])
  }

  predicate NoLower(s: string) {
    forall i :: 0 <= i < |s| ==> !IsLower(s[i])
  }

  // ---------------------------------------------------------------------------
  // Trimming
  // ---------------------------------------------------------------------------

  /** Drops the leading run of white space. */
  function TrimStart(s: string): (r: string)
    ensures |r| <= |s|
    ensures r == [] || !IsSpace(r[0])
    ensures forall i :: 0 <= i < |s| - |r| ==> IsSpace(s[i])
  {
    if s != [] && IsSpace(s[0]) then TrimStart(s[1..]) else s
  }

  /** Drops the trailing run of white space. */
  function TrimEnd(s: string): (r: string)
    ensures |r| <= |s|
    ensures r == [] || !IsSpace(r[|r| - 1])
    ensures forall i :: |r| <= i < |s| ==> IsSpace(s[i])
  {
    if s != [] && IsSpace(s[|s| - 1]) then TrimEnd(s[..|s| - 1]) else s
  }

  // The slice facts below are lemmas rather than postconditions, so that
  // every mention of a trimmed name does not spawn new slice terms.

  /** What `TrimStart` keeps is a suffix of its input. */
  lemma {:induction false} TrimStartIsSuffix(s: string)
    ensures TrimStart(s) == s[|s| - |TrimStart(s)|..]
  {
    if s != [] && IsSpace(s[0]) {
      TrimStartIsSuffix(s[1..]);
    }
  }

  /** What `TrimEnd` keeps is a prefix of its input. */
  lemma {:induction false} TrimEndIsPrefix(s: string)
    ensures TrimEnd(s) == s[..|TrimEnd(s)|]
  {
    if s != [] && IsSpace(s[|s| - 1]) {
      TrimEndIsPrefix(s[..|s| - 1]);
    }
  }

  /** `trim`: the longest infix of `s` that neither starts nor ends with white space. */
  function Trim(s: string): (r: string)
  {
    TrimEnd(TrimStart(s))
  }

  /** Where `trim` starts cutting: the length of the leading white space. */
  function TrimCut(s: string): nat
  {
    |s| - |TrimStart(s)|
  }

  /** Trimmed text is the infix of the input that starts after the leading white space, and its ends are not white space. */
  lemma {:induction false} TrimShape(s: string)
    ensures var r := Trim(s); var a := TrimCut(s);
      && a + |r| <= |s| && r == s[a..a + |r|]
      && (forall i :: 0 <= i < a ==> IsSpace(s[i]))
      && (forall i :: a + |r| <= i < |s| ==> IsSpace(s[i]))
      && (r == [] || (!IsSpace(r[0]) && !IsSpace(r[|r| - 1])))
  {
    TrimIsInfix(s);
    TrimCutsTrailingSpace(s);
    var t := TrimStart(s);
    var r := TrimEnd(t);
    TrimEndIsPrefix(t);
    if r != [] {
      assert r[0] == t[0];
    }
  }

  lemma {:induction false} TrimIsInfix(s: string)
    ensures var r := Trim(s); var a := TrimCut(s);
      a + |r| <= |s| && r == s[a..a + |r|]
  {
    var t := TrimStart(s);
    var r := TrimEnd(t);
    var a := |s| - |t|;
    TrimStartIsSuffix(s);
    TrimEndIsPrefix(t);
    assert t == s[a..];
    assert r == t[..|r|];
  }

  lemma {:induction false} TrimCutsTrailingSpace(s: string)
    ensures var r := Trim(s); var a := TrimCut(s);
      forall i :: a + |r| <= i < |s| ==> IsSpace(s[i])
  {
    var t := TrimStart(s);
    var r := TrimEnd(t);
    var a := |s| - |t|;
    TrimStartIsSuffix(s);
    assert t == s[a..];
    forall i | a + |r| <= i < |s|
      ensures IsSpace(s[i])
    {
      assert s[i] == t[i - a];
      assert IsSpace(t[i - a]);
    }
  }

  lemma {:induction false} TrimStartOfTrimmed(s: string)
    requires s == [] || !IsSpace(s[0])
    ensures TrimStart(s) == s
  {
  }

  lemma {:induction false} TrimEndOfTrimmed(s: string)
    requires s == [] || !IsSpace(s[|s| - 1])
    ensures TrimEnd(s) == s
  {
  }

  // ---------------------------------------------------------------------------
  // Collapsing white space and the canonical name
  // ---------------------------------------------------------------------------

  /** `replace(/\s+/g, ' ')`: every maximal run of white space becomes one space. */
  function CollapseSpaces(s: string): (r: string)
    ensures |r| <= |s|
    ensures r == [] <==> s == []
    ensures s != [] ==> (IsSpace(r[0]) <==> IsSpace(s[0]))
    decreases |s|
  {
    if s == [] then []
    else if IsSpace(s[0]) then [' '] + CollapseSpaces(TrimStart(s[1..]))
    else [s[0]] + CollapseSpaces(s[1..])
  }

  /** Every white-space character is a plain space and no two of them are adjacent. */
  predicate SingleSpaced(t: string) {
    && (forall i :: 0 <= i < |t| && IsSpace(t[i]) ==> t[i] == ' ')
    && (forall i :: 0 <= i < |t| - 1 ==> !IsSpace(t[i]) || !IsSpace(t[i + 1]))
  }

  /** The join key of the page: lower-cased, single-spaced, no white space at either end. */
  predicate IsCanonical(t: string) {
    && NoUpper(t)
    && SingleSpaced(t)
    && (t == [] || (!IsSpace(t[0]) && !IsSpace(t[|t| - 1])))
  }

  /**
   * `s.toLowerCase().replace(/\s+/g, ' ').trim()`, the only key on which hires
   * and leads are joined: lower-case, single-spaced, no white space at either
   * end.
   */
  function Canonical(s: string): (r: string)
    ensures IsCanonical(r)
  {
    CollapseIsSingleSpaced(Lower(s));
    TrimKeepsCanonical(CollapseSpaces(Lower(s)));
    Trim(CollapseSpaces(Lower(s)))
  }

  lemma {:induction false} CollapseIsSingleSpaced(s: string)
    ensures SingleSpaced(CollapseSpaces(s))
    ensures NoUpper(s) ==> NoUpper(CollapseSpaces(s))
    decreases |s|
  {
    if s == [] {
    } else if IsSpace(s[0]) {
      var rest := TrimStart(s[1..]);
      CollapseIsSingleSpaced(rest);
      var tail := CollapseSpaces(rest);
      assert CollapseSpaces(s) == [' '] + tail;
      SingleSpacedCons(' ', tail);
      if NoUpper(s) {
        TrimStartIsSuffix(s[1..]);
        assert rest == s[1..][|s[1..]| - |rest|..];
        assert NoUpper(rest);
        NoUpperCons(' ', tail);
      }
    } else {
      var tail := CollapseSpaces(s[1..]);
      CollapseIsSingleSpaced(s[1..]);
      assert CollapseSpaces(s) == [s[0]] + tail;
      SingleSpacedCons(s[0], tail);
      if NoUpper(s) {
        assert NoUpper(s[1..]);
        NoUpperCons(s[0], tail);
      }
    }
  }

  lemma {:induction false} SingleSpacedCons(c: char, t: string)
    requires SingleSpaced(t)
    requires IsSpace(c) ==> c == ' ' && (t == [] || !IsSpace(t[0]))
    ensures SingleSpaced([c] + t)
  {
    var u := [c] + t;
    assert forall i :: 0 < i < |u| ==> u[i] == t[i - 1];
  }

  lemma {:induction false} NoUpperCons(c: char, t: string)
    requires NoUpper(t) && !IsUpper(c)
    ensures NoUpper([c] + t)
  {
    var u := [c] + t;
    assert forall i :: 0 < i < |u| ==> u[i] == t[i - 1];
  }

  lemma {:induction false} SingleSpacedTail(t: string)
    requires SingleSpaced(t) && t != []
    ensures SingleSpaced(t[1..])
  {
    var u := t[1..];
    assert forall i :: 0 <= i < |u| ==> u[i] == t[i + 1];
  }

  lemma {:induction false} CollapseOfSingleSpaced(t: string)
    requires SingleSpaced(t)
    ensures CollapseSpaces(t) == t
    decreases |t|
  {
    if t != [] {
      SingleSpacedTail(t);
      CollapseOfSingleSpaced(t[1..]);
      if IsSpace(t[0]) {
        assert |t| > 1 ==> !IsSpace(t[1]);
        assert t[1..] == [] || !IsSpace(t[1..][0]);
        TrimStartOfTrimmed(t[1..]);
        assert t == [' '] + t[1..];
      } else {
        assert t == [t[0]] + t[1..];
      }
    }
  }

  /** A word with no white space passes through `replace(/\s+/g, ' ')` unchanged. */
  lemma {:induction false} CollapseWord(w: string, rest: string)
    requires forall i :: 0 <= i < |w| ==> !IsSpace(w[i])
    ensures CollapseSpaces(w + rest) == w + CollapseSpaces(rest)
    decreases |w|
  {
    if w != [] {
      assert (w + rest)[1..] == w[1..] + rest;
      CollapseWord(w[1..], rest);
      assert w == [w[0]] + w[1..];
    } else {
      assert w + rest == rest;
    }
  }

  /** A run of white space before a word becomes a single space. */
  lemma {:induction false} CollapseRun(run: string, rest: string)
    requires run != [] && forall i :: 0 <= i < |run| ==> IsSpace(run[i])
    requires rest == [] || !IsSpace(rest[0])
    ensures CollapseSpaces(run + rest) == " " + CollapseSpaces(rest)
  {
    var s := run + rest;
    assert s[0] == run[0] && IsSpace(s[0]);
    assert s[1..] == run[1..] + rest;
    TrimStartRun(run[1..], rest);
    assert TrimStart(s[1..]) == rest;
  }

  lemma {:induction false} TrimStartRun(run: string, rest: string)
    requires forall i :: 0 <= i < |run| ==> IsSpace(run[i])
    requires rest == [] || !IsSpace(rest[0])
    ensures TrimStart(run + rest) == rest
    decreases |run|
  {
    if run == [] {
      assert run + rest == rest;
    } else {
      assert (run + rest)[1..] == run[1..] + rest;
      TrimStartRun(run[1..], rest);
    }
  }

  lemma {:induction false} LowerOfNoUpper(t: string)
    requires NoUpper(t)
    ensures Lower(t) == t
  {
  }

  /** A trimmed infix of a single-spaced, upper-case-free text keeps both properties. */
  lemma {:induction false} TrimKeepsCanonical(t: string)
    requires SingleSpaced(t) && NoUpper(t)
    ensures IsCanonical(Trim(t))
  {
    TrimShape(t);
    var r := Trim(t);
    var a := TrimCut(t);
    assert forall i :: 0 <= i < |r| ==> r[i] == t[a + i];
  }

  /** A name already in canonical shape is its own key. */
  lemma {:induction false} CanonicalOfCanonical(t: string)
    requires IsCanonical(t)
    ensures Canonical(t) == t
  {
    LowerOfNoUpper(t);
    CollapseOfSingleSpaced(t);
    TrimStartOfTrimmed(t);
    TrimEndOfTrimmed(t);
  }

  /** A name that starts with a visible character never has the empty key. */
  lemma {:induction false} CanonicalNotEmpty(s: string)
    requires s != [] && !IsSpace(s[0])
    ensures Canonical(s) != []
  {
    var c := CollapseSpaces(Lower(s));
    assert !IsSpace(c[0]);
    TrimStartOfTrimmed(c);
  }

  /** Canonicalisation is idempotent. */
  lemma {:induction false} CanonicalIdempotent(s: string)
    ensures Canonical(Canonical(s)) == Canonical(s)
  {
    CanonicalOfCanonical(Canonical(s));
  }

  /** `trimStart` of a concatenation: the second part survives whole once the first has a visible character. */
  lemma {:induction false} TrimStartAppend(x: string, y: string)
    ensures TrimStart(x + y) == if TrimStart(x) == [] then TrimStart(y) else TrimStart(x) + y
    decreases |x|
  {
    if x == [] {
      assert x + y == y;
    } else if IsSpace(x[0]) {
      assert (x + y)[1..] == x[1..] + y;
      TrimStartAppend(x[1..], y);
    }
  }

  /** Trailing white space makes no difference to `trimEnd`. */
  lemma {:induction false} TrimEndSpaces(x: string, run: string)
    requires IsSpaceRun(run)
    ensures TrimEnd(x + run) == TrimEnd(x)
    decreases |run|
  {
    if run == [] {
      assert x + run == x;
    } else {
      var s := x + run;
      assert s[|s| - 1] == run[|run| - 1];
      assert s[..|s| - 1] == x + run[..|run| - 1];
      TrimEndSpaces(x, run[..|run| - 1]);
    }
  }

  /** White space around a text makes no difference to `trim`. */
  lemma {:induction false} TrimPadded(lead: string, x: string, tail: string)
    requires IsSpaceRun(lead) && IsSpaceRun(tail)
    ensures Trim(lead + x + tail) == Trim(x)
  {
    assert lead + x + tail == lead + (x + tail);
    TrimStartRun(lead, []);
    assert lead + [] == lead;
    TrimStartAppend(lead, x + tail);
    TrimStartAppend(x, tail);
    if TrimStart(x) == [] {
      TrimStartRun(tail, []);
      assert tail + [] == tail;
    } else {
      TrimEndSpaces(TrimStart(x), tail);
    }
  }

  /** `trimStart` keeps the last character of a text that ends visibly. */
  lemma {:induction false} TrimStartKeepsLast(u: string)
    requires u != [] && !IsSpace(u[|u| - 1])
    ensures TrimStart(u) != [] && TrimStart(u)[|TrimStart(u)| - 1] == u[|u| - 1]
  {
    TrimStartIsSuffix(u);
  }

  /** Text that ends in a visible character collapses independently of what follows it. */
  lemma {:induction false} CollapseAppend(x: string, y: string)
    requires x == [] || !IsSpace(x[|x| - 1])
    ensures CollapseSpaces(x + y) == CollapseSpaces(x) + CollapseSpaces(y)
    decreases |x|, 1
  {
    if x == [] {
      assert x + y == y;
    } else if IsSpace(x[0]) {
      CollapseAppendAfterSpace(x, y);
    } else {
      var u := x[1..];
      assert (x + y)[0] == x[0];
      assert (x + y)[1..] == u + y;
      assert u == [] || u[|u| - 1] == x[|x| - 1];
      CollapseAppend(u, y);
    }
  }

  /** The step of `CollapseAppend` for a text that starts with white space. */
  lemma {:induction false} CollapseAppendAfterSpace(x: string, y: string)
    requires x != [] && IsSpace(x[0]) && !IsSpace(x[|x| - 1])
    ensures CollapseSpaces(x + y) == CollapseSpaces(x) + CollapseSpaces(y)
    decreases |x|, 0
  {
    var u := x[1..];
    assert (x + y)[0] == x[0];
    assert (x + y)[1..] == u + y;
    assert u != [] && u[|u| - 1] == x[|x| - 1];
    TrimStartKeepsLast(u);
    TrimStartAppend(u, y);
    var t := TrimStart(u);
    CollapseAppend(t, y);
  }

  /** Lower-casing leaves white space around a text where it is. */
  lemma {:induction false} LowerOfPadded(lead: string, x: string, tail: string)
    requires IsSpaceRun(lead) && IsSpaceRun(tail)
    ensures Lower(lead + x + tail) == lead + Lower(x) + tail
  {
    LowerAppend(lead + x, tail);
    LowerAppend(lead, x);
    LowerOfSpaces(lead);
    LowerOfSpaces(tail);
  }

  /** Around a text that starts and ends visibly, a leading run of white space collapses on its own. */
  lemma {:induction false} CollapseOfPadded(lead: string, x: string, tail: string)
    requires IsSpaceRun(lead) && IsSpaceRun(tail)
    requires x != [] && !IsSpace(x[0]) && !IsSpace(x[|x| - 1])
    ensures CollapseSpaces(lead + (x + tail)) == (if lead == [] then [] else " ") + (CollapseSpaces(x) + CollapseSpaces(tail))
  {
    var rest := x + tail;
    CollapseAppend(x, tail);
    if lead == [] {
      assert lead + rest == rest;
    } else {
      assert rest[0] == x[0];
      CollapseRun(lead, rest);
    }
  }

  /** White space around a text that starts and ends visibly makes no difference to its collapsed, trimmed form. */
  lemma {:induction false} CollapsePadded(lead: string, x: string, tail: string)
    requires IsSpaceRun(lead) && IsSpaceRun(tail)
    requires x == [] || (!IsSpace(x[0]) && !IsSpace(x[|x| - 1]))
    ensures Trim(CollapseSpaces(lead + x + tail)) == Trim(CollapseSpaces(x))
  {
    if x == [] {
      assert lead + x + tail == lead + tail;
      assert IsSpaceRun(lead + tail);
      CollapseOfSpaces(lead + tail);
      var c := CollapseSpaces(lead + tail);
      TrimPadded(c, [], []);
      assert c + [] + [] == c;
    } else {
      var pre := if lead == [] then [] else " ";
      assert lead + x + tail == lead + (x + tail);
      CollapseOfPadded(lead, x, tail);
      CollapseOfSpaces(tail);
      var c, post := CollapseSpaces(x), CollapseSpaces(tail);
      assert IsSpaceRun(pre) && IsSpaceRun(post);
      assert pre + (c + post) == pre + c + post;
      TrimPadded(pre, c, post);
    }
  }

  /** Trimming first does not change the key: `Canonical` trims on its own. */
  lemma {:induction false} CanonicalOfTrim(s: string)
    ensures Canonical(Trim(s)) == Canonical(s)
  {
    TrimShape(s);
    var r := Trim(s);
    var a := TrimCut(s);
    var lead, tail := s[..a], s[a + |r|..];
    assert s == lead + r + tail;
    LowerOfPadded(lead, r, tail);
    var l := Lower(r);
    assert l == [] || (!IsSpace(l[0]) && !IsSpace(l[|l| - 1]));
    CollapsePadded(lead, l, tail);
  }


  predicate IsWord(w: string) {
    w != [] && forall i :: 0 <= i < |w| ==> !IsSpace(w[i])
  }

  predicate IsSpaceRun(run: string) {
    forall i :: 0 <= i < |run| ==> IsSpace(run[i])
  }

  lemma {:induction false} LowerAppend(a: string, b: string)
    ensures Lower(a + b) == Lower(a) + Lower(b)
  {
    assert forall i :: 0 <= i < |a + b| ==> Lower(a + b)[i] == (Lower(a) + Lower(b))[i];
  }

  lemma {:induction false} LowerOfSpaces(run: string)
    requires IsSpaceRun(run)
    ensures Lower(run) == run
  {
    assert forall i :: 0 <= i < |run| ==> !IsUpper(run[i]);
    LowerOfNoUpper(run);
  }

  lemma {:induction false} LowerOfWord(w: string)
    ensures IsWord(w) ==> IsWord(Lower(w))
  {
  }

  lemma {:induction false} CollapseOfSpaces(run: string)
    requires IsSpaceRun(run)
    ensures CollapseSpaces(run) == if run == [] then [] else " "
  {
    if run != [] {
      CollapseRun(run, []);
      assert run + [] == run;
    }
  }

  /** Words joined by single spaces are single-spaced and start and end with a visible character. */
  lemma {:induction false} JoinedWordsShape(ws: seq<string>)
    requires forall k :: 0 <= k < |ws| ==> IsWord(ws[k])
    ensures SingleSpaced(Join(ws, " "))
    ensures ws != [] ==> Join(ws, " ") != [] && !IsSpace(Join(ws, " ")[0]) && !IsSpace(Join(ws, " ")[|Join(ws, " ")| - 1])
  {
    if |ws| == 1 {
      assert Join(ws, " ") == ws[0];
    } else if |ws| > 1 {
      var w, rest := ws[0], Join(ws[1..], " ");
      JoinedWordsShape(ws[1..]);
      var t := Join(ws, " ");
      assert t == w + " " + rest;
      assert forall i :: 0 <= i < |w| ==> t[i] == w[i];
      assert t[|w|] == ' ';
      assert forall i :: |w| < i < |t| ==> t[i] == rest[i - |w| - 1];
      assert !IsSpace(w[|w| - 1]) && !IsSpace(rest[0]);
    }
  }

  /** Lower-casing keeps the white space where it is. */
  lemma {:induction false} LowerKeepsSpacing(t: string)
    requires SingleSpaced(t) && (t == [] || (!IsSpace(t[0]) && !IsSpace(t[|t| - 1])))
    ensures IsCanonical(Lower(t))
  {
    var l := Lower(t);
    assert forall i :: 0 <= i < |t| && t[i] == ' ' ==> l[i] == ' ';
  }

  /**
   * Any number of words joined by single spaces have that text in lower case
   * as their key.
   */
  lemma {:induction false} CanonicalOfWords(ws: seq<string>)
    requires forall k :: 0 <= k < |ws| ==> IsWord(ws[k])
    ensures Canonical(Join(ws, " ")) == Lower(Join(ws, " "))
  {
    var t := Join(ws, " ");
    JoinedWordsShape(ws);
    LowerKeepsSpacing(t);
    var l := Lower(t);
    LowerOfNoUpper(l);
    CanonicalOfCanonical(l);
  }

  /**
   * Two words with any white space around and between them have the key
   * "first last" in lower case: case and spacing never separate two names.
   */
  lemma {:induction false} CanonicalOfTwoWords(lead: string, first: string, gap: string, last: string, tail: string)
    requires IsSpaceRun(lead) && IsSpaceRun(gap) && IsSpaceRun(tail) && gap != []
    requires IsWord(first) && IsWord(last)
    ensures Canonical(lead + (first + (gap + (last + tail)))) == Lower(first) + (" " + Lower(last))
  {
    var lf, ll := Lower(first), Lower(last);
    LowerOfWord(first);
    LowerOfWord(last);
    LowerOfTwoWords(lead, first, gap, last, tail);
    CollapseOfTwoWords(lead, lf, gap, ll, tail);
    var ct := CollapseSpaces(tail);
    CollapseOfSpaces(tail);
    var sp: string := if lead == [] then [] else " ";
    assert CollapseSpaces(Lower(lead + (first + (gap + (last + tail))))) == sp + (lf + (" " + (ll + ct)));
    TrimPaddedWords(lf, ll, ct, sp);
  }

  lemma {:induction false} TrimPaddedWords(first: string, last: string, tail: string, lead: string)
    requires IsWord(first) && IsWord(last) && IsSpaceRun(tail) && IsSpaceRun(lead)
    ensures Trim(lead + (first + (" " + (last + tail)))) == first + (" " + last)
  {
    var body := first + (" " + (last + tail));
    assert body[0] == first[0];
    TrimStartRun(lead, body);
    var key := first + (" " + last);
    assert key[|key| - 1] == last[|last| - 1];
    Regroup(first, " ", last, tail);
    TrimEndRun(key, tail);
  }

  lemma {:induction false} Regroup(a: string, b: string, c: string, d: string)
    ensures a + (b + (c + d)) == (a + (b + c)) + d
  {
  }

  lemma {:induction false} LowerOfTwoWords(lead: string, first: string, gap: string, last: string, tail: string)
    requires IsSpaceRun(lead) && IsSpaceRun(gap) && IsSpaceRun(tail)
    ensures Lower(lead + (first + (gap + (last + tail)))) == lead + (Lower(first) + (gap + (Lower(last) + tail)))
  {
    LowerAppend(last, tail);
    LowerAppend(gap, last + tail);
    LowerAppend(first, gap + (last + tail));
    LowerAppend(lead, first + (gap + (last + tail)));
    LowerOfSpaces(lead);
    LowerOfSpaces(gap);
    LowerOfSpaces(tail);
  }

  lemma {:induction false} CollapseOfTwoWords(lead: string, first: string, gap: string, last: string, tail: string)
    requires IsSpaceRun(lead) && IsSpaceRun(gap) && IsSpaceRun(tail) && gap != []
    requires IsWord(first) && IsWord(last)
    ensures CollapseSpaces(lead + (first + (gap + (last + tail))))
      == (if lead == [] then [] else " ") + (first + (" " + (last + CollapseSpaces(tail))))
  {
    var lt := last + tail;
    CollapseWord(last, tail);
    assert lt[0] == last[0];
    CollapseRun(gap, lt);
    CollapseWord(first, gap + lt);
    var rest := first + (gap + lt);
    if lead != [] {
      assert rest[0] == first[0];
      CollapseRun(lead, rest);
    } else {
      assert lead + rest == rest;
    }
  }

  lemma {:induction false} TrimEndRun(s: string, run: string)
    requires forall i :: 0 <= i < |run| ==> IsSpace(run[i])
    requires s == [] || !IsSpace(s[|s| - 1])
    ensures TrimEnd(s + run) == s
    decreases |run|
  {
    if run == [] {
      assert s + run == s;
    } else {
      assert (s + run)[..|s + run| - 1] == s + run[..|run| - 1];
      TrimEndRun(s, run[..|run| - 1]);
    }
  }

  // ---------------------------------------------------------------------------
  // split / join
  // ---------------------------------------------------------------------------

  function IndexOf(s: string, c: char): (i: nat)
    requires c in s
    ensures i < |s| && s[i] == c && c !in s[..i]
  {
    if s[0] == c then 0 else 1 + IndexOf(s[1..], c)
  }

  /** `s.split(sep)` for a one-character separator. */
  function Split(s: string, sep: char): (parts: seq<string>)
    ensures |parts| >= 1
    decreases |s|
  {
    if sep in s then
      var i := IndexOf(s, sep);
      [s[..i]] + Split(s[i + 1..], sep)
    else [s]
  }

  /** `parts.join(sep)`. */
  function Join(parts: seq<string>, sep: string): string
  {
    if |parts| == 0 then ""
    else if |parts| == 1 then parts[0]
    else parts[0] + sep + Join(parts[1..], sep)
  }

  /** Number of occurrences of `c` in `s`. */
  function Count(s: string, c: char): nat
  {
    if s == [] then 0 else (if s[0] == c then 1 else 0) + Count(s[1..], c)
  }

  lemma {:induction false} CountAppend(a: string, b: string, c: char)
    ensures Count(a + b, c) == Count(a, c) + Count(b, c)
  {
    if a == [] {
      assert a + b == b;
    } else {
      assert (a + b)[1..] == a[1..] + b;
      CountAppend(a[1..], b, c);
    }
  }

  lemma {:induction false} CountZero(s: string, c: char)
    ensures Count(s, c) == 0 <==> c !in s
  {
    if s != [] {
      CountZero(s[1..], c);
      assert s == [s[0]] + s[1..];
    }
  }

  /** Splitting then joining gives the text back, no part holds the separator, and there is one part more than separators. */
  lemma {:induction false} SplitJoin(s: string, sep: char)
    ensures Join(Split(s, sep), [sep]) == s
    ensures forall k :: 0 <= k < |Split(s, sep)| ==> sep !in Split(s, sep)[k]
    ensures |Split(s, sep)| == Count(s, sep) + 1
    decreases |s|
  {
    if sep in s {
      var i := IndexOf(s, sep);
      SplitJoin(s[i + 1..], sep);
      var parts := Split(s, sep);
      assert parts == [s[..i]] + Split(s[i + 1..], sep);
      assert s == s[..i] + [sep] + s[i + 1..];
      CountAppend(s[..i] + [sep], s[i + 1..], sep);
      CountAppend(s[..i], [sep], sep);
      CountZero(s[..i], sep);
      assert Count([sep], sep) == 1;
    } else {
      CountZero(s, sep);
    }
  }

  /** Joining parts free of the separator and splitting again gives the parts back. */
  lemma {:induction false} JoinSplit(parts: seq<string>, sep: char)
    requires |parts| >= 1
    requires forall k :: 0 <= k < |parts| ==> sep !in parts[k]
    ensures Split(Join(parts, [sep]), sep) == parts
    decreases |parts|
  {
    if |parts| == 1 {
    } else {
      var rest := Join(parts[1..], [sep]);
      var s := parts[0] + [sep] + rest;
      assert Join(parts, [sep]) == s;
      assert s[|parts[0]|] == sep;
      var i := IndexOf(s, sep);
      assert s[..|parts[0]|] == parts[0];
      assert i == |parts[0]|;
      assert s[i + 1..] == rest;
      JoinSplit(parts[1..], sep);
      assert Split(s, sep) == [parts[0]] + parts[1..];
    }
  }

  // ---------------------------------------------------------------------------
  // Decimal integers: String(n), parseInt and padStart(2, '0')
  // ---------------------------------------------------------------------------

  function DigitChar(d: nat): (c: char)
    requires d < 10
    ensures IsDigit(c)
  {
    ('0' as int + d) as char
  }

  function DigitValue(c: char): nat
    requires IsDigit(c)
  {
    c as int - '0' as int
  }

  predicate AllDigits(s: string) {
    forall i :: 0 <= i < |s| ==> IsDigit(s[i])
  }

  /** `String(n)` for a natural number: decimal digits, no leading zero. */
  function NatToDecimal(n: nat): (r: string)
    ensures |r| >= 1 && AllDigits(r)
    decreases n
  {
    if n < 10 then [DigitChar(n)] else NatToDecimal(n / 10) + [DigitChar(n % 10)]
  }

  /** `String(n)` for an integer. */
  function IntToDecimal(n: int): (r: string)
    ensures |r| >= 1
  {
    if n < 0 then "-" + NatToDecimal(-n) else NatToDecimal(n)
  }

  /** The value of a string of decimal digits. */
  function DigitsValue(s: string): nat
    requires AllDigits(s)
  {
    if s == [] then 0 else DigitsValue(s[..|s| - 1]) * 10 + DigitValue(s[|s| - 1])
  }

  /** Length of the leading run of digits. */
  function DigitRun(s: string): (n: nat)
    ensures n <= |s| && AllDigits(s[..n])
    ensures n == |s| || !IsDigit(s[n])
  {
    if s != [] && IsDigit(s[0]) then
      var k := 1 + DigitRun(s[1..]);
      assert s[..k] == [s[0]] + s[1..][..k - 1];
      k
    else 0
  }

  /** `parseInt(s)`: skip leading white space, an optional sign, then the leading digits; `None` for NaN. */
  function ParseInt(s: string): Option<int>
  {
    var t := TrimStart(s);
    var negative := t != [] && t[0] == '-';
    var body := if t != [] && (t[0] == '-' || t[0] == '+') then t[1..] else t;
    var n := DigitRun(body);
    if n == 0 then None
    else
      var v: int := DigitsValue(body[..n]);
      Some(if negative then -v else v)
  }

  lemma {:induction false} DigitsValueOfDecimal(n: nat)
    ensures DigitsValue(NatToDecimal(n)) == n
    decreases n
  {
    if n >= 10 {
      DigitsValueOfDecimal(n / 10);
      var s := NatToDecimal(n);
      assert s[..|s| - 1] == NatToDecimal(n / 10);
    }
  }

  lemma {:induction false} DigitRunOfDigits(s: string)
    requires AllDigits(s)
    ensures DigitRun(s) == |s|
  {
  }

  /** `parseInt(String(n)) == n`: the decimal text of an integer reads back as that integer. */
  lemma {:induction false} ParseIntOfDecimal(n: int)
    ensures ParseInt(IntToDecimal(n)) == Some(n)
  {
    var s := IntToDecimal(n);
    var digits := NatToDecimal(if n < 0 then -n else n);
    assert !IsSpace(s[0]);
    TrimStartOfTrimmed(s);
    DigitRunOfDigits(digits);
    DigitsValueOfDecimal(if n < 0 then -n else n);
    if n < 0 {
      assert s[1..] == digits;
    } else {
      assert s[0] != '-' && s[0] != '+';
    }
    assert digits[..|digits|] == digits;
  }

  /** `padStart(2, '0')`. */
  function PadTwo(s: string): string
  {
    if |s| >= 2 then s else seq(2 - |s|, _ => '0') + s
  }

  /** `String(n).padStart(2, '0')` of a number below 100 is two digits worth `n`. */
  lemma {:induction false} PadTwoOfSmall(n: nat)
    requires n < 100
    ensures var p := PadTwo(IntToDecimal(n));
      |p| == 2 && AllDigits(p) && DigitsValue(p) == n
  {
    var d := NatToDecimal(n);
    DigitsValueOfDecimal(n);
    if n < 10 {
      var p := "0" + d;
      assert |d| == 1;
      assert p[..1] == "0" && p[1] == d[0];
      assert d[..0] == [];
      assert DigitsValue("0") == 0;
    } else {
      assert (n / 10) < 10;
      assert |d| == 2;
    }
  }

  /** Is the text exactly an optional minus sign followed by one or more digits? */
  predicate IsDecimalText(s: string) {
    var body := if s != [] && s[0] == '-' then s[1..] else s;
    body != [] && AllDigits(body)
  }

  lemma {:induction false} DecimalTextOfInt(n: int)
    ensures IsDecimalText(IntToDecimal(n))
  {
    var s := IntToDecimal(n);
    if n < 0 {
      assert s[1..] == NatToDecimal(-n);
    } else {
      assert s[0] != '-';
    }
  }
}
