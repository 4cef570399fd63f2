/**
  `text.split(/\n\s*\n/)`, the first step of the reply formatter: a reply
  is cut into sections at every run of whitespace that holds at least two
  line breaks.  The scan follows the regular expression engine: matches are
  tried from left to right, and a match that starts at a line break takes
  the longest whitespace run after it and then gives characters back until
  it ends on a line break, so it ends just after the LAST line break of
  that run.
*/
module BlankLineSplit {
  import opened JsText

  /** End of the whitespace run that starts at `i` (what `\s*` first consumes). */
  function SpaceRunEnd(s: string, i: nat): (k: nat)
    requires i <= |s|
    ensures i <= k <= |s|
    decreases |s| - i
  {
    if i < |s| && IsSpace(s[i]) then SpaceRunEnd(s, i + 1) else i
  }

  /** The run is whitespace and ends at the first other character. */
  lemma {:induction false} SpaceRunEndIsRun(s: string, i: nat)
    requires i <= |s|
    ensures var k := SpaceRunEnd(s, i);
      (forall m :: i <= m < k ==> IsSpace(s[m])) && (k < |s| ==> !IsSpace(s[k]))
    decreases |s| - i
  {
    if i < |s| && IsSpace(s[i]) {
      SpaceRunEndIsRun(s, i + 1);
    }
  }

  /** Index of the last line break in `s[lo..hi]`, if there is one. */
  function LastNewline(s: string, lo: nat, hi: nat): (r: Option<nat>)
    requires lo <= hi <= |s|
    ensures r.Some? ==> lo <= r.value < hi && s[r.value] == '\n'
    decreases hi - lo
  {
    if lo == hi then None
    else if s[hi - 1] == '\n' then Some(hi - 1)
    else LastNewline(s, lo, hi - 1)
  }

  /** No line break is passed over: none at all in the range, or none after the one found. */
  lemma {:induction false} LastNewlineIsLast(s: string, lo: nat, hi: nat)
    requires lo <= hi <= |s|
    ensures var r := LastNewline(s, lo, hi);
      && (r.None? ==> forall m :: lo <= m < hi ==> s[m] != '\n')
      && (r.Some? ==> forall m :: r.value < m < hi ==> s[m] != '\n')
    decreases hi - lo
  {
    if lo < hi && s[hi - 1] != '\n' {
      LastNewlineIsLast(s, lo, hi - 1);
    }
  }

  /** A separator: two or more line breaks with only whitespace around and between them. */
  predicate IsSeparator(w: string) {
    |w| >= 2 && w[0] == '\n' && w[|w| - 1] == '\n' && AllSpace(w)
  }

  /**
    Where a match of `/\n\s*\n/` that starts at `q` ends, or None when none
    starts there.  A match exists exactly when a line break at `q` is
    followed, across whitespace only, by another line break; it is greedy,
    so the whitespace left after it holds no line break.
  */
  function MatchAt(s: string, q: nat): (r: Option<nat>)
    requires q <= |s|
    ensures r.Some? ==> q < r.value <= |s|
  {
    if q < |s| && s[q] == '\n' then
      var k := SpaceRunEnd(s, q + 1);
      match LastNewline(s, q + 1, k)
      case None => None
      case Some(j) => Some(j + 1)
    else
      None
  }

  /**
    A match is a separator after which no line break is left in the
    whitespace (the match is greedy), and no match starts at a line break
    exactly when no other line break follows it across whitespace alone.
  */
  lemma MatchAtIsGreedy(s: string, q: nat)
    requires q <= |s|
    ensures var r := MatchAt(s, q);
      && (r.Some? ==> IsSeparator(s[q..r.value]))
      && (r.Some? ==> forall m :: r.value <= m < |s| && s[m] == '\n' ==> !AllSpace(s[r.value..m]))
      && (r.None? && q < |s| && s[q] == '\n' ==>
            forall j :: q < j < |s| && s[j] == '\n' ==> !AllSpace(s[q + 1..j]))
  {
    if q < |s| && s[q] == '\n' {
      var k := SpaceRunEnd(s, q + 1);
      SpaceRunEndIsRun(s, q + 1);
      LastNewlineIsLast(s, q + 1, k);
      match LastNewline(s, q + 1, k)
      case None =>
        NoBlankAfter(s, q, k);
      case Some(j) =>
        NoBlankAfter(s, j, k);
        SeparatorSlice(s, q, j);
    }
  }

  /** Two line breaks with only whitespace between them make a separator. */
  lemma SeparatorSlice(s: string, q: nat, j: nat)
    requires q < j < |s| && s[q] == '\n' && s[j] == '\n'
    requires forall x :: q < x < j ==> IsSpace(s[x])
    ensures IsSeparator(s[q..j + 1])
  {
    assert forall x :: q <= x < j + 1 ==> IsSpace(s[x]);
  }

  /**
    When no line break follows `p` before a non-whitespace character at
    `k`, every later line break is cut off from `p` by that character.
  */
  lemma NoBlankAfter(s: string, p: nat, k: nat)
    requires p < k <= |s| && (k < |s| ==> !IsSpace(s[k]))
    requires forall m :: p < m < k ==> s[m] != '\n'
    ensures forall m :: p < m < |s| && s[m] == '\n' ==> !AllSpace(s[p + 1..m])
  {
    forall m | p < m < |s| && s[m] == '\n' ensures !AllSpace(s[p + 1..m]) {
      assert k < m;
      assert s[p + 1..m][k - p - 1] == s[k];
    }
  }

  /**
    The sections of `s[p..]`, the current section having started at `p`
    and the scan having reached `q` (the loop of JavaScript's regular
    expression split).
  */
  function SplitFrom(s: string, p: nat, q: nat): (r: seq<string>)
    requires p <= q <= |s|
    ensures |r| >= 1
    decreases |s| - q
  {
    if q == |s| then [s[p..]]
    else match MatchAt(s, q)
      case Some(e) => [s[p..q]] + SplitFrom(s, e, e)
      case None => SplitFrom(s, p, q + 1)
  }

  /** The separators the same scan cuts out, in order. */
  function SeparatorsFrom(s: string, p: nat, q: nat): seq<string>
    requires p <= q <= |s|
    decreases |s| - q
  {
    if q == |s| then []
    else match MatchAt(s, q)
      case Some(e) => [s[q..e]] + SeparatorsFrom(s, e, e)
      case None => SeparatorsFrom(s, p, q + 1)
  }

  /** `text.split(/\n\s*\n/)`. */
  function Sections(s: string): seq<string> {
    SplitFrom(s, 0, 0)
  }

  function Separators(s: string): seq<string> {
    SeparatorsFrom(s, 0, 0)
  }

  /** The sections with the separators put back between them. */
  function Interleave(parts: seq<string>, seps: seq<string>): string
    requires |parts| == |seps| + 1
  {
    if seps == [] then parts[0] else parts[0] + seps[0] + Interleave(parts[1..], seps[1..])
  }

  /** No two line breaks with only whitespace between them. */
  predicate NoBlankLine(t: string) {
    forall i, j :: 0 <= i < j < |t| && t[i] == '\n' && t[j] == '\n' ==> !AllSpace(t[i + 1..j])
  }

  /** The whitespace the section begins with holds no line break. */
  predicate NoNewlineInLeadingSpace(t: string) {
    forall m :: 0 <= m < |t| && t[m] == '\n' ==> !AllSpace(t[..m])
  }

  /** The whitespace the section ends with holds no line break. */
  predicate NoNewlineInTrailingSpace(t: string) {
    forall m :: 0 <= m < |t| && t[m] == '\n' ==> !AllSpace(t[m + 1..])
  }

  /** No match of the separator starts in `s[p..q]`. */
  predicate NoMatchIn(s: string, p: nat, q: nat)
    requires p <= q <= |s|
  {
    forall i :: p <= i < q ==> MatchAt(s, i).None?
  }

  lemma SectionHasNoBlankLine(s: string, p: nat, q: nat)
    requires p <= q <= |s| && NoMatchIn(s, p, q)
    ensures NoBlankLine(s[p..q])
  {
    var t := s[p..q];
    forall i, j | 0 <= i < j < |t| && t[i] == '\n' && t[j] == '\n' ensures !AllSpace(t[i + 1..j]) {
      var a, b := p + i, p + j;
      SliceOfSlice(s, p, q, i + 1, j);
      NoMatchAtPoint(s, p, q, a);
      NoBlankAfterNonMatch(s, a, b);
    }
  }

  /** A slice of a slice is a slice of the whole. */
  lemma SliceOfSlice(s: string, p: nat, q: nat, i: nat, j: nat)
    requires p <= q <= |s| && i <= j <= q - p
    ensures s[p..q][i..j] == s[p + i..p + j]
  {
    var u, v := s[p..q][i..j], s[p + i..p + j];
    assert |u| == |v|;
    forall k | 0 <= k < |u| ensures u[k] == v[k] {
      assert u[k] == s[p..q][i + k] == s[p + i + k];
    }
  }

  lemma NoMatchAtPoint(s: string, p: nat, q: nat, a: nat)
    requires p <= a < q <= |s| && NoMatchIn(s, p, q)
    ensures MatchAt(s, a).None?
  {
  }

  /** A line break where no match starts is followed by no blank line. */
  lemma NoBlankAfterNonMatch(s: string, a: nat, b: nat)
    requires a < b < |s| && s[a] == '\n' && s[b] == '\n' && MatchAt(s, a).None?
    ensures !AllSpace(s[a + 1..b])
  {
    MatchAtIsGreedy(s, a);
  }

  lemma SectionEndsCleanly(s: string, p: nat, q: nat)
    requires p <= q < |s| && NoMatchIn(s, p, q) && s[q] == '\n'
    ensures NoNewlineInTrailingSpace(s[p..q])
  {
    var t := s[p..q];
    forall m | 0 <= m < |t| && t[m] == '\n' ensures !AllSpace(t[m + 1..]) {
      NoMatchAtPoint(s, p, q, p + m);
      NoBlankAfterNonMatch(s, p + m, q);
      assert t[m + 1..] == s[p + m + 1..q];
    }
  }

  lemma SectionStartsCleanly(s: string, p: nat, q: nat)
    requires p <= q <= |s|
    requires forall m :: p <= m < |s| && s[m] == '\n' ==> !AllSpace(s[p..m])
    ensures NoNewlineInLeadingSpace(s[p..q])
  {
    var t := s[p..q];
    forall m | 0 <= m < |t| && t[m] == '\n' ensures !AllSpace(t[..m]) {
      SliceOfSlice(s, p, q, 0, m);
      assert t[..m] == t[0..m];
    }
  }

  lemma {:induction false} SplitFromCount(s: string, p: nat, q: nat)
    requires p <= q <= |s|
    ensures |SplitFrom(s, p, q)| == |SeparatorsFrom(s, p, q)| + 1
    decreases |s| - q
  {
    if q < |s| {
      match MatchAt(s, q)
      case Some(e) => SplitFromCount(s, e, e);
      case None => SplitFromCount(s, p, q + 1);
    }
  }

  /** The scan from `p`, `q` cuts `s[p..]` into sections and separators that put back together give `s[p..]`. */
  lemma {:induction false} SplitFromReassembles(s: string, p: nat, q: nat)
    requires p <= q <= |s|
    ensures |SplitFrom(s, p, q)| == |SeparatorsFrom(s, p, q)| + 1
    ensures Interleave(SplitFrom(s, p, q), SeparatorsFrom(s, p, q)) == s[p..]
    decreases |s| - q
  {
    SplitFromCount(s, p, q);
    if q < |s| {
      match MatchAt(s, q)
      case Some(e) =>
        SplitFromReassembles(s, e, e);
        var secs, seps := SplitFrom(s, e, e), SeparatorsFrom(s, e, e);
        assert SplitFrom(s, p, q) == [s[p..q]] + secs;
        assert SeparatorsFrom(s, p, q) == [s[q..e]] + seps;
        assert ([s[p..q]] + secs)[1..] == secs;
        assert ([s[q..e]] + seps)[1..] == seps;
        assert s[p..] == s[p..q] + s[q..e] + s[e..];
      case None =>
        SplitFromReassembles(s, p, q + 1);
    }
  }

  lemma {:induction false} SeparatorsFromAreSeparators(s: string, p: nat, q: nat)
    requires p <= q <= |s|
    ensures forall k :: 0 <= k < |SeparatorsFrom(s, p, q)| ==> IsSeparator(SeparatorsFrom(s, p, q)[k])
    decreases |s| - q
  {
    if q < |s| {
      match MatchAt(s, q)
      case Some(e) =>
        MatchAtIsGreedy(s, q);
        SeparatorsFromAreSeparators(s, e, e);
        var seps := SeparatorsFrom(s, e, e);
        assert SeparatorsFrom(s, p, q) == [s[q..e]] + seps;
      case None =>
        SeparatorsFromAreSeparators(s, p, q + 1);
    }
  }

  /** Every section the scan cuts is free of blank lines and meets its separators cleanly. */
  lemma {:induction false} SplitFromSectionsClean(s: string, p: nat, q: nat)
    requires p <= q <= |s| && NoMatchIn(s, p, q)
    ensures forall k :: 0 <= k < |SplitFrom(s, p, q)| ==> NoBlankLine(SplitFrom(s, p, q)[k])
    ensures forall k :: 0 <= k < |SplitFrom(s, p, q)| - 1 ==> NoNewlineInTrailingSpace(SplitFrom(s, p, q)[k])
    ensures forall k :: 0 < k < |SplitFrom(s, p, q)| ==> NoNewlineInLeadingSpace(SplitFrom(s, p, q)[k])
    ensures (forall m :: p <= m < |s| && s[m] == '\n' ==> !AllSpace(s[p..m])) ==>
      NoNewlineInLeadingSpace(SplitFrom(s, p, q)[0])
    decreases |s| - q
  {
    if q == |s| {
      SectionHasNoBlankLine(s, p, q);
      if forall m :: p <= m < |s| && s[m] == '\n' ==> !AllSpace(s[p..m]) {
        SectionStartsCleanly(s, p, q);
      }
      assert s[p..] == s[p..q];
    } else {
      match MatchAt(s, q)
      case Some(e) =>
        MatchAtIsGreedy(s, q);
        SplitFromSectionsClean(s, e, e);
        SectionHasNoBlankLine(s, p, q);
        SectionEndsCleanly(s, p, q);
        if forall m :: p <= m < |s| && s[m] == '\n' ==> !AllSpace(s[p..m]) {
          SectionStartsCleanly(s, p, q);
        }
        var rest := SplitFrom(s, e, e);
        assert SplitFrom(s, p, q) == [s[p..q]] + rest;
        forall k | 0 < k < |SplitFrom(s, p, q)|
          ensures NoBlankLine(SplitFrom(s, p, q)[k])
          ensures NoNewlineInLeadingSpace(SplitFrom(s, p, q)[k])
          ensures k < |SplitFrom(s, p, q)| - 1 ==> NoNewlineInTrailingSpace(SplitFrom(s, p, q)[k])
        {
          assert SplitFrom(s, p, q)[k] == rest[k - 1];
        }
      case None =>
        SplitFromSectionsClean(s, p, q + 1);
    }
  }

  /** Only whitespace without a line break lies between `p` and every later line break. */
  predicate CleanStart(s: string, p: nat)
    requires p <= |s|
  {
    forall m :: p <= m < |s| && s[m] == '\n' ==> !AllSpace(s[p..m])
  }

  /**
    A section cut off by a separator is not all whitespace when nothing
    but a clean start precedes it, and no section strictly between two
    separators is all whitespace: the earlier separator would have
    swallowed it.
  */
  lemma {:induction false} SplitFromMiddleNotBlank(s: string, p: nat, q: nat)
    requires p <= q <= |s|
    ensures CleanStart(s, p) && |SplitFrom(s, p, q)| > 1 ==> !AllSpace(SplitFrom(s, p, q)[0])
    ensures forall k :: 0 < k < |SplitFrom(s, p, q)| - 1 ==> !AllSpace(SplitFrom(s, p, q)[k])
    decreases |s| - q
  {
    if q < |s| {
      match MatchAt(s, q)
      case Some(e) =>
        MatchAtIsGreedy(s, q);
        assert CleanStart(s, e);
        SplitFromMiddleNotBlank(s, e, e);
        var rest := SplitFrom(s, e, e);
        assert SplitFrom(s, p, q) == [s[p..q]] + rest;
        assert s[q] == '\n';
        forall k | 0 < k < |SplitFrom(s, p, q)| - 1 ensures !AllSpace(SplitFrom(s, p, q)[k]) {
          assert SplitFrom(s, p, q)[k] == rest[k - 1];
        }
      case None =>
        SplitFromMiddleNotBlank(s, p, q + 1);
    }
  }

  /** `text.split(/\n\s*\n/)` with its separators put back gives `text`; each separator is two or more line breaks in whitespace. */
  lemma SectionsReassemble(s: string)
    ensures |Sections(s)| == |Separators(s)| + 1
    ensures Interleave(Sections(s), Separators(s)) == s
    ensures forall k :: 0 <= k < |Separators(s)| ==> IsSeparator(Separators(s)[k])
  {
    SplitFromReassembles(s, 0, 0);
    SeparatorsFromAreSeparators(s, 0, 0);
  }

  /**
    No section holds a blank line, and the separators were cut as wide as
    possible: no line break is left in the whitespace at the end of a
    section before a separator or at the start of a section after one, and
    no section between two separators is all whitespace (two adjacent
    separators would have been one).
  */
  lemma SectionsAreClean(s: string)
    ensures forall k :: 0 <= k < |Sections(s)| ==> NoBlankLine(Sections(s)[k])
    ensures forall k :: 0 <= k < |Sections(s)| - 1 ==> NoNewlineInTrailingSpace(Sections(s)[k])
    ensures forall k :: 0 < k < |Sections(s)| ==> NoNewlineInLeadingSpace(Sections(s)[k])
    ensures forall k :: 0 < k < |Sections(s)| - 1 ==> !AllSpace(Sections(s)[k])
  {
    SplitFromSectionsClean(s, 0, 0);
    SplitFromMiddleNotBlank(s, 0, 0);
  }

  /** A match of the separator at `q` is a blank line of `s`. */
  lemma MatchIsBlankLine(s: string, q: nat)
    requires q <= |s|
    ensures MatchAt(s, q).Some? ==> !NoBlankLine(s)
  {
    MatchAtIsGreedy(s, q);
    if MatchAt(s, q).Some? {
      var e := MatchAt(s, q).value;
      SliceOfSlice(s, q, e, 1, e - q - 1);
      assert s[q] == s[q..e][0] && s[e - 1] == s[q..e][e - q - 1];
    }
  }

  lemma {:induction false} NoMatchWithoutBlankLine(s: string, q: nat)
    requires q <= |s| && NoBlankLine(s)
    ensures SplitFrom(s, 0, q) == [s]
    decreases |s| - q
  {
    if q < |s| {
      MatchIsBlankLine(s, q);
      NoMatchWithoutBlankLine(s, q + 1);
    }
  }

  /** A reply with no blank line is one section, the whole reply; in particular `"".split(...)` is `[""]`. */
  lemma SectionsWithoutBlankLine(s: string)
    requires NoBlankLine(s)
    ensures Sections(s) == [s]
  {
    NoMatchWithoutBlankLine(s, 0);
  }

  lemma SectionsOfEmpty()
    ensures Sections("") == [""]
  {
    SectionsWithoutBlankLine("");
  }

  // ---------------------------------------------------------------------
  // The scan is unaffected by text before the point it starts from.

  function ShiftBy(o: Option<nat>, n: nat): Option<nat> {
    match o
    case None => None
    case Some(v) => Some(v + n)
  }

  lemma {:induction false} SpaceRunEndShift(s: string, n: nat, i: nat)
    requires n + i <= |s|
    ensures SpaceRunEnd(s, n + i) == n + SpaceRunEnd(s[n..], i)
    decreases |s| - i
  {
    if n + i < |s| {
      assert s[n..][i] == s[n + i];
      if IsSpace(s[n + i]) {
        SpaceRunEndShift(s, n, i + 1);
      }
    }
  }

  lemma {:induction false} LastNewlineShift(s: string, n: nat, lo: nat, hi: nat)
    requires lo <= hi && n + hi <= |s|
    ensures LastNewline(s, n + lo, n + hi) == ShiftBy(LastNewline(s[n..], lo, hi), n)
    decreases hi - lo
  {
    if lo < hi {
      assert s[n..][hi - 1] == s[n + hi - 1];
      if s[n + hi - 1] != '\n' {
        LastNewlineShift(s, n, lo, hi - 1);
      }
    }
  }

  lemma MatchAtShift(s: string, n: nat, q: nat)
    requires n + q <= |s|
    ensures MatchAt(s, n + q) == ShiftBy(MatchAt(s[n..], q), n)
  {
    if n + q < |s| {
      assert s[n..][q] == s[n + q];
      if s[n + q] == '\n' {
        SpaceRunEndShift(s, n, q + 1);
        LastNewlineShift(s, n, q + 1, SpaceRunEnd(s[n..], q + 1));
      }
    }
  }

  /** The scan of a suffix cuts the same sections as the scan of the whole text from where the suffix starts. */
  lemma {:induction false} SplitFromShift(s: string, n: nat, p: nat, q: nat)
    requires p <= q && n + q <= |s|
    ensures SplitFrom(s, n + p, n + q) == SplitFrom(s[n..], p, q)
    decreases |s| - q, 2
  {
    var b, P, Q := s[n..], n + p, n + q;
    if Q == |s| {
      SliceShift(s, n, p, q);
      SplitFromAtEnd(s, P);
      SplitFromAtEnd(b, p);
    } else {
      MatchAtShift(s, n, q);
      match MatchAt(b, q)
      case Some(e) => ShiftAtMatch(s, n, p, q, e);
      case None => ShiftPastNonMatch(s, n, p, q);
    }
  }

  lemma {:induction false} ShiftAtMatch(s: string, n: nat, p: nat, q: nat, e: nat)
    requires p <= q && n + q < |s| && MatchAt(s[n..], q) == Some(e) && MatchAt(s, n + q) == Some(n + e)
    ensures SplitFrom(s, n + p, n + q) == SplitFrom(s[n..], p, q)
    decreases |s| - q, 1
  {
    var b, P, Q, E := s[n..], n + p, n + q, n + e;
    SplitFromAtMatch(s, P, Q, E);
    SplitFromAtMatch(b, p, q, e);
    ShiftCons(s, n, p, q, e);
  }

  lemma {:induction false} ShiftCons(s: string, n: nat, p: nat, q: nat, e: nat)
    requires p <= q < e && n + e <= |s|
    requires SplitFrom(s, n + p, n + q) == [s[n + p..n + q]] + SplitFrom(s, n + e, n + e)
    requires SplitFrom(s[n..], p, q) == [s[n..][p..q]] + SplitFrom(s[n..], e, e)
    ensures SplitFrom(s, n + p, n + q) == SplitFrom(s[n..], p, q)
    decreases |s| - q, 0
  {
    SplitFromShift(s, n, e, e);
    SliceShift(s, n, p, q);
  }

  lemma {:induction false} ShiftPastNonMatch(s: string, n: nat, p: nat, q: nat)
    requires p <= q && n + q < |s| && MatchAt(s[n..], q).None? && MatchAt(s, n + q).None?
    ensures SplitFrom(s, n + p, n + q) == SplitFrom(s[n..], p, q)
    decreases |s| - q, 1
  {
    var b, P, Q := s[n..], n + p, n + q;
    SplitFromShift(s, n, p, q + 1);
    SplitFromPastNonMatch(s, P, Q);
    SplitFromPastNonMatch(b, p, q);
  }

  lemma SplitFromAtEnd(s: string, p: nat)
    requires p <= |s|
    ensures SplitFrom(s, p, |s|) == [s[p..]]
  {
  }

  lemma SliceShift(s: string, n: nat, p: nat, q: nat)
    requires p <= q && n + q <= |s|
    ensures s[n + p..n + q] == s[n..][p..q] && s[n + p..] == s[n..][p..]
  {
  }

  lemma SplitFromAtMatch(s: string, p: nat, q: nat, e: nat)
    requires p <= q < |s| && MatchAt(s, q) == Some(e)
    ensures SplitFrom(s, p, q) == [s[p..q]] + SplitFrom(s, e, e)
  {
  }

  lemma SplitFromPastNonMatch(s: string, p: nat, q: nat)
    requires p <= q < |s| && MatchAt(s, q).None?
    ensures SplitFrom(s, p, q) == SplitFrom(s, p, q + 1)
  {
  }

  lemma {:induction false} NoMatchBeforeNewline(s: string, q: nat, n: nat)
    requires q <= n <= |s| && '\n' !in s[q..n]
    ensures SplitFrom(s, 0, q) == SplitFrom(s, 0, n)
    decreases n - q
  {
    if q < n {
      assert s[q] == s[q..n][0];
      assert s[q + 1..n] == s[q..n][1..];
      NoMatchBeforeNewline(s, q + 1, n);
    }
  }

  /**
    A line break pair after a first line peels that line off as the first
    section, when the text after the pair does not begin with whitespace.
  */
  lemma SectionsCons(a: string, b: string)
    requires '\n' !in a && (b == [] || !IsSpace(b[0]))
    ensures Sections(a + "\n\n" + b) == [a] + Sections(b)
  {
    var s := a + "\n\n" + b;
    var x := a + "\n\n";
    assert s == x + b;
    assert s[..|a|] == a;
    NoMatchBeforeNewline(s, 0, |a|);
    assert s[|a|] == '\n' && s[|a| + 1] == '\n';
    assert SpaceRunEnd(s, |a| + 2) == |a| + 2 by {
      if |a| + 2 < |s| { assert s[|a| + 2] == b[0]; }
    }
    assert LastNewline(s, |a| + 1, |a| + 2) == Some(|a| + 1);
    assert MatchAt(s, |a|) == Some(|a| + 2);
    assert s[|x|..] == b;
    SplitFromShift(s, |x|, 0, 0);
  }

  /** Text without a line break is one section. */
  lemma SectionsWithoutLineBreak(s: string)
    requires '\n' !in s
    ensures Sections(s) == [s]
  {
    SectionsWithoutBlankLine(s);
  }

  /** Text with a single line break is one section. */
  lemma SectionsWithOneLineBreak(a: string, b: string)
    requires '\n' !in a && '\n' !in b
    ensures Sections(a + "\n" + b) == [a + "\n" + b]
  {
    var t := a + "\n" + b;
    assert forall i :: 0 <= i < |a| ==> t[i] == a[i];
    assert forall i :: |a| < i < |t| ==> t[i] == b[i - |a| - 1];
    SectionsWithoutBlankLine(t);
  }
}
