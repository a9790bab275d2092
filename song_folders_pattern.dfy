/**
 * `content.match(/SongFolders\s*=\s*(.+)/)` with the semantics of a
 * JavaScript RegExp (ECMA-262, section 22.2): no `g` flag, so the first match
 * is returned and its capture group 1 is the settings value.
 *
 * The matcher below is written the way the backtracking engine runs: start
 * positions are tried from the left; each greedy quantifier first consumes
 * as much as it can and then gives characters back one at a time. Its result
 * is proved equal to the declarative description: among all the ways the
 * pattern can match (`IsMatch`), the one that comes first in the engine's
 * priority order (`Precedes`).
 */
module SongFoldersPattern {
  import opened Wrappers

  const Key: string := "SongFolders"

  /** LineTerminator (ECMA-262 section 12.3): the characters `.` does not match. */
  predicate IsLineTerminator(ch: char) {
    ch == '\n' || ch == '\r' || ch == '\U{2028}' || ch == '\U{2029}'
  }

  /** WhiteSpace (ECMA-262 section 12.2), including every space separator of category Zs. */
  predicate IsWhiteSpace(ch: char) {
    || ch == '\t' || ch == '\U{000B}' || ch == '\U{000C}' || ch == ' '
    || ch == '\U{00A0}' || ch == '\U{FEFF}' || ch == '\U{1680}'
    || ('\U{2000}' <= ch <= '\U{200A}')
    || ch == '\U{202F}' || ch == '\U{205F}' || ch == '\U{3000}'
  }

  /** The class `\s` (ECMA-262 section 22.2.2.9): WhiteSpace or LineTerminator. */
  predicate IsSpace(ch: char) {
    IsWhiteSpace(ch) || IsLineTerminator(ch)
  }

  ghost predicate AllSpace(c: string, from: nat, to: nat)
    requires from <= to <= |c|
  {
    forall k :: from <= k < to ==> IsSpace(c[k])
  }

  ghost predicate OnOneLine(c: string, from: nat, to: nat)
    requires from <= to <= |c|
  {
    forall k :: from <= k < to ==> !IsLineTerminator(c[k])
  }

  /**
   * One way of matching: `Key` at `start`, `\s*` up to `eq`, `=` at `eq`,
   * `\s*` up to `valueStart`, and `(.+)` capturing `c[valueStart..valueEnd]`.
   */
  datatype Match = Match(start: nat, eq: nat, valueStart: nat, valueEnd: nat)

  /** Everything the pattern asks for after the key. */
  ghost predicate MatchesAfterKey(c: string, m: Match) {
    && m.start + |Key| <= m.eq < m.valueStart < m.valueEnd <= |c|
    && AllSpace(c, m.start + |Key|, m.eq)
    && c[m.eq] == '='
    && AllSpace(c, m.eq + 1, m.valueStart)
    && OnOneLine(c, m.valueStart, m.valueEnd)
  }

  ghost predicate IsMatch(c: string, m: Match) {
    && m.start + |Key| <= |c|
    && c[m.start..m.start + |Key|] == Key
    && MatchesAfterKey(c, m)
  }

  /**
   * The order in which the engine tries matches: the leftmost start first;
   * then, each greedy quantifier in turn, the longest run first.
   */
  ghost predicate Precedes(m: Match, n: Match) {
    || m.start < n.start
    || (m.start == n.start && m.eq > n.eq)
    || (m.start == n.start && m.eq == n.eq && m.valueStart > n.valueStart)
    || (m.start == n.start && m.eq == n.eq && m.valueStart == n.valueStart && m.valueEnd >= n.valueEnd)
  }

  /** Where a greedy `\s*` that starts at `k` stops. */
  function SpaceRunEnd(c: string, k: nat): (r: nat)
    requires k <= |c|
    ensures k <= r <= |c| && AllSpace(c, k, r)
    ensures r < |c| ==> !IsSpace(c[r])
    decreases |c| - k
  {
    if k < |c| && IsSpace(c[k]) then SpaceRunEnd(c, k + 1) else k
  }

  /** Where a greedy `.+` (or `.*`) that starts at `k` stops: the end of the line. */
  function LineEnd(c: string, k: nat): (r: nat)
    requires k <= |c|
    ensures k <= r <= |c| && OnOneLine(c, k, r)
    ensures r < |c| ==> IsLineTerminator(c[r])
    decreases |c| - k
  {
    if k < |c| && !IsLineTerminator(c[k]) then LineEnd(c, k + 1) else k
  }

  lemma SpaceRunIsLongest(c: string, k: nat, to: nat)
    requires k <= to <= |c| && AllSpace(c, k, to)
    ensures to <= SpaceRunEnd(c, k)
  {
  }

  lemma LineIsLongest(c: string, k: nat, to: nat)
    requires k <= to <= |c| && OnOneLine(c, k, to)
    ensures to <= LineEnd(c, k)
  {
  }

  /**
   * `\s*(.+)` once the `=` is matched: the `\s*` starting at `from` has
   * greedily reached `s` and gives back one character at a time until `.+`
   * can match. Yields the capture's bounds.
   */
  function BacktrackValue(c: string, from: nat, s: nat): (r: Option<(nat, nat)>)
    requires from <= s <= |c|
    ensures r.Some? ==>
      && from <= r.value.0 <= s
      && r.value.0 < r.value.1 <= |c|
      && OnOneLine(c, r.value.0, r.value.1)
    ensures r.Some? ==> forall vs: nat, ve: nat ::
      from <= vs <= s && vs < ve <= |c| && OnOneLine(c, vs, ve) ==>
        vs < r.value.0 || (vs == r.value.0 && ve <= r.value.1)
    ensures r.None? ==> forall vs: nat, ve: nat ::
      from <= vs <= s && vs < ve <= |c| ==> !OnOneLine(c, vs, ve)
    decreases s - from
  {
    var e := LineEnd(c, s);
    if e > s then
      assert forall ve: nat :: s < ve <= |c| && OnOneLine(c, s, ve) ==> ve <= e by {
        forall ve: nat | s < ve <= |c| && OnOneLine(c, s, ve) ensures ve <= e {
          LineIsLongest(c, s, ve);
        }
      }
      Some((s, e))
    else
      assert forall ve: nat :: s < ve <= |c| ==> !OnOneLine(c, s, ve) by {
        forall ve: nat | s < ve <= |c| ensures !OnOneLine(c, s, ve) {
          assert IsLineTerminator(c[s]);
        }
      }
      if s == from then None else BacktrackValue(c, from, s - 1)
  }

  /**
   * `\s*=\s*(.+)` after the key: the first `\s*` has greedily reached `i`
   * and gives back one character at a time until the rest matches.
   */
  function BacktrackEquals(c: string, start: nat, i: nat): (r: Option<Match>)
    requires start + |Key| <= i <= |c| && AllSpace(c, start + |Key|, i)
    ensures r.Some? ==> r.value.start == start && r.value.eq <= i && MatchesAfterKey(c, r.value)
    ensures r.Some? ==> forall n: Match ::
      n.start == start && n.eq <= i && MatchesAfterKey(c, n) ==> Precedes(r.value, n)
    ensures r.None? ==> forall n: Match ::
      n.start == start && n.eq <= i ==> !MatchesAfterKey(c, n)
    decreases i - start
  {
    var value :=
      if i < |c| && c[i] == '=' then BacktrackValue(c, i + 1, SpaceRunEnd(c, i + 1)) else None;
    assert forall n: Match :: n.start == start && n.eq == i && MatchesAfterKey(c, n) ==>
      value.Some? && (n.valueStart < value.value.0 ||
                     (n.valueStart == value.value.0 && n.valueEnd <= value.value.1)) by {
      forall n: Match | n.start == start && n.eq == i && MatchesAfterKey(c, n)
        ensures value.Some? && (n.valueStart < value.value.0 ||
                               (n.valueStart == value.value.0 && n.valueEnd <= value.value.1))
      {
        SpaceRunIsLongest(c, i + 1, n.valueStart);
      }
    }
    if value.Some? then
      Some(Match(start, i, value.value.0, value.value.1))
    else if i == start + |Key| then
      None
    else
      BacktrackEquals(c, start, i - 1)
  }

  /** The leftmost match that starts at `p` or later. */
  function MatchFrom(c: string, p: nat): (r: Option<Match>)
    requires p <= |c|
    ensures r.Some? ==> r.value.start >= p && IsMatch(c, r.value)
    ensures r.Some? ==> forall n: Match :: n.start >= p && IsMatch(c, n) ==> Precedes(r.value, n)
    ensures r.None? ==> forall n: Match :: IsMatch(c, n) ==> n.start < p
    decreases |c| - p
  {
    var here :=
      if p + |Key| <= |c| && c[p..p + |Key|] == Key
      then BacktrackEquals(c, p, SpaceRunEnd(c, p + |Key|))
      else None;
    assert forall n: Match :: n.start == p && IsMatch(c, n) ==>
      here.Some? && Precedes(here.value, n) by {
      forall n: Match | n.start == p && IsMatch(c, n)
        ensures here.Some? && Precedes(here.value, n)
      {
        SpaceRunIsLongest(c, p + |Key|, n.eq);
      }
    }
    if here.Some? then here
    else if p == |c| then None
    else MatchFrom(c, p + 1)
  }

  /** What `content.match(...)` returns: the first match in the engine's order, or `null`. */
  function FirstMatch(c: string): (r: Option<Match>)
    ensures r.None? <==> forall n: Match :: !IsMatch(c, n)
    ensures r.Some? ==> IsMatch(c, r.value)
    ensures r.Some? ==> forall n: Match :: IsMatch(c, n) ==> Precedes(r.value, n)
  {
    MatchFrom(c, 0)
  }

  /** Capture group 1 of the first match: the raw `SongFolders` value. */
  function SongFoldersValue(c: string): (v: Option<string>)
    ensures v.None? <==> forall n: Match :: !IsMatch(c, n)
    ensures v.Some? ==> |v.value| > 0
    ensures v.Some? ==> forall k :: 0 <= k < |v.value| ==> !IsLineTerminator(v.value[k])
  {
    var m := FirstMatch(c);
    if m.Some? then Some(c[m.value.valueStart..m.value.valueEnd]) else None
  }

  /** The priority order is total on matches and antisymmetric, so the first match is unique. */
  lemma FirstMatchIsUnique(c: string, m: Match)
    requires IsMatch(c, m) && forall n: Match :: IsMatch(c, n) ==> Precedes(m, n)
    ensures FirstMatch(c) == Some(m)
  {
    var r := FirstMatch(c).value;
    assert Precedes(r, m) && Precedes(m, r);
  }

  /** Greedy `.+`: the value always runs to the end of its line (or of the content). */
  lemma {:induction false} ValueRunsToLineEnd(c: string)
    requires FirstMatch(c).Some?
    ensures FirstMatch(c).value.valueEnd == LineEnd(c, FirstMatch(c).value.valueStart)
  {
    var m := FirstMatch(c).value;
    var e := LineEnd(c, m.valueStart);
    LineIsLongest(c, m.valueStart, m.valueEnd);
    if m.valueEnd < e {
      var n := Match(m.start, m.eq, m.valueStart, e);
      assert IsMatch(c, n);
    }
  }

  /**
   * Greedy `\s*` after `=`: the value starts with a blank only when nothing
   * but blanks follows the `=`; the value is then that single blank.
   */
  lemma BlankValueOnlyAtEnd(c: string)
    requires FirstMatch(c).Some?
    requires IsSpace(c[FirstMatch(c).value.valueStart])
    ensures FirstMatch(c).value.valueEnd == FirstMatch(c).value.valueStart + 1
    ensures AllSpace(c, FirstMatch(c).value.eq + 1, |c|)
  {
    BlankValueOfFirst(c, FirstMatch(c).value);
  }

  /** `BlankValueOnlyAtEnd` for a match that precedes every other. */
  lemma BlankValueOfFirst(c: string, m: Match)
    requires IsMatch(c, m) && forall n: Match :: IsMatch(c, n) ==> Precedes(m, n)
    requires IsSpace(c[m.valueStart])
    ensures m.valueEnd == m.valueStart + 1
    ensures AllSpace(c, m.eq + 1, |c|)
  {
    var run := SpaceRunEnd(c, m.eq + 1);
    SpaceRunIsLongest(c, m.eq + 1, m.valueStart);
    var later := Match(m.start, m.eq, run, run + 1);
    assert run < |c| ==> IsMatch(c, later);
    var longer := Match(m.start, m.eq, m.valueStart + 1, m.valueStart + 2);
    assert m.valueEnd > m.valueStart + 1 ==> IsMatch(c, longer);
  }

  /**
   * The key need not start a line, nor even a word: after any text without
   * an `S`, `SongFolders=` and a value on one line yield that value. Whatever
   * follows the value's line, later `SongFolders` keys included, is ignored.
   */
  lemma LeftmostKeyWins(pre: string, v: string, rest: string)
    requires forall k :: 0 <= k < |pre| ==> pre[k] != 'S'
    requires |v| > 0 && !IsSpace(v[0])
    requires forall k :: 0 <= k < |v| ==> !IsLineTerminator(v[k])
    requires rest == [] || IsLineTerminator(rest[0])
    ensures SongFoldersValue(pre + Key + "=" + v + rest) == Some(v)
  {
    var tail := Key + "=" + v + rest;
    var c := pre + tail;
    assert c == pre + Key + "=" + v + rest;
    var p := |pre|;
    var m := Match(p, p + |Key|, p + |Key| + 1, p + |Key| + 1 + |v|);
    assert c[p..] == tail;
    assert c[p..p + |Key|] == tail[..|Key|] == Key;
    assert c[p + |Key|] == tail[|Key|] == '=';
    assert c[p + |Key| + 1..p + |Key| + 1 + |v|] == tail[|Key| + 1..|Key| + 1 + |v|] == v;
    assert m.valueEnd < |c| ==> c[m.valueEnd] == rest[0];
    forall q | 0 <= q < p ensures c[q] != 'S' {
      assert c[q] == pre[q];
    }
    assert IsMatch(c, m);
    FirstKeyWithPlainValue(c, m);
  }

  /**
   * A match whose key is the first `S` of the content, whose `=` directly
   * follows the key, whose value starts with a non-blank (after any blanks
   * following the `=`) and runs to the end of its line, is the first match.
   */
  lemma FirstKeyWithPlainValue(c: string, m: Match)
    requires IsMatch(c, m)
    requires forall q :: 0 <= q < m.start ==> c[q] != 'S'
    requires m.eq == m.start + |Key| && !IsSpace(c[m.valueStart])
    requires m.valueEnd < |c| ==> IsLineTerminator(c[m.valueEnd])
    ensures SongFoldersValue(c) == Some(c[m.valueStart..m.valueEnd])
  {
    forall n: Match | IsMatch(c, n) ensures Precedes(m, n) {
      KeyStartsWithS(c, n);
      if n.start == m.start {
        assert !IsSpace(c[m.eq]);
        assert n.eq == m.eq;
        assert n.valueStart <= m.valueStart;
      }
    }
    FirstMatchIsUnique(c, m);
  }

  lemma ValueStartsOnLine(c: string, n: Match)
    requires IsMatch(c, n)
    ensures n.valueStart > n.start + |Key| && !IsLineTerminator(c[n.valueStart])
  {
  }

  lemma KeyStartsWithS(c: string, n: Match)
    requires IsMatch(c, n)
    ensures c[n.start] == 'S'
  {
    assert c[n.start..n.start + |Key|][0] == c[n.start];
  }

  /**
   * The `\s*` after `=` skips blanks and whole line breaks (CRLF included):
   * the value is the first non-blank text after `=`, possibly lines later,
   * up to the end of its line.
   */
  lemma {:induction false} BlanksBeforeValueAreSkipped(t: string, v: string, rest: string)
    requires forall k :: 0 <= k < |t| ==> IsSpace(t[k])
    requires |v| > 0 && !IsSpace(v[0])
    requires forall k :: 0 <= k < |v| ==> !IsLineTerminator(v[k])
    requires rest == [] || IsLineTerminator(rest[0])
    ensures SongFoldersValue(Key + "=" + t + v + rest) == Some(v)
  {
    var c := Key + "=" + t + v + rest;
    var vs := |Key| + 1 + |t|;
    var m := Match(0, |Key|, vs, vs + |v|);
    assert c[..|Key|] == Key;
    assert c[|Key|] == '=';
    assert forall k :: |Key| + 1 <= k < vs ==> c[k] == t[k - |Key| - 1];
    assert c[vs..vs + |v|] == v;
    assert vs + |v| < |c| ==> c[vs + |v|] == rest[0];
    assert IsMatch(c, m);
    FirstKeyWithPlainValue(c, m);
  }

  /** `SongFolders=`, a CRLF and a line starting with a non-blank: the value is that line. */
  lemma ValueOnNextWindowsLine(v: string, rest: string)
    requires |v| > 0 && !IsSpace(v[0])
    requires forall k :: 0 <= k < |v| ==> !IsLineTerminator(v[k])
    requires rest == [] || IsLineTerminator(rest[0])
    ensures SongFoldersValue(Key + "=" + "\r\n" + v + rest) == Some(v)
  {
    BlanksBeforeValueAreSkipped("\r\n", v, rest);
  }

  /**
   * When only line breaks follow the `=`, `(.+)` has nothing to take: that
   * key does not match, and without an earlier key neither does the content.
   */
  lemma OnlyLineBreaksAfterKeyNoMatch(pre: string, t: string)
    requires forall k :: 0 <= k < |pre| ==> pre[k] != 'S'
    requires forall k :: 0 <= k < |t| ==> IsLineTerminator(t[k])
    ensures SongFoldersValue(pre + Key + "=" + t) == None
  {
    var c := pre + Key + "=" + t;
    var p := |pre|;
    assert forall q :: 0 <= q < p ==> c[q] == pre[q];
    assert forall q :: p + |Key| + 1 <= q < |c| ==> c[q] == t[q - p - |Key| - 1];
    forall n: Match ensures !IsMatch(c, n) {
      if IsMatch(c, n) {
        KeyStartsWithS(c, n);
        ValueStartsOnLine(c, n);
      }
    }
  }

  /** The one-line file `SongFolders=` followed by a CRLF has no value. */
  lemma EmptyLastLineNoMatch()
    ensures SongFoldersValue("SongFolders=\r\n") == None
  {
    assert "SongFolders=\r\n" == "" + Key + "=" + "\r\n";
    OnlyLineBreaksAfterKeyNoMatch("", "\r\n");
  }

  /** Without a capital `S` the content cannot hold the key, so nothing matches. */
  lemma NoCapitalSNoMatch(c: string)
    requires forall k :: 0 <= k < |c| ==> c[k] != 'S'
    ensures SongFoldersValue(c) == None
  {
    forall n: Match | IsMatch(c, n) ensures false {
      KeyStartsWithS(c, n);
    }
  }

  /** The key is matched case-sensitively. */
  lemma KeyIsCaseSensitive()
    ensures SongFoldersValue("songfolders=x") == None
  {
    NoCapitalSNoMatch("songfolders=x");
  }
}
