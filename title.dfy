/**
 * The window title (web/App.tsx:240-244): the application name while no
 * image is shown, otherwise the path with `url.replace(/.+(\/|\\)/, '')`
 * applied.
 *
 * The model follows ECMAScript regular-expression semantics for that
 * pattern: `replace` without the `g` flag removes only the first match; the
 * search tries start positions from left to right; `.` matches any
 * character except a line terminator; greedy `.+` backtracks from the
 * longest run, so a match is the longest one at its start position and
 * must have at least one character before the separator.
 */
module Title {
  import opened Wrappers
  import opened Navigation

  const AppName: string := "LeafView"

  /** `/` or `\`, the alternatives of `(\/|\\)`. */
  predicate IsSeparator(c: char) {
    c == '/' || c == '\\'
  }

  /** The characters `.` does not match. */
  predicate IsLineTerminator(c: char) {
    c == '\n' || c == '\r' || c == '\U{2028}' || c == '\U{2029}'
  }

  /** A string without line terminators, as file paths normally are. */
  predicate SingleLine(s: string) {
    forall i :: 0 <= i < |s| ==> !IsLineTerminator(s[i])
  }

  /** The end of the line that position `i` is on: the first line
      terminator at or after `i`, or the end of the string. */
  function LineEnd(s: string, i: nat): (e: nat)
    requires i <= |s|
    ensures i <= e <= |s|
    ensures forall j :: i <= j < e ==> !IsLineTerminator(s[j])
    ensures e < |s| ==> IsLineTerminator(s[e])
    decreases |s| - i
  {
    if i == |s| || IsLineTerminator(s[i]) then i else LineEnd(s, i + 1)
  }

  /** The position of the last separator in `s[lo..hi]`, or -1. */
  function LastSeparator(s: string, lo: nat, hi: nat): (k: int)
    requires lo <= hi <= |s|
    ensures k == -1 || (lo <= k < hi && IsSeparator(s[k]))
    ensures forall j :: lo <= j < hi && k < j ==> !IsSeparator(s[j])
    decreases hi - lo
  {
    if lo == hi then -1
    else if IsSeparator(s[hi - 1]) then hi - 1
    else LastSeparator(s, lo, hi - 1)
  }

  /** The end of the match of `.+(\/|\\)` that starts at `start`, if any:
      one past the last separator that follows at least one character on
      the same line. */
  function MatchAt(s: string, start: nat): (m: Option<nat>)
    requires start < |s|
    ensures m.Some? ==> start + 2 <= m.value <= |s| && IsSeparator(s[m.value - 1])
    ensures m.Some? ==> forall j :: start <= j < m.value ==> !IsLineTerminator(s[j])
    ensures m.Some? ==> forall j :: m.value <= j < LineEnd(s, start) ==> !IsSeparator(s[j])
    ensures m.None? ==> forall j :: start < j < LineEnd(s, start) ==> !IsSeparator(s[j])
  {
    var e := LineEnd(s, start);
    if e <= start then None
    else
      var k := LastSeparator(s, start + 1, e);
      if k == -1 then None else Some(k + 1)
  }

  /** A match: the characters `s[start..end]`. */
  datatype Span = Span(start: nat, end: nat)

  /** The leftmost match at or after position `from`. */
  function FindMatch(s: string, from: nat): (m: Option<Span>)
    ensures m.Some? ==> from <= m.value.start < |s| && MatchAt(s, m.value.start) == Some(m.value.end)
    ensures m.Some? ==> forall i :: from <= i < m.value.start ==> MatchAt(s, i).None?
    ensures m.None? ==> forall i :: from <= i < |s| ==> MatchAt(s, i).None?
    decreases |s| - from
  {
    if from >= |s| then None
    else match MatchAt(s, from)
      case Some(end) => Some(Span(from, end))
      case None => FindMatch(s, from + 1)
  }

  lemma SingleLineEnd(s: string, i: nat)
    requires SingleLine(s) && i <= |s|
    ensures LineEnd(s, i) == |s|
  {
  }

  /** On a single-line string a match, if any, starts at position 0 and
      reaches the last separator. */
  lemma SingleLineMatch(s: string)
    ensures SingleLine(s) && FindMatch(s, 0).Some? ==>
              FindMatch(s, 0).value.start == 0 && LineEnd(s, 0) == |s|
  {
    var m := FindMatch(s, 0);
    if SingleLine(s) && m.Some? {
      SingleLineEnd(s, 0);
    }
  }

  /** `s.replace(/.+(\/|\\)/, '')`: the first match removed. On a path
      without line terminators what is left has no separator after its
      first character, and it is a suffix of the path. */
  function StripDirectory(s: string): (r: string)
    ensures |r| <= |s|
    ensures SingleLine(s) ==> r == s[|s| - |r|..]
    ensures SingleLine(s) ==> forall j :: 0 < j < |r| ==> !IsSeparator(r[j])
  {
    match FindMatch(s, 0)
    case None =>
      SingleLineNoMatch(s);
      s
    case Some(span) =>
      SingleLineMatch(s);
      s[..span.start] + s[span.end..]
  }

  /** On a single-line string without a match there is no separator after
      position 0. */
  lemma SingleLineNoMatch(s: string)
    ensures SingleLine(s) && FindMatch(s, 0).None? ==> forall j :: 0 < j < |s| ==> !IsSeparator(s[j])
  {
    if SingleLine(s) && FindMatch(s, 0).None? && |s| > 0 {
      SingleLineEnd(s, 0);
      assert MatchAt(s, 0).None?;
    }
  }

  /** With no separator after position `from`, no match starts at or after it. */
  lemma {:induction false} NoMatchFrom(s: string, from: nat)
    requires SingleLine(s)
    requires forall j :: from < j < |s| ==> !IsSeparator(s[j])
    ensures FindMatch(s, from) == None
    decreases |s| - from
  {
    if from < |s| {
      SingleLineEnd(s, from);
      NoMatchFrom(s, from + 1);
    }
  }

  /** A single-line path whose last separator is at position `k >= 1` is
      titled by what follows that separator. */
  lemma StripAfterLastSeparator(s: string, k: nat)
    requires SingleLine(s) && 1 <= k < |s| && IsSeparator(s[k])
    requires forall j :: k < j < |s| ==> !IsSeparator(s[j])
    ensures StripDirectory(s) == s[k + 1..]
  {
    SingleLineEnd(s, 0);
    assert MatchAt(s, 0) == Some(k + 1);
  }

  /** A single-line path with no separator after its first character is
      its own title. */
  lemma StripWithoutSeparator(s: string)
    requires SingleLine(s)
    requires forall j :: 0 < j < |s| ==> !IsSeparator(s[j])
    ensures StripDirectory(s) == s
  {
    NoMatchFrom(s, 0);
  }

  /** Stripping twice is stripping once, for single-line paths. */
  lemma StripIdempotent(s: string)
    requires SingleLine(s)
    ensures StripDirectory(StripDirectory(s)) == StripDirectory(s)
  {
    var r := StripDirectory(s);
    assert r == s[|s| - |r|..];
    assert forall i :: 0 <= i < |r| ==> r[i] == s[|s| - |r| + i];
    StripWithoutSeparator(r);
  }

  /** `.` stops at a line break, so only the first line loses its directory. */
  lemma StripStopsAtLineBreak()
    ensures StripDirectory("a/b\nc/d") == "b\nc/d"
  {
    assert LineEnd("a/b\nc/d", 0) == 3;
    assert MatchAt("a/b\nc/d", 0) == Some(2);
  }

  /** The window title for the session state. */
  function WindowTitle(url: Current): (t: string)
    ensures url.Empty? ==> t == AppName
    ensures url.Path? && SingleLine(url.p) ==> forall j :: 0 < j < |t| ==> !IsSeparator(t[j])
    ensures url.Path? ==> |t| <= |url.p|
  {
    if url.Empty? then AppName else StripDirectory(url.p)
  }
}
