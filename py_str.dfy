/** The Python `str` operations the bot's text handling relies on:
    `strip()` with the `isspace` characters, the `in` membership test and
    `split(sep)`. `find` is the leftmost search `split` is built on, and
    `sep.join(...)` only states the inverse of `split`. Strings are
    sequences of code points. */
module PyStr {

  datatype Option<+T> = None | Some(value: T)

  // ---------------------------------------------------------------------
  // Whitespace and strip()

  /** The characters Python's `str.isspace()` accepts, which are the ones
      `str.strip()` with no argument removes: the ASCII controls 9-13 and
      28-31, the space, and the Unicode separators from U+0085 up. */
  const Whitespace: set<char> := {
    '\U{0009}', '\U{000A}', '\U{000B}', '\U{000C}', '\U{000D}',
    '\U{001C}', '\U{001D}', '\U{001E}', '\U{001F}', '\U{0020}',
    '\U{0085}', '\U{00A0}', '\U{1680}',
    '\U{2000}', '\U{2001}', '\U{2002}', '\U{2003}', '\U{2004}', '\U{2005}',
    '\U{2006}', '\U{2007}', '\U{2008}', '\U{2009}', '\U{200A}',
    '\U{2028}', '\U{2029}', '\U{202F}', '\U{205F}', '\U{3000}'
  }

  /** `c.isspace()` as CPython decides it, range by range; these are
      exactly the characters of `Whitespace`. */
  function IsSpace(c: char): (b: bool)
    ensures b <==> c in Whitespace
  {
    ('\U{0009}' <= c <= '\U{000D}') || ('\U{001C}' <= c <= '\U{0020}')
    || c == '\U{0085}' || c == '\U{00A0}' || c == '\U{1680}'
    || ('\U{2000}' <= c <= '\U{200A}')
    || c == '\U{2028}' || c == '\U{2029}' || c == '\U{202F}' || c == '\U{205F}' || c == '\U{3000}'
  }

  /** Every character of `s` is one of `cs`. */
  predicate AllIn(s: string, cs: set<char>) {
    forall i :: 0 <= i < |s| ==> s[i] in cs
  }

  /** Whitespace only. */
  predicate AllSpace(s: string) {
    AllIn(s, Whitespace)
  }

  /** `s` neither begins nor ends with one of `cs`. */
  predicate TrimmedOf(s: string, cs: set<char>) {
    s == [] || (s[0] !in cs && s[|s| - 1] !in cs)
  }

  /** Neither begins nor ends with whitespace. */
  predicate Trimmed(s: string) {
    TrimmedOf(s, Whitespace)
  }

  /** `s.lstrip(cs)`: the longest suffix of `s` that does not start with one of `cs`. */
  function StripStart(s: string, cs: set<char>): (r: string)
    ensures |r| <= |s| && r == s[|s| - |r|..]
    ensures AllIn(s[..|s| - |r|], cs)
    ensures r == [] || r[0] !in cs
    decreases |s|
  {
    if |s| > 0 && s[0] in cs then StripStart(s[1..], cs) else s
  }

  /** `s.rstrip(cs)`: the longest prefix of `s` that does not end with one of `cs`. */
  function StripEnd(s: string, cs: set<char>): (r: string)
    ensures |r| <= |s| && r == s[..|r|]
    ensures AllIn(s[|r|..], cs)
    ensures r == [] || r[|r| - 1] !in cs
    decreases |s|
  {
    if |s| > 0 && s[|s| - 1] in cs then
      var r := StripEnd(s[..|s| - 1], cs);
      assert s[|r|..] == s[..|s| - 1][|r|..] + [s[|s| - 1]];
      r
    else
      s
  }

  /** `s.strip(cs)`. */
  function StripChars(s: string, cs: set<char>): (r: string)
    ensures TrimmedOf(r, cs)
    ensures |r| <= |s|
  {
    StripEnd(StripStart(s, cs), cs)
  }

  /** `s.strip()`: with no argument Python strips whitespace. */
  function Strip(s: string): (r: string)
    ensures Trimmed(r)
    ensures |r| <= |s|
  {
    StripChars(s, Whitespace)
  }

  /** Stripping removes only characters of `cs`, and only at the two ends:
      `s` is `StripChars(s, cs)` with a run of them on either side. */
  lemma StripSplits(s: string, cs: set<char>) returns (a: string, b: string)
    ensures s == a + StripChars(s, cs) + b
    ensures AllIn(a, cs) && AllIn(b, cs)
  {
    var t := StripStart(s, cs);
    var r := StripEnd(t, cs);
    a := s[..|s| - |t|];
    b := t[|r|..];
    assert StripChars(s, cs) == r;
    SliceThree(s, t, r);
  }

  /** If `t` is a suffix of `s` and `r` a prefix of `t`, `s` is `r` with
      what lies before and after it. */
  lemma SliceThree(s: string, t: string, r: string)
    requires |t| <= |s| && t == s[|s| - |t|..]
    requires |r| <= |t| && r == t[..|r|]
    ensures s == s[..|s| - |t|] + r + t[|r|..]
  {
    assert t == r + t[|r|..];
  }

  /** Reference characterisation: whatever surrounds a string that is
      trimmed of `cs` with characters of `cs`, stripping gives that string back. */
  lemma {:induction false} StripUnique(a: string, m: string, b: string, cs: set<char>)
    requires AllIn(a, cs) && AllIn(b, cs) && TrimmedOf(m, cs)
    ensures StripChars(a + m + b, cs) == m
  {
    if m == [] {
      assert a + m + b == (a + b) + [];
      StripStartOf(a + b, [], cs);
    } else {
      assert a + m + b == a + (m + b);
      StripStartOf(a, m + b, cs);
      StripEndOf(m, b, cs);
    }
  }

  lemma {:induction false} StripStartOf(a: string, t: string, cs: set<char>)
    requires AllIn(a, cs)
    requires t == [] || t[0] !in cs
    ensures StripStart(a + t, cs) == t
    decreases |a|
  {
    if a != [] {
      assert (a + t)[1..] == a[1..] + t;
      StripStartOf(a[1..], t, cs);
    } else {
      assert a + t == t;
    }
  }

  lemma {:induction false} StripEndOf(m: string, b: string, cs: set<char>)
    requires AllIn(b, cs)
    requires m == [] || m[|m| - 1] !in cs
    ensures StripEnd(m + b, cs) == m
    decreases |b|
  {
    if b != [] {
      assert (m + b)[..|m + b| - 1] == m + b[..|b| - 1];
      StripEndOf(m, b[..|b| - 1], cs);
    } else {
      assert m + b == m;
    }
  }

  /** Stripping twice is stripping once. */
  lemma StripIdempotent(s: string, cs: set<char>)
    ensures StripChars(StripChars(s, cs), cs) == StripChars(s, cs)
  {
    StripUnique([], StripChars(s, cs), [], cs);
    assert [] + StripChars(s, cs) + [] == StripChars(s, cs);
  }

  /** Whitespace appended after a string is stripped away again. */
  lemma StripTrailingSpace(s: string, b: string)
    requires AllSpace(b)
    ensures Strip(s + b) == Strip(s)
  {
    var a, c := StripSplits(s, Whitespace);
    var m := Strip(s);
    assert s + b == a + m + (c + b);
    forall i | 0 <= i < |c + b|
      ensures (c + b)[i] in Whitespace
    {
      if i < |c| {
        assert (c + b)[i] == c[i];
      } else {
        assert (c + b)[i] == b[i - |c|];
      }
    }
    StripUnique(a, m, c + b, Whitespace);
  }

  // ---------------------------------------------------------------------
  // Substring search: `sub in s` and `s.find(sub)`

  /** `pat` occurs in `s` starting at index `k`. */
  predicate OccursAt(s: string, pat: string, k: int) {
    0 <= k && k + |pat| <= |s| && s[k..k + |pat|] == pat
  }

  /** Python's `pat in s`. */
  predicate Contains(s: string, pat: string) {
    exists k | 0 <= k <= |s| - |pat| :: OccursAt(s, pat, k)
  }

  /** `pat in s` holds exactly when `pat` is an infix of `s`. */
  lemma ContainsInfix(s: string, pat: string)
    ensures Contains(s, pat) <==> exists a, b :: s == a + pat + b
  {
    if Contains(s, pat) {
      var k :| 0 <= k <= |s| - |pat| && OccursAt(s, pat, k);
      assert s == s[..k] + pat + s[k + |pat|..];
    }
    if a, b :| s == a + pat + b {
      assert OccursAt(s, pat, |a|);
    }
  }

  /** `s.find(pat)`, with `None` for Python's -1: the first index where
      `pat` occurs, if any. */
  function Find(s: string, pat: string): (r: Option<nat>)
    ensures r.None? <==> !Contains(s, pat)
    ensures r.Some? ==> OccursAt(s, pat, r.value)
    ensures r.Some? ==> forall j :: 0 <= j < r.value ==> !OccursAt(s, pat, j)
    decreases |s|
  {
    if |s| < |pat| then
      assert forall k :: !OccursAt(s, pat, k);
      None
    else if s[..|pat|] == pat then
      assert OccursAt(s, pat, 0);
      Some(0)
    else
      assert !OccursAt(s, pat, 0);
      OccursAfterFirst(s, pat);
      match Find(s[1..], pat)
      case None => None
      case Some(k) => Some(k + 1)
  }

  /** An occurrence inside a piece of `s` is an occurrence in `s`. */
  lemma OccursInside(a: string, m: string, b: string, pat: string, k: int)
    requires OccursAt(m, pat, k)
    ensures OccursAt(a + m + b, pat, |a| + k)
  {
    assert (a + m + b)[|a| + k..|a| + k + |pat|] == m[k..k + |pat|];
  }

  /** A piece of a string that does not contain `pat` does not contain it either. */
  lemma PieceLacks(a: string, m: string, b: string, pat: string)
    requires !Contains(a + m + b, pat)
    ensures !Contains(m, pat)
  {
    if Contains(m, pat) {
      var k :| OccursAt(m, pat, k);
      OccursInside(a, m, b, pat, k);
    }
  }

  /** Occurrences in a suffix `s[d..]` are the occurrences in `s` shifted by `d`. */
  lemma OccursShift(s: string, pat: string, d: nat, j: int)
    requires d <= |s|
    ensures OccursAt(s[d..], pat, j) <==> (0 <= j && OccursAt(s, pat, d + j))
  {
    if 0 <= j && d + j + |pat| <= |s| {
      assert s[d..][j..j + |pat|] == s[d + j..d + j + |pat|];
    }
  }

  /** The occurrences in `s` past index 0 are those in `s[1..]`, shifted by one. */
  lemma OccursAfterFirst(s: string, pat: string)
    requires |s| > 0
    ensures forall j :: OccursAt(s[1..], pat, j) ==> OccursAt(s, pat, j + 1)
    ensures forall j :: 0 < j && OccursAt(s, pat, j) ==> OccursAt(s[1..], pat, j - 1)
  {
    forall j ensures OccursAt(s[1..], pat, j) <==> (0 <= j && OccursAt(s, pat, j + 1)) {
      OccursShift(s, pat, 1, j);
    }
  }

  /** `Find` gives the first occurrence, whichever way it was found. */
  lemma FindFirst(s: string, pat: string, k: nat)
    requires OccursAt(s, pat, k)
    requires forall j :: 0 <= j < k ==> !OccursAt(s, pat, j)
    ensures Find(s, pat) == Some(k)
  {
    var f := Find(s, pat);
    assert f.Some?;
    assert !(k < f.value);
  }

  /** The first occurrence of `pat` at or after `from`, or `|s|` if there
      is none: the search `Find` performs on the suffix `s[from..]`. */
  lemma NextOrEnd(s: string, pat: string, from: nat) returns (e: nat)
    requires from <= |s|
    ensures from <= e <= |s|
    ensures e == |s| || OccursAt(s, pat, e)
    ensures forall j :: from <= j < e ==> !OccursAt(s, pat, j)
  {
    match Find(s[from..], pat)
    case None =>
      e := |s|;
      forall j | from <= j < e
        ensures !OccursAt(s, pat, j)
      {
        OccursShift(s, pat, from, j - from);
      }
    case Some(d) =>
      e := from + d;
      OccursShift(s, pat, from, d);
      forall j | from <= j < e
        ensures !OccursAt(s, pat, j)
      {
        OccursShift(s, pat, from, j - from);
      }
  }

  // ---------------------------------------------------------------------
  // split and join

  /** `sep.join(pieces)`. */
  function Join(pieces: seq<string>, sep: string): (r: string)
    requires |pieces| >= 1
    decreases |pieces|
  {
    if |pieces| == 1 then pieces[0] else pieces[0] + sep + Join(pieces[1..], sep)
  }

  /** `s.split(sep)` for a non-empty separator: cut `s` at every occurrence
      of `sep`, scanning from the left, and drop the separators. There is
      one piece more than there are separators found. */
  function Split(s: string, sep: string): (r: seq<string>)
    requires |sep| > 0
    ensures |r| >= 1
    ensures |r| == 1 <==> !Contains(s, sep)
    decreases |s|
  {
    match Find(s, sep)
    case None => [s]
    case Some(k) => [s[..k]] + Split(s[k + |sep|..], sep)
  }

  /** Joining the pieces with the separator gives back the string. */
  lemma {:induction false} SplitJoin(s: string, sep: string)
    requires |sep| > 0
    ensures Join(Split(s, sep), sep) == s
    decreases |s|
  {
    match Find(s, sep)
    case None =>
    case Some(k) =>
      var rest := s[k + |sep|..];
      SplitJoin(rest, sep);
      JoinCons(s[..k], Split(rest, sep), sep);
      CutAt(s, sep, k);
  }

  /** The first piece of a split runs up to the first occurrence of the
      separator, or is the whole string when there is none. */
  lemma SplitFirst(s: string, sep: string, e: nat)
    requires |sep| > 0 && e <= |s|
    requires e == |s| || OccursAt(s, sep, e)
    requires forall j :: 0 <= j < e ==> !OccursAt(s, sep, j)
    ensures Split(s, sep)[0] == s[..e]
  {
    if e < |s| {
      FindFirst(s, sep, e);
    } else {
      assert s[..e] == s;
      assert !Contains(s, sep);
    }
  }

  /** The second piece of a split runs from just after the first occurrence
      `k` of the separator up to the next occurrence `e`, or to the end. */
  lemma SplitSecond(s: string, sep: string, k: nat, e: nat)
    requires |sep| > 0
    requires OccursAt(s, sep, k)
    requires forall j :: 0 <= j < k ==> !OccursAt(s, sep, j)
    requires k + |sep| <= e <= |s|
    requires e == |s| || OccursAt(s, sep, e)
    requires forall j :: k + |sep| <= j < e ==> !OccursAt(s, sep, j)
    ensures |Split(s, sep)| >= 2 && Split(s, sep)[1] == s[k + |sep|..e]
  {
    FindFirst(s, sep, k);
    var from := k + |sep|;
    var rest := s[from..];
    forall j | 0 <= j < e - from
      ensures !OccursAt(rest, sep, j)
    {
      OccursShift(s, sep, from, j);
    }
    if e < |s| {
      OccursShift(s, sep, from, e - from);
    }
    SplitFirst(rest, sep, e - from);
    assert rest[..e - from] == s[from..e];
  }

  /** Slicing past a prefix `p` reads from what follows it. */
  lemma SliceAfter(p: string, t: string, c: nat)
    requires c <= |t|
    ensures (p + t)[|p|..] == t
    ensures (p + t)[|p|..|p| + c] == t[..c]
  {
  }

  lemma JoinCons(first: string, rest: seq<string>, sep: string)
    requires |rest| >= 1
    ensures Join([first] + rest, sep) == first + sep + Join(rest, sep)
  {
    assert ([first] + rest)[1..] == rest;
  }

  /** Cutting out an occurrence of `pat` leaves what was before and after it. */
  lemma CutAt(s: string, pat: string, k: int)
    requires OccursAt(s, pat, k)
    ensures s == s[..k] + pat + s[k + |pat|..]
  {
    assert s == s[..k] + s[k..k + |pat|] + s[k + |pat|..];
  }

  /** No piece of a split contains the separator. */
  lemma {:induction false} SplitPiecesLack(s: string, sep: string)
    requires |sep| > 0
    ensures forall i :: 0 <= i < |Split(s, sep)| ==> !Contains(Split(s, sep)[i], sep)
    decreases |s|
  {
    match Find(s, sep)
    case None =>
    case Some(k) =>
      var rest := s[k + |sep|..];
      SplitPiecesLack(rest, sep);
      PrefixBeforeFirst(s, sep, k);
      PiecesLackCons(s[..k], Split(rest, sep), sep);
  }

  lemma PiecesLackCons(first: string, rest: seq<string>, sep: string)
    requires !Contains(first, sep)
    requires forall i :: 0 <= i < |rest| ==> !Contains(rest[i], sep)
    ensures forall i :: 0 <= i < |[first] + rest| ==> !Contains(([first] + rest)[i], sep)
  {
  }
  /** Nothing before the first occurrence of `sep` contains `sep`. */
  lemma PrefixBeforeFirst(s: string, sep: string, k: nat)
    requires k <= |s|
    requires forall j :: 0 <= j < k ==> !OccursAt(s, sep, j)
    requires |sep| > 0
    ensures !Contains(s[..k], sep)
  {
    if Contains(s[..k], sep) {
      var j :| OccursAt(s[..k], sep, j);
      assert OccursAt(s[..k], sep, j);
      assert s[..k][j..j + |sep|] == s[j..j + |sep|];
      assert OccursAt(s, sep, j);
    }
  }
}
