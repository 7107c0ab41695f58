/** The JavaScript string built-ins the chat monitor is written with —
    `indexOf`, `split`, `join` and `trim` — for the non-empty separators it
    passes them. JavaScript strings are sequences of UTF-16 code units; here a
    string is a `seq<char>`. */
module JsStrings {
  import opened Wrappers

  /** `pat` occurs in `s` at index `i`. */
  predicate OccursAt(s: string, pat: string, i: int)
  {
    0 <= i && i + |pat| <= |s| && s[i..i + |pat|] == pat
  }

  /** The first occurrence of `pat` in `s` at index `k` or later. */
  function IndexFrom(s: string, pat: string, k: nat): (r: Option<nat>)
    ensures r.Some? ==> k <= r.value && r.value + |pat| <= |s|
    decreases |s| - k
  {
    if |s| < k + |pat| then None
    else if OccursAt(s, pat, k) then Some(k)
    else IndexFrom(s, pat, k + 1)
  }

  /** `s.indexOf(pat)`: the first index at which `pat` occurs, None standing
      for JavaScript's -1. */
  function IndexOf(s: string, pat: string): (r: Option<nat>)
    ensures r.Some? ==> r.value + |pat| <= |s|
  {
    IndexFrom(s, pat, 0)
  }

  /** IndexFrom finds the first occurrence at or after `k`, and None means
      there is none. */
  lemma {:induction false} IndexFromFindsFirst(s: string, pat: string, k: nat)
    ensures var r := IndexFrom(s, pat, k);
      (r.Some? ==> OccursAt(s, pat, r.value)) &&
      (r.Some? ==> forall j :: k <= j < r.value ==> !OccursAt(s, pat, j)) &&
      (r.None? ==> forall j :: k <= j ==> !OccursAt(s, pat, j))
    decreases |s| - k
  {
    if |s| < k + |pat| {
    } else if !OccursAt(s, pat, k) {
      IndexFromFindsFirst(s, pat, k + 1);
    }
  }

  /** `indexOf` answers the first index at which `pat` occurs, and -1 only
      when it occurs nowhere. */
  lemma IndexOfFindsFirst(s: string, pat: string)
    ensures var r := IndexOf(s, pat);
      (r.Some? ==> OccursAt(s, pat, r.value)) &&
      (r.Some? ==> forall j :: 0 <= j < r.value ==> !OccursAt(s, pat, j)) &&
      (r.None? ==> forall j :: !OccursAt(s, pat, j))
  {
    IndexFromFindsFirst(s, pat, 0);
  }

  /** `s.indexOf(pat) > -1`. */
  predicate Contains(s: string, pat: string)
  {
    IndexOf(s, pat).Some?
  }

  /** `s.split(sep)` for a non-empty separator: the pieces between successive
      non-overlapping occurrences of `sep`, found from the left; empty pieces
      are kept. */
  function Split(s: string, sep: string): (r: seq<string>)
    requires sep != []
    ensures |r| >= 1
    decreases |s|
  {
    match IndexOf(s, sep)
    case None => [s]
    case Some(i) => [s[..i]] + Split(s[i + |sep|..], sep)
  }

  /** `split` yields a single piece exactly when the separator is absent. */
  lemma {:induction false} SplitIsSingleIffAbsent(s: string, sep: string)
    requires sep != []
    ensures |Split(s, sep)| == 1 <==> !Contains(s, sep)
  {
    match IndexOf(s, sep)
    case None =>
    case Some(i) =>
      assert |Split(s, sep)| == 1 + |Split(s[i + |sep|..], sep)|;
  }

  /** When `c` is not in `a`, the first occurrence of `c` in `a + [c] + b`
      is the one just after `a`, so `split` cuts there first. */
  lemma SplitAfterFreePrefix(a: string, c: char, b: string)
    requires c !in a
    ensures Split(a + [c] + b, [c]) == [a] + Split(b, [c])
  {
    var s := a + [c] + b;
    IndexOfFindsFirst(s, [c]);
    assert s[|a|..|a| + 1] == [c];
    assert OccursAt(s, [c], |a|);
    var i := IndexOf(s, [c]).value;
    forall k | 0 <= k < |a|
      ensures !OccursAt(s, [c], k)
    {
      assert s[k..k + 1] == [a[k]];
    }
    assert i == |a|;
    assert s[..i] == a;
    assert s[i + 1..] == b;
    SplitAtFirst(s, [c], i);
  }

  /** No piece of `s.split(sep)` contains `sep`. */
  lemma {:induction false} SplitPiecesAreFree(s: string, sep: string)
    requires sep != []
    ensures forall k :: 0 <= k < |Split(s, sep)| ==> !Contains(Split(s, sep)[k], sep)
    decreases |s|
  {
    match IndexOf(s, sep)
    case None =>
    case Some(i) =>
      PrefixBeforeFirstIsFree(s, sep, i);
      SplitPiecesAreFree(s[i + |sep|..], sep);
      assert Split(s, sep) == [s[..i]] + Split(s[i + |sep|..], sep);
  }

  /** Nothing before the first occurrence contains the pattern. */
  lemma PrefixBeforeFirstIsFree(s: string, sep: string, i: nat)
    requires sep != [] && IndexOf(s, sep) == Some(i)
    ensures !Contains(s[..i], sep)
  {
    IndexOfFindsFirst(s, sep);
    IndexOfFindsFirst(s[..i], sep);
    forall j | 0 <= j < i
      ensures !OccursAt(s[..i], sep, j)
    {
      assert !OccursAt(s, sep, j);
      if j + |sep| <= i {
        assert s[..i][j..j + |sep|] == s[j..j + |sep|];
      }
    }
  }

  /** `pieces.join(sep)`. */
  function Join(pieces: seq<string>, sep: string): string
  {
    if pieces == [] then []
    else if |pieces| == 1 then pieces[0]
    else pieces[0] + sep + Join(pieces[1..], sep)
  }

  /** `pieces.join('')`. */
  function Concat(pieces: seq<string>): string
  {
    if pieces == [] then [] else pieces[0] + Concat(pieces[1..])
  }

  /** `s` with every `c` deleted. */
  function RemoveChar(s: string, c: char): (r: string)
  {
    if s == [] then []
    else if s[0] == c then RemoveChar(s[1..], c)
    else [s[0]] + RemoveChar(s[1..], c)
  }

  /** RemoveChar deletes every `c` and keeps every other character. */
  lemma {:induction false} RemoveCharDeletesOnlyC(s: string, c: char)
    ensures c !in RemoveChar(s, c)
    ensures multiset(RemoveChar(s, c)) == multiset(s)[c := 0]
  {
    if s != [] {
      RemoveCharDeletesOnlyC(s[1..], c);
      assert s == [s[0]] + s[1..];
    }
  }

  /** Joining the pieces back with the separator gives the string that was
      split: `split` loses nothing but the separators. */
  lemma {:induction false} JoinSplit(s: string, sep: string)
    requires sep != []
    ensures Join(Split(s, sep), sep) == s
    decreases |s|
  {
    if IndexOf(s, sep).Some? {
      var i := IndexOf(s, sep).value;
      var rest := s[i + |sep|..];
      IndexOfFindsFirst(s, sep);
      JoinSplit(rest, sep);
      JoinCons(s[..i], Split(rest, sep), sep);
      Recompose(s, i, i + |sep|);
    }
  }

  /** A string is its three slices around `i` and `j`, put back together. */
  lemma Recompose(s: string, i: nat, j: nat)
    requires i <= j <= |s|
    ensures s == s[..i] + s[i..j] + s[j..]
  {
  }

  lemma JoinCons(x: string, tail: seq<string>, sep: string)
    requires |tail| >= 1
    ensures Join([x] + tail, sep) == x + sep + Join(tail, sep)
  {
    assert ([x] + tail)[1..] == tail;
  }

  /** `p` is the text of `s` strictly after the first occurrence of `sep`,
      up to the next occurrence or to the end of `s`. */
  predicate BetweenFirstTwo(s: string, sep: string, p: string)
  {
    Contains(s, sep) && PieceAt(s, sep, IndexOf(s, sep).value + |sep|, p)
  }

  /** `p` is the text of `s` from index `a` up to the next occurrence of
      `sep` or to the end of `s`: no occurrence of `sep` in `s` starts
      inside `p`, not even one that runs on past its end. */
  predicate PieceAt(s: string, sep: string, a: nat, p: string)
  {
    a + |p| <= |s| && p == s[a..a + |p|] &&
    (forall j :: a <= j < a + |p| ==> !OccursAt(s, sep, j)) &&
    (a + |p| == |s| || OccursAt(s, sep, a + |p|))
  }

  /** `PieceAt` pins the piece down: from a given start there is only one. */
  lemma PieceAtIsUnique(s: string, sep: string, a: nat, p: string, q: string)
    requires PieceAt(s, sep, a, p) && PieceAt(s, sep, a, q)
    ensures p == q
  {
    assert |p| == |q|;
  }

  /** The piece `split(sep)[1]` of a string that contains `sep`. */
  lemma SecondPiece(s: string, sep: string)
    requires sep != [] && Contains(s, sep)
    ensures |Split(s, sep)| >= 2 && BetweenFirstTwo(s, sep, Split(s, sep)[1])
  {
    var i := IndexOf(s, sep).value;
    var a := i + |sep|;
    IndexOfFindsFirst(s, sep);
    SplitAtFirst(s, sep, i);
    var p := Split(s[a..], sep)[0];
    assert Split(s, sep)[1] == p;
    FirstPieceOfSuffix(s, sep, a);
    assert PieceAt(s, sep, a, p);
  }

  /** Splitting consumes the first occurrence and goes on after it. */
  lemma SplitAtFirst(s: string, sep: string, i: nat)
    requires sep != [] && IndexOf(s, sep) == Some(i)
    ensures Split(s, sep) == [s[..i]] + Split(s[i + |sep|..], sep)
  {
  }

  /** The first piece of the suffix `s[a..]` runs from `a` to the next
      occurrence of `sep` or to the end of `s`. */
  lemma FirstPieceOfSuffix(s: string, sep: string, a: nat)
    requires sep != [] && a <= |s|
    ensures PieceAt(s, sep, a, Split(s[a..], sep)[0])
  {
    IndexOfFindsFirst(s[a..], sep);
    var p := Split(s[a..], sep)[0];
    match IndexOf(s[a..], sep) {
      case None =>
        assert p == s[a..] == s[a..a + |p|];
      case Some(j) =>
        assert p == s[a..][..j];
        SliceOfSuffix(s, a, 0, j);
        SliceOfSuffix(s, a, j, j + |sep|);
    }
    forall k | a <= k < a + |p|
      ensures !OccursAt(s, sep, k)
    {
      OccursInSuffix(s, sep, a, k);
    }
  }

  /** An occurrence in the suffix `s[a..]` is an occurrence in `s`, shifted
      by `a`. */
  lemma OccursInSuffix(s: string, sep: string, a: nat, k: nat)
    requires a <= k && a <= |s|
    ensures OccursAt(s[a..], sep, k - a) <==> OccursAt(s, sep, k)
  {
    if k + |sep| <= |s| {
      SliceOfSuffix(s, a, k - a, k - a + |sep|);
    }
  }

  /** A slice of a suffix is a slice of the whole string. */
  lemma SliceOfSuffix(s: string, a: nat, b: nat, c: nat)
    requires a <= |s| && b <= c <= |s| - a
    ensures s[a..][b..c] == s[a + b..a + c]
  {
  }

  /** The piece `split(sep)[0]`: the text before the first occurrence, or the
      whole string when there is none. */
  lemma FirstPiece(s: string, sep: string)
    requires sep != []
    ensures Split(s, sep)[0] == match IndexOf(s, sep)
      case None => s
      case Some(i) => s[..i]
  {
  }

  /** Splitting on a one-character separator and joining with '' deletes
      every occurrence of that character. */
  lemma {:induction false} ConcatSplitRemovesChar(s: string, c: char)
    ensures Concat(Split(s, [c])) == RemoveChar(s, c)
    decreases |s|
  {
    match IndexOf(s, [c])
    case None =>
      NoOccurrenceNoChar(s, c);
      RemoveAbsentChar(s, c);
    case Some(i) =>
      var a, rest := s[..i], s[i + 1..];
      PrefixBeforeFirstIsFree(s, [c], i);
      NoOccurrenceNoChar(a, c);
      SplitCutsAtFirst(s, c, i);
      SplitAfterFreePrefix(a, c, rest);
      ConcatSplitRemovesChar(rest, c);
      ConcatCons(a, Split(rest, [c]));
      RemoveFirstChar(a, c, rest);
  }

  /** The character at the first occurrence of `[c]` is `c`. */
  lemma SplitCutsAtFirst(s: string, c: char, i: nat)
    requires IndexOf(s, [c]) == Some(i)
    ensures s == s[..i] + [c] + s[i + 1..]
  {
    IndexOfFindsFirst(s, [c]);
    assert s[i..i + 1] == [c];
    Recompose(s, i, i + 1);
  }

  lemma ConcatCons(x: string, tail: seq<string>)
    ensures Concat([x] + tail) == x + Concat(tail)
  {
    assert ([x] + tail)[1..] == tail;
  }

  /** Deleting `c` from a text whose first `c` follows `a` keeps `a` whole. */
  lemma RemoveFirstChar(a: string, c: char, rest: string)
    requires c !in a
    ensures RemoveChar(a + [c] + rest, c) == a + RemoveChar(rest, c)
  {
    var b := a + [c];
    RemoveCharAppend(b, rest, c);
    RemoveCharAppend(a, [c], c);
    RemoveAbsentChar(a, c);
    assert RemoveChar([c], c) == RemoveChar([], c) == [];
    assert RemoveChar(b, c) == a + [];
    assert a + [] == a;
  }

  lemma NoOccurrenceNoChar(s: string, c: char)
    requires !Contains(s, [c])
    ensures c !in s
  {
    IndexOfFindsFirst(s, [c]);
    forall k | 0 <= k < |s|
      ensures s[k] != c
    {
      assert s[k..k + 1] == [s[k]];
      assert !OccursAt(s, [c], k);
    }
  }

  lemma {:induction false} RemoveAbsentChar(s: string, c: char)
    requires c !in s
    ensures RemoveChar(s, c) == s
  {
    if s != [] {
      RemoveAbsentChar(s[1..], c);
    }
  }

  lemma {:induction false} RemoveCharAppend(a: string, b: string, c: char)
    ensures RemoveChar(a + b, c) == RemoveChar(a, c) + RemoveChar(b, c)
  {
    if a != [] {
      assert (a + b)[0] == a[0];
      assert (a + b)[1..] == a[1..] + b;
      RemoveCharAppend(a[1..], b, c);
    } else {
      assert a + b == b;
    }
  }

  /** The characters String.prototype.trim strips: ECMAScript's WhiteSpace
      (tab, vertical tab, form feed, space, no-break space, the byte order mark
      and the other space separators of Unicode category Zs) and its
      LineTerminator characters. */
  predicate IsWhitespace(c: char)
  {
    c == '\t' || c == '\n' || c == '\U{000B}' || c == '\U{000C}' || c == '\r' ||
    c == ' ' || c == '\U{00A0}' || c == '\U{1680}' ||
    ('\U{2000}' <= c <= '\U{200A}') ||
    c == '\U{2028}' || c == '\U{2029}' || c == '\U{202F}' || c == '\U{205F}' ||
    c == '\U{3000}' || c == '\U{FEFF}'
  }

  /** `s` without its leading whitespace. */
  function TrimStart(s: string): string
  {
    if s != [] && IsWhitespace(s[0]) then TrimStart(s[1..]) else s
  }

  /** `s` without its trailing whitespace. */
  function TrimEnd(s: string): string
  {
    if s != [] && IsWhitespace(s[|s| - 1]) then TrimEnd(s[..|s| - 1]) else s
  }

  /** `s.trim()`. */
  function Trim(s: string): string
  {
    TrimEnd(TrimStart(s))
  }

  /** TrimStart drops the leading whitespace and nothing else. */
  lemma {:induction false} TrimStartDropsLeadingWhitespace(s: string)
    ensures var r := TrimStart(s);
      |r| <= |s| && r == s[|s| - |r|..] &&
      (forall k :: 0 <= k < |s| - |r| ==> IsWhitespace(s[k])) &&
      (r == [] || !IsWhitespace(r[0]))
  {
    if s != [] && IsWhitespace(s[0]) {
      var t := s[1..];
      TrimStartDropsLeadingWhitespace(t);
      var r := TrimStart(t);
      assert TrimStart(s) == r;
      assert t[|t| - |r|..] == s[|s| - |r|..];
      forall k | 0 <= k < |s| - |r|
        ensures IsWhitespace(s[k])
      {
        if k > 0 {
          assert s[k] == t[k - 1];
        }
      }
    }
  }

  /** TrimEnd drops the trailing whitespace and nothing else. */
  lemma {:induction false} TrimEndDropsTrailingWhitespace(s: string)
    ensures var r := TrimEnd(s);
      |r| <= |s| && r == s[..|r|] &&
      (forall k :: |r| <= k < |s| ==> IsWhitespace(s[k])) &&
      (r == [] || !IsWhitespace(r[|r| - 1]))
  {
    if s != [] && IsWhitespace(s[|s| - 1]) {
      var t := s[..|s| - 1];
      TrimEndDropsTrailingWhitespace(t);
      var r := TrimEnd(t);
      assert TrimEnd(s) == r;
      assert t[..|r|] == s[..|r|];
      forall k | |r| <= k < |s|
        ensures IsWhitespace(s[k])
      {
        if k < |s| - 1 {
          assert s[k] == t[k];
        }
      }
    }
  }

  /** `s.trim()` is the part of `s` between its leading and its trailing
      whitespace: it neither begins nor ends with whitespace, and everything
      cut off on either side is whitespace. */
  lemma TrimStripsBothEnds(s: string)
    ensures |Trim(s)| <= |TrimStart(s)| <= |s|
    ensures var r, i := Trim(s), |s| - |TrimStart(s)|;
      r == s[i..i + |r|] &&
      (forall k :: 0 <= k < i ==> IsWhitespace(s[k])) &&
      (forall k :: i + |r| <= k < |s| ==> IsWhitespace(s[k])) &&
      (r == [] || (!IsWhitespace(r[0]) && !IsWhitespace(r[|r| - 1])))
  {
    var t := TrimStart(s);
    TrimStartDropsLeadingWhitespace(s);
    TrimEndDropsTrailingWhitespace(t);
    var i := |s| - |t|;
    var r := TrimEnd(t);
    SliceOfSuffix(s, i, 0, |r|);
    assert t[..|r|] == t[0..|r|];
    forall k | i + |r| <= k < |s|
      ensures IsWhitespace(s[k])
    {
      assert s[k] == t[k - i];
    }
  }

  /** `trim` only cuts: it adds no character that was not there. */
  lemma TrimAddsNothing(s: string, c: char)
    requires c !in s
    ensures c !in Trim(s)
  {
    TrimStripsBothEnds(s);
    var r, i := Trim(s), |s| - |TrimStart(s)|;
    forall k | 0 <= k < |r|
      ensures r[k] != c
    {
      assert r[k] == s[i + k];
    }
  }
}
