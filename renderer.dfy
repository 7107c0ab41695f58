/** The two string helpers of the renderer (src/renderer/main.js):
    `app.normalizeFilter`, and the username and clipboard text of the
    copy-whisper button. */
module Renderer {
  import opened JsStrings

  /** The class `[a-z]` under the 'i' flag: an ASCII letter of either case.
      No other character folds onto one of these in the regular expression's
      case-insensitive matching. */
  predicate IsAsciiLetter(c: char)
  {
    'a' <= c <= 'z' || 'A' <= c <= 'Z'
  }

  /** `s` without its leading non-letters: the rest of a run of `[^a-z]`
      after the character that started it. */
  function SkipNonLetters(s: string): (r: string)
    ensures |r| <= |s|
  {
    if s == [] || IsAsciiLetter(s[0]) then s else SkipNonLetters(s[1..])
  }

  /** What is left after skipping is a suffix that is empty or starts with a
      letter, and everything skipped is a non-letter. */
  lemma {:induction false} SkipStopsAtLetter(s: string)
    ensures var r := SkipNonLetters(s);
      r == s[|s| - |r|..] && (r == [] || IsAsciiLetter(r[0])) &&
      forall k :: 0 <= k < |s| - |r| ==> !IsAsciiLetter(s[k])
  {
    if s != [] && !IsAsciiLetter(s[0]) {
      SkipStopsAtLetter(s[1..]);
      var r := SkipNonLetters(s[1..]);
      assert s[1..][|s| - 1 - |r|..] == s[|s| - |r|..];
      forall k | 1 <= k < |s| - |r|
        ensures s[k] == s[1..][k - 1]
      {
      }
    }
  }

  /** `filter.replace(/([^a-z]+)/ig, '-')`: scanning from the left, every
      maximal run of characters that are not ASCII letters becomes one '-';
      letters are copied. */
  function NormalizeFilter(s: string): string
    decreases |s|
  {
    if s == [] then []
    else if IsAsciiLetter(s[0]) then [s[0]] + NormalizeFilter(s[1..])
    else "-" + NormalizeFilter(SkipNonLetters(s[1..]))
  }

  /** The output is never longer than the input, is empty only for empty
      input, and starts with the input's first character when that is a
      letter. */
  lemma {:induction false} NormalizeBounds(s: string)
    ensures |NormalizeFilter(s)| <= |s|
    ensures s != [] ==> NormalizeFilter(s) != []
    ensures s != [] && IsAsciiLetter(s[0]) ==> NormalizeFilter(s)[0] == s[0]
    decreases |s|
  {
    if s != [] {
      if IsAsciiLetter(s[0]) {
        NormalizeBounds(s[1..]);
      } else {
        NormalizeBounds(SkipNonLetters(s[1..]));
      }
    }
  }

  /** The letters of `s`, in order. */
  function Letters(s: string): string
  {
    if s == [] then []
    else (if IsAsciiLetter(s[0]) then [s[0]] else []) + Letters(s[1..])
  }

  /** Only letters and '-', and never two '-' side by side. */
  predicate NormalForm(t: string)
  {
    (forall i :: 0 <= i < |t| ==> IsAsciiLetter(t[i]) || t[i] == '-') &&
    (forall i :: 0 <= i < |t| - 1 ==> !(t[i] == '-' && t[i + 1] == '-'))
  }

  /** The output holds only ASCII letters and '-', and no "--": each run of
      non-letters became a single '-', and a run is maximal, so a letter
      follows every '-' that is not last. */
  lemma {:induction false} NormalizeGivesNormalForm(s: string)
    ensures NormalForm(NormalizeFilter(s))
    decreases |s|
  {
    if s != [] {
      var r := NormalizeFilter(s);
      var head := if IsAsciiLetter(s[0]) then [s[0]] else "-";
      var t := if IsAsciiLetter(s[0]) then s[1..] else SkipNonLetters(s[1..]);
      var rest := NormalizeFilter(t);
      NormalizeGivesNormalForm(t);
      SkipStopsAtLetter(s[1..]);
      NormalizeBounds(t);
      assert r == head + rest;
      assert rest == [] || head[0] != '-' || IsAsciiLetter(rest[0]);
      ConsKeepsNormalForm(head[0], rest);
    }
  }

  /** One character in front of a normal-form text keeps it in normal form,
      unless it makes a "--". */
  lemma ConsKeepsNormalForm(c: char, t: string)
    requires IsAsciiLetter(c) || c == '-'
    requires NormalForm(t)
    requires t == [] || c != '-' || IsAsciiLetter(t[0])
    ensures NormalForm([c] + t)
  {
    var r := [c] + t;
    forall i | 1 <= i < |r|
      ensures r[i] == t[i - 1]
    {
    }
  }

  /** Skipped characters are not letters. */
  lemma {:induction false} SkipDropsNoLetter(s: string)
    ensures Letters(SkipNonLetters(s)) == Letters(s)
    decreases |s|
  {
    if s != [] && !IsAsciiLetter(s[0]) {
      SkipDropsNoLetter(s[1..]);
    }
  }

  /** Deleting every '-' from the output gives exactly the letters of the
      input, in order: letters are neither lost, added nor moved. */
  lemma {:induction false} NormalizeKeepsLetters(s: string)
    ensures RemoveChar(NormalizeFilter(s), '-') == Letters(s)
    decreases |s|
  {
    if s != [] {
      var r := NormalizeFilter(s);
      if IsAsciiLetter(s[0]) {
        var rest := NormalizeFilter(s[1..]);
        NormalizeKeepsLetters(s[1..]);
        assert r == [s[0]] + rest;
        assert r[1..] == rest;
      } else {
        var t := SkipNonLetters(s[1..]);
        NormalizeKeepsLetters(t);
        SkipDropsNoLetter(s[1..]);
        assert r[1..] == NormalizeFilter(t);
      }
    }
  }

  /** Text already in normal form comes back unchanged: each '-' is a run of
      one non-letter, replaced by '-'. In particular a letters-only filter is
      kept as it is. */
  lemma {:induction false} NormalFormIsFixed(t: string)
    requires NormalForm(t)
    ensures NormalizeFilter(t) == t
    decreases |t|
  {
    if t != [] {
      var rest := t[1..];
      NormalFormTail(t);
      NormalFormIsFixed(rest);
      if IsAsciiLetter(t[0]) {
        assert t == [t[0]] + rest;
      } else {
        assert SkipNonLetters(rest) == rest;
        assert t == "-" + rest;
      }
    }
  }

  /** Dropping the first character keeps normal form, and a '-' in front is
      followed by a letter or by nothing. */
  lemma NormalFormTail(t: string)
    requires t != [] && NormalForm(t)
    ensures NormalForm(t[1..])
    ensures IsAsciiLetter(t[0]) || t[0] == '-'
    ensures t[0] == '-' ==> |t| == 1 || IsAsciiLetter(t[1])
  {
    var rest := t[1..];
    forall i | 0 <= i < |rest|
      ensures rest[i] == t[i + 1]
    {
    }
  }

  /** Where a '-' goes: a run of non-letters that a letter (or the start)
      precedes and a letter (or the end) follows becomes exactly one '-',
      and the text on either side is normalized on its own. */
  lemma {:induction false} NormalizeReplacesRun(a: string, run: string, b: string)
    requires a == [] || IsAsciiLetter(a[|a| - 1])
    requires run != [] && forall k :: 0 <= k < |run| ==> !IsAsciiLetter(run[k])
    requires b == [] || IsAsciiLetter(b[0])
    ensures NormalizeFilter(a + run + b) == NormalizeFilter(a) + "-" + NormalizeFilter(b)
  {
    var rest := run + b;
    assert a + run + b == a + rest;
    NormalizeSplitsAfterLetter(a, rest);
    RunAtStart(run, b);
    var na, nb := NormalizeFilter(a), NormalizeFilter(b);
    assert na + ("-" + nb) == na + "-" + nb;
  }

  /** Text that ends with a letter (or is empty) is normalized apart from
      whatever follows it: no run crosses that letter. */
  lemma {:induction false} NormalizeSplitsAfterLetter(a: string, rest: string)
    requires a == [] || IsAsciiLetter(a[|a| - 1])
    ensures NormalizeFilter(a + rest) == NormalizeFilter(a) + NormalizeFilter(rest)
    decreases |a|
  {
    if a == [] {
      assert a + rest == rest;
    } else if IsAsciiLetter(a[0]) {
      var t := a[1..];
      assert t == [] || t[|t| - 1] == a[|a| - 1];
      NormalizeSplitsAfterLetter(t, rest);
      LetterHead(a, rest);
    } else {
      var u := SkipNonLetters(a[1..]);
      NonLetterHead(a, rest);
      NormalizeSplitsAfterLetter(u, rest);
    }
  }

  /** A leading run of non-letters becomes one '-'. */
  lemma RunAtStart(run: string, b: string)
    requires run != [] && forall k :: 0 <= k < |run| ==> !IsAsciiLetter(run[k])
    requires b == [] || IsAsciiLetter(b[0])
    ensures NormalizeFilter(run + b) == "-" + NormalizeFilter(b)
  {
    var s := run + b;
    assert s[0] == run[0];
    assert s[1..] == run[1..] + b;
    SkipWholeRun(run[1..], b);
  }

  /** A leading letter is copied. */
  lemma LetterHead(a: string, rest: string)
    requires a != [] && IsAsciiLetter(a[0])
    ensures NormalizeFilter(a + rest) == [a[0]] + NormalizeFilter(a[1..] + rest)
    ensures NormalizeFilter(a) == [a[0]] + NormalizeFilter(a[1..])
  {
    var s := a + rest;
    assert s[0] == a[0];
    assert s[1..] == a[1..] + rest;
  }

  /** A leading non-letter run that ends inside `a` becomes one '-'. */
  lemma NonLetterHead(a: string, rest: string)
    requires a != [] && !IsAsciiLetter(a[0]) && IsAsciiLetter(a[|a| - 1])
    ensures var u := SkipNonLetters(a[1..]);
      |u| < |a| && u != [] && IsAsciiLetter(u[|u| - 1]) &&
      NormalizeFilter(a + rest) == "-" + NormalizeFilter(u + rest) &&
      NormalizeFilter(a) == "-" + NormalizeFilter(u)
  {
    var s, t := a + rest, a[1..];
    assert s[0] == a[0];
    assert s[1..] == t + rest;
    SkipStopsBeforeLetter(t, rest);
  }

  /** A whole run of non-letters is skipped, up to the letter after it. */
  lemma {:induction false} SkipWholeRun(run: string, b: string)
    requires forall k :: 0 <= k < |run| ==> !IsAsciiLetter(run[k])
    requires b == [] || IsAsciiLetter(b[0])
    ensures SkipNonLetters(run + b) == b
    decreases |run|
  {
    if run == [] {
      assert run + b == b;
    } else {
      assert (run + b)[0] == run[0];
      assert (run + b)[1..] == run[1..] + b;
      SkipWholeRun(run[1..], b);
    }
  }

  /** Skipping stops inside `x` when `x` ends with a letter. */
  lemma {:induction false} SkipStopsBeforeLetter(x: string, y: string)
    requires x != [] && IsAsciiLetter(x[|x| - 1])
    ensures SkipNonLetters(x + y) == SkipNonLetters(x) + y
    ensures SkipNonLetters(x) != [] && IsAsciiLetter(SkipNonLetters(x)[|SkipNonLetters(x)| - 1])
    decreases |x|
  {
    assert (x + y)[0] == x[0];
    if !IsAsciiLetter(x[0]) {
      assert (x + y)[1..] == x[1..] + y;
      SkipStopsBeforeLetter(x[1..], y);
    }
  }

  /** `normalizeFilter` is idempotent. */
  lemma NormalizeIsIdempotent(s: string)
    ensures NormalizeFilter(NormalizeFilter(s)) == NormalizeFilter(s)
  {
    NormalizeGivesNormalForm(s);
    NormalFormIsFixed(NormalizeFilter(s));
  }

  /** A filter made of letters only is returned unchanged. */
  lemma LettersOnlyUnchanged(s: string)
    requires forall i :: 0 <= i < |s| ==> IsAsciiLetter(s[i])
    ensures NormalizeFilter(s) == s
  {
    NormalFormIsFixed(s);
  }

  /** The copy-whisper handler's username: the text of the row's name cell,
      or, when it holds "> ", `username.split('> ')[1]`. */
  function WhisperUsername(name: string): string
  {
    if Contains(name, "> ") then Split(name, "> ")[1] else name
  }

  /** The text sent to the clipboard: `@${username} `. */
  function CopyText(name: string): string
  {
    "@" + WhisperUsername(name) + " "
  }

  /** A name holding "> " yields the text between its first "> " and the
      next one, or the end of the name; any other name is kept whole. */
  lemma WhisperUsernameIsBetweenMarkers(name: string)
    ensures Contains(name, "> ") ==> BetweenFirstTwo(name, "> ", WhisperUsername(name))
    ensures !Contains(name, "> ") ==> WhisperUsername(name) == name
  {
    if Contains(name, "> ") {
      SecondPiece(name, "> ");
    }
  }

  /** The clipboard text is '@', the extracted username, and one space, so
      the username can be read back from it. */
  lemma CopyTextFramesUsername(name: string)
    ensures var t := CopyText(name);
      |t| >= 2 && t[0] == '@' && t[|t| - 1] == ' ' &&
      (Contains(name, "> ") ==> BetweenFirstTwo(name, "> ", t[1..|t| - 1])) &&
      (!Contains(name, "> ") ==> t[1..|t| - 1] == name)
  {
    WhisperUsernameIsBetweenMarkers(name);
    var t := CopyText(name);
    assert t[1..|t| - 1] == WhisperUsername(name);
  }
}
