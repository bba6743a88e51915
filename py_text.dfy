/** The Python `str` built-ins the translator relies on: `strip(chars)` (and
    `strip()` for whitespace), `split('\n')`, `'\n'.join(...)` and `endswith`.
    Strings are sequences of characters. */
module PyText {

  /** `string.punctuation`: the 32 ASCII punctuation characters. */
  const Punctuation: set<char> :=
    {'!', '"', '#', '$', '%', '&', '\'', '(', ')', '*', '+', ',', '-', '.', '/',
     ':', ';', '<', '=', '>', '?', '@', '[', '\\', ']', '^', '_', '`', '{', '|', '}', '~'}

  /** The characters for which `str.isspace()` holds; `str.strip()` with no
      argument removes these from both ends. */
  const Whitespace: set<char> :=
    {'\t', '\n', '\U{0B}', '\U{0C}', '\r', '\U{1C}', '\U{1D}', '\U{1E}', '\U{1F}', ' ',
     '\U{85}', '\U{A0}', '\U{1680}',
     '\U{2000}', '\U{2001}', '\U{2002}', '\U{2003}', '\U{2004}', '\U{2005}',
     '\U{2006}', '\U{2007}', '\U{2008}', '\U{2009}', '\U{200A}',
     '\U{2028}', '\U{2029}', '\U{202F}', '\U{205F}', '\U{3000}'}

  /** Every character of `s` is one of `chars`. */
  predicate AllIn(s: string, chars: set<char>)
  {
    forall k :: 0 <= k < |s| ==> s[k] in chars
  }

  /** `s.lstrip(chars)`: drops the longest prefix made of `chars`. */
  function StripStart(s: string, chars: set<char>): (r: string)
  {
    if |s| > 0 && s[0] in chars then StripStart(s[1..], chars) else s
  }

  /** `s.rstrip(chars)`: drops the longest suffix made of `chars`. */
  function StripEnd(s: string, chars: set<char>): (r: string)
  {
    if |s| > 0 && s[|s| - 1] in chars then StripEnd(s[..|s| - 1], chars) else s
  }

  /** `s.strip(chars)`. */
  function Strip(s: string, chars: set<char>): (r: string)
  {
    StripEnd(StripStart(s, chars), chars)
  }

  /** `StripStart` removes a prefix made of `chars` and stops at the first
      character that is not one of them. */
  lemma {:induction false} StripStartSpec(s: string, chars: set<char>)
    ensures var r := StripStart(s, chars);
      |r| <= |s| && r == s[|s| - |r|..] && AllIn(s[..|s| - |r|], chars) &&
      (r == [] || r[0] !in chars)
  {
    if |s| > 0 && s[0] in chars {
      StripStartSpec(s[1..], chars);
      var r := StripStart(s, chars);
      var n := |s| - |r|;
      assert forall k :: 1 <= k < n ==> s[..n][k] == s[1..][..n - 1][k - 1];
    }
  }

  /** `StripEnd` removes a suffix made of `chars` and stops at the last
      character that is not one of them. */
  lemma {:induction false} StripEndSpec(s: string, chars: set<char>)
    ensures var r := StripEnd(s, chars);
      |r| <= |s| && r == s[..|r|] && AllIn(s[|r|..], chars) &&
      (r == [] || r[|r| - 1] !in chars)
  {
    if |s| > 0 && s[|s| - 1] in chars {
      var t := s[..|s| - 1];
      StripEndSpec(t, chars);
      var r := StripEnd(s, chars);
      assert forall k :: |r| <= k < |t| ==> s[k] == t[|r|..][k - |r|];
      assert forall k :: 0 <= k < |s| - |r| ==> s[|r|..][k] == s[|r| + k];
    }
  }

  /** The result of `Strip` neither starts nor ends with one of `chars`,
      and it is empty exactly when `s` is made of `chars` alone. */
  lemma StripSpec(s: string, chars: set<char>)
    ensures var r := Strip(s, chars);
      |r| <= |s| && (r == [] || (r[0] !in chars && r[|r| - 1] !in chars)) &&
      (r == [] <==> AllIn(s, chars))
  {
    var t := StripStart(s, chars);
    StripStartSpec(s, chars);
    StripEndSpec(t, chars);
    var n := |s| - |t|;
    assert s == s[..n] + t;
    var r := StripEnd(t, chars);
    if r == [] {
      assert t[|r|..] == t;
      assert t == [];
      assert s == s[..n];
    } else {
      assert r[0] == s[n];
    }
  }

  /** `s[i..j]` is what is left of `s` once characters from `chars` are
      removed at both ends, and nothing more can be removed. */
  predicate IsStrippedSlice(s: string, chars: set<char>, i: nat, j: nat)
  {
    i <= j <= |s| && AllIn(s[..i], chars) && AllIn(s[j..], chars) &&
    (i == j || (s[i] !in chars && s[j - 1] !in chars))
  }

  /** `Strip` removes characters from the two ends only: its result is a
      slice of `s` bordered by characters from `chars`. */
  lemma StripIsSlice(s: string, chars: set<char>)
    ensures exists i: nat, j: nat :: IsStrippedSlice(s, chars, i, j) && s[i..j] == Strip(s, chars)
  {
    var t := StripStart(s, chars);
    var i := |s| - |t|;
    var r := StripEnd(t, chars);
    StripStartSpec(s, chars);
    StripEndSpec(t, chars);
    StripSpec(s, chars);
    assert t == s[i..];
    assert r == s[i..i + |r|];
    if r == [] {
      assert AllIn(s, chars);
      assert IsStrippedSlice(s, chars, |s|, |s|);
      assert s[|s|..|s|] == r;
    } else {
      assert s[i] == r[0];
      assert s[i + |r| - 1] == r[|r| - 1];
      assert s[i + |r|..] == t[|r|..];
      assert IsStrippedSlice(s, chars, i, i + |r|);
    }
  }

  /** `StripStart` stops at the first character outside `chars`. */
  lemma {:induction false} StripStartAt(s: string, chars: set<char>, i: nat)
    requires i <= |s| && AllIn(s[..i], chars) && (i == |s| || s[i] !in chars)
    ensures StripStart(s, chars) == s[i..]
  {
    if i > 0 {
      assert s[..i][0] == s[0];
      assert s[1..][..i - 1] == s[1..i];
      assert forall k :: 0 <= k < i - 1 ==> s[1..i][k] == s[..i][k + 1];
      StripStartAt(s[1..], chars, i - 1);
      assert s[1..][i - 1..] == s[i..];
    }
  }

  /** `StripEnd` stops at the last character outside `chars`. */
  lemma {:induction false} StripEndAt(t: string, chars: set<char>, m: nat)
    requires m <= |t| && AllIn(t[m..], chars) && (m == 0 || t[m - 1] !in chars)
    ensures StripEnd(t, chars) == t[..m]
  {
    if m < |t| {
      var n := |t| - 1;
      assert t[m..][n - m] == t[n];
      assert forall k :: 0 <= k < n - m ==> t[..n][m..][k] == t[m..][k];
      StripEndAt(t[..n], chars, m);
      assert t[..n][..m] == t[..m];
    }
  }

  /** There is only one such slice, so it is what `Strip` returns. */
  lemma StripUnique(s: string, chars: set<char>, i: nat, j: nat)
    requires IsStrippedSlice(s, chars, i, j)
    ensures Strip(s, chars) == s[i..j]
  {
    if i == j {
      StripSpec(s, chars);
      assert forall k :: 0 <= k < |s| ==> s[k] in chars by {
        forall k | 0 <= k < |s| ensures s[k] in chars {
          if k < i { assert s[..i][k] == s[k]; } else { assert s[j..][k - j] == s[k]; }
        }
      }
    } else {
      StripStartAt(s, chars, i);
      var t := s[i..];
      assert t[j - i..] == s[j..];
      StripEndAt(t, chars, j - i);
      assert t[..j - i] == s[i..j];
    }
  }

  /** Stripping twice is stripping once. */
  lemma StripIdempotent(s: string, chars: set<char>)
    ensures Strip(Strip(s, chars), chars) == Strip(s, chars)
  {
    var r := Strip(s, chars);
    StripSpec(s, chars);
    assert r[..0] == [] && r[|r|..] == [];
    StripUnique(r, chars, 0, |r|);
    assert r[0..|r|] == r;
  }

  /** `'\n'.join(lines)`: the lines separated by a newline, with none after
      the last one. */
  function JoinLines(lines: seq<string>): (s: string)
  {
    if |lines| == 0 then ""
    else if |lines| == 1 then lines[0]
    else lines[0] + "\n" + JoinLines(lines[1..])
  }

  /** `s.split('\n')`: the pieces between newlines; there is always at least
      one piece, so `"".split('\n') == [""]`. */
  function SplitLines(s: string): (pieces: seq<string>)
    ensures |pieces| >= 1
    ensures forall k :: 0 <= k < |pieces| ==> '\n' !in pieces[k]
  {
    if |s| == 0 then [""]
    else
      var rest := SplitLines(s[1..]);
      if s[0] == '\n' then [""] + rest
      else [[s[0]] + rest[0]] + rest[1..]
  }

  /** A string without a newline splits into itself. */
  lemma {:induction false} SplitSingle(s: string)
    requires '\n' !in s
    ensures SplitLines(s) == [s]
  {
    if |s| > 0 {
      SplitSingle(s[1..]);
      assert [s[0]] + s[1..] == s;
    }
  }

  /** How `SplitLines` treats its first character. */
  lemma SplitFirst(c: char, t: string)
    ensures SplitLines([c] + t) ==
      if c == '\n' then [""] + SplitLines(t)
      else [[c] + SplitLines(t)[0]] + SplitLines(t)[1..]
  {
    assert ([c] + t)[1..] == t;
  }

  /** Splitting at a newline splits the two sides independently. */
  lemma {:induction false} SplitAtNewline(a: string, b: string)
    ensures SplitLines(a + "\n" + b) == SplitLines(a) + SplitLines(b)
  {
    if |a| == 0 {
      assert a + "\n" + b == ['\n'] + b;
      SplitFirst('\n', b);
    } else {
      var a' := a[1..];
      assert a == [a[0]] + a';
      assert a + "\n" + b == [a[0]] + (a' + "\n" + b);
      SplitAtNewline(a', b);
      SplitFirst(a[0], a');
      SplitFirst(a[0], a' + "\n" + b);
      var front, back := SplitLines(a'), SplitLines(b);
      if a[0] != '\n' {
        assert (front + back)[1..] == front[1..] + back;
      }
    }
  }

  /** Splitting undoes joining, provided no line holds a newline of its own
      and there is at least one line. */
  lemma {:induction false} SplitJoin(lines: seq<string>)
    requires |lines| >= 1
    requires forall k :: 0 <= k < |lines| ==> '\n' !in lines[k]
    ensures SplitLines(JoinLines(lines)) == lines
  {
    SplitSingle(lines[0]);
    if |lines| > 1 {
      SplitJoin(lines[1..]);
      SplitAtNewline(lines[0], JoinLines(lines[1..]));
      assert [lines[0]] + lines[1..] == lines;
    }
  }

  /** Joining undoes splitting, for every string. */
  lemma {:induction false} JoinSplit(s: string)
    ensures JoinLines(SplitLines(s)) == s
  {
    if |s| > 0 {
      JoinSplit(s[1..]);
      var rest := SplitLines(s[1..]);
      assert JoinLines(rest) == s[1..];
      if s[0] == '\n' {
        assert ([""] + rest)[1..] == rest;
        assert s == "" + "\n" + s[1..];
      } else {
        var pieces := [[s[0]] + rest[0]] + rest[1..];
        if |rest| == 1 {
          assert s == [s[0]] + rest[0];
        } else {
          assert pieces[1..] == rest[1..];
          assert JoinLines(rest) == rest[0] + "\n" + JoinLines(rest[1..]);
          assert s == [s[0]] + s[1..];
        }
      }
    }
  }

  /** `s.endswith(suffix)`. */
  predicate EndsWith(s: string, suffix: string)
  {
    |suffix| <= |s| && s[|s| - |suffix|..] == suffix
  }
}
