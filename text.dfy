/** Text helpers shared by the path, library-file and project-file models:
    splitting and joining on a separator character, and substring search. */
module Text {

  /** `sep.join(parts)` for a one-character separator. */
  function JoinWith(parts: seq<string>, sep: char): (r: string)
    ensures |parts| == 1 ==> r == parts[0]
  {
    if |parts| == 0 then ""
    else if |parts| == 1 then parts[0]
    else parts[0] + [sep] + JoinWith(parts[1..], sep)
  }

  /** `s.split(sep)` for a one-character separator: always at least one piece,
      and no piece holds the separator. */
  function Split(s: string, sep: char): (r: seq<string>)
    ensures |r| >= 1
    ensures forall i :: 0 <= i < |r| ==> sep !in r[i]
  {
    if |s| == 0 then [""]
    else if s[0] == sep then [""] + Split(s[1..], sep)
    else
      var rest := Split(s[1..], sep);
      [[s[0]] + rest[0]] + rest[1..]
  }

  /** Splitting `a + [sep] + b` cuts exactly at the separator when `a` holds none. */
  lemma {:induction false} SplitAtSeparator(a: string, sep: char, b: string)
    requires sep !in a
    ensures Split(a + [sep] + b, sep) == [a] + Split(b, sep)
  {
    if |a| == 0 {
      assert a + [sep] + b == [sep] + b;
      assert ([sep] + b)[1..] == b;
    } else {
      var s := a + [sep] + b;
      assert s[0] == a[0];
      assert s[1..] == a[1..] + [sep] + b;
      SplitAtSeparator(a[1..], sep, b);
      assert [a[0]] + a[1..] == a;
    }
  }

  /** Splitting with no separator in the text gives the text back whole. */
  lemma {:induction false} SplitNoSeparator(s: string, sep: char)
    requires sep !in s
    ensures Split(s, sep) == [s]
  {
    if |s| > 0 {
      SplitNoSeparator(s[1..], sep);
      assert [s[0]] + s[1..] == s;
    }
  }

  /** Split undoes JoinWith when no part holds the separator. */
  lemma {:induction false} SplitJoin(parts: seq<string>, sep: char)
    requires |parts| >= 1
    requires forall i :: 0 <= i < |parts| ==> sep !in parts[i]
    ensures Split(JoinWith(parts, sep), sep) == parts
  {
    if |parts| == 1 {
      SplitNoSeparator(parts[0], sep);
    } else {
      SplitAtSeparator(parts[0], sep, JoinWith(parts[1..], sep));
      SplitJoin(parts[1..], sep);
      assert [parts[0]] + parts[1..] == parts;
    }
  }

  /** Regrouping a concatenation, for terms the solver does not regroup on its own. */
  lemma ConcatAssoc<T>(a: seq<T>, b: seq<T>, c: seq<T>)
    ensures a + b + c == a + (b + c)
  {
  }

  /** `sub` occurs in `s` starting at index `i`. */
  predicate OccursAt(s: string, sub: string, i: int)
  {
    0 <= i <= |s| - |sub| && s[i..i + |sub|] == sub
  }

  /** `sub in s`, Python's substring test. */
  predicate Contains(s: string, sub: string)
  {
    exists i | 0 <= i <= |s| - |sub| :: OccursAt(s, sub, i)
  }

  /** A text contains every text it is built around. */
  lemma ContainsMiddle(a: string, sub: string, b: string)
    ensures Contains(a + sub + b, sub)
  {
    var s := a + sub + b;
    assert OccursAt(s, sub, |a|);
  }

  /** Containment carries over to any larger text around it. */
  lemma ContainsWithin(a: string, s: string, b: string, sub: string)
    requires Contains(s, sub)
    ensures Contains(a + s + b, sub)
  {
    var i :| 0 <= i <= |s| - |sub| && OccursAt(s, sub, i);
    var t := a + s + b;
    assert t[|a| + i..|a| + i + |sub|] == s[i..i + |sub|];
    assert OccursAt(t, sub, |a| + i);
  }

  /** Containment is transitive. */
  lemma ContainsTransitive(s: string, mid: string, sub: string)
    requires Contains(s, mid) && Contains(mid, sub)
    ensures Contains(s, sub)
  {
    var i :| 0 <= i <= |s| - |mid| && OccursAt(s, mid, i);
    var j :| 0 <= j <= |mid| - |sub| && OccursAt(mid, sub, j);
    forall k | 0 <= k < |sub|
      ensures s[i + j + k] == sub[k]
    {
      assert s[i + j + k] == s[i..i + |mid|][j + k] == mid[j + k];
      assert mid[j + k] == mid[j..j + |sub|][k];
    }
    assert s[i + j..i + j + |sub|] == sub;
    assert OccursAt(s, sub, i + j);
  }

  // ----- Lines and whitespace -----

  /** What `readline()` returns in text mode, without its line ending: the
      text up to the first `\n` or `\r` (universal newlines end a line at either). */
  function FirstLine(s: string): (r: string)
    ensures |r| <= |s| && r == s[..|r|]
    ensures '\n' !in r && '\r' !in r
    ensures |r| < |s| ==> s[|r|] in "\n\r"
  {
    if |s| == 0 || s[0] in "\n\r" then "" else [s[0]] + FirstLine(s[1..])
  }

  /** The characters `str.isspace` accepts. */
  predicate IsSpace(c: char)
  {
    c in "\t\n\r \U{0b}\U{0c}\U{1c}\U{1d}\U{1e}\U{1f}\U{85}\U{a0}\U{1680}\U{2028}\U{2029}\U{202f}\U{205f}\U{3000}"
    || '\U{2000}' <= c <= '\U{200a}'
  }

  function StripStart(s: string): string
  {
    if |s| > 0 && IsSpace(s[0]) then StripStart(s[1..]) else s
  }

  function StripEnd(s: string): string
  {
    if |s| > 0 && IsSpace(s[|s| - 1]) then StripEnd(s[..|s| - 1]) else s
  }

  /** `s.strip()`. */
  function Strip(s: string): string
  {
    StripEnd(StripStart(s))
  }

  predicate AllSpace(s: string)
  {
    forall i :: 0 <= i < |s| ==> IsSpace(s[i])
  }

  /** Text with no whitespace at either end. */
  predicate Trimmed(s: string)
  {
    |s| == 0 || (!IsSpace(s[0]) && !IsSpace(s[|s| - 1]))
  }

  lemma {:induction false} StripStartOf(a: string, s: string)
    requires AllSpace(a) && (|s| == 0 || !IsSpace(s[0]))
    ensures StripStart(a + s) == s
  {
    if |a| > 0 {
      assert (a + s)[1..] == a[1..] + s;
      StripStartOf(a[1..], s);
    } else {
      assert a + s == s;
    }
  }

  lemma {:induction false} StripEndOf(s: string, b: string)
    requires AllSpace(b) && (|s| == 0 || !IsSpace(s[|s| - 1]))
    ensures StripEnd(s + b) == s
  {
    if |b| > 0 {
      assert (s + b)[..|s + b| - 1] == s + b[..|b| - 1];
      StripEndOf(s, b[..|b| - 1]);
    } else {
      assert s + b == s;
    }
  }

  /** `strip` removes exactly the surrounding whitespace: trimmed text
      between whitespace comes back unchanged. */
  lemma StripSurrounded(a: string, s: string, b: string)
    requires AllSpace(a) && AllSpace(b) && Trimmed(s)
    ensures Strip(a + s + b) == s
  {
    if |s| == 0 {
      assert AllSpace(a + b);
      assert a + s + b == (a + b) + "";
      StripStartOf(a + b, "");
      assert StripEnd("") == "";
    } else {
      assert a + s + b == a + (s + b);
      StripStartOf(a, s + b);
      StripEndOf(s, b);
    }
  }

  lemma {:induction false} StripStartTrims(s: string)
    ensures |StripStart(s)| == 0 || !IsSpace(StripStart(s)[0])
    ensures |StripStart(s)| <= |s| && StripStart(s) == s[|s| - |StripStart(s)|..]
  {
    if |s| > 0 && IsSpace(s[0]) {
      StripStartTrims(s[1..]);
    }
  }

  lemma {:induction false} StripEndTrims(s: string)
    requires |s| == 0 || !IsSpace(s[0])
    ensures Trimmed(StripEnd(s))
    ensures |StripEnd(s)| <= |s| && StripEnd(s) == s[..|StripEnd(s)|]
  {
    if |s| > 0 && IsSpace(s[|s| - 1]) {
      if |s| > 1 {
        assert s[..|s| - 1][0] == s[0];
      }
      StripEndTrims(s[..|s| - 1]);
    }
  }

  /** The stripped text is a piece of the original with no whitespace at its ends. */
  lemma StripTrims(s: string)
    ensures Trimmed(Strip(s))
    ensures exists i, j :: 0 <= i <= j <= |s| && Strip(s) == s[i..j]
  {
    StripStartTrims(s);
    StripEndTrims(StripStart(s));
    var t := StripStart(s);
    var i := |s| - |t|;
    assert t == s[i..];
    var r := StripEnd(t);
    assert Strip(s) == r == t[..|r|];
    var j := i + |r|;
    assert t[..|r|] == s[i..j];
  }

  /** The first line of a text is the part before its first line ending. */
  lemma FirstLineOf(line: string, ending: char, rest: string)
    requires '\n' !in line && '\r' !in line && ending in "\n\r"
    ensures FirstLine(line + [ending] + rest) == line
  {
    var s := line + [ending] + rest;
    var r := FirstLine(s);
    assert s[..|line|] == line && s[|line|] == ending;
    assert forall k :: 0 <= k < |line| ==> s[k] == line[k];
    assert s[..|line|] == line;
  }
}
