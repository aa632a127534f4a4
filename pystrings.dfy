/**
 * The few Python `str` methods genox relies on: `strip()`, `split(sep)`,
 * `sep.join(parts)`, `startswith` and `endswith`.
 */
module PyStrings {

  /** The characters Python's `str.isspace()` accepts; `str.strip()` removes them. */
  const Whitespace: set<char> := {
    '\t', '\n', '\U{B}', '\U{C}', '\r', '\U{1C}', '\U{1D}', '\U{1E}', '\U{1F}', ' ',
    '\U{85}', '\U{A0}', '\U{1680}',
    '\U{2000}', '\U{2001}', '\U{2002}', '\U{2003}', '\U{2004}', '\U{2005}',
    '\U{2006}', '\U{2007}', '\U{2008}', '\U{2009}', '\U{200A}',
    '\U{2028}', '\U{2029}', '\U{202F}', '\U{205F}', '\U{3000}'
  }

  predicate IsSpace(c: char)
  {
    c in Whitespace
  }

  predicate StartsWith(s: string, prefix: string)
  {
    |prefix| <= |s| && s[..|prefix|] == prefix
  }

  predicate EndsWith(s: string, suffix: string)
  {
    |suffix| <= |s| && s[|s| - |suffix|..] == suffix
  }

  /** `s.strip()`: s without its leading and trailing whitespace. */
  function Strip(s: string): (r: string)
    decreases |s|
  {
    if s != [] && IsSpace(s[0]) then Strip(s[1..])
    else if s != [] && IsSpace(s[|s| - 1]) then Strip(s[..|s| - 1])
    else s
  }

  /** What strip keeps is a slice of s that neither starts nor ends with whitespace. */
  lemma {:induction false} StripTrimmed(s: string)
    ensures |Strip(s)| <= |s|
    ensures Strip(s) == [] || (!IsSpace(Strip(s)[0]) && !IsSpace(Strip(s)[|Strip(s)| - 1]))
    decreases |s|
  {
    if s != [] && IsSpace(s[0]) {
      StripTrimmed(s[1..]);
    } else if s != [] && IsSpace(s[|s| - 1]) {
      StripTrimmed(s[..|s| - 1]);
    }
  }

  /** Whitespace around a trimmed string is exactly what strip removes. */
  lemma {:induction false} StripPadded(pre: string, s: string, post: string)
    requires forall i :: 0 <= i < |pre| ==> IsSpace(pre[i])
    requires forall i :: 0 <= i < |post| ==> IsSpace(post[i])
    requires s == [] || (!IsSpace(s[0]) && !IsSpace(s[|s| - 1]))
    ensures Strip(pre + s + post) == s
    decreases |pre| + |post|
  {
    var t := pre + s + post;
    if pre != [] {
      assert t[0] == pre[0];
      assert t[1..] == pre[1..] + s + post;
      StripPadded(pre[1..], s, post);
    } else if s == [] && post != [] {
      assert t == post;
      assert t[1..] == pre + s + post[1..];
      StripPadded(pre, s, post[1..]);
    } else if post != [] {
      assert t == s + post;
      assert t[0] == s[0];
      assert t[|t| - 1] == post[|post| - 1];
      assert t[..|t| - 1] == pre + s + post[..|post| - 1];
      StripPadded(pre, s, post[..|post| - 1]);
    } else {
      assert t == s;
    }
  }

  /** A line strips to nothing exactly when it is all whitespace. */
  lemma {:induction false} StripEmptyIffAllSpace(s: string)
    ensures Strip(s) == [] <==> forall i :: 0 <= i < |s| ==> IsSpace(s[i])
    decreases |s|
  {
    if s != [] && IsSpace(s[0]) {
      StripEmptyIffAllSpace(s[1..]);
      assert forall i :: 1 <= i < |s| ==> s[i] == s[1..][i - 1];
    } else if s != [] && IsSpace(s[|s| - 1]) {
      StripEmptyIffAllSpace(s[..|s| - 1]);
      assert forall i :: 0 <= i < |s| - 1 ==> s[i] == s[..|s| - 1][i];
    }
  }

  /** `sep.join(parts)` for a one-character separator. */
  function Join(parts: seq<string>, sep: char): (r: string)
  {
    if |parts| == 0 then ""
    else if |parts| == 1 then parts[0]
    else parts[0] + [sep] + Join(parts[1..], sep)
  }

  /**
   * `s.split(sep)` with an explicit separator: the pieces between the
   * separators, empty pieces kept, so there is always at least one piece.
   */
  function Split(s: string, sep: char): (r: seq<string>)
    ensures |r| >= 1
    ensures forall i :: 0 <= i < |r| ==> sep !in r[i]
    decreases |s|
  {
    if |s| == 0 then [""]
    else if s[0] == sep then [""] + Split(s[1..], sep)
    else
      var rest := Split(s[1..], sep);
      [[s[0]] + rest[0]] + rest[1..]
  }

  /** Joining the pieces of a split gives back the string. */
  lemma {:induction false} JoinSplit(s: string, sep: char)
    ensures Join(Split(s, sep), sep) == s
    decreases |s|
  {
    if |s| == 0 {
    } else if s[0] == sep {
      JoinSplit(s[1..], sep);
      var rest := Split(s[1..], sep);
      assert Split(s, sep) == [""] + rest;
      assert ([""] + rest)[1..] == rest;
    } else {
      JoinSplit(s[1..], sep);
      var rest := Split(s[1..], sep);
      var parts := [[s[0]] + rest[0]] + rest[1..];
      assert Split(s, sep) == parts;
      if |rest| == 1 {
        assert Join(parts, sep) == [s[0]] + rest[0] == [s[0]] + s[1..];
      } else {
        assert parts[1..] == rest[1..];
        assert Join(rest, sep) == rest[0] + [sep] + Join(rest[1..], sep);
        assert Join(parts, sep) == [s[0]] + rest[0] + [sep] + Join(rest[1..], sep);
      }
      assert [s[0]] + s[1..] == s;
    }
  }

  /** Splitting a string at a separator splits each side independently. */
  lemma {:induction false} SplitAround(a: string, b: string, sep: char)
    ensures Split(a + [sep] + b, sep) == Split(a, sep) + Split(b, sep)
    decreases |a|
  {
    if |a| == 0 {
      assert a + [sep] + b == [sep] + b;
      SplitCons(sep, b, sep);
    } else {
      SplitAround(a[1..], b, sep);
      SplitAroundStep(a, b, sep);
    }
  }

  /** The inductive step of SplitAround: peel the first character off a. */
  lemma {:induction false} SplitAroundStep(a: string, b: string, sep: char)
    requires |a| > 0
    requires Split(a[1..] + [sep] + b, sep) == Split(a[1..], sep) + Split(b, sep)
    ensures Split(a + [sep] + b, sep) == Split(a, sep) + Split(b, sep)
  {
    var t := a[1..] + [sep] + b;
    var ra, rb := Split(a[1..], sep), Split(b, sep);
    assert a + [sep] + b == [a[0]] + t;
    assert a == [a[0]] + a[1..];
    SplitCons(a[0], t, sep);
    SplitCons(a[0], a[1..], sep);
    if a[0] == sep {
      PrependAssoc("", ra, rb);
    } else {
      ExtendFirst([a[0]], ra, rb);
    }
  }

  lemma {:induction false} PrependAssoc(x: string, ra: seq<string>, rb: seq<string>)
    ensures [x] + (ra + rb) == ([x] + ra) + rb
  {
  }

  lemma {:induction false} ExtendFirst(x: string, ra: seq<string>, rb: seq<string>)
    requires |ra| >= 1
    ensures [x + (ra + rb)[0]] + (ra + rb)[1..] == ([x + ra[0]] + ra[1..]) + rb
  {
    assert (ra + rb)[0] == ra[0];
    assert (ra + rb)[1..] == ra[1..] + rb;
  }

  /** One step of the split: a separator opens a new piece, any other character joins the first piece. */
  lemma {:induction false} SplitCons(c: char, t: string, sep: char)
    ensures Split([c] + t, sep)
      == if c == sep then [""] + Split(t, sep)
         else [[c] + Split(t, sep)[0]] + Split(t, sep)[1..]
  {
    assert ([c] + t)[1..] == t;
  }

  /** Splitting the join of separator-free pieces gives back the pieces. */
  lemma {:induction false} SplitJoin(parts: seq<string>, sep: char)
    requires |parts| >= 1
    requires forall i :: 0 <= i < |parts| ==> sep !in parts[i]
    ensures Split(Join(parts, sep), sep) == parts
    decreases |parts|
  {
    if |parts| == 1 {
      SplitWithoutSeparator(parts[0], sep);
    } else {
      SplitJoin(parts[1..], sep);
      SplitWithoutSeparator(parts[0], sep);
      SplitAround(parts[0], Join(parts[1..], sep), sep);
      assert [parts[0]] + parts[1..] == parts;
    }
  }

  /** A string without the separator splits into itself alone. */
  lemma {:induction false} SplitWithoutSeparator(s: string, sep: char)
    requires sep !in s
    ensures Split(s, sep) == [s]
    decreases |s|
  {
    if |s| > 0 {
      assert s[0] != sep;
      assert forall c :: c in s[1..] ==> c in s;
      SplitWithoutSeparator(s[1..], sep);
      assert [s[0]] + s[1..] == s;
    }
  }
}
