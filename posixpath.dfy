/**
 * The `os.path` functions genox calls, on POSIX paths (separator `/`, no
 * alternative separator): `basename`, two-argument `join` and `splitext`.
 */
module PosixPath {
  import opened PyStrings

  /** `s.rfind(c)` for one character: the index of its last occurrence, or -1. */
  function RFind(s: string, c: char): (r: int)
    ensures -1 <= r < |s|
    ensures r >= 0 ==> s[r] == c
    ensures forall i :: r < i < |s| ==> s[i] != c
  {
    if |s| == 0 then -1
    else if s[|s| - 1] == c then |s| - 1
    else RFind(s[..|s| - 1], c)
  }

  /** `os.path.basename(p)`: everything after the last `/`. */
  function Basename(p: string): string
  {
    p[RFind(p, '/') + 1..]
  }

  /** The basename is the suffix after the last `/`: it holds no `/`, and a `/` precedes it unless it is all of p. */
  lemma {:induction false} BasenameSpec(p: string)
    ensures '/' !in Basename(p)
    ensures |Basename(p)| <= |p| && Basename(p) == p[|p| - |Basename(p)|..]
    ensures |Basename(p)| < |p| ==> p[|p| - |Basename(p)| - 1] == '/'
  {
    var k := RFind(p, '/');
    var r := Basename(p);
    forall j | 0 <= j < |r| ensures r[j] != '/' {
      assert r[j] == p[k + 1 + j];
    }
  }

  /**
   * `os.path.join(a, b)`: an absolute b replaces a; otherwise b is appended,
   * with a `/` in between unless a is empty or already ends in one.
   */
  function PathJoin(a: string, b: string): (r: string)
    ensures StartsWith(b, "/") ==> r == b
    ensures !StartsWith(b, "/") ==> StartsWith(r, a)
    ensures EndsWith(r, b)
  {
    if StartsWith(b, "/") then b
    else if a == "" || EndsWith(a, "/") then a + b
    else a + "/" + b
  }

  /**
   * `os.path.splitext(p)`: the extension is the final component's last
   * `.`-suffix, unless every character before that dot is itself a dot
   * (so `.bashrc` and `..` have none).
   */
  function SplitExt(p: string): (string, string)
  {
    var sep := RFind(p, '/');
    var dot := RFind(p, '.');
    if dot > sep && !OnlyDots(p, sep + 1, dot) then (p[..dot], p[dot..])
    else (p, "")
  }

  /**
   * The two parts of splitext put back together give p; a non-empty
   * extension is a dot and dot-free, slash-free text, shorter than the
   * basename; a basename without a dot has no extension.
   */
  lemma {:induction false} SplitExtSpec(p: string)
    ensures SplitExt(p).0 + SplitExt(p).1 == p
    ensures SplitExt(p).1 != "" ==> SplitExt(p).1[0] == '.' && '.' !in SplitExt(p).1[1..] && '/' !in SplitExt(p).1
    ensures SplitExt(p).1 != "" ==> |SplitExt(p).1| < |Basename(p)|
    ensures '.' !in Basename(p) ==> SplitExt(p).1 == ""
  {
    var sep := RFind(p, '/');
    var dot := RFind(p, '.');
    if dot > sep && !OnlyDots(p, sep + 1, dot) {
      NoneAfterLast(p, '.', dot + 1);
      NoneAfterLast(p, '/', dot);
      assert p[dot..][1..] == p[dot + 1..];
      assert p[..dot] + p[dot..] == p;
    } else {
      assert dot > sep ==> Basename(p)[dot - sep - 1] == '.';
    }
  }

  /**
   * splitext finds an extension exactly when the basename has a dot after
   * some character other than a dot (so `post.md` has one, and `.bashrc`
   * and `..bashrc` have none).
   */
  lemma {:induction false} SplitExtFound(p: string)
    ensures SplitExt(p).1 != "" <==>
      exists i, j :: |p| - |Basename(p)| <= i < j < |p| && p[i] != '.' && p[j] == '.'
  {
    var sep := RFind(p, '/');
    var dot := RFind(p, '.');
    assert |p| - |Basename(p)| == sep + 1;
    DotAfterNonDot(p, sep + 1, dot);
    if dot > sep && !OnlyDots(p, sep + 1, dot) {
      assert |SplitExt(p).1| == |p| - dot;
    }
  }

  /**
   * With dot the last `.` of p (or -1), a `.` follows a non-dot in p[lo..]
   * exactly when dot lies in p[lo..] and p[lo..dot] is not all dots.
   */
  lemma {:induction false} DotAfterNonDot(p: string, lo: int, dot: int)
    requires 0 <= lo <= |p| && -1 <= dot < |p|
    requires dot >= 0 ==> p[dot] == '.'
    requires forall k :: dot < k < |p| ==> p[k] != '.'
    ensures (dot >= lo && !OnlyDots(p, lo, dot)) <==>
      exists i, j :: lo <= i < j < |p| && p[i] != '.' && p[j] == '.'
  {
    if dot < lo {
      forall j | lo <= j < |p|
        ensures p[j] != '.'
      {
      }
    } else if OnlyDots(p, lo, dot) {
      forall i, j | lo <= i < j < |p| && p[j] == '.'
        ensures p[i] == '.'
      {
        assert j <= dot;
      }
    } else {
      var i :| lo <= i < dot && p[i] != '.';
      assert p[dot] == '.';
    }
  }

  /** Past the last occurrence of c there is no c. */
  lemma {:induction false} NoneAfterLast(s: string, c: char, from: nat)
    requires RFind(s, c) < from <= |s|
    ensures c !in s[from..]
  {
    forall j | 0 <= j < |s| - from ensures s[from..][j] != c {
      assert s[from..][j] == s[from + j];
    }
  }

  /** p[lo..hi] consists of dots only (the scan splitext makes before the last dot). */
  predicate OnlyDots(p: string, lo: int, hi: int)
    requires 0 <= lo <= hi <= |p|
  {
    forall i :: lo <= i < hi ==> p[i] == '.'
  }

  function Root(p: string): string
  {
    SplitExt(p).0
  }

  /** Dropping the extension keeps a leading `/`, and adds none. */
  lemma {:induction false} RootStartsWith(p: string)
    ensures StartsWith(Root(p), "/") <==> StartsWith(p, "/")
  {
    var sep := RFind(p, '/');
    var dot := RFind(p, '.');
    if dot > sep && !OnlyDots(p, sep + 1, dot) {
      var i :| sep + 1 <= i < dot && p[i] != '.';
      assert Root(p) == p[..dot] && Root(p)[0] == p[0];
    } else {
      assert Root(p) == p;
    }
  }

  /**
   * The extension of `join(a, b)` is b's: whatever a is, dropping it
   * from the joined path is joining a with b's root.
   */
  lemma {:induction false} RootOfJoin(a: string, b: string)
    ensures Root(PathJoin(a, b)) == PathJoin(a, Root(b))
  {
    RootStartsWith(b);
    if StartsWith(b, "/") {
    } else if a == "" {
      assert a + b == b && a + Root(b) == Root(b);
    } else if EndsWith(a, "/") {
      var dir := a[..|a| - 1];
      assert a == dir + "/";
      RootAfterSlash(dir, b);
      assert a + b == dir + "/" + b && a + Root(b) == dir + "/" + Root(b);
    } else {
      RootAfterSlash(a, b);
    }
  }

  /** The last occurrence in a concatenation is in the right part if it has one. */
  lemma {:induction false} RFindAppend(x: string, y: string, c: char)
    ensures RFind(x + y, c) == if RFind(y, c) >= 0 then |x| + RFind(y, c) else RFind(x, c)
    decreases |y|
  {
    if |y| == 0 {
      assert x + y == x;
    } else {
      assert (x + y)[..|x + y| - 1] == x + y[..|y| - 1];
      if y[|y| - 1] != c {
        RFindAppend(x, y[..|y| - 1], c);
      }
    }
  }

  /** Whatever precedes a `/` does not change the basename. */
  lemma {:induction false} BasenameAfterSlash(a: string, b: string)
    ensures Basename(a + "/" + b) == Basename(b)
  {
    RFindAppend(a + "/", b, '/');
    RFindAppend(a, "/", '/');
    assert (a + "/" + b) == (a + "/") + b;
  }

  /** Joining a single name onto any directory yields a path whose basename is that name. */
  lemma {:induction false} BasenameOfJoin(a: string, name: string)
    requires '/' !in name
    ensures Basename(PathJoin(a, name)) == name
  {
    if name != "" {
      assert name[0] != '/';
    }
    assert !StartsWith(name, "/");
    RFindAppend(a, name, '/');
    if a == "" {
      assert a + name == name;
    } else if EndsWith(a, "/") {
      assert a[|a| - 1] == '/';
    } else {
      BasenameAfterSlash(a, name);
    }
  }

  /** The extension of `a/b` is b's, so the root of `a/b` is `a/` and b's root. */
  lemma {:induction false} RootAfterSlash(a: string, b: string)
    ensures Root(a + "/" + b) == a + "/" + Root(b)
  {
    var pre := a + "/";
    var p := pre + b;
    assert a + "/" + b == p;
    RFindAppend(pre, b, '/');
    RFindAppend(pre, b, '.');
    RFindAppend(a, "/", '.');
    var sepB, dotB := RFind(b, '/'), RFind(b, '.');
    assert RFind(pre, '/') == |a|;
    assert RFind(p, '/') == |pre| + sepB;
    if dotB >= 0 {
      assert RFind(p, '.') == |pre| + dotB;
      if dotB > sepB {
        OnlyDotsShift(pre, b, sepB + 1, dotB);
        assert p[..|pre| + dotB] == pre + b[..dotB];
      }
    } else {
      assert RFind(p, '.') < |pre| <= RFind(p, '/') + 1;
    }
  }

  /** Prefixing a string shifts the dot scan by the prefix's length. */
  lemma {:induction false} OnlyDotsShift(pre: string, b: string, lo: int, hi: int)
    requires 0 <= lo <= hi <= |b|
    ensures OnlyDots(pre + b, |pre| + lo, |pre| + hi) == OnlyDots(b, lo, hi)
  {
    var p := pre + b;
    if OnlyDots(b, lo, hi) {
      forall i | |pre| + lo <= i < |pre| + hi ensures p[i] == '.' {
        assert p[i] == b[i - |pre|];
      }
    }
    if OnlyDots(p, |pre| + lo, |pre| + hi) {
      forall i | lo <= i < hi ensures b[i] == '.' {
        assert p[|pre| + i] == b[i];
      }
    }
  }
}
