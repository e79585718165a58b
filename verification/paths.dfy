/** POSIX path handling used by the server: `os.path.join` for two parts and
    `os.path.splitext`, both as CPython's `posixpath` defines them, with `/`
    as the only separator. */
module Paths {

  /** `posixpath.join(a, b)`: an absolute `b` replaces `a`; otherwise a `/`
      is put between them unless `a` is empty or already ends in one. */
  function Join(a: string, b: string): string {
    if |b| > 0 && b[0] == '/' then b
    else if |a| == 0 || a[|a| - 1] == '/' then a + b
    else a + "/" + b
  }

  /** The last index below `n` holding `c`, or -1 when there is none. */
  function LastBefore(s: string, c: char, n: nat): (r: int)
    requires n <= |s|
    ensures -1 <= r < n
    ensures r >= 0 ==> s[r] == c
    ensures forall k :: r < k < n ==> s[k] != c
  {
    if n == 0 then -1
    else if s[n - 1] == c then n - 1
    else LastBefore(s, c, n - 1)
  }

  /** `str.rfind(c)`: the last index holding `c`, or -1 when there is none. */
  function RFind(s: string, c: char): (r: int)
    ensures -1 <= r < |s|
    ensures r >= 0 ==> s[r] == c
    ensures forall k :: r < k < |s| ==> s[k] != c
  {
    LastBefore(s, c, |s|)
  }

  /** The last-occurrence index is the only index with its two properties. */
  lemma RFindUnique(s: string, c: char, r: int)
    requires -1 <= r < |s|
    requires r >= 0 ==> s[r] == c
    requires forall k :: r < k < |s| ==> s[k] != c
    ensures RFind(s, c) == r
  {
  }

  /** The scan of CPython's `splitext`: is some character in `p[lo..hi]`
      other than a dot? */
  function NonDotBetween(p: string, lo: nat, hi: nat): (b: bool)
    requires lo <= hi <= |p|
    ensures b <==> exists k :: lo <= k < hi && p[k] != '.'
    decreases hi - lo
  {
    if lo == hi then false
    else if p[lo] != '.' then true
    else NonDotBetween(p, lo + 1, hi)
  }

  /** The last path component: everything after the last `/`. */
  function Basename(p: string): string {
    p[RFind(p, '/') + 1..]
  }

  /** Does a file name hold a dot with some non-dot character before it?
      Exactly then does `splitext` find an extension: leading dots of a name
      (`.bashrc`, `..`) never start one. */
  ghost predicate DotAfterName(b: string) {
    exists i, j :: 0 <= i < j < |b| && b[i] != '.' && b[j] == '.'
  }

  ghost predicate HasExtension(p: string) {
    DotAfterName(Basename(p))
  }

  lemma ExtensionIfScanFinds(p: string, sep: int, dot: int)
    requires sep == RFind(p, '/') && dot == RFind(p, '.')
    requires dot > sep && NonDotBetween(p, sep + 1, dot)
    ensures HasExtension(p)
  {
    var b := Basename(p);
    var k :| sep + 1 <= k < dot && p[k] != '.';
    assert b[k - sep - 1] == p[k];
    assert b[dot - sep - 1] == p[dot];
  }

  lemma ScanFindsExtension(p: string, sep: int, dot: int)
    requires sep == RFind(p, '/') && dot == RFind(p, '.')
    requires HasExtension(p)
    ensures dot > sep && NonDotBetween(p, sep + 1, dot)
  {
    var b := Basename(p);
    var i, j :| 0 <= i < j < |b| && b[i] != '.' && b[j] == '.';
    var ki, kj := sep + 1 + i, sep + 1 + j;
    assert p[ki] == b[i] && p[kj] == b[j];
    assert sep + 1 <= ki < kj <= dot && p[ki] != '.';
  }

  /** The condition CPython's `splitext` tests is exactly `HasExtension`. */
  lemma ExtensionCondition(p: string)
    ensures var sep, dot := RFind(p, '/'), RFind(p, '.');
      (dot > sep && NonDotBetween(p, sep + 1, dot)) <==> HasExtension(p)
  {
    var sep, dot := RFind(p, '/'), RFind(p, '.');
    if dot > sep && NonDotBetween(p, sep + 1, dot) {
      ExtensionIfScanFinds(p, sep, dot);
    }
    if HasExtension(p) {
      ScanFindsExtension(p, sep, dot);
    }
  }

  /** `os.path.splitext(p)`: `(root, ext)` with `root + ext == p`, where `ext`
      is empty or a dot followed by neither dots nor separators. Which of the
      two it is, `SplitExtFindsExtension` states. */
  function SplitExt(p: string): (r: (string, string))
    ensures r.0 + r.1 == p
    ensures r.1 == [] || (r.1[0] == '.' && forall k :: 0 < k < |r.1| ==> r.1[k] != '.' && r.1[k] != '/')
  {
    var sep := RFind(p, '/');
    var dot := RFind(p, '.');
    if dot > sep && NonDotBetween(p, sep + 1, dot) then
      ExtensionShape(p, sep, dot);
      (p[..dot], p[dot..])
    else
      (p, [])
  }

  /** `splitext` returns a non-empty extension exactly when the last
      component has a dot with a non-dot character somewhere before it. */
  lemma SplitExtFindsExtension(p: string)
    ensures SplitExt(p).1 != [] <==> HasExtension(p)
  {
    ExtensionCondition(p);
  }

  /** What follows the last dot, when it lies after the last separator,
      holds neither dots nor separators. */
  lemma ExtensionShape(p: string, sep: int, dot: int)
    requires sep == RFind(p, '/') && dot == RFind(p, '.') && dot > sep
    ensures p[..dot] + p[dot..] == p
    ensures var e := p[dot..]; e[0] == '.' && forall k :: 0 < k < |e| ==> e[k] != '.' && e[k] != '/'
  {
    var e := p[dot..];
    forall k | 0 < k < |e|
      ensures e[k] != '.' && e[k] != '/'
    {
      assert e[k] == p[dot + k];
    }
  }

  /** The text file written next to a document: its path with the last
      extension replaced by `.txt`, or `.txt` appended when it has none. */
  function OutputPath(p: string): string {
    SplitExt(p).0 + ".txt"
  }

  /** Does the last component hold a character other than a dot? */
  ghost predicate NamedBasename(p: string) {
    exists k :: RFind(p, '/') < k < |p| && p[k] != '.'
  }

  /** The output path ends in `.txt`, keeps the directory part of the input,
      and is the input with its extension cut off (if any) plus `.txt`. */
  lemma OutputPathShape(p: string)
    ensures var q := OutputPath(p);
      && |q| >= 4 && q[|q| - 4..] == ".txt"
      && p[..RFind(p, '/') + 1] <= q
      && (HasExtension(p) ==> q == p[..RFind(p, '.')] + ".txt")
      && (!HasExtension(p) ==> q == p + ".txt")
  {
    var sep := RFind(p, '/');
    var dot := RFind(p, '.');
    var q := OutputPath(p);
    if HasExtension(p) {
      assert dot > sep && NonDotBetween(p, sep + 1, dot);
      assert q == p[..dot] + ".txt";
      assert p[..sep + 1] == q[..sep + 1];
    } else {
      assert q == p + ".txt";
      assert p[..sep + 1] == q[..sep + 1];
    }
  }

  /** Appending text without a separator keeps the last separator. */
  lemma RFindAppend(s: string, t: string, c: char)
    requires forall k :: 0 <= k < |t| ==> t[k] != c
    ensures RFind(s + t, c) == RFind(s, c)
  {
    var r := RFind(s, c);
    var u := s + t;
    forall k | r < k < |u|
      ensures u[k] != c
    {
      if k < |s| { assert u[k] == s[k]; } else { assert u[k] == t[k - |s|]; }
    }
    if r >= 0 { assert u[r] == s[r]; }
    RFindUnique(u, c, r);
  }

  /** Cutting after the last separator keeps it as the last separator. */
  lemma RFindPrefix(s: string, c: char, n: nat)
    requires RFind(s, c) < n <= |s|
    ensures RFind(s[..n], c) == RFind(s, c)
  {
    var r := RFind(s, c);
    RFindUnique(s[..n], c, r);
  }

  lemma SplitAtLastDot(p: string, sep: int, dot: int)
    requires sep == RFind(p, '/') && dot == RFind(p, '.')
    requires dot > sep && NonDotBetween(p, sep + 1, dot)
    ensures SplitExt(p) == (p[..dot], p[dot..])
  {
  }

  /** Appending `.txt` keeps the last separator and puts the last dot at
      the join. */
  lemma TxtLastIndices(root: string)
    ensures RFind(root + ".txt", '/') == RFind(root, '/')
    ensures RFind(root + ".txt", '.') == |root|
  {
    var q := root + ".txt";
    var n := |root|;
    assert RFind(q, '/') == RFind(root, '/') by {
      RFindAppend(root, ".txt", '/');
    }
    assert RFind(q, '.') == n by {
      assert q[n] == '.';
      forall k | n < k < |q|
        ensures q[k] != '.'
      {
        assert q[k] == ".txt"[k - n];
      }
      RFindUnique(q, '.', n);
    }
  }

  /** A root whose last component holds a non-dot character (at `k`) gets
      `.txt` back as its extension. */
  lemma SplitTxt(root: string, k: int)
    requires RFind(root, '/') < k < |root| && root[k] != '.'
    ensures SplitExt(root + ".txt") == (root, ".txt")
  {
    var sep := RFind(root, '/');
    var q := root + ".txt";
    var n := |root|;
    TxtLastIndices(root);
    assert q[k] == root[k];
    assert NonDotBetween(q, sep + 1, n);
    SplitAtLastDot(q, sep, n);
    assert q[..n] == root;
    assert q[n..] == ".txt";
  }

  /** Cutting the extension off leaves a non-dot character in the last
      component, if there was one before. */
  lemma RootNamed(p: string)
    requires NamedBasename(p)
    ensures var root := SplitExt(p).0;
      exists k :: RFind(root, '/') < k < |root| && root[k] != '.'
  {
    var sep := RFind(p, '/');
    var dot := RFind(p, '.');
    var root := SplitExt(p).0;
    if dot > sep && NonDotBetween(p, sep + 1, dot) {
      assert root == p[..dot];
      assert RFind(root, '/') == sep by {
        RFindPrefix(p, '/', dot);
      }
      var k :| sep + 1 <= k < dot && p[k] != '.';
      assert root[k] == p[k];
    } else {
      assert root == p;
    }
  }

  /** Extraction output is stable: for a document whose last component is
      not made of dots only, the output path of the output path is itself,
      because `.txt` is then recognised as the extension to replace. */
  lemma OutputPathStable(p: string)
    requires NamedBasename(p)
    ensures OutputPath(OutputPath(p)) == OutputPath(p)
  {
    RootNamed(p);
    var root := SplitExt(p).0;
    var k :| RFind(root, '/') < k < |root| && root[k] != '.';
    SplitTxt(root, k);
  }
}
