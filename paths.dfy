/**
 * The POSIX path helpers yuicat.py relies on: os.path.split,
 * os.path.basename, os.path.join, os.path.splitext and os.path.commonprefix,
 * written out with the behaviour of Python's posixpath on byte strings.
 */
module Paths {

  /** str.endswith: `suffix` ends `s`. */
  predicate EndsWith(s: string, suffix: string) {
    |suffix| <= |s| && s[|s| - |suffix|..] == suffix
  }

  /** True when every character of `s` is a separator. */
  predicate AllSlashes(s: string) {
    forall i :: 0 <= i < |s| ==> s[i] == '/'
  }

  /**
   * A directory that os.path.split hands back unchanged as the head of a
   * path joined below it: empty, all separators, or without a trailing one.
   */
  predicate Canonical(r: string) {
    r == [] || r[|r| - 1] != '/' || AllSlashes(r)
  }

  /** str.rfind on one character: the last index of `c` in `s`, or -1. */
  function RFind(s: string, c: char): (r: int)
    ensures -1 <= r < |s|
    ensures r >= 0 ==> s[r] == c
    ensures forall k :: r < k < |s| ==> s[k] != c
  {
    if s == [] then -1
    else if s[|s| - 1] == c then |s| - 1
    else RFind(s[..|s| - 1], c)
  }

  /** str.rstrip('/'): drop every trailing separator. */
  function RStripSlashes(s: string): (r: string)
    ensures r <= s
    ensures r == [] || r[|r| - 1] != '/'
    ensures forall k :: |r| <= k < |s| ==> s[k] == '/'
  {
    if s != [] && s[|s| - 1] == '/' then RStripSlashes(s[..|s| - 1]) else s
  }

  /**
   * os.path.split: everything after the last separator is the tail; the
   * head keeps the rest, with its trailing separators removed unless it
   * consists of separators only.
   */
  function Split(p: string): (r: (string, string))
    ensures '/' !in r.1
    ensures r.0 <= p
    ensures |r.1| <= |p| && p[|p| - |r.1|..] == r.1
    ensures |r.1| < |p| ==> p[|p| - |r.1| - 1] == '/'
    ensures AllSlashes(p[..|p| - |r.1|]) ==> r.0 == p[..|p| - |r.1|]
    ensures !AllSlashes(p[..|p| - |r.1|]) ==>
              r.0 <= p[..|p| - |r.1|] && r.0 != [] && r.0[|r.0| - 1] != '/' &&
              forall k :: |r.0| <= k < |p| - |r.1| ==> p[k] == '/'
  {
    var i := RFind(p, '/') + 1;
    var head := p[..i];
    if head != [] && !AllSlashes(head) then (RStripSlashes(head), p[i..]) else (head, p[i..])
  }

  function Dirname(p: string): string {
    Split(p).0
  }

  /** os.path.basename: the tail of os.path.split. */
  function Basename(p: string): (r: string)
    ensures '/' !in r && EndsWith(p, r)
    ensures |r| < |p| ==> p[|p| - |r| - 1] == '/'
  {
    Split(p).1
  }

  /**
   * os.path.join of two components: an absolute second component replaces
   * the first; otherwise a separator is put between them unless the first is
   * empty or already ends in one.
   */
  function Join(a: string, b: string): (r: string)
    ensures |b| <= |r| && r[|r| - |b|..] == b
    ensures b != [] && b[0] == '/' ==> r == b
    ensures (b == [] || b[0] != '/') ==> a <= r
    ensures (b == [] || b[0] != '/') ==> |r| == |a| + |b| || (|r| == |a| + 1 + |b| && r[|a|] == '/')
    ensures (b == [] || b[0] != '/') && a != [] && a[|a| - 1] != '/' ==> |r| == |a| + 1 + |b|
    ensures (b == [] || b[0] != '/') && (a == [] || a[|a| - 1] == '/') ==> |r| == |a| + |b|
  {
    if b != [] && b[0] == '/' then b
    else if a == [] || a[|a| - 1] == '/' then a + b
    else a + "/" + b
  }

  /** Splitting a name joined below a canonical directory gives both back. */
  lemma SplitJoin(r: string, b: string)
    requires Canonical(r)
    requires '/' !in b
    ensures Split(Join(r, b)) == (r, b)
  {
    var p := Join(r, b);
    if r == [] {
      assert p == b;
      var k := RFind(p, '/');
      assert p[..k + 1] == [];
    } else if AllSlashes(r) {
      assert p == r + b;
      var k := RFind(p, '/');
      assert p[|r| - 1] == '/';
      assert k >= 0 && k < |r| ==> k == |r| - 1;
      assert p[..k + 1] == r && p[k + 1..] == b;
    } else {
      assert r[|r| - 1] != '/';
      assert p == r + "/" + b;
      var k := RFind(p, '/');
      assert p[|r|] == '/';
      assert k == |r|;
      var head := p[..k + 1];
      assert head == r + "/" && p[k + 1..] == b;
      assert !AllSlashes(head) by { assert head[|r| - 1] != '/'; }
      assert head[..|head| - 1] == r;
      assert RStripSlashes(head) == RStripSlashes(r) == r;
    }
  }

  /**
   * os.path.splitext: the extension starts at the last dot after the last
   * separator, provided some character before that dot (within the file
   * name) is not itself a dot; otherwise there is no extension.
   */
  function SplitExt(p: string): (r: (string, string))
    ensures r.0 + r.1 == p
    ensures r.1 == [] || (r.1[0] == '.' && '/' !in r.1 && '.' !in r.1[1..])
  {
    var sep := RFind(p, '/');
    var dot := RFind(p, '.');
    if dot > sep && exists k :: sep < k < dot && p[k] != '.' then
      var ext := p[dot..];
      assert forall i :: 0 <= i < |ext| ==> ext[i] == p[dot + i];
      (p[..dot], ext)
    else
      (p, [])
  }

  /** os.path.splitext(os.path.basename(p))[0]: the file name without its extension. */
  function Stem(p: string): (r: string)
    ensures '/' !in r
    ensures forall x :: x in r ==> x in p
    ensures r <= Basename(p)
  {
    var base := Basename(p);
    var r := SplitExt(base).0;
    PrefixOfSuffix(p, base, r);
    r
  }

  /** The last occurrence of `c` in `s` is at `k` when none follows it. */
  lemma RFindAt(s: string, c: char, k: int)
    requires -1 <= k < |s| && (k >= 0 ==> s[k] == c)
    requires forall j :: k < j < |s| ==> s[j] != c
    ensures RFind(s, c) == k
  {
  }

  /** os.path.splitext of `n.x`, for `n` not made of dots only. */
  lemma SplitExtOf(n: string, x: string)
    requires '/' !in n && '/' !in x && '.' !in x
    requires exists k :: 0 <= k < |n| && n[k] != '.'
    ensures SplitExt(n + "." + x).0 == n
  {
    var base := n + "." + x;
    forall j | 0 <= j < |base| ensures base[j] != '/' {
      if j < |n| { assert base[j] == n[j]; } else if j > |n| { assert base[j] == x[j - |n| - 1]; }
    }
    RFindAt(base, '/', -1);
    forall j | |n| < j < |base| ensures base[j] != '.' {
      assert base[j] == x[j - |n| - 1];
    }
    RFindAt(base, '.', |n|);
    var k :| 0 <= k < |n| && n[k] != '.';
    assert base[k] == n[k];
    assert -1 < k < |n| && base[k] != '.';
    assert base[..|n|] == n;
  }

  /**
   * The stem of a file `n.x` joined below a directory is `n`, provided `n`
   * is not made of dots only (a name like `..x` has no extension).
   */
  lemma StemOfJoin(d: string, n: string, x: string)
    requires Canonical(d) && '/' !in n && '/' !in x && '.' !in x
    requires exists k :: 0 <= k < |n| && n[k] != '.'
    ensures Stem(Join(d, n + "." + x)) == n
  {
    assert '/' !in n + "." + x;
    SplitJoin(d, n + "." + x);
    SplitExtOf(n, x);
  }

  /** The characters of a prefix of a suffix of `p` are characters of `p`. */
  lemma PrefixOfSuffix(p: string, s: string, r: string)
    requires |s| <= |p| && p[|p| - |s|..] == s && r <= s
    ensures forall x :: x in r ==> x in s && x in p
  {
    forall x | x in r ensures x in s && x in p {
      var i :| 0 <= i < |r| && r[i] == x;
      assert s[i] == x;
      assert p[|p| - |s| + i] == x;
    }
  }

  /**
   * os.path.commonprefix of a two-element list: the longest common prefix
   * of the two strings. Python compares min and max of the list; for two
   * strings that reordering does not change the common prefix.
   */
  function CommonPrefix(a: string, b: string): (r: string)
    ensures r <= a && r <= b
    ensures |r| < |a| && |r| < |b| ==> a[|r|] != b[|r|]
  {
    if a == [] || b == [] || a[0] != b[0] then []
    else [a[0]] + CommonPrefix(a[1..], b[1..])
  }

  /** The commonprefix test used by yuicat.py is a plain string-prefix test. */
  lemma {:induction false} CommonPrefixIsPrefix(a: string, b: string)
    ensures CommonPrefix(a, b) == a <==> a <= b
  {
    if a != [] && b != [] && a[0] == b[0] {
      CommonPrefixIsPrefix(a[1..], b[1..]);
      assert a == [a[0]] + a[1..];
      assert b == [b[0]] + b[1..];
      assert a <= b <==> a[1..] <= b[1..];
    }
  }
}
