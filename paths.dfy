/**
 * POSIX path helpers that index.ts takes from Node's `path` module and
 * from `String.prototype.split`: the last `/`-segment of a path, the
 * extension of a path (`path.extname`) and joining a directory with an
 * entry name (`path.resolve(dir, entry)` for an absolute, normalised `dir`).
 */
module Paths {

  /** Index of the last occurrence of `c` in `s`, or -1 when `c` does not occur. */
  function LastIndexOf(s: string, c: char): (k: int)
    ensures -1 <= k < |s|
    ensures k >= 0 ==> s[k] == c
    ensures forall j :: k < j < |s| ==> s[j] != c
  {
    if s == [] then -1
    else if s[|s| - 1] == c then |s| - 1
    else LastIndexOf(s[..|s| - 1], c)
  }

  /** `s.split("/").at(-1)`: the part of `s` after its last `/` (all of `s` when it has none). */
  function LastSegment(s: string): (seg: string)
    ensures '/' !in seg
    ensures |seg| <= |s| && seg == s[|s| - |seg|..]
  {
    var k := LastIndexOf(s, '/');
    s[k + 1..]
  }

  /** The last segment is the longest suffix without `/`: a shorter one is preceded by `/`. */
  lemma LastSegmentMaximal(s: string)
    ensures var seg := LastSegment(s); |seg| < |s| ==> s[|s| - |seg| - 1] == '/'
  {
  }

  /** `s` without the run of `/` characters it ends with. */
  function StripTrailingSlashes(s: string): (t: string)
    ensures |t| <= |s| && t == s[..|t|]
    ensures t == [] || t[|t| - 1] != '/'
    ensures forall j :: |t| <= j < |s| ==> s[j] == '/'
  {
    if s != [] && s[|s| - 1] == '/' then StripTrailingSlashes(s[..|s| - 1]) else s
  }

  /**
   * Node's `path.extname` on POSIX paths. Trailing slashes are ignored; in
   * the last segment that remains, the extension runs from the last `.` to
   * the end. It is empty when the segment has no `.`, when its last `.`
   * is its first character (`.bashrc`), and for the segment `..`.
   */
  function Extname(p: string): (ext: string)
    ensures ext == [] || (ext[0] == '.' && '.' !in ext[1..] && '/' !in ext)
  {
    SegmentExt(LastSegment(StripTrailingSlashes(p)))
  }

  /** The extension of one path segment (a string without `/`). */
  function SegmentExt(seg: string): (ext: string)
    requires '/' !in seg
    ensures ext == [] || (ext[0] == '.' && '.' !in ext[1..] && '/' !in ext)
    ensures |ext| <= |seg| && ext == seg[|seg| - |ext|..]
  {
    var k := LastIndexOf(seg, '.');
    if k <= 0 || seg == ".." then "" else seg[k..]
  }

  /** `path.resolve(dir, name)` for an absolute, normalised `dir` and an entry name `name`. */
  function Resolve(dir: string, name: string): (p: string)
    ensures |p| >= |dir| + |name| && p[..|dir|] == dir && p[|p| - |name|..] == name
    ensures |p| > |name| && p[|p| - |name| - 1] == '/'
  {
    if dir != [] && dir[|dir| - 1] == '/' then dir + name else dir + "/" + name
  }

  /** The last segment of a resolved entry path is the entry name. */
  lemma LastSegmentOfResolve(dir: string, name: string)
    requires '/' !in name
    ensures LastSegment(Resolve(dir, name)) == name
  {
    LastSegmentMaximal(Resolve(dir, name));
  }

  /** The extension of a resolved entry path is the extension of the entry name. */
  lemma ExtnameOfResolve(dir: string, name: string)
    requires name != [] && '/' !in name
    ensures Extname(Resolve(dir, name)) == Extname(name)
  {
    var p := Resolve(dir, name);
    assert p[|p| - 1] == name[|name| - 1];
    assert StripTrailingSlashes(p) == p;
    LastSegmentOfResolve(dir, name);
    OwnSegment(name);
  }

  /** The last `c` of `a + [c] + b` is the one between `a` and `b` when `b` has none. */
  lemma {:induction false} LastIndexOfBefore(a: string, c: char, b: string)
    requires c !in b
    ensures LastIndexOf(a + [c] + b, c) == |a|
  {
    if b != [] {
      var s := a + [c] + b;
      assert s[..|s| - 1] == a + [c] + b[..|b| - 1];
      assert s[|s| - 1] == b[|b| - 1];
      LastIndexOfBefore(a, c, b[..|b| - 1]);
    }
  }

  /** The extension of `base.e`, for a non-empty `base` and an `e` without `.`, is `.e` (the name `..` has none). */
  lemma ExtnameOfDotted(base: string, e: string)
    requires base != [] && '/' !in base && '/' !in e && '.' !in e
    ensures Extname(base + "." + e) == if base == "." && e == "" then "" else "." + e
  {
    var s := base + ['.'] + e;
    assert base + "." + e == s;
    assert '/' !in s;
    OwnSegment(s);
    LastIndexOfBefore(base, '.', e);
    assert s[|base|..] == "." + e;
  }

  /** A non-empty string without `/` is the last segment of itself with trailing slashes stripped. */
  lemma OwnSegment(s: string)
    requires s != [] && '/' !in s
    ensures LastSegment(StripTrailingSlashes(s)) == s
  {
    assert s[|s| - 1] in s;
    assert StripTrailingSlashes(s) == s;
  }

  /** A path whose last segment has no `.` has no extension. */
  lemma NoDotNoExtname(p: string)
    requires '.' !in LastSegment(StripTrailingSlashes(p))
    ensures Extname(p) == ""
  {
  }

  /** A name whose only dot leads it (`.env`, `.`) has no extension. */
  lemma LeadingDotNoExtname(e: string)
    requires '/' !in e && '.' !in e
    ensures Extname("." + e) == ""
  {
    var s := "." + e;
    assert '/' !in s;
    if e != [] {
      OwnSegment(s);
    } else {
      assert s == ".";
    }
    assert LastIndexOf(s, '.') == 0 by {
      LastIndexOfBefore([], '.', e);
      assert [] + ['.'] + e == s;
    }
  }

  /**
   * A segment has an extension exactly when it has a `.` after its first
   * character and is not `..`.
   */
  lemma SegmentExtNonEmpty(seg: string)
    requires '/' !in seg
    ensures SegmentExt(seg) != [] <==> seg != ".." && exists i :: 0 < i < |seg| && seg[i] == '.'
  {
    var k := LastIndexOf(seg, '.');
    if exists i :: 0 < i < |seg| && seg[i] == '.' {
      var i :| 0 < i < |seg| && seg[i] == '.';
      assert k >= i;
    }
  }

  /** `p` is the path `q` or a path below it. */
  predicate Under(p: string, q: string)
  {
    p == q || (|p| > |q| && p[..|q|] == q && p[|q|] == '/')
  }

  /** What lies under an entry of the directory `dir` lies under `dir`, when `dir` does not end in `/`. */
  lemma UnderParent(p: string, dir: string, name: string)
    requires dir != [] && dir[|dir| - 1] != '/'
    requires Under(p, Resolve(dir, name))
    ensures Under(p, dir)
  {
    var q := Resolve(dir, name);
    assert q == dir + "/" + name;
    assert q[..|dir|] == dir && q[|dir|] == '/';
    assert p[..|q|][..|dir|] == p[..|dir|];
  }

  /** A resolved entry path does not end in `/`, for a non-empty name without `/`. */
  lemma ResolveNoTrailingSlash(dir: string, name: string)
    requires name != [] && '/' !in name
    ensures Resolve(dir, name) != [] && Resolve(dir, name)[|Resolve(dir, name)| - 1] != '/'
  {
    var p := Resolve(dir, name);
    assert p[|p| - 1] == name[|name| - 1];
    assert name[|name| - 1] in name;
  }

  /**
   * Two entries of one directory whose names are non-empty and free of `/`
   * have no path in common below them unless their names are equal.
   */
  lemma UnderSeparate(p: string, dir: string, a: string, b: string)
    requires a != [] && '/' !in a && b != [] && '/' !in b
    requires Under(p, Resolve(dir, a)) && Under(p, Resolve(dir, b))
    ensures a == b
  {
    var d := if dir != [] && dir[|dir| - 1] == '/' then dir else dir + "/";
    assert Resolve(dir, a) == d + a && Resolve(dir, b) == d + b;
    UnderLonger(p, d, a, b);
    UnderLonger(p, d, b, a);
    assert p[..|d + a|] == d + a && p[..|d + b|] == d + b;
    assert a == (d + a)[|d|..] && b == (d + b)[|d|..];
  }

  /** Below both `d + a` and `d + b`, a `b` longer than `a` has a `/` just past the length of `a`. */
  lemma UnderLonger(p: string, d: string, a: string, b: string)
    requires Under(p, d + a) && Under(p, d + b)
    ensures |a| < |b| ==> '/' in b
  {
    if |a| < |b| {
      assert p[..|d + b|] == d + b;
      assert p[|d + a|] == (d + b)[|d + a|] == b[|a|];
      assert b[|a|] in b;
    }
  }
}
