/**
 * The array methods index.ts uses, on sequences: `filter`, `map` and
 * `join("")`, each with the lemma that it can be split at any point.
 */
module Seqs {

  /** A non-empty sequence appended to another is the prefix appended, then the last element. */
  lemma SplitLast<T>(a: seq<T>, b: seq<T>)
    requires b != []
    ensures b == b[..|b| - 1] + [b[|b| - 1]]
    ensures a + b == (a + b[..|b| - 1]) + [b[|b| - 1]]
  {
  }

  /**
   * A function on sequences that maps `[]` to `[]` and adds `g(x)` for every
   * element `x` its argument is extended by takes appends to appends.
   */
  lemma {:induction false} SnocToAppend<T, U>(f: seq<T> -> seq<U>, g: T -> seq<U>, a: seq<T>, b: seq<T>)
    requires f([]) == []
    requires forall s, x :: f(s + [x]) == f(s) + g(x)
    ensures f(a + b) == f(a) + f(b)
    decreases |b|
  {
    if b == [] {
      assert a + b == a;
    } else {
      var init, last := b[..|b| - 1], b[|b| - 1];
      SplitLast(a, b);
      SnocToAppend(f, g, a, init);
    }
  }

  /** `s.filter(keep)`: the elements that pass, in their order. */
  function Filter<T>(s: seq<T>, keep: T -> bool): (r: seq<T>)
    ensures |r| <= |s|
  {
    if s == [] then [] else Filter(s[..|s| - 1], keep) + if keep(s[|s| - 1]) then [s[|s| - 1]] else []
  }

  /** `filter` keeps exactly the elements that pass. */
  lemma {:induction false} FilterMembers<T>(s: seq<T>, keep: T -> bool)
    ensures forall x :: x in Filter(s, keep) <==> x in s && keep(x)
  {
    if s != [] {
      assert s == s[..|s| - 1] + [s[|s| - 1]];
      FilterMembers(s[..|s| - 1], keep);
    }
  }

  /** Nothing passes exactly when no element passes. */
  lemma FilterEmpty<T>(s: seq<T>, keep: T -> bool)
    ensures |Filter(s, keep)| == 0 <==> forall i :: 0 <= i < |s| ==> !keep(s[i])
  {
    FilterMembers(s, keep);
    if |Filter(s, keep)| != 0 {
      assert Filter(s, keep)[0] in Filter(s, keep);
    }
  }

  /** Everything passes exactly when every element passes. */
  lemma {:induction false} FilterFull<T>(s: seq<T>, keep: T -> bool)
    ensures |Filter(s, keep)| == |s| <==> forall i :: 0 <= i < |s| ==> keep(s[i])
  {
    if s != [] {
      var init := s[..|s| - 1];
      FilterFull(init, keep);
      assert forall i :: 0 <= i < |init| ==> init[i] == s[i];
    }
  }

  lemma FilterSnoc<T>(s: seq<T>, x: T, keep: T -> bool)
    ensures Filter(s + [x], keep) == Filter(s, keep) + if keep(x) then [x] else []
  {
    assert (s + [x])[..|s|] == s;
  }

  /** `filter` keeps the relative order: filtering commutes with splitting. */
  lemma FilterAppend<T>(a: seq<T>, b: seq<T>, keep: T -> bool)
    ensures Filter(a + b, keep) == Filter(a, keep) + Filter(b, keep)
  {
    var f := s => Filter(s, keep);
    var g := x => if keep(x) then [x] else [];
    forall s, x ensures f(s + [x]) == f(s) + g(x) {
      FilterSnoc(s, x, keep);
    }
    SnocToAppend(f, g, a, b);
  }

  /** No element occurs twice. */
  predicate NoDup<T(==)>(s: seq<T>)
  {
    forall i, j :: 0 <= i < j < |s| ==> s[i] != s[j]
  }

  /** Two sequences without repeats and without common elements make one without repeats. */
  lemma NoDupAppend<T>(a: seq<T>, b: seq<T>)
    requires NoDup(a) && NoDup(b)
    requires forall x :: x in a ==> x !in b
    ensures NoDup(a + b)
  {
    var s := a + b;
    forall i, j | 0 <= i < j < |s| ensures s[i] != s[j] {
      if i < |a| && j >= |a| {
        assert s[i] == a[i] && s[j] == b[j - |a|];
        assert a[i] in a && b[j - |a|] in b;
      } else if i >= |a| {
        assert s[i] == b[i - |a|] && s[j] == b[j - |a|];
      }
    }
  }

  /** Every element `filter` returns is one of the input's, at some index. */
  lemma {:induction false} FilterFrom<T>(s: seq<T>, keep: T -> bool, i: int)
    requires 0 <= i < |Filter(s, keep)|
    ensures exists k :: 0 <= k < |s| && s[k] == Filter(s, keep)[i]
  {
    var init := s[..|s| - 1];
    assert s == init + [s[|s| - 1]];
    FilterSnoc(init, s[|s| - 1], keep);
    if i < |Filter(init, keep)| {
      FilterFrom(init, keep, i);
      var k :| 0 <= k < |init| && init[k] == Filter(init, keep)[i];
      assert s[k] == init[k];
    } else {
      assert s[|s| - 1] == Filter(s, keep)[i];
    }
  }

  /** `filter` keeps keys that were pairwise distinct pairwise distinct. */
  lemma {:induction false} FilterDistinct<T, K>(s: seq<T>, keep: T -> bool, key: T -> K)
    requires forall i, j :: 0 <= i < j < |s| ==> key(s[i]) != key(s[j])
    ensures forall i, j :: 0 <= i < j < |Filter(s, keep)| ==> key(Filter(s, keep)[i]) != key(Filter(s, keep)[j])
  {
    if s != [] {
      var init, last := s[..|s| - 1], s[|s| - 1];
      FilterDistinct(init, keep, key);
      if keep(last) {
        var n := |Filter(init, keep)|;
        forall i | 0 <= i < n ensures key(Filter(init, keep)[i]) != key(last) {
          FilterFrom(init, keep, i);
        }
        DistinctSnoc(Filter(init, keep), last, key);
      }
    }
  }

  /** Appending an element whose key is new keeps keys pairwise distinct. */
  lemma DistinctSnoc<T, K>(s: seq<T>, x: T, key: T -> K)
    requires forall i, j :: 0 <= i < j < |s| ==> key(s[i]) != key(s[j])
    requires forall i :: 0 <= i < |s| ==> key(s[i]) != key(x)
    ensures forall i, j :: 0 <= i < j < |s + [x]| ==> key((s + [x])[i]) != key((s + [x])[j])
  {
  }

  /** `s.map(f)`. */
  function Map<T, U>(s: seq<T>, f: T -> U): (r: seq<U>)
    ensures |r| == |s|
  {
    if s == [] then [] else Map(s[..|s| - 1], f) + [f(s[|s| - 1])]
  }

  /** Position `i` of `s.map(f)` is `f` of position `i` of `s`. */
  lemma {:induction false} MapAt<T, U>(s: seq<T>, f: T -> U, i: nat)
    requires i < |s|
    ensures Map(s, f)[i] == f(s[i])
  {
    if i < |s| - 1 {
      MapAt(s[..|s| - 1], f, i);
    }
  }

  lemma MapSnoc<T, U>(s: seq<T>, x: T, f: T -> U)
    ensures Map(s + [x], f) == Map(s, f) + [f(x)]
  {
    assert (s + [x])[..|s|] == s;
  }

  lemma MapAppend<T, U>(a: seq<T>, b: seq<T>, f: T -> U)
    ensures Map(a + b, f) == Map(a, f) + Map(b, f)
  {
    var m := s => Map(s, f);
    var g := x => [f(x)];
    forall s, x ensures m(s + [x]) == m(s) + g(x) {
      MapSnoc(s, x, f);
    }
    SnocToAppend(m, g, a, b);
  }

  /** `ss.join("")`: the strings one after the other. */
  function Join(ss: seq<string>): (r: string)
  {
    if ss == [] then [] else Join(ss[..|ss| - 1]) + ss[|ss| - 1]
  }

  lemma JoinSnoc(ss: seq<string>, s: string)
    ensures Join(ss + [s]) == Join(ss) + s
  {
    assert (ss + [s])[..|ss|] == ss;
  }

  lemma JoinAppend(a: seq<string>, b: seq<string>)
    ensures Join(a + b) == Join(a) + Join(b)
  {
    var f := Join;
    var g := (x: string) => x;
    forall s, x ensures f(s + [x]) == f(s) + g(x) {
      JoinSnoc(s, x);
    }
    SnocToAppend(f, g, a, b);
  }
}
