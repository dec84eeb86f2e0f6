/**
 * How index.ts turns the loaded JSON mapping into the `from` and `to`
 * lists: each key goes through four `replaceAll` calls that put a backslash
 * before `(`, `)`, `[` and `]` (the escaped string is then handed to
 * `RegExp`, which is not modelled); the values are taken as they are.
 */
module KeyEscape {

  /** `s.replaceAll(c, rep)` with a one-character search string and a replacement `rep` without `$`. */
  function ReplaceAll(s: string, c: char, rep: string): (r: string)
    ensures c !in s ==> r == s
  {
    if s == [] then [] else (if s[0] == c then rep else [s[0]]) + ReplaceAll(s[1..], c, rep)
  }

  lemma {:induction false} ReplaceAllAppend(a: string, b: string, c: char, rep: string)
    ensures ReplaceAll(a + b, c, rep) == ReplaceAll(a, c, rep) + ReplaceAll(b, c, rep)
  {
    if a == [] {
      assert a + b == b;
    } else {
      assert (a + b)[0] == a[0] && (a + b)[1..] == a[1..] + b;
      ReplaceAllAppend(a[1..], b, c, rep);
    }
  }

  /** The key transformation as index.ts writes it: four `replaceAll` calls in a row. */
  function EscapeKey(w: string): string
  {
    var w1 := ReplaceAll(w, '(', "\\(");
    var w2 := ReplaceAll(w1, ')', "\\)");
    var w3 := ReplaceAll(w2, '[', "\\[");
    ReplaceAll(w3, ']', "\\]")
  }

  /** The four characters that get a backslash in front. */
  predicate IsSpecial(c: char)
  {
    c == '(' || c == ')' || c == '[' || c == ']'
  }

  /** What one character of a key becomes. */
  function Escaped(c: char): (r: string)
  {
    if IsSpecial(c) then ['\\', c] else [c]
  }

  /** Reference definition: escaping is one left-to-right pass, character by character. */
  function EscapeEach(w: string): string
  {
    if w == [] then [] else Escaped(w[0]) + EscapeEach(w[1..])
  }

  /** How many characters of `w` are special. */
  function SpecialCount(w: string): nat
  {
    if w == [] then 0 else (if IsSpecial(w[0]) then 1 else 0) + SpecialCount(w[1..])
  }

  /** Left-to-right unescape: `\X` for a special `X` becomes `X`; every other character is copied. */
  function Unescape(s: string): string
    decreases |s|
  {
    if |s| >= 2 && s[0] == '\\' && IsSpecial(s[1]) then [s[1]] + Unescape(s[2..])
    else if s == [] then []
    else [s[0]] + Unescape(s[1..])
  }

  lemma EscapeKeyAppend(a: string, b: string)
    ensures EscapeKey(a + b) == EscapeKey(a) + EscapeKey(b)
  {
    var a1, b1 := ReplaceAll(a, '(', "\\("), ReplaceAll(b, '(', "\\(");
    ReplaceAllAppend(a, b, '(', "\\(");
    var a2, b2 := ReplaceAll(a1, ')', "\\)"), ReplaceAll(b1, ')', "\\)");
    ReplaceAllAppend(a1, b1, ')', "\\)");
    var a3, b3 := ReplaceAll(a2, '[', "\\["), ReplaceAll(b2, '[', "\\[");
    ReplaceAllAppend(a2, b2, '[', "\\[");
    ReplaceAllAppend(a3, b3, ']', "\\]");
  }

  /** One character goes through the four calls as `Escaped` says: a later call never touches an earlier backslash pair. */
  lemma EscapeKeyChar(x: char)
    ensures EscapeKey([x]) == Escaped(x)
  {
    var w1 := ReplaceAll([x], '(', "\\(");
    assert w1 == if x == '(' then "\\(" else [x];
    var w2 := ReplaceAll(w1, ')', "\\)");
    assert w2 == if x == ')' then "\\)" else w1;
    var w3 := ReplaceAll(w2, '[', "\\[");
    assert w3 == if x == '[' then "\\[" else w2;
    var w4 := ReplaceAll(w3, ']', "\\]");
    assert w4 == if x == ']' then "\\]" else w3;
  }

  /** The chain of four `replaceAll` calls is the one-pass escape. */
  lemma {:induction false} EscapeKeyIsEscapeEach(w: string)
    ensures EscapeKey(w) == EscapeEach(w)
  {
    if w == [] {
      assert EscapeKey(w) == [];
    } else {
      assert w == [w[0]] + w[1..];
      EscapeKeyAppend([w[0]], w[1..]);
      EscapeKeyChar(w[0]);
      EscapeKeyIsEscapeEach(w[1..]);
    }
  }

  /** An escaped string never starts with a special character. */
  lemma EscapeEachFirst(w: string)
    ensures EscapeEach(w) == [] || !IsSpecial(EscapeEach(w)[0])
  {
  }

  /** Escaping grows a key by the number of its special characters. */
  lemma {:induction false} EscapeKeyLength(w: string)
    ensures |EscapeKey(w)| == |w| + SpecialCount(w)
  {
    EscapeKeyIsEscapeEach(w);
    EscapeEachLength(w);
  }

  lemma {:induction false} EscapeEachLength(w: string)
    ensures |EscapeEach(w)| == |w| + SpecialCount(w)
  {
    if w != [] {
      EscapeEachLength(w[1..]);
    }
  }

  /** In an escaped key, every special character has a backslash right before it. */
  lemma EscapeKeyGuardsSpecials(w: string)
    ensures var r := EscapeKey(w);
      forall i :: 0 <= i < |r| && IsSpecial(r[i]) ==> i > 0 && r[i - 1] == '\\'
  {
    EscapeKeyIsEscapeEach(w);
    EscapeEachGuardsSpecials(w);
  }

  lemma {:induction false} EscapeEachGuardsSpecials(w: string)
    ensures var r := EscapeEach(w);
      forall i :: 0 <= i < |r| && IsSpecial(r[i]) ==> i > 0 && r[i - 1] == '\\'
  {
    if w != [] {
      var head, rest := Escaped(w[0]), EscapeEach(w[1..]);
      var r := EscapeEach(w);
      assert r == head + rest;
      EscapeEachGuardsSpecials(w[1..]);
      EscapeEachFirst(w[1..]);
      forall i | 0 <= i < |r| && IsSpecial(r[i]) ensures i > 0 && r[i - 1] == '\\' {
        if i >= |head| {
          assert r[i] == rest[i - |head|];
        }
      }
    }
  }

  /** A key without special characters is left as it is. */
  lemma PlainKeyUnchanged(w: string)
    requires forall i :: 0 <= i < |w| ==> !IsSpecial(w[i])
    ensures EscapeKey(w) == w
  {
    assert '(' !in w && ')' !in w && '[' !in w && ']' !in w;
  }

  /** Unescaping an escaped key gives the key back. */
  lemma EscapeKeyRoundTrip(w: string)
    ensures Unescape(EscapeKey(w)) == w
  {
    EscapeKeyIsEscapeEach(w);
    EscapeEachRoundTrip(w);
  }

  lemma {:induction false} EscapeEachRoundTrip(w: string)
    ensures Unescape(EscapeEach(w)) == w
  {
    if w != [] {
      var rest := EscapeEach(w[1..]);
      var s := EscapeEach(w);
      EscapeEachRoundTrip(w[1..]);
      EscapeEachFirst(w[1..]);
      if IsSpecial(w[0]) {
        assert s == ['\\', w[0]] + rest;
        assert s[2..] == rest;
      } else {
        assert s == [w[0]] + rest;
        assert s[1..] == rest;
      }
      assert w == [w[0]] + w[1..];
    }
  }

  /** Different keys give different patterns. */
  lemma EscapeKeyInjective(a: string, b: string)
    requires EscapeKey(a) == EscapeKey(b)
    ensures a == b
  {
    EscapeKeyRoundTrip(a);
    EscapeKeyRoundTrip(b);
  }

  // ---------------------------------------------------------------------
  // The `from` and `to` lists

  /** `Object.keys(variables).map(...)`: the escaped keys, in enumeration order. */
  function Patterns(mapping: seq<(string, string)>): (from: seq<string>)
    ensures |from| == |mapping|
    ensures forall i :: 0 <= i < |mapping| ==> from[i] == EscapeKey(mapping[i].0)
  {
    if mapping == [] then [] else [EscapeKey(mapping[0].0)] + Patterns(mapping[1..])
  }

  /** `Object.values(variables)`: the values, in the same order. */
  function Replacements(mapping: seq<(string, string)>): (to: seq<string>)
    ensures |to| == |mapping|
    ensures forall i :: 0 <= i < |mapping| ==> to[i] == mapping[i].1
  {
    if mapping == [] then [] else [mapping[0].1] + Replacements(mapping[1..])
  }

  /** Position `i` of the two lists gives back the `i`-th key/value pair of the mapping. */
  lemma ListsRecoverMapping(mapping: seq<(string, string)>)
    ensures |Patterns(mapping)| == |Replacements(mapping)| == |mapping|
    ensures forall i :: 0 <= i < |mapping| ==>
      (Unescape(Patterns(mapping)[i]), Replacements(mapping)[i]) == mapping[i]
  {
    forall i | 0 <= i < |mapping| ensures Unescape(Patterns(mapping)[i]) == mapping[i].0 {
      EscapeKeyRoundTrip(mapping[i].0);
    }
  }

  /** Distinct keys, as in a JSON object, give distinct patterns. */
  lemma DistinctKeysDistinctPatterns(mapping: seq<(string, string)>)
    requires forall i, j :: 0 <= i < j < |mapping| ==> mapping[i].0 != mapping[j].0
    ensures forall i, j :: 0 <= i < j < |mapping| ==> Patterns(mapping)[i] != Patterns(mapping)[j]
  {
    forall i, j | 0 <= i < j < |mapping| ensures Patterns(mapping)[i] != Patterns(mapping)[j] {
      if Patterns(mapping)[i] == Patterns(mapping)[j] {
        EscapeKeyInjective(mapping[i].0, mapping[j].0);
      }
    }
  }
}
