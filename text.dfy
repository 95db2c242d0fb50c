/** The name comparison used by the catalog: `s.strip().lower()`. */
module Text {

  /** The ASCII characters for which Python's `str.isspace()` holds. */
  predicate IsSpace(c: char) {
    c == ' ' || (9 <= c as int <= 13) || (28 <= c as int <= 31)
  }

  predicate AllSpace(s: string) {
    forall i :: 0 <= i < |s| ==> IsSpace(s[i])
  }

  /** The first position from `i` on that does not hold whitespace, or `|s|`. */
  function SkipLeft(s: string, i: nat): (k: nat)
    requires i <= |s|
    ensures i <= k <= |s|
    decreases |s| - i
  {
    if i < |s| && IsSpace(s[i]) then SkipLeft(s, i + 1) else i
  }

  /** The last position down from `j`, but not below `lo`, that does not follow whitespace. */
  function SkipRight(s: string, lo: nat, j: nat): (k: nat)
    requires lo <= j <= |s|
    ensures lo <= k <= j
  {
    if lo < j && IsSpace(s[j - 1]) then SkipRight(s, lo, j - 1) else j
  }

  /** `str.strip()`: the slice of `s` between its leading and its trailing whitespace. */
  function Strip(s: string): (r: string) {
    var a := SkipLeft(s, 0);
    s[a..SkipRight(s, a, |s|)]
  }

  /**
   * The stripped name is empty exactly when `s` is all whitespace, and
   * otherwise starts and ends with a non-whitespace character.
   */
  lemma StripSpec(s: string)
    ensures var r := Strip(s);
            && |r| <= |s|
            && (r == [] <==> AllSpace(s))
            && (r != [] ==> !IsSpace(r[0]) && !IsSpace(r[|r| - 1]))
  {
    var a := SkipLeft(s, 0);
    SkipLeftSpec(s, 0);
    SkipRightSpec(s, a, |s|);
    assert s[0..|s|] == s;
  }

  lemma {:induction false} SkipLeftSpec(s: string, i: nat)
    requires i <= |s|
    ensures i <= SkipLeft(s, i) <= |s|
    ensures AllSpace(s[i..SkipLeft(s, i)])
    ensures SkipLeft(s, i) == |s| || !IsSpace(s[SkipLeft(s, i)])
    decreases |s| - i
  {
    if i < |s| && IsSpace(s[i]) {
      SkipLeftSpec(s, i + 1);
      assert s[i..SkipLeft(s, i)] == [s[i]] + s[i + 1..SkipLeft(s, i + 1)];
    }
  }

  lemma {:induction false} SkipLeftUnique(s: string, i: nat, k: nat)
    requires i <= k <= |s| && AllSpace(s[i..k]) && (k == |s| || !IsSpace(s[k]))
    ensures SkipLeft(s, i) == k
    decreases k - i
  {
    if i < k {
      assert s[i..k][0] == s[i];
      assert s[i + 1..k] == s[i..k][1..];
      SkipLeftUnique(s, i + 1, k);
    }
  }

  lemma {:induction false} SkipRightSpec(s: string, lo: nat, j: nat)
    requires lo <= j <= |s|
    ensures lo <= SkipRight(s, lo, j) <= j
    ensures AllSpace(s[SkipRight(s, lo, j)..j])
    ensures SkipRight(s, lo, j) == lo || !IsSpace(s[SkipRight(s, lo, j) - 1])
  {
    if lo < j && IsSpace(s[j - 1]) {
      SkipRightSpec(s, lo, j - 1);
      assert s[SkipRight(s, lo, j)..j] == s[SkipRight(s, lo, j - 1)..j - 1] + [s[j - 1]];
    }
  }

  lemma {:induction false} SkipRightUnique(s: string, lo: nat, j: nat, k: nat)
    requires lo <= k <= j <= |s| && AllSpace(s[k..j]) && (k == lo || !IsSpace(s[k - 1]))
    ensures SkipRight(s, lo, j) == k
  {
    if k < j {
      assert s[k..j][j - 1 - k] == s[j - 1];
      assert s[k..j - 1] == s[k..j][..j - 1 - k];
      SkipRightUnique(s, lo, j - 1, k);
    }
  }

  function LowerChar(c: char): (l: char) {
    if 'A' <= c <= 'Z' then (c as int + 32) as char else c
  }

  /** `str.lower()`, restricted to ASCII letters. */
  function Lower(s: string): (r: string)
    ensures |r| == |s|
  {
    seq(|s|, i requires 0 <= i < |s| => LowerChar(s[i]))
  }

  /** The normal form two names are compared in. */
  function Normalize(s: string): (r: string) {
    Lower(Strip(s))
  }

  /**
   * The normal form has no surrounding whitespace and no upper-case letter,
   * and is empty exactly for an all-whitespace name.
   */
  lemma NormalizeSpec(s: string)
    ensures var r := Normalize(s);
            && |r| <= |s|
            && (r == [] <==> AllSpace(s))
            && (r != [] ==> !IsSpace(r[0]) && !IsSpace(r[|r| - 1]))
            && forall i :: 0 <= i < |r| ==> !('A' <= r[i] <= 'Z')
  {
    var t := Strip(s);
    StripSpec(s);
    if t != [] {
      assert Normalize(s)[0] == LowerChar(t[0]);
      assert Normalize(s)[|t| - 1] == LowerChar(t[|t| - 1]);
    }
  }

  lemma {:induction false} SkipLeftLower(s: string, i: nat)
    requires i <= |s|
    ensures SkipLeft(Lower(s), i) == SkipLeft(s, i)
    decreases |s| - i
  {
    if i < |s| && IsSpace(s[i]) {
      SkipLeftLower(s, i + 1);
    }
  }

  lemma {:induction false} SkipRightLower(s: string, lo: nat, j: nat)
    requires lo <= j <= |s|
    ensures SkipRight(Lower(s), lo, j) == SkipRight(s, lo, j)
  {
    if lo < j && IsSpace(s[j - 1]) {
      SkipRightLower(s, lo, j - 1);
    }
  }

  /** Lower-casing commutes with stripping, since it maps whitespace to whitespace and nothing else to it. */
  lemma StripLower(s: string)
    ensures Strip(Lower(s)) == Lower(Strip(s))
  {
    SkipLeftLower(s, 0);
    SkipRightLower(s, SkipLeft(s, 0), |s|);
  }

  /** Two names that differ only in the case of ASCII letters compare equal. */
  lemma NormalizeIgnoresCase(a: string, b: string)
    requires Lower(a) == Lower(b)
    ensures Normalize(a) == Normalize(b)
  {
    StripLower(a);
    StripLower(b);
  }

  lemma AllSpaceConcat(a: string, b: string)
    requires AllSpace(a) && AllSpace(b)
    ensures AllSpace(a + b)
  {
    forall i | 0 <= i < |a + b| ensures IsSpace((a + b)[i]) {
      if i >= |a| { assert (a + b)[i] == b[i - |a|]; }
    }
  }

  lemma {:induction false} PaddedLeftEdge(l: string, s: string, r: string)
    requires AllSpace(l) && SkipLeft(s, 0) < |s|
    ensures SkipLeft(l + s + r, 0) == |l| + SkipLeft(s, 0)
  {
    var x := l + s + r;
    var a := SkipLeft(s, 0);
    SkipLeftSpec(s, 0);
    assert x[0..|l| + a] == l + s[0..a];
    AllSpaceConcat(l, s[0..a]);
    assert x[|l| + a] == s[a];
    SkipLeftUnique(x, 0, |l| + a);
  }

  lemma {:induction false} PaddedRightEdge(l: string, s: string, r: string)
    requires AllSpace(r) && SkipLeft(s, 0) < |s|
    ensures var a := SkipLeft(s, 0);
            SkipRight(l + s + r, |l| + a, |l + s + r|) == |l| + SkipRight(s, a, |s|)
  {
    var x := l + s + r;
    var a := SkipLeft(s, 0);
    var b := SkipRight(s, a, |s|);
    SkipLeftSpec(s, 0);
    SkipRightSpec(s, a, |s|);
    assert b > a;
    assert x[|l| + b..|x|] == s[b..|s|] + r;
    AllSpaceConcat(s[b..|s|], r);
    assert x[|l| + b - 1] == s[b - 1];
    SkipRightUnique(x, |l| + a, |x|, |l| + b);
  }

  /** Whitespace around a name does not change what it strips to. */
  lemma StripIgnoresPadding(l: string, s: string, r: string)
    requires AllSpace(l) && AllSpace(r)
    ensures Strip(l + s + r) == Strip(s)
  {
    var x := l + s + r;
    var a := SkipLeft(s, 0);
    SkipLeftSpec(s, 0);
    if a == |s| {
      assert s[0..a] == s;
      AllSpaceConcat(l, s);
      AllSpaceConcat(l + s, r);
      assert x[0..|x|] == x;
      SkipLeftUnique(x, 0, |x|);
    } else {
      PaddedLeftEdge(l, s, r);
      PaddedRightEdge(l, s, r);
      var b := SkipRight(s, a, |s|);
      assert x[|l| + a..|l| + b] == s[a..b];
    }
  }

  /** Whitespace around a name, and the case of its ASCII letters, do not affect the comparison. */
  lemma NormalizeIgnoresPadding(l: string, s: string, r: string, t: string)
    requires AllSpace(l) && AllSpace(r)
    requires Lower(s) == Lower(t)
    ensures Normalize(l + s + r) == Normalize(t)
  {
    StripIgnoresPadding(l, s, r);
    NormalizeIgnoresCase(s, t);
  }
}
