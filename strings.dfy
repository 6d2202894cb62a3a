/** The Python `str` operations the analytics rely on: `lower()`, `strip()`,
    `removeprefix`/`removesuffix`/`endswith`, the `<` order on strings and
    `sorted(set(...))` of a collection of strings. */
module Strings {

  /** The characters for which `str.isspace()` holds; `str.strip()` with no
      argument removes exactly these from both ends. */
  predicate IsSpace(c: char) {
    || ('\t' <= c <= '\r')
    || ('\U{1C}' <= c <= ' ')
    || c == '\U{85}' || c == '\U{A0}' || c == '\U{1680}'
    || ('\U{2000}' <= c <= '\U{200A}')
    || c == '\U{2028}' || c == '\U{2029}' || c == '\U{202F}' || c == '\U{205F}' || c == '\U{3000}'
  }

  predicate AllSpace(s: string) {
    forall i :: 0 <= i < |s| ==> IsSpace(s[i])
  }

  /** No whitespace at either end. */
  predicate Trimmed(s: string) {
    s == [] || (!IsSpace(s[0]) && !IsSpace(s[|s| - 1]))
  }

  predicate IsUpper(c: char) {
    'A' <= c <= 'Z' || ('\U{C0}' <= c <= '\U{DE}' && c != '\U{D7}')
  }

  /** `str.lower()` on one character, for the upper-case letters of Latin-1,
      whose lower-case forms sit 32 code points higher. */
  function LowerChar(c: char): (d: char)
    ensures !IsUpper(d)
    ensures IsSpace(d) <==> IsSpace(c)
    ensures !IsUpper(c) ==> d == c
  {
    if IsUpper(c) then (c as int + 32) as char else c
  }

  /** No character that `lower()` would change. */
  predicate NoUpper(s: string) {
    forall i :: 0 <= i < |s| ==> !IsUpper(s[i])
  }

  function Lower(s: string): (r: string)
    ensures |r| == |s| && NoUpper(r)
  {
    seq(|s|, i requires 0 <= i < |s| => LowerChar(s[i]))
  }

  /** `lower()` leaves a string without upper-case letters as it is. */
  lemma LowerNoUpper(s: string)
    requires NoUpper(s)
    ensures Lower(s) == s
  {
    forall i | 0 <= i < |s| ensures Lower(s)[i] == s[i] {
      assert !IsUpper(s[i]);
    }
  }

  /** `str.lstrip()`. */
  function StripLeft(s: string): (r: string)
    ensures |r| <= |s|
  {
    if s != [] && IsSpace(s[0]) then StripLeft(s[1..]) else s
  }

  /** `str.rstrip()`. */
  function StripRight(s: string): (r: string)
    ensures |r| <= |s|
  {
    if s != [] && IsSpace(s[|s| - 1]) then StripRight(s[..|s| - 1]) else s
  }

  /** `lstrip()` removes a whitespace prefix and stops at the first other character. */
  lemma {:induction false} StripLeftShape(s: string)
    ensures var r := StripLeft(s);
            r == s[|s| - |r|..] && AllSpace(s[..|s| - |r|]) && (r == [] || !IsSpace(r[0]))
  {
    if s != [] && IsSpace(s[0]) {
      StripLeftShape(s[1..]);
      var k := |s| - |StripLeft(s)|;
      assert s[1..][k - 1..] == s[k..];
      forall i | 0 <= i < k ensures IsSpace(s[..k][i]) {
        if i > 0 {
          assert s[..k][i] == s[1..][..k - 1][i - 1];
        }
      }
    }
  }

  /** `rstrip()` removes a whitespace suffix and stops at the last other character. */
  lemma {:induction false} StripRightShape(s: string)
    ensures var r := StripRight(s);
            r == s[..|r|] && AllSpace(s[|r|..]) && (r == [] || !IsSpace(r[|r| - 1]))
  {
    if s != [] && IsSpace(s[|s| - 1]) {
      var u := s[..|s| - 1];
      StripRightShape(u);
      var k := |StripRight(s)|;
      assert u[..k] == s[..k];
      forall i | 0 <= i < |s| - k ensures IsSpace(s[k..][i]) {
        if i < |s| - 1 - k {
          assert s[k..][i] == u[k..][i];
        }
      }
    }
  }

  /** `str.strip()`: what is left between the leading and the trailing whitespace. */
  function Strip(s: string): (r: string)
    ensures Trimmed(r)
    ensures |r| <= |s|
  {
    var t := StripLeft(s);
    StripLeftShape(s);
    StripRightShape(t);
    var r := StripRight(t);
    assert r != [] ==> r[0] == t[0];
    r
  }

  /** `strip()` cuts a whitespace prefix and a whitespace suffix, nothing else. */
  lemma StripSlice(s: string)
    ensures var a, r := |s| - |StripLeft(s)|, Strip(s);
            a + |r| <= |s| && r == s[a..a + |r|] && AllSpace(s[..a]) && AllSpace(s[a + |r|..])
  {
    var t := StripLeft(s);
    var r := StripRight(t);
    var a := |s| - |t|;
    StripLeftShape(s);
    StripRightShape(t);
    assert r == s[a..a + |r|] by {
      assert r == t[..|r|];
    }
    assert t[|r|..] == s[a + |r|..];
  }

  lemma {:induction false} StripLeftSpaces(w: string, y: string)
    requires AllSpace(w)
    ensures StripLeft(w + y) == StripLeft(y)
  {
    if w != [] {
      assert (w + y)[0] == w[0];
      assert (w + y)[1..] == w[1..] + y;
      StripLeftSpaces(w[1..], y);
    } else {
      assert w + y == y;
    }
  }

  lemma {:induction false} StripRightSpaces(y: string, w: string)
    requires AllSpace(w)
    ensures StripRight(y + w) == StripRight(y)
  {
    if w != [] {
      assert (y + w)[|y + w| - 1] == w[|w| - 1];
      assert (y + w)[..|y + w| - 1] == y + w[..|w| - 1];
      StripRightSpaces(y, w[..|w| - 1]);
    } else {
      assert y + w == y;
    }
  }

  /** Text after a string that is not all whitespace survives `lstrip()`. */
  lemma {:induction false} StripLeftAppend(x: string, w: string)
    ensures StripLeft(x) == [] ==> StripLeft(x + w) == StripLeft(w)
    ensures StripLeft(x) != [] ==> StripLeft(x + w) == StripLeft(x) + w
  {
    if x == [] {
      assert x + w == w;
    } else {
      assert (x + w)[0] == x[0];
      if IsSpace(x[0]) {
        assert (x + w)[1..] == x[1..] + w;
        StripLeftAppend(x[1..], w);
      }
    }
  }

  /** A string without surrounding whitespace is its own `strip()`. */
  lemma StripTrimmed(t: string)
    requires Trimmed(t)
    ensures Strip(t) == t
  {
    assert StripLeft(t) == t;
    assert StripRight(t) == t;
  }

  lemma StripIgnoresPadding(w1: string, x: string, w2: string)
    requires AllSpace(w1) && AllSpace(w2)
    ensures Strip(w1 + x + w2) == Strip(x)
  {
    assert w1 + x + w2 == w1 + (x + w2);
    StripLeftSpaces(w1, x + w2);
    StripLeftAppend(x, w2);
    if StripLeft(x) == [] {
      StripLeftSpaces(w2, []);
      assert w2 + [] == w2;
    } else {
      StripRightSpaces(StripLeft(x), w2);
    }
  }

  lemma LowerKeepsPadding(w1: string, v: string, w2: string)
    requires AllSpace(w1) && AllSpace(w2)
    ensures Lower(w1 + v + w2) == w1 + Lower(v) + w2
  {
    var s := w1 + v + w2;
    forall i | 0 <= i < |s| ensures Lower(s)[i] == (w1 + Lower(v) + w2)[i] {
      if i < |w1| {
        assert s[i] == w1[i];
      } else if i < |w1| + |v| {
        assert s[i] == v[i - |w1|];
      } else {
        assert s[i] == w2[i - |w1| - |v|];
      }
    }
  }

  /** The canonical form of an outcome cell: `.str.lower().str.strip()`. */
  function Normalize(s: string): string {
    Strip(Lower(s))
  }

  lemma NormalizeIdempotent(s: string)
    ensures Normalize(Normalize(s)) == Normalize(s)
  {
    var t := Normalize(s);
    var l := Lower(s);
    var a := |l| - |StripLeft(l)|;
    StripSlice(l);
    assert NoUpper(t) by {
      forall i | 0 <= i < |t| ensures !IsUpper(t[i]) {
        assert t[i] == l[a + i];
      }
    }
    LowerNoUpper(t);
    StripTrimmed(t);
  }

  /** Surrounding whitespace does not change the canonical form. */
  lemma NormalizeIgnoresPadding(w1: string, v: string, w2: string)
    requires AllSpace(w1) && AllSpace(w2)
    ensures Normalize(w1 + v + w2) == Normalize(v)
  {
    LowerKeepsPadding(w1, v, w2);
    StripIgnoresPadding(w1, Lower(v), w2);
  }

  /** Upper/lower case does not change the canonical form. */
  lemma NormalizeIgnoresCase(s: string, t: string)
    requires Lower(s) == Lower(t)
    ensures Normalize(s) == Normalize(t)
  {
  }

  /** A cell normalises to "yes" only if it is "yes" in some letter case with
      whitespace around it (the converse is the two lemmas above). */
  lemma NormalizedYes(s: string) returns (a: nat, b: nat)
    requires Normalize(s) == "yes"
    ensures a <= b <= |s| && AllSpace(s[..a]) && AllSpace(s[b..]) && Lower(s[a..b]) == "yes"
  {
    var l := Lower(s);
    a := |l| - |StripLeft(l)|;
    b := a + 3;
    StripSlice(l);
    assert Lower(s[a..b]) == l[a..b];
    forall i | 0 <= i < a ensures IsSpace(s[i]) {
      assert IsSpace(l[..a][i]);
    }
    forall i | 0 <= i < |s| - b ensures IsSpace(s[b..][i]) {
      assert IsSpace(l[b..][i]);
    }
  }

  // ---------------------------------------------------------------------
  // Prefixes and suffixes

  predicate HasPrefix(s: string, p: string) {
    |p| <= |s| && s[..|p|] == p
  }

  predicate HasSuffix(s: string, p: string) {
    |p| <= |s| && s[|s| - |p|..] == p
  }

  /** `str.removeprefix`. */
  function RemovePrefix(s: string, p: string): (r: string)
    ensures HasPrefix(s, p) ==> p + r == s
    ensures !HasPrefix(s, p) ==> r == s
  {
    if HasPrefix(s, p) then s[|p|..] else s
  }

  /** `str.removesuffix`. */
  function RemoveSuffix(s: string, p: string): (r: string)
    ensures HasSuffix(s, p) ==> r + p == s
    ensures !HasSuffix(s, p) ==> r == s
  {
    if HasSuffix(s, p) then s[..|s| - |p|] else s
  }

  // ---------------------------------------------------------------------
  // Python's order on strings and sorted(set(...))

  /** `a < b` on Python strings: code points compared left to right, a
      proper prefix before the longer string. */
  predicate LexLess(a: string, b: string)
    decreases |a|
  {
    if a == [] then b != []
    else if b == [] then false
    else if a[0] != b[0] then a[0] < b[0]
    else LexLess(a[1..], b[1..])
  }

  lemma {:induction false} LexLessIrreflexive(a: string)
    ensures !LexLess(a, a)
    decreases |a|
  {
    if a != [] {
      LexLessIrreflexive(a[1..]);
    }
  }

  lemma {:induction false} LexLessTransitive(a: string, b: string, c: string)
    requires LexLess(a, b) && LexLess(b, c)
    ensures LexLess(a, c)
    decreases |a|
  {
    if a != [] && b != [] && c != [] && a[0] == b[0] && b[0] == c[0] {
      LexLessTransitive(a[1..], b[1..], c[1..]);
    }
  }

  lemma {:induction false} LexLessTotal(a: string, b: string)
    ensures a == b || LexLess(a, b) || LexLess(b, a)
    decreases |a|
  {
    if a != [] && b != [] && a[0] == b[0] {
      LexLessTotal(a[1..], b[1..]);
      if a[1..] == b[1..] {
        assert a == [a[0]] + a[1..] && b == [b[0]] + b[1..];
      }
    }
  }

  predicate StrictlyAscending(s: seq<string>) {
    forall i, j :: 0 <= i < j < |s| ==> LexLess(s[i], s[j])
  }

  /** Inserts `x` into an ascending sequence of distinct strings, unless present. */
  function InsertDistinct(x: string, s: seq<string>): (r: seq<string>)
    requires StrictlyAscending(s)
    ensures StrictlyAscending(r)
    ensures forall y :: y in r <==> y == x || y in s
  {
    if s == [] then [x]
    else if x == s[0] then s
    else if LexLess(x, s[0]) then
      assert forall j :: 0 < j < |s| ==> LexLess(x, s[j]) by {
        forall j | 0 < j < |s| ensures LexLess(x, s[j]) {
          LexLessTransitive(x, s[0], s[j]);
        }
      }
      [x] + s
    else
      LexLessTotal(x, s[0]);
      var rest := InsertDistinct(x, s[1..]);
      assert forall y :: y in s <==> y == s[0] || y in s[1..] by {
        assert s == [s[0]] + s[1..];
      }
      assert forall j :: 0 <= j < |rest| ==> LexLess(s[0], rest[j]) by {
        forall j | 0 <= j < |rest| ensures LexLess(s[0], rest[j]) {
          assert rest[j] in rest;
          if rest[j] != x {
            var k :| 0 <= k < |s[1..]| && s[1..][k] == rest[j];
            assert LexLess(s[0], s[k + 1]);
          }
        }
      }
      [s[0]] + rest
  }

  /** `sorted(set(xs))`: the distinct strings of `xs`, ascending. */
  function SortedDistinct(xs: seq<string>): (r: seq<string>)
    ensures StrictlyAscending(r)
    ensures forall y :: y in r <==> y in xs
  {
    if xs == [] then []
    else
      assert forall y :: y in xs <==> y == xs[0] || y in xs[1..] by {
        assert xs == [xs[0]] + xs[1..];
      }
      InsertDistinct(xs[0], SortedDistinct(xs[1..]))
  }

  /** Ascending strings are pairwise distinct. */
  lemma AscendingDistinct(s: seq<string>, i: int, j: int)
    requires StrictlyAscending(s) && 0 <= i < |s| && 0 <= j < |s| && i != j
    ensures s[i] != s[j]
  {
    if s[i] == s[j] {
      LexLessIrreflexive(s[i]);
    }
  }
}
