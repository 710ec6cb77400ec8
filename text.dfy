/** The parts of Python's `str` that the service uses on provider replies:
    `strip()`, `split(sep)` and `capitalize()`, restricted to ASCII whitespace
    and ASCII letters. Every other character is neither whitespace nor a letter. */
module Text {

  /** The ASCII characters for which Python's `str.isspace()` holds:
      tab, line feed, vertical tab, form feed, carriage return, the
      information separators 0x1C-0x1F, and space. */
  predicate IsSpace(c: char) {
    var n := c as int;
    n == 32 || 9 <= n <= 13 || 28 <= n <= 31
  }

  predicate AllSpace(s: string) {
    forall i | 0 <= i < |s| :: IsSpace(s[i])
  }

  /** Neither begins nor ends with whitespace. */
  predicate IsTrimmed(s: string) {
    s == [] || (!IsSpace(s[0]) && !IsSpace(s[|s| - 1]))
  }

  // ---------------------------------------------------------------------------
  // strip()
  // ---------------------------------------------------------------------------

  /** The length of the whitespace run at the start of `s`. */
  function LeadingSpaces(s: string): (k: nat)
    ensures k <= |s| && AllSpace(s[..k])
    ensures k == |s| || !IsSpace(s[k])
  {
    if s != [] && IsSpace(s[0]) then
      var k := 1 + LeadingSpaces(s[1..]);
      assert s[..k] == [s[0]] + s[1..][..k - 1];
      k
    else 0
  }

  /** The length of the whitespace run at the end of `s`. */
  function TrailingSpaces(s: string): (k: nat)
    ensures k <= |s| && AllSpace(s[|s| - k..])
    ensures k == |s| || !IsSpace(s[|s| - k - 1])
  {
    if s != [] && IsSpace(s[|s| - 1]) then
      var init := s[..|s| - 1];
      var k := 1 + TrailingSpaces(init);
      assert s[|s| - k..] == init[|init| - (k - 1)..] + [s[|s| - 1]];
      k
    else 0
  }

  /** Python's `s.strip()`: `s` without its leading and trailing whitespace.
      The result is the slice of `s` starting after the leading whitespace,
      everything after it is whitespace, and it is itself trimmed
      (`StripUnique` shows these facts pin the result down). */
  function Strip(s: string): (r: string)
    ensures IsTrimmed(r)
    ensures LeadingSpaces(s) + |r| <= |s|
    ensures r == s[LeadingSpaces(s)..LeadingSpaces(s) + |r|]
    ensures AllSpace(s[LeadingSpaces(s) + |r|..])
  {
    var i := LeadingSpaces(s);
    var t := s[i..];
    var j := |t| - TrailingSpaces(t);
    assert s[i + j..] == t[j..];
    assert t[..j] == s[i..i + j];
    assert j > 0 ==> t[..j][0] == s[i] && t[..j][j - 1] == t[j - 1];
    t[..j]
  }

  lemma SpacesBefore(s: string, n: nat)
    requires n <= |s| && AllSpace(s[..n])
    ensures forall k | 0 <= k < n :: IsSpace(s[k])
  {
    forall k | 0 <= k < n ensures IsSpace(s[k]) { assert s[..n][k] == s[k]; }
  }

  lemma SpacesFrom(s: string, n: nat)
    requires n <= |s| && AllSpace(s[n..])
    ensures forall k | n <= k < |s| :: IsSpace(s[k])
  {
    forall k | n <= k < |s| ensures IsSpace(s[k]) { assert s[n..][k - n] == s[k]; }
  }

  /** The leading whitespace run is the only run of whitespace at the start
      that is followed by the end or by a non-space. */
  lemma {:induction false} LeadingSpacesIs(s: string, i: nat)
    requires i <= |s| && AllSpace(s[..i])
    requires i == |s| || !IsSpace(s[i])
    ensures LeadingSpaces(s) == i
  {
    if i > 0 {
      assert IsSpace(s[0]) by { assert s[..i][0] == s[0]; }
      var tail := s[1..];
      assert tail[..i - 1] == s[..i][1..];
      assert i - 1 == |tail| || tail[i - 1] == s[i];
      LeadingSpacesIs(tail, i - 1);
    }
  }

  /** The same for the trailing whitespace run. */
  lemma {:induction false} TrailingSpacesIs(s: string, k: nat)
    requires k <= |s| && AllSpace(s[|s| - k..])
    requires k == |s| || !IsSpace(s[|s| - k - 1])
    ensures TrailingSpaces(s) == k
  {
    if k > 0 {
      var n := |s|;
      assert IsSpace(s[n - 1]) by { assert s[n - k..][k - 1] == s[n - 1]; }
      var init := s[..n - 1];
      assert init[|init| - (k - 1)..] == s[n - k..][..k - 1];
      assert k - 1 == |init| || init[|init| - (k - 1) - 1] == s[n - k - 1];
      TrailingSpacesIs(init, k - 1);
    }
  }

  /** Any slice of `s` that is trimmed and is surrounded only by whitespace
      is `Strip(s)`: the specification above has exactly one solution. */
  lemma StripUnique(s: string, i: nat, j: nat)
    requires i <= j <= |s|
    requires AllSpace(s[..i]) && AllSpace(s[j..]) && IsTrimmed(s[i..j])
    ensures Strip(s) == s[i..j]
  {
    if i == j {
      SpacesBefore(s, i);
      SpacesFrom(s, j);
      assert s[..|s|] == s;
      LeadingSpacesIs(s, |s|);
      assert s[|s|..] == [];
    } else {
      assert s[i..j][0] == s[i];
      LeadingSpacesIs(s, i);
      var t := s[i..];
      assert t[j - i..] == s[j..];
      assert t[j - i - 1] == s[i..j][j - i - 1];
      TrailingSpacesIs(t, |s| - j);
      assert Strip(s) == t[..j - i] == s[i..j];
    }
  }

  /** A string without surrounding whitespace is its own strip. */
  lemma StripTrimmed(s: string)
    requires IsTrimmed(s)
    ensures Strip(s) == s
  {
    assert s[..0] == [] && s[|s|..] == [] && s[0..|s|] == s;
    StripUnique(s, 0, |s|);
  }

  /** Stripping twice is stripping once. */
  lemma StripIdempotent(s: string)
    ensures Strip(Strip(s)) == Strip(s)
  {
    StripTrimmed(Strip(s));
  }

  /** `s.strip()` is empty exactly when `s` is empty or only whitespace,
      which is the test `not request.text.strip()` relies on. */
  lemma StripEmptyIff(s: string)
    ensures Strip(s) == [] <==> AllSpace(s)
  {
    var a := LeadingSpaces(s);
    SpacesBefore(s, a);
    SpacesFrom(s, a + |Strip(s)|);
    assert AllSpace(s) ==> a == |s|;
  }

  lemma AllSpaceConcat(x: string, y: string)
    requires AllSpace(x) && AllSpace(y)
    ensures AllSpace(x + y)
  {
    forall k | 0 <= k < |x + y| ensures IsSpace((x + y)[k]) {
      if k < |x| { assert (x + y)[k] == x[k]; } else { assert (x + y)[k] == y[k - |x|]; }
    }
  }

  /** Strings that agree after their leading whitespace have the same strip. */
  lemma StripAfterLeading(s: string, x: string)
    requires s[LeadingSpaces(s)..] == x[LeadingSpaces(x)..]
    ensures Strip(s) == Strip(x)
  {
  }

  /** Whitespace added before a string does not change its strip. */
  lemma StripSpacesBefore(w: string, x: string)
    requires AllSpace(w)
    ensures Strip(w + x) == Strip(x)
  {
    var s := w + x;
    var a := LeadingSpaces(x);
    assert s[..|w| + a] == w + x[..a];
    AllSpaceConcat(w, x[..a]);
    assert s[|w| + a..] == x[a..];
    LeadingSpacesIs(s, |w| + a);
    StripAfterLeading(s, x);
  }

  /** Whitespace added after a string does not change its strip. */
  lemma StripSpacesAfter(x: string, v: string)
    requires AllSpace(v)
    ensures Strip(x + v) == Strip(x)
  {
    var s := x + v;
    var r := Strip(x);
    var a := LeadingSpaces(x);
    var b := a + |r|;
    assert s[a..b] == r by {
      assert forall k | 0 <= k < b - a :: s[a..b][k] == x[a..b][k];
    }
    assert AllSpace(s[..a]) by { assert s[..a] == x[..a]; }
    assert AllSpace(s[b..]) by {
      var after := x[b..];
      forall k | 0 <= k < |s| - b ensures IsSpace(s[b..][k]) {
        if b + k < |x| {
          assert s[b..][k] == after[k];
        } else {
          assert s[b..][k] == v[b + k - |x|];
        }
      }
    }
    StripUnique(s, a, b);
  }

  /** Whitespace added before or after a string does not change its strip. */
  lemma StripPadded(w: string, t: string, v: string)
    requires AllSpace(w) && AllSpace(v)
    ensures Strip(w + t + v) == Strip(t)
  {
    StripSpacesAfter(w + t, v);
    StripSpacesBefore(w, t);
  }

  /** Every character of `s.strip()` occurs in `s`. */
  lemma StripSubset(s: string, c: char)
    requires c in Strip(s)
    ensures c in s
  {
    var r := Strip(s);
    var a := LeadingSpaces(s);
    var k :| 0 <= k < |r| && r[k] == c;
    assert s[a + k] == c;
  }

  // ---------------------------------------------------------------------------
  // split(sep) and its inverse, sep.join(parts)
  // ---------------------------------------------------------------------------

  /** Python's `sep.join(parts)`. */
  function Join(parts: seq<string>, sep: char): string {
    if |parts| == 0 then []
    else if |parts| == 1 then parts[0]
    else parts[0] + [sep] + Join(parts[1..], sep)
  }

  /** Python's `s.split(sep)` for a one-character separator: the maximal runs
      between separators, always at least one (so `"".split(",") == [""]`). */
  function Split(s: string, sep: char): (parts: seq<string>)
    ensures |parts| >= 1
    ensures forall p | p in parts :: sep !in p
    ensures Join(parts, sep) == s
  {
    if s == [] then [[]]
    else
      var rest := Split(s[1..], sep);
      if s[0] == sep then
        assert ([[]] + rest)[1..] == rest;
        [[]] + rest
      else
        var parts := [[s[0]] + rest[0]] + rest[1..];
        assert parts[1..] == rest[1..];
        assert |rest| > 1 ==> Join(rest, sep) == rest[0] + [sep] + Join(rest[1..], sep);
        assert s == [s[0]] + s[1..];
        parts
  }

  /** A separator-free prefix of the string becomes part of the first piece. */
  lemma {:induction false} SplitPrefix(w: string, t: string, sep: char)
    requires sep !in w
    ensures Split(w + t, sep) == [w + Split(t, sep)[0]] + Split(t, sep)[1..]
  {
    if w == [] {
      assert w + t == t;
      assert w + Split(t, sep)[0] == Split(t, sep)[0];
      assert Split(t, sep) == [Split(t, sep)[0]] + Split(t, sep)[1..];
    } else {
      var s := w + t;
      assert s[1..] == w[1..] + t;
      SplitPrefix(w[1..], t, sep);
      assert [w[0]] + (w[1..] + Split(t, sep)[0]) == w + Split(t, sep)[0];
    }
  }

  /** A separator-free suffix of the string becomes part of the last piece. */
  lemma {:induction false} SplitSuffix(t: string, w: string, sep: char)
    requires sep !in w
    ensures var p := Split(t, sep);
            Split(t + w, sep) == p[..|p| - 1] + [p[|p| - 1] + w]
  {
    var p := Split(t, sep);
    if t == [] {
      assert t + w == w + [];
      SplitPrefix(w, [], sep);
    } else {
      var s := t + w;
      assert s[1..] == t[1..] + w;
      SplitSuffix(t[1..], w, sep);
      var q := Split(t[1..], sep);
      var rest := Split(s[1..], sep);
      assert rest == q[..|q| - 1] + [q[|q| - 1] + w];
      if t[0] == sep {
        assert p == [[]] + q;
        assert p[..|p| - 1] == [[]] + q[..|q| - 1];
      } else {
        assert p == [[t[0]] + q[0]] + q[1..];
        if |q| == 1 {
          assert rest == [q[0] + w];
        } else {
          assert rest[0] == q[0];
          assert p[..|p| - 1] == [[t[0]] + q[0]] + q[1..|q| - 1];
          assert rest[1..] == q[1..|q| - 1] + [q[|q| - 1] + w];
        }
      }
    }
  }

  /** Separator-free text around a string is glued to its first and last
      pieces. */
  lemma SplitPadded(w: string, m: string, v: string, sep: char)
    requires sep !in w && sep !in v
    ensures var p, full := Split(m, sep), Split(w + m + v, sep);
            && |full| == |p|
            && (|p| == 1 ==> full[0] == w + p[0] + v)
            && (|p| > 1 ==> full[0] == w + p[0] && full[|p| - 1] == p[|p| - 1] + v)
            && forall i | 0 < i < |p| - 1 :: full[i] == p[i]
  {
    var p := Split(m, sep);
    var n := |p|;
    SplitSuffix(m, v, sep);
    var q := Split(m + v, sep);
    assert q == p[..n - 1] + [p[n - 1] + v];
    assert w + m + v == w + (m + v);
    SplitPrefix(w, m + v, sep);
    var full := Split(w + m + v, sep);
    assert full == [w + q[0]] + q[1..];
    if n == 1 {
      assert q == [p[0] + v];
      assert full[0] == w + p[0] + v;
    } else {
      assert q[0] == p[0];
      assert full[0] == w + p[0];
      assert full[n - 1] == q[n - 1] == p[n - 1] + v;
      forall i | 0 < i < n - 1 ensures full[i] == p[i] {
        assert full[i] == q[i];
      }
    }
  }

  /** Splitting a join of separator-free pieces gives the pieces back:
      together with the `Join(Split(s, sep), sep) == s` clause of `Split`,
      `Split` and `Join` are inverse bijections. */
  lemma {:induction false} SplitJoin(parts: seq<string>, sep: char)
    requires |parts| >= 1
    requires forall p | p in parts :: sep !in p
    ensures Split(Join(parts, sep), sep) == parts
  {
    if |parts| == 1 {
      assert parts[0] + [] == parts[0];
      SplitPrefix(parts[0], [], sep);
    } else {
      var tail := parts[1..];
      assert forall p | p in tail :: p in parts;
      SplitJoin(tail, sep);
      var t := [sep] + Join(tail, sep);
      assert t[1..] == Join(tail, sep);
      assert Split(t, sep) == [[]] + tail;
      assert Split(t, sep)[0] == [] && Split(t, sep)[1..] == tail;
      assert Join(parts, sep) == parts[0] + t;
      SplitPrefix(parts[0], t, sep);
      assert parts[0] + [] == parts[0];
      assert parts == [parts[0]] + tail;
    }
  }

  // ---------------------------------------------------------------------------
  // capitalize()
  // ---------------------------------------------------------------------------

  predicate IsUpper(c: char) { 'A' <= c <= 'Z' }
  predicate IsLower(c: char) { 'a' <= c <= 'z' }

  function ToUpper(c: char): char {
    if IsLower(c) then (c as int - 32) as char else c
  }

  function ToLower(c: char): char {
    if IsUpper(c) then (c as int + 32) as char else c
  }

  /** Python's `s.lower()`, the case-insensitive view of a string. */
  function LowerAll(s: string): (r: string)
    ensures |r| == |s|
    ensures forall i | 0 <= i < |s| :: r[i] == ToLower(s[i])
  {
    seq(|s|, i requires 0 <= i < |s| => ToLower(s[i]))
  }

  lemma LowerAllAppend(a: string, b: string)
    ensures LowerAll(a + b) == LowerAll(a) + LowerAll(b)
  {
  }

  /** Python's `s.capitalize()`: the same letters as `s` up to case, with the
      first character upper case and every later character lower case. */
  function Capitalize(s: string): (r: string)
    ensures |r| == |s|
    ensures forall i | 0 <= i < |s| :: ToLower(r[i]) == ToLower(s[i])
    ensures r == [] || !IsLower(r[0])
    ensures forall i | 1 <= i < |r| :: !IsUpper(r[i])
  {
    if s == [] then [] else [ToUpper(s[0])] + LowerAll(s[1..])
  }

  /** Changing case never turns whitespace into anything else, or back. */
  lemma CapitalizeKeepsSpaces(s: string)
    ensures forall i | 0 <= i < |s| :: IsSpace(Capitalize(s)[i]) == IsSpace(s[i])
  {
  }

  /** Capitalizing a string without surrounding whitespace gives one, and
      keeps the string's case-insensitive view. */
  lemma CapitalizeTrimmed(s: string)
    requires IsTrimmed(s)
    ensures IsTrimmed(Capitalize(s))
    ensures LowerAll(Capitalize(s)) == LowerAll(s)
  {
    CapitalizeKeepsSpaces(s);
  }

  /** Strings that agree up to case capitalize to the same string. */
  lemma CapitalizeSameCase(x: string, y: string)
    requires LowerAll(x) == LowerAll(y)
    ensures Capitalize(x) == Capitalize(y)
  {
    var cx, cy := Capitalize(x), Capitalize(y);
    assert |x| == |y|;
    forall i | 0 <= i < |x| ensures cx[i] == cy[i] {
      assert LowerAll(x)[i] == LowerAll(y)[i];
      assert LowerAll(cx)[i] == LowerAll(cy)[i];
    }
  }

  /** Only the first character of a string is raised: what follows a
      non-empty prefix is lowered. */
  lemma CapitalizeAppend(a: string, b: string)
    requires a != []
    ensures Capitalize(a + b) == Capitalize(a) + LowerAll(b)
  {
    assert (a + b)[1..] == a[1..] + b;
    LowerAllAppend(a[1..], b);
  }

  /** Two strings capitalize to the same string exactly when they agree up
      to case. */
  lemma CapitalizeSameIff(x: string, y: string)
    ensures Capitalize(x) == Capitalize(y) <==> LowerAll(x) == LowerAll(y)
  {
    if LowerAll(x) == LowerAll(y) {
      CapitalizeSameCase(x, y);
    }
  }

  /** Capitalizing a capitalized string changes nothing. */
  lemma CapitalizeIdempotent(s: string)
    ensures Capitalize(Capitalize(s)) == Capitalize(s)
  {
    CapitalizeSameIff(Capitalize(s), s);
  }

  /** The contract of `Capitalize` pins its result down: the only string
      that agrees with `s` up to case, does not start in lower case and has
      no later upper-case letter is `Capitalize(s)`. */
  lemma CapitalizeUnique(s: string, r: string)
    requires |r| == |s|
    requires forall i | 0 <= i < |s| :: ToLower(r[i]) == ToLower(s[i])
    requires r == [] || !IsLower(r[0])
    requires forall i | 1 <= i < |r| :: !IsUpper(r[i])
    ensures r == Capitalize(s)
  {
    assert LowerAll(r) == LowerAll(s);
    CapitalizeSameCase(r, s);
    if r != [] {
      assert LowerAll(r[1..]) == r[1..];
    }
  }
}
