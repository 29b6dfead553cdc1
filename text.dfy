/**
 * The string operations the importers rely on, written after Python's
 * `str.strip`, `str.lower`, `str.upper` and `str.split`.
 * Case mapping covers ASCII letters only.
 */
module Text {

  /** The characters Python's `str.isspace` accepts, hence what `strip()` removes. */
  const Spaces: set<char> := {
    ' ', '\t', '\n', '\U{B}', '\U{C}', '\r', '\U{1C}', '\U{1D}', '\U{1E}', '\U{1F}',
    '\U{85}', '\U{A0}', '\U{1680}', '\U{2000}', '\U{2001}', '\U{2002}', '\U{2003}',
    '\U{2004}', '\U{2005}', '\U{2006}', '\U{2007}', '\U{2008}', '\U{2009}', '\U{200A}',
    '\U{2028}', '\U{2029}', '\U{202F}', '\U{205F}', '\U{3000}'
  }

  predicate IsSpace(c: char) { c in Spaces }

  predicate AllSpace(s: string) { forall i :: 0 <= i < |s| ==> IsSpace(s[i]) }

  /** A string `strip()` leaves alone: empty, or neither end is whitespace. */
  predicate IsStripped(s: string) {
    s == [] || (!IsSpace(s[0]) && !IsSpace(s[|s| - 1]))
  }

  /** `lstrip()`. */
  function StripStart(s: string): (r: string)
    ensures |r| <= |s|
    ensures r == [] || !IsSpace(r[0])
    ensures r != [] ==> r[|r| - 1] == s[|s| - 1]
    decreases |s|
  {
    if s != [] && IsSpace(s[0]) then StripStart(s[1..]) else s
  }

  /** `rstrip()`. */
  function StripEnd(s: string): (r: string)
    ensures |r| <= |s|
    ensures r == [] || !IsSpace(r[|r| - 1])
    ensures r != [] ==> r[0] == s[0]
    decreases |s|
  {
    if s != [] && IsSpace(s[|s| - 1]) then StripEnd(s[..|s| - 1]) else s
  }

  /** `strip()`. */
  function Strip(s: string): (r: string)
    ensures IsStripped(r)
    ensures |r| <= |s|
  {
    StripEnd(StripStart(s))
  }

  /** `lstrip()` removes a whitespace prefix. */
  lemma {:induction false} StripStartSplits(s: string) returns (a: string)
    ensures s == a + StripStart(s) && AllSpace(a)
    decreases |s|
  {
    if s != [] && IsSpace(s[0]) {
      var a' := StripStartSplits(s[1..]);
      a := [s[0]] + a';
      assert s == [s[0]] + s[1..];
    } else {
      a := [];
    }
  }

  /** `rstrip()` removes a whitespace suffix. */
  lemma {:induction false} StripEndSplits(s: string) returns (b: string)
    ensures s == StripEnd(s) + b && AllSpace(b)
    decreases |s|
  {
    if s != [] && IsSpace(s[|s| - 1]) {
      var b' := StripEndSplits(s[..|s| - 1]);
      b := b' + [s[|s| - 1]];
      assert s == s[..|s| - 1] + [s[|s| - 1]];
    } else {
      b := [];
    }
  }

  /** `strip()` keeps the middle of the text: what lies around it is whitespace. */
  lemma StripSplits(s: string) returns (a: string, b: string)
    ensures s == a + Strip(s) + b && AllSpace(a) && AllSpace(b)
  {
    a := StripStartSplits(s);
    var t := StripStart(s);
    b := StripEndSplits(t);
    assert t == Strip(s) + b;
    assert s == a + (Strip(s) + b);
  }

  /** A string that is already stripped is its own `strip()`. */
  lemma StripStripped(s: string)
    requires IsStripped(s)
    ensures Strip(s) == s
  {
  }

  /** `strip()` is idempotent. */
  lemma StripIdempotent(s: string)
    ensures Strip(Strip(s)) == Strip(s)
  {
    StripStripped(Strip(s));
  }

  /** Leading whitespace is all `lstrip()` drops. */
  lemma {:induction false} LeadingPadding(a: string, s: string)
    requires AllSpace(a)
    requires s == [] || !IsSpace(s[0])
    ensures StripStart(a + s) == s
    decreases |a|
  {
    if a != [] {
      assert (a + s)[1..] == a[1..] + s;
      LeadingPadding(a[1..], s);
    } else {
      assert a + s == s;
    }
  }

  /** Trailing whitespace is all `rstrip()` drops. */
  lemma {:induction false} TrailingPadding(s: string, b: string)
    requires AllSpace(b)
    requires s == [] || !IsSpace(s[|s| - 1])
    ensures StripEnd(s + b) == s
    decreases |b|
  {
    if b != [] {
      assert (s + b)[..|s + b| - 1] == s + b[..|b| - 1];
      TrailingPadding(s, b[..|b| - 1]);
    } else {
      assert s + b == s;
    }
  }

  /** Whitespace around a stripped string is all `strip()` removes. */
  lemma StripPadding(a: string, s: string, b: string)
    requires AllSpace(a) && AllSpace(b) && IsStripped(s)
    ensures Strip(a + s + b) == s
  {
    if s == [] {
      assert a + s + b == a + b;
      LeadingPadding(a + b, []);
      assert a + b + [] == a + b;
    } else {
      assert a + s + b == a + (s + b);
      LeadingPadding(a, s + b);
      TrailingPadding(s, b);
    }
  }

  function LowerChar(c: char): char {
    if 'A' <= c <= 'Z' then (c as int - 'A' as int + 'a' as int) as char else c
  }

  function UpperChar(c: char): char {
    if 'a' <= c <= 'z' then (c as int - 'a' as int + 'A' as int) as char else c
  }

  /** `lower()` on ASCII letters. */
  function Lower(s: string): (r: string)
    ensures |r| == |s|
    ensures forall i :: 0 <= i < |s| ==> r[i] == LowerChar(s[i])
  {
    seq(|s|, i requires 0 <= i < |s| => LowerChar(s[i]))
  }

  /** `upper()` on ASCII letters. */
  function Upper(s: string): (r: string)
    ensures |r| == |s|
    ensures forall i :: 0 <= i < |s| ==> r[i] == UpperChar(s[i])
  {
    seq(|s|, i requires 0 <= i < |s| => UpperChar(s[i]))
  }

  /** Upper-casing first loses nothing a later lower-casing would keep. */
  lemma LowerOfUpper(s: string)
    ensures Lower(Upper(s)) == Lower(s)
  {
  }

  /** Case mapping never turns a whitespace character into another one or back. */
  lemma UpperKeepsSpaces(s: string)
    ensures forall i :: 0 <= i < |s| ==> (IsSpace(Upper(s)[i]) <==> IsSpace(s[i]))
  {
  }

  /** Whitespace padding survives upper-casing and is then stripped again. */
  lemma StripUpperPadded(a: string, w: string, b: string)
    requires AllSpace(a) && AllSpace(b) && IsStripped(Upper(w))
    ensures Strip(Upper(a + w + b)) == Upper(w)
  {
    assert Upper(a + w + b) == Upper(a) + Upper(w) + Upper(b);
    UpperKeepsSpaces(a);
    UpperKeepsSpaces(b);
    StripPadding(Upper(a), Upper(w), Upper(b));
  }

  /** `sep in s` for a one-character separator. */
  predicate Contains(s: string, c: char) { c in s }

  /**
   * `s.split(sep)` when every character of `seps` is a separator of its own:
   * `seps == {c}` is Python's `s.split(c)`, `seps == {';', ','}` is
   * `re.split("[;,]", s)`. Empty pieces are kept.
   */
  function SplitChars(s: string, seps: set<char>): (r: seq<string>)
    ensures |r| >= 1
    ensures forall i :: 0 <= i < |r| ==> forall c :: c in seps ==> c !in r[i]
    decreases |s|
  {
    if s == [] then [""]
    else
      var rest := SplitChars(s[1..], seps);
      if s[0] in seps then [""] + rest
      else [[s[0]] + rest[0]] + rest[1..]
  }

  /** `c.join(parts)`. */
  function JoinChar(parts: seq<string>, c: char): string
    requires |parts| >= 1
    decreases |parts|
  {
    if |parts| == 1 then parts[0] else parts[0] + [c] + JoinChar(parts[1..], c)
  }

  /** Parts joined by one separator character each: `cs[i]` stands between `parts[i]` and `parts[i + 1]`. */
  function JoinSeps(parts: seq<string>, cs: seq<char>): string
    requires |parts| >= 1 && |cs| == |parts| - 1
    decreases |parts|
  {
    if |parts| == 1 then parts[0] else parts[0] + [cs[0]] + JoinSeps(parts[1..], cs[1..])
  }

  /** Joining separator-free parts with any separators of the set and splitting again gives the parts back. */
  lemma {:induction false} SplitJoinSeps(parts: seq<string>, cs: seq<char>, seps: set<char>)
    requires |parts| >= 1 && |cs| == |parts| - 1
    requires forall i :: 0 <= i < |cs| ==> cs[i] in seps
    requires forall i, x :: 0 <= i < |parts| && x in seps ==> x !in parts[i]
    ensures SplitChars(JoinSeps(parts, cs), seps) == parts
    decreases |parts|
  {
    if |parts| == 1 {
      SplitCharsNoSeparator(parts[0], seps);
    } else {
      SplitJoinSeps(parts[1..], cs[1..], seps);
      SplitCharsPrefix(parts[0], cs[0], JoinSeps(parts[1..], cs[1..]), seps);
      assert [parts[0]] + parts[1..] == parts;
    }
  }

  /** Text free of separators in front of a split lengthens its first piece only. */
  lemma {:induction false} SplitCharsPrepend(a: string, t: string, seps: set<char>)
    requires forall x :: x in seps ==> x !in a
    ensures SplitChars(a + t, seps) == [a + SplitChars(t, seps)[0]] + SplitChars(t, seps)[1..]
    decreases |a|
  {
    var p := SplitChars(t, seps);
    if a == [] {
      assert a + t == t;
      assert a + p[0] == p[0];
      assert [a + p[0]] + p[1..] == p;
    } else {
      var u := a[1..] + t;
      assert a + t == [a[0]] + u;
      assert a[0] !in seps by { assert a[0] in a; }
      assert forall x :: x in seps ==> x !in a[1..] by { assert forall x :: x in a[1..] ==> x in a; }
      hide *;
      SplitCharsPrepend(a[1..], t, seps);
      SplitCharsCons(a[0], u, seps);
      assert [a[0]] + (a[1..] + p[0]) == a + p[0];
    }
  }

  /** A leading character that is not a separator joins the first piece. */
  lemma SplitCharsCons(c: char, u: string, seps: set<char>)
    requires c !in seps
    ensures SplitChars([c] + u, seps) == [[c] + SplitChars(u, seps)[0]] + SplitChars(u, seps)[1..]
  {
    assert ([c] + u)[1..] == u;
  }

  /** Text free of separators after a split lengthens its last piece only. */
  lemma {:induction false} SplitCharsAppend(t: string, b: string, seps: set<char>)
    requires forall x :: x in seps ==> x !in b
    ensures var p := SplitChars(t, seps);
      SplitChars(t + b, seps) == p[..|p| - 1] + [p[|p| - 1] + b]
    decreases |t|
  {
    if t == [] {
      SplitCharsNoSeparator(b, seps);
      assert t + b == b;
    } else {
      var u := t + b;
      assert u[1..] == t[1..] + b && u[0] == t[0];
      SplitCharsAppend(t[1..], b, seps);
      SplitCharsAppendStep(t, b, seps, SplitChars(t[1..], seps), SplitChars(u[1..], seps));
    }
  }

  /** One step of `SplitCharsAppend`, once the pieces of the tails are known. */
  lemma SplitCharsAppendStep(t: string, b: string, seps: set<char>, q: seq<string>, r: seq<string>)
    requires t != [] && |q| >= 1
    requires q == SplitChars(t[1..], seps) && r == SplitChars((t + b)[1..], seps)
    requires (t + b)[0] == t[0]
    requires r == q[..|q| - 1] + [q[|q| - 1] + b]
    ensures var p := SplitChars(t, seps);
      SplitChars(t + b, seps) == p[..|p| - 1] + [p[|p| - 1] + b]
  {
    var p := SplitChars(t, seps);
    if t[0] in seps {
      assert p == [""] + q;
      assert SplitChars(t + b, seps) == [""] + r;
    } else {
      assert p == [[t[0]] + q[0]] + q[1..];
      assert SplitChars(t + b, seps) == [[t[0]] + r[0]] + r[1..];
      hide *;
      AppendToFirstPiece(t[0], b, q, r, p);
    }
  }

  /** The sequence arithmetic behind a step that lengthens the first piece. */
  lemma AppendToFirstPiece(c: char, b: string, q: seq<string>, r: seq<string>, p: seq<string>)
    requires |q| >= 1
    requires r == q[..|q| - 1] + [q[|q| - 1] + b]
    requires p == [[c] + q[0]] + q[1..]
    ensures [[c] + r[0]] + r[1..] == p[..|p| - 1] + [p[|p| - 1] + b]
  {
    if |q| == 1 {
      assert r == [q[0] + b];
      assert [c] + (q[0] + b) == ([c] + q[0]) + b;
    } else {
      assert r[0] == q[0];
      assert r[1..] == q[1..|q| - 1] + [q[|q| - 1] + b];
      assert p[..|p| - 1] == [[c] + q[0]] + q[1..|q| - 1];
      assert p[|p| - 1] == q[|q| - 1];
    }
  }

  /** Whitespace around a text is dropped with the text's own padding. */
  lemma StripAround(a: string, x: string, b: string)
    requires AllSpace(a) && AllSpace(b)
    ensures Strip(a + x + b) == Strip(x)
  {
    var a', b' := StripSplits(x);
    var t := Strip(x);
    assert a + x + b == (a + a') + t + (b' + b);
    hide *;
    AllSpaceAppend(a, a');
    AllSpaceAppend(b', b);
    StripPadding(a + a', t, b' + b);
  }

  lemma AllSpaceAppend(u: string, v: string)
    requires AllSpace(u) && AllSpace(v)
    ensures AllSpace(u + v)
  {
  }

  lemma AllSpaceEmpty()
    ensures AllSpace("")
  {
  }

  /**
   * Stripping a text before splitting it on separators that are not
   * whitespace changes no piece once the pieces are stripped in turn.
   */
  lemma StripBeforeSplit(s: string, seps: set<char>)
    requires forall x :: x in seps ==> !IsSpace(x)
    ensures |SplitChars(Strip(s), seps)| == |SplitChars(s, seps)|
    ensures forall k :: 0 <= k < |SplitChars(s, seps)| ==>
      Strip(SplitChars(Strip(s), seps)[k]) == Strip(SplitChars(s, seps)[k])
  {
    hide *;
    var a, b := StripSplits(s);
    var t := Strip(s);
    SpacesAvoid(a, seps);
    SpacesAvoid(b, seps);
    SplitCharsAppend(t, b, seps);
    SplitCharsPrepend(a, t + b, seps);
    assert s == a + (t + b);
    var p := SplitChars(t, seps);
    var q := SplitChars(s, seps);
    PaddedPieces(a, b, p, SplitChars(t + b, seps), q);
    AllSpaceEmpty();
    forall k | 0 <= k < |p| ensures Strip(p[k]) == Strip(q[k]) {
      StripAround(if k == 0 then a else "", p[k], if k == |p| - 1 then b else "");
    }
  }

  /** Whitespace holds none of a set of characters that are not whitespace. */
  lemma SpacesAvoid(a: string, seps: set<char>)
    requires AllSpace(a)
    requires forall x :: x in seps ==> !IsSpace(x)
    ensures forall x :: x in seps ==> x !in a
  {
  }

  /** Padding the first piece in front and the last piece behind, as a split of padded text does. */
  lemma PaddedPieces(a: string, b: string, p: seq<string>, m: seq<string>, q: seq<string>)
    requires |p| >= 1
    requires m == p[..|p| - 1] + [p[|p| - 1] + b]
    requires q == [a + m[0]] + m[1..]
    ensures |q| == |p|
    ensures forall k :: 0 <= k < |p| ==>
      q[k] == (if k == 0 then a else "") + p[k] + (if k == |p| - 1 then b else "")
  {
  }

  /** A character that is not whitespace is in a text exactly when it is in its `strip()`. */
  lemma StripKeepsChar(s: string, c: char)
    requires !IsSpace(c)
    ensures c in Strip(s) <==> c in s
  {
    var a, b := StripSplits(s);
    assert c !in a && c !in b;
  }

  /** Splitting on one separator and joining back restores the text. */
  lemma {:induction false} JoinSplitChar(s: string, c: char)
    ensures JoinChar(SplitChars(s, {c}), c) == s
    decreases |s|
  {
    if s != [] {
      var rest := SplitChars(s[1..], {c});
      JoinSplitChar(s[1..], c);
      if s[0] == c {
        assert SplitChars(s, {c}) == [""] + rest;
        assert ([""] + rest)[1..] == rest;
        assert s == [c] + s[1..];
      } else {
        var r := SplitChars(s, {c});
        assert r == [[s[0]] + rest[0]] + rest[1..];
        if |rest| == 1 {
          assert s == [s[0]] + s[1..];
        } else {
          assert r[1..] == rest[1..];
          assert JoinChar(rest, c) == rest[0] + [c] + JoinChar(rest[1..], c);
          assert s == [s[0]] + s[1..];
        }
      }
    }
  }

  /** A piece free of every separator comes back whole from the split. */
  lemma {:induction false} SplitCharsPrefix(p: string, c: char, rest: string, seps: set<char>)
    requires c in seps
    requires forall x :: x in seps ==> x !in p
    ensures SplitChars(p + [c] + rest, seps) == [p] + SplitChars(rest, seps)
    decreases |p|
  {
    if p == [] {
      assert p + [c] + rest == [c] + rest;
      assert ([c] + rest)[1..] == rest;
    } else {
      assert p[0] in p;
      SplitCharsPrefix(p[1..], c, rest, seps);
      assert (p + [c] + rest)[1..] == p[1..] + [c] + rest;
      assert [p[0]] + p[1..] == p;
    }
  }

  lemma SplitCharsNoSeparator(s: string, seps: set<char>)
    requires forall x :: x in seps ==> x !in s
    ensures SplitChars(s, seps) == [s]
    decreases |s|
  {
    if s != [] {
      assert s[0] in s;
      SplitCharsNoSeparator(s[1..], seps);
      assert [s[0]] + s[1..] == s;
    }
  }

  /** Joining stripped non-empty parts gives a stripped text. */
  lemma {:induction false} JoinCharStripped(parts: seq<string>, c: char)
    requires |parts| >= 1 && !IsSpace(c)
    requires forall i :: 0 <= i < |parts| ==> parts[i] != "" && IsStripped(parts[i])
    ensures var j := JoinChar(parts, c); j != [] && j[0] == parts[0][0] && j[|j| - 1] == parts[|parts| - 1][|parts[|parts| - 1]| - 1]
    decreases |parts|
  {
    if |parts| > 1 {
      JoinCharStripped(parts[1..], c);
    }
  }

  /** Joining separator-free parts and splitting again gives the parts back. */
  lemma {:induction false} SplitJoinChar(parts: seq<string>, c: char, seps: set<char>)
    requires |parts| >= 1 && c in seps
    requires forall i, x :: 0 <= i < |parts| && x in seps ==> x !in parts[i]
    ensures SplitChars(JoinChar(parts, c), seps) == parts
    decreases |parts|
  {
    if |parts| == 1 {
      SplitCharsNoSeparator(parts[0], seps);
    } else {
      SplitJoinChar(parts[1..], c, seps);
      SplitCharsPrefix(parts[0], c, JoinChar(parts[1..], c), seps);
      assert [parts[0]] + parts[1..] == parts;
    }
  }

  /**
   * `s.split(sep)` for a separator of any positive length: occurrences are
   * taken leftmost first and never overlap, as Python does.
   */
  function SplitStr(s: string, sep: string): (r: seq<string>)
    requires |sep| > 0
    ensures |r| >= 1
    ensures r[0] <= s
    ensures forall k: nat :: k < |r[0]| ==> !SepAt(s, sep, k)
    ensures forall i :: 0 <= i < |r| ==> !HasInfix(r[i], sep)
    decreases |s|
  {
    if |s| < |sep| then [s]
    else if s[..|sep|] == sep then [""] + SplitStr(s[|sep|..], sep)
    else
      var rest := SplitStr(s[1..], sep);
      FirstCutExtends(s, sep, rest[0]);
      [[s[0]] + rest[0]] + rest[1..]
  }

  /**
   * The cuts are made left to right: a text with no cut is one part, and
   * otherwise the first part is followed by `sep` and the rest is the split
   * of what follows that `sep`.
   */
  lemma {:induction false} SplitStrCuts(s: string, sep: string)
    requires |sep| > 0
    ensures var r := SplitStr(s, sep);
      (|r| == 1 ==> r[0] == s) &&
      (|r| > 1 ==> SepAt(s, sep, |r[0]|) && r[1..] == SplitStr(s[|r[0]| + |sep|..], sep))
    decreases |s|
  {
    if |s| >= |sep| && s[..|sep|] != sep {
      var rest := SplitStr(s[1..], sep);
      SplitStrCuts(s[1..], sep);
      var r := SplitStr(s, sep);
      assert r == [[s[0]] + rest[0]] + rest[1..];
      if |rest| == 1 {
        assert [s[0]] + s[1..] == s;
      } else {
        var k := |rest[0]|;
        SliceShift(s, k + |sep|);
        SepAtShift(s, sep, k);
        assert r[1..] == rest[1..];
      }
    }
  }

  lemma SliceShift(s: string, m: nat)
    requires 1 + m <= |s|
    ensures s[1..][m..] == s[1 + m..]
  {
  }

  lemma SepAtShift(s: string, sep: string, k: nat)
    requires |s| > 0 && SepAt(s[1..], sep, k)
    ensures SepAt(s, sep, k + 1)
  {
    assert s[1..][k..k + |sep|] == s[k + 1..k + 1 + |sep|];
  }

  /** `sep` occurs in `s` at index `k`. */
  predicate SepAt(s: string, sep: string, k: nat) {
    k + |sep| <= |s| && s[k..k + |sep|] == sep
  }

  /** `sep in s` for a separator string. */
  ghost predicate HasInfix(s: string, sep: string) {
    exists k: nat :: SepAt(s, sep, k)
  }

  /** An occurrence in a prefix is an occurrence in the whole text. */
  lemma SepAtPrefix(f: string, s: string, sep: string, k: nat)
    requires f <= s && SepAt(f, sep, k)
    ensures SepAt(s, sep, k)
  {
    assert f[k..k + |sep|] == s[k..k + |sep|];
  }

  /**
   * When `s` does not start with `sep`, putting its first character in front
   * of a first piece cut from `s[1..]` before any occurrence of `sep` gives a
   * first piece cut from `s` before any occurrence.
   */
  lemma FirstCutExtends(s: string, sep: string, t: string)
    requires |sep| > 0 && |s| >= |sep| && s[..|sep|] != sep
    requires t <= s[1..]
    requires forall k: nat :: k < |t| ==> !SepAt(s[1..], sep, k)
    ensures [s[0]] + t <= s
    ensures forall k: nat :: k < |t| + 1 ==> !SepAt(s, sep, k)
    ensures !HasInfix([s[0]] + t, sep)
  {
    var f := [s[0]] + t;
    assert f == s[..|f|];
    forall k: nat | k < |f| ensures !SepAt(s, sep, k) {
      if k > 0 && k + |sep| <= |s| {
        assert s[k..k + |sep|] == s[1..][k - 1..k - 1 + |sep|];
        assert !SepAt(s[1..], sep, k - 1);
      }
    }
    if HasInfix(f, sep) {
      var k: nat :| SepAt(f, sep, k);
      SepAtPrefix(f, s, sep, k);
    }
  }

  /** `sep.join(parts)`. */
  function JoinStr(parts: seq<string>, sep: string): string
    requires |parts| >= 1
    decreases |parts|
  {
    if |parts| == 1 then parts[0] else parts[0] + sep + JoinStr(parts[1..], sep)
  }

  /** Splitting on a separator string and joining back restores the text. */
  lemma {:induction false} JoinSplitStr(s: string, sep: string)
    requires |sep| > 0
    ensures JoinStr(SplitStr(s, sep), sep) == s
    decreases |s|
  {
    if |s| < |sep| {
    } else if s[..|sep|] == sep {
      JoinSplitStr(s[|sep|..], sep);
      JoinSplitStrAtSeparator(s, sep);
    } else {
      JoinSplitStr(s[1..], sep);
      JoinSplitStrAtChar(s, sep);
    }
  }

  lemma JoinSplitStrAtSeparator(s: string, sep: string)
    requires |sep| > 0 && |s| >= |sep| && s[..|sep|] == sep
    requires JoinStr(SplitStr(s[|sep|..], sep), sep) == s[|sep|..]
    ensures JoinStr(SplitStr(s, sep), sep) == s
  {
    hide *;
    SplitStrAtSeparator(s, sep);
    JoinStrConsEmpty(SplitStr(s[|sep|..], sep), sep);
    assert s == s[..|sep|] + s[|sep|..];
  }

  lemma SplitStrAtSeparator(s: string, sep: string)
    requires |sep| > 0 && |s| >= |sep| && s[..|sep|] == sep
    ensures SplitStr(s, sep) == [""] + SplitStr(s[|sep|..], sep)
  {
  }

  /** An empty first part contributes only the separator to the joined text. */
  lemma JoinStrConsEmpty(parts: seq<string>, sep: string)
    requires |parts| >= 1
    ensures JoinStr([""] + parts, sep) == sep + JoinStr(parts, sep)
  {
    var q := [""] + parts;
    assert q[1..] == parts;
  }

  lemma JoinSplitStrAtChar(s: string, sep: string)
    requires |sep| > 0 && |s| >= |sep| && s[..|sep|] != sep
    requires JoinStr(SplitStr(s[1..], sep), sep) == s[1..]
    ensures JoinStr(SplitStr(s, sep), sep) == s
  {
    var rest := SplitStr(s[1..], sep);
    assert SplitStr(s, sep) == [[s[0]] + rest[0]] + rest[1..];
    JoinStrConsChar(s[0], rest, sep);
    assert s == [s[0]] + s[1..];
  }

  /** Gluing a character onto the first part glues it onto the joined text. */
  lemma JoinStrConsChar(c: char, parts: seq<string>, sep: string)
    requires |parts| >= 1
    ensures JoinStr([[c] + parts[0]] + parts[1..], sep) == [c] + JoinStr(parts, sep)
  {
    var q := [[c] + parts[0]] + parts[1..];
    if |parts| > 1 {
      assert q[1..] == parts[1..];
    }
  }

  /** A piece that does not start a separator anywhere comes back whole from the split. */
  lemma {:induction false} SplitStrPrefix(p: string, sep: string, rest: string)
    requires |sep| > 0 && sep[0] !in p
    ensures SplitStr(p + sep + rest, sep) == [p] + SplitStr(rest, sep)
    decreases |p|
  {
    var s := p + sep + rest;
    if p == [] {
      assert s == sep + rest && s[..|sep|] == sep && s[|sep|..] == rest;
    } else {
      assert p[0] in p;
      assert s[..|sep|] != sep by { assert s[0] == p[0]; }
      SplitStrPrefix(p[1..], sep, rest);
      assert s[1..] == p[1..] + sep + rest;
      assert [p[0]] + p[1..] == p;
    }
  }

  lemma SplitStrNoSeparator(s: string, sep: string)
    requires |sep| > 0 && sep[0] !in s
    ensures SplitStr(s, sep) == [s]
    decreases |s|
  {
    if |s| >= |sep| {
      assert s[0] in s;
      assert s[..|sep|] != sep by { assert s[..|sep|][0] == s[0]; }
      SplitStrNoSeparator(s[1..], sep);
      assert [s[0]] + s[1..] == s;
    }
  }

  /** Joining parts that never contain the separator's first character and splitting again gives the parts back. */
  lemma {:induction false} SplitJoinStr(parts: seq<string>, sep: string)
    requires |parts| >= 1 && |sep| > 0
    requires forall i :: 0 <= i < |parts| ==> sep[0] !in parts[i]
    ensures SplitStr(JoinStr(parts, sep), sep) == parts
    decreases |parts|
  {
    if |parts| == 1 {
      SplitStrNoSeparator(parts[0], sep);
    } else {
      SplitJoinStr(parts[1..], sep);
      SplitStrPrefix(parts[0], sep, JoinStr(parts[1..], sep));
      assert [parts[0]] + parts[1..] == parts;
    }
  }
}
