/** The three operations on Python strings that the chat state machine relies on:
    `str.lower()`, `str.strip()` with no argument, and the substring test `pat in s`.
    Strings are sequences of Unicode scalar values. */
module PyStr {

  /** Python's `str.isspace` for one character: the characters `str.strip()` removes
      when called without an argument. */
  predicate IsSpace(c: char)
    ensures IsSpace(c) ==> !('!' <= c <= '~')
  {
    var n := c as int;
    (9 <= n <= 13) || (28 <= n <= 32) || n == 0x85 || n == 0xA0 || n == 0x1680
    || (0x2000 <= n <= 0x200A) || n == 0x2028 || n == 0x2029 || n == 0x202F
    || n == 0x205F || n == 0x3000
  }

  predicate AllSpace(s: string) {
    forall i :: 0 <= i < |s| ==> IsSpace(s[i])
  }

  /** Neither end of `s` is whitespace (vacuously so for the empty string). */
  predicate Trimmed(s: string) {
    s == [] || (!IsSpace(s[0]) && !IsSpace(s[|s| - 1]))
  }

  /** `s` is `core` with whitespace added on either side. */
  ghost predicate Padded(s: string, core: string) {
    exists p, q :: AllSpace(p) && AllSpace(q) && s == p + core + q
  }

  /** `pat` occurs in `s` starting at index `i`. */
  ghost predicate OccursAt(s: string, pat: string, i: int) {
    0 <= i <= |s| - |pat| && s[i..i + |pat|] == pat
  }

  // ---------------------------------------------------------------------------
  // str.lower
  // ---------------------------------------------------------------------------

  /** Lower-casing of one character, over ASCII letters. */
  function LowerChar(c: char): (d: char)
    ensures !('A' <= d <= 'Z')
    ensures 'A' <= c <= 'Z' ==> d as int == c as int + 32
    ensures d == c || 'A' <= c <= 'Z'
    ensures IsSpace(d) == IsSpace(c)
  {
    if 'A' <= c <= 'Z' then (c as int + 32) as char else c
  }

  /** `a` and `b` are the same letter in either case, or the same character. */
  predicate SameLetterUpToCase(a: char, b: char) {
    a == b
    || ('A' <= a <= 'Z' && b as int == a as int + 32)
    || ('A' <= b <= 'Z' && a as int == b as int + 32)
  }

  /** `s` and `t` differ at most in the case of ASCII letters. */
  predicate SameUpToCase(s: string, t: string) {
    |s| == |t| && forall i :: 0 <= i < |s| ==> SameLetterUpToCase(s[i], t[i])
  }

  /** `s.lower()`: every character is lower-cased and the length is kept. */
  function Lower(s: string): (r: string)
    ensures |r| == |s|
    ensures forall i :: 0 <= i < |s| ==> r[i] == LowerChar(s[i])
  {
    if s == [] then [] else [LowerChar(s[0])] + Lower(s[1..])
  }

  lemma LowerAppend(a: string, b: string)
    ensures Lower(a + b) == Lower(a) + Lower(b)
  {
    assert forall i :: 0 <= i < |a + b| ==> Lower(a + b)[i] == (Lower(a) + Lower(b))[i];
  }

  /** Lower-casing changes no whitespace character. */
  lemma LowerOfSpace(s: string)
    requires AllSpace(s)
    ensures Lower(s) == s
  {
    assert forall i :: 0 <= i < |s| ==> Lower(s)[i] == s[i];
  }

  /** Lower-casing a message with whitespace around it lower-cases only the message. */
  lemma LowerPadded(p: string, m: string, q: string)
    requires AllSpace(p) && AllSpace(q)
    ensures Lower(p + m + q) == p + Lower(m) + q
  {
    LowerAppend(p + m, q);
    LowerAppend(p, m);
    LowerOfSpace(p);
    LowerOfSpace(q);
  }

  /** A lower-cased string is left alone by a second `lower()`. */
  lemma LowerIdempotent(s: string)
    ensures Lower(Lower(s)) == Lower(s)
  {
    assert forall i :: 0 <= i < |s| ==> Lower(Lower(s))[i] == Lower(s)[i];
  }

  // ---------------------------------------------------------------------------
  // str.strip
  // ---------------------------------------------------------------------------

  /** The number of whitespace characters at the front of `s`. */
  function LeadingSpaces(s: string): (k: nat)
    ensures k <= |s|
    ensures forall i :: 0 <= i < k ==> IsSpace(s[i])
    ensures k < |s| ==> !IsSpace(s[k])
  {
    if s == [] || !IsSpace(s[0]) then 0 else 1 + LeadingSpaces(s[1..])
  }

  /** The number of whitespace characters at the back of `s`. */
  function TrailingSpaces(s: string): (k: nat)
    ensures k <= |s|
    ensures forall i :: |s| - k <= i < |s| ==> IsSpace(s[i])
    ensures k < |s| ==> !IsSpace(s[|s| - 1 - k])
  {
    if s == [] || !IsSpace(s[|s| - 1]) then 0 else 1 + TrailingSpaces(s[..|s| - 1])
  }

  /** Where the stripped part of `s` begins. */
  function StripStart(s: string): nat {
    LeadingSpaces(s)
  }

  /** Where the stripped part of `s` ends (exclusive). */
  function StripEnd(s: string): nat {
    if LeadingSpaces(s) == |s| then |s| else |s| - TrailingSpaces(s)
  }

  /** The margins cut off by stripping are whitespace, and what is kept begins and
      ends with a character that is not. */
  lemma StripMargins(s: string)
    ensures StripStart(s) <= StripEnd(s) <= |s|
    ensures forall i :: 0 <= i < StripStart(s) ==> IsSpace(s[i])
    ensures forall i :: StripEnd(s) <= i < |s| ==> IsSpace(s[i])
    ensures StripStart(s) < StripEnd(s) ==> !IsSpace(s[StripStart(s)]) && !IsSpace(s[StripEnd(s) - 1])
  {
    var a := LeadingSpaces(s);
    if a < |s| {
      assert !IsSpace(s[a]);
    }
  }

  /** The pieces `s.strip()` cuts `s` into: whitespace, the kept part, whitespace. */
  lemma StripPieces(s: string)
    ensures StripStart(s) <= StripEnd(s) <= |s|
    ensures AllSpace(s[..StripStart(s)]) && AllSpace(s[StripEnd(s)..])
    ensures Trimmed(s[StripStart(s)..StripEnd(s)])
    ensures s == s[..StripStart(s)] + s[StripStart(s)..StripEnd(s)] + s[StripEnd(s)..]
  {
    StripMargins(s);
  }

  /** `s.strip()`: what is kept has no whitespace at either end. */
  function Strip(s: string): (r: string)
    ensures Trimmed(r)
    ensures |r| <= |s|
  {
    StripPieces(s);
    s[StripStart(s)..StripEnd(s)]
  }

  /** `s` is `s.strip()` with whitespace added on either side. */
  lemma StripCutsPadding(s: string)
    ensures Padded(s, Strip(s))
  {
    StripPieces(s);
    var a, b := StripStart(s), StripEnd(s);
    assert s == s[..a] + Strip(s) + s[b..];
  }

  /** Stripping is determined by its two properties: a trimmed string padded with
      whitespace strips back to itself. */
  lemma StripPadded(p: string, core: string, q: string)
    requires AllSpace(p) && AllSpace(q) && Trimmed(core)
    ensures Strip(p + core + q) == core
  {
    var s := p + core + q;
    assert forall i :: 0 <= i < |p| ==> s[i] == p[i];
    assert forall i :: |p| + |core| <= i < |s| ==> s[i] == q[i - |p| - |core|];
    if core != [] {
      assert s[|p|] == core[0];
      assert s[|s| - 1 - |q|] == core[|core| - 1];
      assert LeadingSpaces(s) == |p|;
      assert TrailingSpaces(s) == |q|;
      assert s[|p|..|s| - |q|] == core;
    }
  }

  /** Extra whitespace around a string does not change what stripping keeps. */
  lemma {:induction false} StripIgnoresPadding(p: string, s: string, q: string)
    requires AllSpace(p) && AllSpace(q)
    ensures Strip(p + s + q) == Strip(s)
  {
    StripPieces(s);
    var a, b := StripStart(s), StripEnd(s);
    var p', core, q' := s[..a], s[a..b], s[b..];
    AllSpaceAppend(p, p');
    AllSpaceAppend(q', q);
    assert p + s + q == (p + p') + core + (q' + q) by {
      assert s == p' + core + q';
    }
    StripPadded(p + p', core, q' + q);
  }

  lemma AllSpaceAppend(p: string, q: string)
    requires AllSpace(p) && AllSpace(q)
    ensures AllSpace(p + q)
  {
    assert forall i :: 0 <= i < |p| ==> (p + q)[i] == p[i];
    assert forall i :: |p| <= i < |p + q| ==> (p + q)[i] == q[i - |p|];
  }

  /** Stripping a stripped string changes nothing. */
  lemma StripIdempotent(s: string)
    ensures Strip(Strip(s)) == Strip(s)
  {
    StripPadded([], Strip(s), []);
    assert [] + Strip(s) + [] == Strip(s);
  }

  /** Lower-casing and stripping commute, since lower-casing maps whitespace to
      whitespace and nothing else to whitespace. */
  lemma StripLowerCommute(s: string)
    ensures Strip(Lower(s)) == Lower(Strip(s))
  {
    var r := Strip(s);
    StripCutsPadding(s);
    var p, q :| AllSpace(p) && AllSpace(q) && s == p + r + q;
    LowerAppend(p + r, q);
    LowerAppend(p, r);
    LowerOfSpace(p);
    LowerOfSpace(q);
    assert Trimmed(Lower(r));
    StripPadded(p, Lower(r), q);
  }

  // ---------------------------------------------------------------------------
  // pat in s
  // ---------------------------------------------------------------------------

  /** Python's `pat in s`: true exactly when `pat` occurs somewhere in `s`
      (the empty pattern occurs everywhere). */
  function Contains(s: string, pat: string): (b: bool)
    ensures b <==> exists i :: OccursAt(s, pat, i)
    decreases |s|
  {
    if |pat| > |s| then false
    else if s[..|pat|] == pat then
      assert OccursAt(s, pat, 0);
      true
    else
      var b := Contains(s[1..], pat);
      assert b ==> exists i :: OccursAt(s, pat, i) by {
        if b {
          var j :| OccursAt(s[1..], pat, j);
          assert s[1..][j..j + |pat|] == s[j + 1..j + 1 + |pat|];
          assert OccursAt(s, pat, j + 1);
        }
      }
      assert (exists i :: OccursAt(s, pat, i)) ==> b by {
        if i :| OccursAt(s, pat, i) {
          assert i != 0;
          assert s[1..][i - 1..i - 1 + |pat|] == s[i..i + |pat|];
          assert OccursAt(s[1..], pat, i - 1);
        }
      }
      b
  }

  /** An occurrence inside the slice `s[a..b]` is an occurrence in `s`, and back. */
  lemma OccursInSlice(s: string, a: nat, b: nat, pat: string, i: int)
    requires a <= b <= |s|
    ensures OccursAt(s[a..b], pat, i) <==> 0 <= i && a + i + |pat| <= b && OccursAt(s, pat, a + i)
  {
    if 0 <= i && a + i + |pat| <= b {
      var u, v := s[a..b][i..i + |pat|], s[a + i..a + i + |pat|];
      assert forall k :: 0 <= k < |pat| ==> u[k] == v[k];
    }
  }

  /** A pattern with no whitespace at its ends occurs in `s` exactly when it occurs
      in `s.strip()`: the stripped margins hold only whitespace. */
  lemma {:induction false} ContainsIgnoresStrip(s: string, pat: string)
    requires pat != [] && Trimmed(pat)
    ensures Contains(Strip(s), pat) == Contains(s, pat)
  {
    StripMargins(s);
    var a, b := StripStart(s), StripEnd(s);
    if i :| OccursAt(Strip(s), pat, i) {
      OccursInSlice(s, a, b, pat, i);
    }
    if j :| OccursAt(s, pat, j) {
      assert s[j] == pat[0];
      assert s[j + |pat| - 1] == pat[|pat| - 1];
      OccursInSlice(s, a, b, pat, j - a);
    }
  }
}
