/**
 * The few `java.lang.String` operations the INI loader relies on, on `seq<char>`:
 * `trim()`, `indexOf(char)`, single-character `startsWith`/`endsWith`, and the
 * ASCII part of `toLowerCase(Locale.ROOT)`.
 */
module JavaText {

  /** `String.trim()` strips every char whose code is at most U+0020. */
  predicate IsSpace(c: char) {
    c <= ' '
  }

  /** Number of leading chars `trim()` skips (its first `while` loop). */
  function Lead(s: string): (n: nat)
    ensures n <= |s|
    ensures forall k :: 0 <= k < n ==> IsSpace(s[k])
    ensures n < |s| ==> !IsSpace(s[n])
  {
    if s == [] || !IsSpace(s[0]) then 0 else 1 + Lead(s[1..])
  }

  /** Length that remains once `trim()` has dropped the trailing spaces (its second loop). */
  function TrailEnd(s: string): (n: nat)
    ensures n <= |s|
    ensures forall k :: n <= k < |s| ==> IsSpace(s[k])
    ensures n > 0 ==> !IsSpace(s[n - 1])
  {
    if s == [] || !IsSpace(s[|s| - 1]) then |s| else TrailEnd(s[..|s| - 1])
  }

  /** `String.trim()`. */
  function Trim(s: string): (r: string)
    ensures |r| <= |s|
    ensures r == [] <==> forall k :: 0 <= k < |s| ==> IsSpace(s[k])
    ensures r != [] ==> !IsSpace(r[0]) && !IsSpace(r[|r| - 1])
    ensures |s| > 0 && !IsSpace(s[0]) ==> r != [] && r[0] == s[0]
  {
    var a := Lead(s);
    var t := s[a..];
    var r := t[..TrailEnd(t)];
    assert r == [] ==> forall k :: 0 <= k < |s| ==> IsSpace(s[k]) by {
      if r == [] {
        assert a == |s|;
      }
    }
    r
  }

  /**
   * What `trim()` returns is exactly the slice of `s` between its leading and
   * its trailing chars up to U+0020, interior kept verbatim.
   */
  lemma TrimIsSlice(s: string)
    ensures Lead(s) + |Trim(s)| <= |s|
    ensures Trim(s) == s[Lead(s)..Lead(s) + |Trim(s)|]
    ensures forall k :: Lead(s) + |Trim(s)| <= k < |s| ==> IsSpace(s[k])
  {
    var a := Lead(s);
    var t := s[a..];
    var n := TrailEnd(t);
    assert Trim(s) == t[..n];
    assert t[..n] == s[a..a + n];
    forall k | a + n <= k < |s| ensures IsSpace(s[k]) {
      assert s[k] == t[k - a];
    }
  }

  /** Trimming removes only spaces: any other char occurs in the trimmed text iff it occurs in `s`. */
  lemma TrimKeeps(s: string, c: char)
    requires !IsSpace(c)
    ensures c in Trim(s) <==> c in s
  {
    var a := Lead(s);
    var t := s[a..];
    var r := t[..TrailEnd(t)];
    assert r == Trim(s);
    if c in s {
      var k :| 0 <= k < |s| && s[k] == c;
      assert t[k - a] == c;
      assert r[k - a] == c;
    }
    if c in r {
      var k :| 0 <= k < |r| && r[k] == c;
      assert s[k + a] == c;
    }
  }

  predicate StartsWith(s: string, c: char) {
    |s| > 0 && s[0] == c
  }

  predicate EndsWith(s: string, c: char) {
    |s| > 0 && s[|s| - 1] == c
  }

  /** `String.indexOf(char)` for a char known to occur: the first index holding `c`. */
  function IndexOf(s: string, c: char): (i: nat)
    requires c in s
    ensures i < |s| && s[i] == c
    ensures c !in s[..i]
  {
    if s[0] == c then 0 else 1 + IndexOf(s[1..], c)
  }

  /** The ASCII case mapping of `Character.toLowerCase`. */
  function LowerChar(c: char): char {
    if 'A' <= c <= 'Z' then (c as int + 32) as char else c
  }

  function UpperChar(c: char): char {
    if 'a' <= c <= 'z' then (c as int - 32) as char else c
  }

  /** `toLowerCase(Locale.ROOT)` restricted to ASCII letters. */
  function ToLower(s: string): (r: string)
    ensures |r| == |s|
    ensures forall i :: 0 <= i < |s| ==> r[i] == LowerChar(s[i])
  {
    if s == [] then [] else [LowerChar(s[0])] + ToLower(s[1..])
  }

  /**
   * `v` spells `w` up to ASCII case: each char of `v` is the char of `w` or its
   * upper-case form. This is the reference that case-insensitive matching is
   * checked against.
   */
  predicate CaseVariant(v: string, w: string) {
    |v| == |w| && forall i :: 0 <= i < |v| ==> v[i] == w[i] || v[i] == UpperChar(w[i])
  }

  predicate NoUpper(w: string) {
    forall i :: 0 <= i < |w| ==> !('A' <= w[i] <= 'Z')
  }

  lemma LowerCharIs(c: char, x: char)
    requires !('A' <= x <= 'Z')
    ensures LowerChar(c) == x <==> c == x || c == UpperChar(x)
  {
  }

  /** Lower-casing `v` yields the lower-case word `w` exactly when `v` is a case variant of `w`. */
  lemma ToLowerIsCaseVariant(v: string, w: string)
    requires NoUpper(w)
    ensures ToLower(v) == w <==> CaseVariant(v, w)
  {
    var l := ToLower(v);
    if CaseVariant(v, w) {
      forall i | 0 <= i < |v| ensures l[i] == w[i] {
        LowerCharIs(v[i], w[i]);
      }
      assert l == w;
    }
    if l == w {
      forall i | 0 <= i < |v| ensures v[i] == w[i] || v[i] == UpperChar(w[i]) {
        LowerCharIs(v[i], w[i]);
      }
    }
  }

  /** Trimming is idempotent. */
  lemma TrimIdempotent(s: string)
    ensures Trim(Trim(s)) == Trim(s)
  {
    var r := Trim(s);
    if r != [] {
      assert Lead(r) == 0;
      assert TrailEnd(r) == |r|;
      assert r[0..] == r;
      assert r[..|r|] == r;
    }
  }
}
