/**
 * String operations the route handlers rely on: JavaScript's `trim`,
 * `startsWith`, `includes`, the case-insensitive `contains` filter of the
 * store, decimal rendering of ids inside template strings, and the order in
 * which the store sorts text columns.
 */
module Text {

  /** The characters JavaScript's `String.prototype.trim` removes:
      WhiteSpace and LineTerminator of ECMAScript section 12.2 and 12.3. */
  predicate IsSpace(c: char) {
    || c == '\t' || c == '\n' || c == '\U{000B}' || c == '\U{000C}' || c == '\r'
    || c == ' ' || c == '\U{00A0}' || c == '\U{1680}'
    || ('\U{2000}' <= c <= '\U{200A}')
    || c == '\U{2028}' || c == '\U{2029}' || c == '\U{202F}' || c == '\U{205F}'
    || c == '\U{3000}' || c == '\U{FEFF}'
  }

  /** Drops leading white space; what is dropped is all white space and
      what remains is a suffix that does not start with white space. */
  function TrimStart(s: string): (r: string)
    ensures |r| <= |s| && r == s[|s| - |r|..]
    ensures r == [] || !IsSpace(r[0])
    ensures forall i :: 0 <= i < |s| - |r| ==> IsSpace(s[i])
  {
    if s != [] && IsSpace(s[0]) then TrimStart(s[1..]) else s
  }

  /** Drops trailing white space; the result is a prefix that does not end
      with white space. */
  function TrimEnd(s: string): (r: string)
    ensures |r| <= |s| && r == s[..|r|]
    ensures r == [] || !IsSpace(r[|r| - 1])
    ensures forall i :: |r| <= i < |s| ==> IsSpace(s[i])
  {
    if s != [] && IsSpace(s[|s| - 1]) then TrimEnd(s[..|s| - 1]) else s
  }

  /** JavaScript's `s.trim()`: the longest slice of `s` that neither starts
      nor ends with white space, everything around it being white space. */
  function Trim(s: string): (r: string)
    ensures |r| <= |s|
    ensures r == [] || (!IsSpace(r[0]) && !IsSpace(r[|r| - 1]))
    ensures exists k :: SliceAmidSpace(s, r, k)
  {
    var t := TrimStart(s);
    var r := TrimEnd(t);
    PrefixOfSuffix(s, t, r);
    r
  }

  /** A prefix `r` of a suffix `t` of `s`, with white space cut from both
      sides, sits in `s` amid white space. */
  lemma PrefixOfSuffix(s: string, t: string, r: string)
    requires |t| <= |s| && t == s[|s| - |t|..] && forall i :: 0 <= i < |s| - |t| ==> IsSpace(s[i])
    requires |r| <= |t| && r == t[..|r|] && forall i :: |r| <= i < |t| ==> IsSpace(t[i])
    ensures SliceAmidSpace(s, r, |s| - |t|)
  {
    var k := |s| - |t|;
    assert r == s[k..k + |r|];
    forall i | k + |r| <= i < |s| ensures IsSpace(s[i]) {
      assert s[i] == t[i - k];
    }
  }

  /** `r` sits in `s` at offset `k` and everything around it is white space. */
  predicate SliceAmidSpace(s: string, r: string, k: int) {
    && 0 <= k <= |s| - |r| && r == s[k..k + |r|]
    && (forall i :: 0 <= i < k ==> IsSpace(s[i]))
    && (forall i :: k + |r| <= i < |s| ==> IsSpace(s[i]))
  }

  /** Trimming twice is trimming once. */
  lemma TrimIdempotent(s: string)
    ensures Trim(Trim(s)) == Trim(s)
  {
    var r := Trim(s);
    if r != [] {
      assert TrimStart(r) == r;
      assert TrimEnd(r) == r;
    }
  }

  /** A string is blank when nothing is left after trimming: `!s.trim()`. */
  predicate IsBlank(s: string) {
    Trim(s) == []
  }

  /** Blank means made of white space only. */
  lemma BlankIffAllSpace(s: string)
    ensures IsBlank(s) <==> forall i :: 0 <= i < |s| ==> IsSpace(s[i])
  {
    if !IsBlank(s) {
      var r := Trim(s);
      var k :| SliceAmidSpace(s, r, k);
      assert s[k] == r[0];
    }
  }

  /** JavaScript's `s.startsWith(p)`. */
  predicate StartsWith(s: string, p: string) {
    p <= s
  }

  /** JavaScript's `h.includes(n)`: `n` occurs in `h` as a contiguous slice. */
  predicate Contains(h: string, n: string)
    decreases |h|
  {
    n <= h || (h != [] && Contains(h[1..], n))
  }

  /** `n` occurs in `h` starting at position `k`. */
  predicate OccursAt(h: string, n: string, k: int) {
    0 <= k <= |h| - |n| && h[k..k + |n|] == n
  }

  /** `Contains` is the existence of a position where the needle occurs. */
  lemma {:induction false} ContainsIffOccurs(h: string, n: string)
    ensures Contains(h, n) <==> exists k :: OccursAt(h, n, k)
    decreases |h|
  {
    if n <= h {
      assert OccursAt(h, n, 0);
    } else if h != [] {
      ContainsIffOccurs(h[1..], n);
      if Contains(h[1..], n) {
        var k :| OccursAt(h[1..], n, k);
        OccursShift(h, n, k + 1);
      }
      if k :| OccursAt(h, n, k) {
        assert k != 0;
        OccursShift(h, n, k);
      }
    }
  }

  /** An occurrence past the first position is an occurrence in the tail. */
  lemma OccursShift(h: string, n: string, k: int)
    requires h != [] && 1 <= k
    ensures OccursAt(h, n, k) <==> OccursAt(h[1..], n, k - 1)
  {
    if 0 <= k <= |h| - |n| {
      assert h[1..][k - 1..k - 1 + |n|] == h[k..k + |n|];
    }
  }

  /** A string without the character `c` does not contain it. */
  lemma {:induction false} NotContainsChar(h: string, c: char)
    requires forall i :: 0 <= i < |h| ==> h[i] != c
    ensures !Contains(h, [c])
    decreases |h|
  {
    if h != [] {
      NotContainsChar(h[1..], c);
      assert h[0] != c;
      assert !([c] <= h);
    }
  }

  /** The empty string occurs in every string. */
  lemma ContainsEmpty(h: string)
    ensures Contains(h, [])
  {
  }

  /** ASCII lower-casing of one character. */
  function LowerChar(c: char): char {
    if 'A' <= c <= 'Z' then (c as int + 32) as char else c
  }

  /** ASCII upper-casing of one character. */
  function UpperChar(c: char): char {
    if 'a' <= c <= 'z' then (c as int - 32) as char else c
  }

  /** Lower-cases every character. */
  function Lower(s: string): (r: string)
    ensures |r| == |s|
    ensures forall i :: 0 <= i < |s| ==> r[i] == LowerChar(s[i])
  {
    seq(|s|, i requires 0 <= i < |s| => LowerChar(s[i]))
  }

  /** The store's `contains` filter with `mode: 'insensitive'`. */
  predicate ContainsInsensitive(h: string, n: string) {
    Contains(Lower(h), Lower(n))
  }

  /** Lower-casing is idempotent, so a lower-case needle is found as it is. */
  lemma LowerIdempotent(s: string)
    ensures Lower(Lower(s)) == Lower(s)
  {
  }

  /** The character of a decimal digit. */
  function DigitChar(d: nat): (c: char)
    requires d < 10
    ensures '0' <= c <= '9'
  {
    ('0' as int + d) as char
  }

  predicate IsDigits(s: string) {
    forall i :: 0 <= i < |s| ==> '0' <= s[i] <= '9'
  }

  /** The decimal rendering of `n`, as a template string `${n}` writes it. */
  function NatToString(n: nat): (r: string)
    ensures r != [] && IsDigits(r)
    decreases n
  {
    if n < 10 then [DigitChar(n)] else NatToString(n / 10) + [DigitChar(n % 10)]
  }

  /** Reads a string of decimal digits back as a number. */
  function ParseDigits(s: string): nat
    requires IsDigits(s)
    decreases |s|
  {
    if s == [] then 0 else ParseDigits(s[..|s| - 1]) * 10 + (s[|s| - 1] as int - '0' as int)
  }

  /** Reading back a rendered number gives the number. */
  lemma {:induction false} ParseNatToString(n: nat)
    ensures ParseDigits(NatToString(n)) == n
    decreases n
  {
    if n >= 10 {
      var s := NatToString(n);
      assert s[..|s| - 1] == NatToString(n / 10);
      ParseNatToString(n / 10);
    }
  }

  /** Distinct numbers render differently. */
  lemma NatToStringInjective(m: nat, n: nat)
    requires NatToString(m) == NatToString(n)
    ensures m == n
  {
    ParseNatToString(m);
    ParseNatToString(n);
  }

  /** Code-point lexicographic order: the order of a text column under the
      "C" collation. */
  predicate LexLe(a: string, b: string)
    decreases |a|
  {
    a == [] || (b != [] && (a[0] < b[0] || (a[0] == b[0] && LexLe(a[1..], b[1..]))))
  }

  lemma {:induction false} LexLeTotal(a: string, b: string)
    ensures LexLe(a, b) || LexLe(b, a)
    decreases |a|
  {
    if a != [] && b != [] && a[0] == b[0] {
      LexLeTotal(a[1..], b[1..]);
    }
  }

  lemma {:induction false} LexLeTransitive(a: string, b: string, c: string)
    requires LexLe(a, b) && LexLe(b, c)
    ensures LexLe(a, c)
    decreases |a|
  {
    if a != [] && a[0] == b[0] && b[0] == c[0] {
      LexLeTransitive(a[1..], b[1..], c[1..]);
    }
  }

  lemma {:induction false} LexLeAntisymmetric(a: string, b: string)
    requires LexLe(a, b) && LexLe(b, a)
    ensures a == b
    decreases |a|
  {
    if a != [] {
      LexLeAntisymmetric(a[1..], b[1..]);
    }
  }
}
