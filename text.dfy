/**
 * The pieces of Python's `str` behaviour that the reminder bot relies on:
 * `sub in s`, `s.strip()` (through `isspace`), `s.lower()`, a search for
 * the first occurrence of a substring (which `s.split(sub, 1)` performs),
 * and the ordering SQLite uses when it compares two TEXT values.
 */
module Text {
  import opened Wrappers

  /** `c.isspace()` in Python: the characters of Unicode bidirectional class
      WS, B or S, or of general category Zs. */
  predicate IsSpace(c: char) {
    ('\t' <= c <= '\r') || ('\U{1C}' <= c <= ' ') || c == '\U{85}' || c == '\U{A0}'
    || c == '\U{1680}' || ('\U{2000}' <= c <= '\U{200A}') || c == '\U{2028}' || c == '\U{2029}'
    || c == '\U{202F}' || c == '\U{205F}' || c == '\U{3000}'
  }

  predicate IsDigit(c: char) {
    '0' <= c <= '9'
  }

  /** Lower-casing of the ASCII letters; every other character is kept. */
  function LowerChar(c: char): char {
    if 'A' <= c <= 'Z' then (c as int + 32) as char else c
  }

  function Lower(s: string): string {
    seq(|s|, i requires 0 <= i < |s| => LowerChar(s[i]))
  }

  lemma LowerSlice(s: string, lo: nat, hi: nat)
    requires lo <= hi <= |s|
    ensures Lower(s[lo..hi]) == Lower(s)[lo..hi]
  {
  }

  /** `pat` occurs in `s` at position `k`. */
  predicate OccursAt(s: string, pat: string, k: nat) {
    k + |pat| <= |s| && s[k..k + |pat|] == pat
  }

  /** The first position at or after `i` where `pat` occurs. */
  function FindFrom(s: string, pat: string, i: nat): (r: Option<nat>)
    requires i <= |s|
    ensures r.Some? ==> i <= r.value && OccursAt(s, pat, r.value)
    ensures r.Some? ==> forall k :: i <= k < r.value ==> !OccursAt(s, pat, k)
    ensures r.None? ==> forall k :: i <= k <= |s| ==> !OccursAt(s, pat, k)
    decreases |s| - i
  {
    if OccursAt(s, pat, i) then Some(i)
    else if i == |s| then None
    else FindFrom(s, pat, i + 1)
  }

  /** `s.find(pat)`, with `None` for -1. */
  function Find(s: string, pat: string): Option<nat> {
    FindFrom(s, pat, 0)
  }

  /** `pat in s`. */
  predicate Contains(s: string, pat: string) {
    Find(s, pat).Some?
  }

  lemma ContainsIff(s: string, pat: string)
    ensures Contains(s, pat) <==> exists k :: 0 <= k <= |s| && OccursAt(s, pat, k)
  {
  }

  /** `s.lstrip()`. */
  function TrimStart(s: string): (r: string)
    ensures |r| <= |s| && r == s[|s| - |r|..]
    ensures forall i :: 0 <= i < |s| - |r| ==> IsSpace(s[i])
    ensures r == [] || !IsSpace(r[0])
  {
    if s != [] && IsSpace(s[0]) then TrimStart(s[1..]) else s
  }

  /** `s.rstrip()`. */
  function TrimEnd(s: string): (r: string)
    ensures |r| <= |s| && r == s[..|r|]
    ensures forall i :: |r| <= i < |s| ==> IsSpace(s[i])
    ensures r == [] || !IsSpace(r[|r| - 1])
  {
    if s != [] && IsSpace(s[|s| - 1]) then TrimEnd(s[..|s| - 1]) else s
  }

  /** `r` is `s[lo..]` with white space only before `lo` and after `r`. */
  predicate StrippedAt(s: string, r: string, lo: nat) {
    lo + |r| <= |s| && r == s[lo..lo + |r|]
    && (forall i :: 0 <= i < lo ==> IsSpace(s[i]))
    && (forall i :: lo + |r| <= i < |s| ==> IsSpace(s[i]))
  }

  /** `r` is `s` with all white space, and only white space, cut off both
      ends. */
  ghost predicate IsStripOf(s: string, r: string) {
    && (exists lo :: StrippedAt(s, r, lo))
    && (r == [] || (!IsSpace(r[0]) && !IsSpace(r[|r| - 1])))
  }

  /** `s.strip()`: the result is a slice of `s` that neither starts nor ends
      with white space, and everything cut off on either side is white space. */
  function Strip(s: string): (r: string)
    ensures IsStripOf(s, r)
    ensures r == [] || (!IsSpace(r[0]) && !IsSpace(r[|r| - 1]))
  {
    var t := TrimStart(s);
    var r := TrimEnd(t);
    assert StrippedAt(s, r, |s| - |t|);
    r
  }

  /** Two slices of `s` that each cut off only white space, and keep none
      at their ends, are the same slice. */
  lemma StrippedAtUnique(s: string, r: string, lo: nat, q: string, lq: nat)
    requires StrippedAt(s, r, lo) && (r == [] || (!IsSpace(r[0]) && !IsSpace(r[|r| - 1])))
    requires StrippedAt(s, q, lq) && (q == [] || (!IsSpace(q[0]) && !IsSpace(q[|q| - 1])))
    ensures r == q
  {
    // the first character each keeps is not white space, so neither can
    // be empty while the other is not
    assert r != [] ==> s[lo] == r[0] && !IsSpace(s[lo]);
    assert q != [] ==> s[lq] == q[0] && !IsSpace(s[lq]);
    assert r != [] <==> q != [];
    if r != [] {
      assert lo == lq;
      assert s[lo + |r| - 1] == r[|r| - 1] && s[lq + |q| - 1] == q[|q| - 1];
      assert lo + |r| == lq + |q|;
    }
  }

  /** A string has only one strip: `Strip` is the only result that
      `IsStripOf` allows. */
  lemma StripUnique(s: string, r: string)
    requires IsStripOf(s, r)
    ensures r == Strip(s)
  {
    var q := Strip(s);
    var lo: nat :| StrippedAt(s, r, lo);
    var lq: nat :| StrippedAt(s, q, lq);
    StrippedAtUnique(s, r, lo, q, lq);
  }

  /** Three-way comparison of two strings by code point, shorter prefix
      first: SQLite's BINARY collation, since UTF-8 byte order is code point
      order. */
  function Cmp(a: string, b: string): (r: int)
    ensures -1 <= r <= 1
    ensures r == 0 <==> a == b
  {
    if a == [] then (if b == [] then 0 else -1)
    else if b == [] then 1
    else if a[0] < b[0] then -1
    else if b[0] < a[0] then 1
    else
      var r := Cmp(a[1..], b[1..]);
      assert r == 0 ==> a == [a[0]] + a[1..] == [b[0]] + b[1..] == b;
      r
  }

  /** SQL's `a <= b` on TEXT values. */
  predicate TextLe(a: string, b: string) {
    Cmp(a, b) <= 0
  }

  lemma {:induction false} CmpFlip(a: string, b: string)
    ensures Cmp(b, a) == -Cmp(a, b)
  {
    if a != [] && b != [] && a[0] == b[0] {
      CmpFlip(a[1..], b[1..]);
    }
  }

  lemma {:induction false} TextLeTransitive(a: string, b: string, c: string)
    requires TextLe(a, b) && TextLe(b, c)
    ensures TextLe(a, c)
  {
    if a != [] && b != [] && c != [] && a[0] == b[0] == c[0] {
      TextLeTransitive(a[1..], b[1..], c[1..]);
    }
  }

  /** Comparing two strings that start with pieces of equal length compares
      the first pieces and, on a tie, the rest. */
  lemma {:induction false} CmpConcat(a1: string, a2: string, b1: string, b2: string)
    requires |a1| == |b1|
    ensures Cmp(a1 + a2, b1 + b2) == if Cmp(a1, b1) != 0 then Cmp(a1, b1) else Cmp(a2, b2)
  {
    if a1 == [] {
      assert a1 + a2 == a2 && b1 + b2 == b2;
    } else {
      assert (a1 + a2)[1..] == a1[1..] + a2;
      assert (b1 + b2)[1..] == b1[1..] + b2;
      CmpConcat(a1[1..], a2, b1[1..], b2);
    }
  }
}
