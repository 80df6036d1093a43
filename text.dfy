/** The few Python string builtins the catalog relies on: `str.strip()`,
    `str.lower()` and the substring test `q in s`, over ASCII. */
module Text {

  /** Whether `str.strip()` removes `c`: space, \t \n \v \f \r and the
      separators \x1c to \x1f. */
  predicate IsSpace(c: char) {
    var n := c as int;
    n == 0x20 || 0x09 <= n <= 0x0D || 0x1C <= n <= 0x1F
  }

  /** Every character of `s` is white space (vacuously so for ""). */
  ghost predicate Blank(s: string) {
    forall k :: 0 <= k < |s| ==> IsSpace(s[k])
  }

  /** Every character of `s` from index `lo` up to (not including) `hi` is
      white space. */
  ghost predicate SpacesBetween(s: string, lo: int, hi: int)
    requires 0 <= lo && hi <= |s|
  {
    forall k :: lo <= k < hi ==> IsSpace(s[k])
  }

  /** How many characters `s.lstrip()` drops: the white space `s` starts with. */
  function Leading(s: string): (n: nat)
    ensures n <= |s| && SpacesBetween(s, 0, n)
    ensures n == |s| || !IsSpace(s[n])
  {
    if |s| > 0 && IsSpace(s[0]) then
      var m := Leading(s[1..]);
      assert forall k :: 1 <= k < m + 1 ==> s[k] == s[1..][k - 1];
      m + 1
    else 0
  }

  /** How many characters `s.rstrip()` drops: the white space `s` ends with. */
  function Trailing(s: string): (n: nat)
    ensures n <= |s| && SpacesBetween(s, |s| - n, |s|)
    ensures n == |s| || !IsSpace(s[|s| - 1 - n])
  {
    if |s| > 0 && IsSpace(s[|s| - 1]) then
      var m := Trailing(s[..|s| - 1]);
      assert forall k :: |s| - 1 - m <= k < |s| - 1 ==> s[k] == s[..|s| - 1][k];
      m + 1
    else 0
  }

  /** `true` when `q` occurs in `s` starting at index `i`. */
  ghost predicate OccursAt(s: string, q: string, i: int) {
    0 <= i && i + |q| <= |s| && s[i..i + |q|] == q
  }

  /** `s.strip()`: `s` without its leading and trailing white space. It is
      empty exactly when `s` is blank, otherwise it starts and ends with a
      character that is not white space, and it is the piece of `s` after
      the leading white space that only white space follows. */
  function Strip(s: string): (r: string)
    ensures r == "" <==> Blank(s)
    ensures r == "" || (!IsSpace(r[0]) && !IsSpace(r[|r| - 1]))
    ensures OccursAt(s, r, Leading(s))
    ensures SpacesBetween(s, 0, Leading(s)) && SpacesBetween(s, Leading(s) + |r|, |s|)
  {
    var i := Leading(s);
    if i == |s| then ""
    else
      var n := Trailing(s);
      assert |s| - n > i by { assert !IsSpace(s[i]); }
      s[i..|s| - n]
  }

  /** Stripping twice is stripping once. */
  lemma StripIdempotent(s: string)
    ensures Strip(Strip(s)) == Strip(s)
  {
    var r := Strip(s);
    if r != "" {
      assert Leading(r) == 0 && Trailing(r) == 0;
      assert r[0..|r| - 0] == r;
    }
  }

  /** Lowering one character: an ASCII capital becomes its small letter and
      every other character is kept. */
  function LowerChar(c: char): (r: char)
    ensures !('A' <= r <= 'Z')
    ensures !('A' <= c <= 'Z') ==> r == c
    ensures 'A' <= c <= 'Z' ==> r as int == c as int + 32
  {
    if 'A' <= c <= 'Z' then (c as int + 32) as char else c
  }

  /** `s.lower()`: same length, each character lowered. */
  function Lower(s: string): (r: string)
    ensures |r| == |s|
    ensures forall i :: 0 <= i < |s| ==> r[i] == LowerChar(s[i])
  {
    if s == [] then [] else [LowerChar(s[0])] + Lower(s[1..])
  }

  /** Lowering an already lowered string changes nothing. */
  lemma LowerIdempotent(s: string)
    ensures Lower(Lower(s)) == Lower(s)
  {
  }

  /** Python's `q in s`, scanning the start positions of `s` in turn. */
  function Contains(s: string, q: string): bool
    decreases |s|
  {
    if |q| > |s| then false
    else if s[..|q|] == q then true
    else Contains(s[1..], q)
  }

  /** `Contains` holds exactly when `q` occurs somewhere in `s`; the empty
      string occurs in every string. */
  lemma {:induction false} ContainsOccurs(s: string, q: string)
    ensures Contains(s, q) <==> exists i :: OccursAt(s, q, i)
    decreases |s|
  {
    if |q| > |s| {
    } else if s[..|q|] == q {
      assert OccursAt(s, q, 0);
    } else {
      ContainsOccurs(s[1..], q);
      if Contains(s[1..], q) {
        var i :| OccursAt(s[1..], q, i);
        assert s[1..][i..i + |q|] == s[i + 1..i + 1 + |q|];
        assert OccursAt(s, q, i + 1);
      }
      if i :| OccursAt(s, q, i) {
        assert i != 0;
        assert s[1..][i - 1..i - 1 + |q|] == s[i..i + |q|];
        assert OccursAt(s[1..], q, i - 1);
      }
    }
  }
}
