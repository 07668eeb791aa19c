/**
 * The few Python `str` operations the chat helpers rely on: `strip()`,
 * `lower()`, `sep.join(parts)` and `str(n)` for a non-negative `int`.
 *
 * `strip()` removes the characters Python's `str.isspace()` accepts;
 * `lower()` is modelled on ASCII letters only.
 */
module PyStr {

  /** The characters for which Python's `str.isspace()` holds. */
  predicate IsSpace(c: char) {
    || c == ' ' || c == '\t' || c == '\n' || c == '\r'
    || c == '\U{B}' || c == '\U{C}'
    || ('\U{1C}' <= c <= '\U{1F}')
    || c == '\U{85}' || c == '\U{A0}' || c == '\U{1680}'
    || ('\U{2000}' <= c <= '\U{200A}')
    || c == '\U{2028}' || c == '\U{2029}' || c == '\U{202F}' || c == '\U{205F}' || c == '\U{3000}'
  }

  predicate AllSpace(s: string) {
    forall k :: 0 <= k < |s| ==> IsSpace(s[k])
  }

  /**
   * `s[i..j]` is what is left of `s` once the white space on both sides is
   * removed: only white space lies outside it, and it neither starts nor ends
   * with white space.
   */
  predicate Framed(s: string, i: int, j: int) {
    && 0 <= i <= j <= |s|
    && (forall k :: 0 <= k < i ==> IsSpace(s[k]))
    && (forall k :: j <= k < |s| ==> IsSpace(s[k]))
    && (i < j ==> !IsSpace(s[i]) && !IsSpace(s[j - 1]))
  }

  /** The first position at or after `i` that is not white space, or `|s|`. */
  function FirstKept(s: string, i: nat): (k: nat)
    requires i <= |s|
    ensures i <= k <= |s|
    ensures forall m :: i <= m < k ==> IsSpace(s[m])
    ensures k < |s| ==> !IsSpace(s[k])
    decreases |s| - i
  {
    if i == |s| || !IsSpace(s[i]) then i else FirstKept(s, i + 1)
  }

  /** Where the text of `s[lo..j]` ends once trailing white space is dropped. */
  function EndKept(s: string, lo: nat, j: nat): (k: nat)
    requires lo <= j <= |s|
    ensures lo <= k <= j
    ensures forall m :: k <= m < j ==> IsSpace(s[m])
    ensures lo < k ==> !IsSpace(s[k - 1])
  {
    if j == lo || !IsSpace(s[j - 1]) then j else EndKept(s, lo, j - 1)
  }

  /** Python's `s.strip()`. */
  function Strip(s: string): (r: string)
    ensures exists i, j :: Framed(s, i, j) && r == s[i..j]
  {
    var i := FirstKept(s, 0);
    var j := EndKept(s, i, |s|);
    assert Framed(s, i, j);
    s[i..j]
  }

  /** Only one part of a string is framed by white space. */
  lemma FramedUnique(s: string, i: int, j: int, i': int, j': int)
    requires Framed(s, i, j) && Framed(s, i', j')
    ensures s[i..j] == s[i'..j']
  {
    if i < j || i' < j' {
      assert i == i' && j == j';
    }
  }

  /** `Strip(s)` is exactly the part of `s` that white space frames. */
  lemma StripFramed(s: string, i: int, j: int)
    requires Framed(s, i, j)
    ensures Strip(s) == s[i..j]
  {
    var stripped := Strip(s);
    var i', j' :| Framed(s, i', j') && stripped == s[i'..j'];
    FramedUnique(s, i, j, i', j');
  }

  function LowerChar(c: char): char {
    if 'A' <= c <= 'Z' then (c as int - 'A' as int + 'a' as int) as char else c
  }

  /** Python's `s.lower()`, on ASCII letters. */
  function Lower(s: string): (r: string)
    ensures |r| == |s| && forall k :: 0 <= k < |s| ==> r[k] == LowerChar(s[k])
  {
    seq(|s|, k requires 0 <= k < |s| => LowerChar(s[k]))
  }

  lemma LowerKeepsSpace(c: char)
    ensures IsSpace(LowerChar(c)) == IsSpace(c)
  {
  }

  /** Lower-casing keeps the white space around a framed part. */
  lemma LowerFramed(s: string, i: int, j: int)
    requires Framed(s, i, j)
    ensures Framed(Lower(s), i, j)
  {
    var ls := Lower(s);
    forall k | 0 <= k < |s|
      ensures IsSpace(ls[k]) == IsSpace(s[k])
    {
      LowerKeepsSpace(s[k]);
    }
  }

  lemma LowerSlice(s: string, i: int, j: int)
    requires 0 <= i <= j <= |s|
    ensures Lower(s)[i..j] == Lower(s[i..j])
  {
  }

  /** Lower-casing neither makes nor removes white space, so it commutes with `strip()`. */
  lemma {:induction false} StripLowerCommute(s: string)
    ensures Strip(Lower(s)) == Lower(Strip(s))
  {
    var stripped := Strip(s);
    var i, j :| Framed(s, i, j) && stripped == s[i..j];
    LowerFramed(s, i, j);
    StripFramed(Lower(s), i, j);
    LowerSlice(s, i, j);
  }

  /**
   * Comparing `s.strip()`, lower-cased, with `w` accepts exactly the strings
   * made of white space, then `w` in any letter case, then white space.
   */
  lemma MatchesIgnoringCaseAndPadding(s: string, w: string)
    ensures Lower(Strip(s)) == w <==> exists i, j :: Framed(s, i, j) && Lower(s[i..j]) == w
  {
    var stripped := Strip(s);
    var i, j :| Framed(s, i, j) && stripped == s[i..j];
    forall i', j' | Framed(s, i', j')
      ensures s[i'..j'] == Strip(s)
    {
      FramedUnique(s, i, j, i', j');
    }
  }

  /** Python's `sep.join(parts)`. */
  function Join(parts: seq<string>, sep: string): (r: string)
  {
    if |parts| == 0 then ""
    else if |parts| == 1 then parts[0]
    else parts[0] + sep + Join(parts[1..], sep)
  }

  /** Where `parts[i]` begins in `Join(parts, sep)`. */
  function Offset(parts: seq<string>, sep: string, i: nat): nat
    requires i <= |parts|
  {
    if i == 0 then 0 else |parts[0]| + |sep| + Offset(parts[1..], sep, i - 1)
  }

  /** A slice of `t` read inside `x + t`. */
  lemma SliceAfter(x: string, t: string, a: int, b: int)
    requires 0 <= a <= b <= |t|
    ensures (x + t)[|x| + a..|x| + b] == t[a..b]
  {
    assert (x + t)[|x|..] == t;
  }

  /** The first of several parts opens the join and `sep` follows it. */
  lemma JoinFirst(parts: seq<string>, sep: string)
    requires |parts| >= 2
    ensures |parts[0]| + |sep| <= |Join(parts, sep)|
    ensures Join(parts, sep)[..|parts[0]|] == parts[0]
    ensures Join(parts, sep)[|parts[0]|..|parts[0]| + |sep|] == sep
  {
    var head := parts[0] + sep;
    assert Join(parts, sep) == head + Join(parts[1..], sep);
    assert (head + Join(parts[1..], sep))[..|head|] == head;
  }

  /** `Join(parts, sep)` holds part i at `Offset(parts, sep, i)`. */
  lemma {:induction false} JoinPart(parts: seq<string>, sep: string, i: nat)
    requires i < |parts|
    ensures Offset(parts, sep, i) + |parts[i]| <= |Join(parts, sep)|
    ensures Join(parts, sep)[Offset(parts, sep, i)..Offset(parts, sep, i) + |parts[i]|] == parts[i]
  {
    if |parts| == 1 {
      assert Join(parts, sep)[0..|parts[0]|] == parts[0];
    } else if i == 0 {
      JoinFirst(parts, sep);
    } else {
      var head := parts[0] + sep;
      var tail := Join(parts[1..], sep);
      assert Join(parts, sep) == head + tail;
      JoinPart(parts[1..], sep, i - 1);
      assert parts[1..][i - 1] == parts[i];
      var at := Offset(parts[1..], sep, i - 1);
      SliceAfter(head, tail, at, at + |parts[i]|);
    }
  }

  /** In `Join(parts, sep)`, `sep` follows every part but the last, and the next part begins after it. */
  lemma {:induction false} JoinSep(parts: seq<string>, sep: string, i: nat)
    requires i + 1 < |parts|
    ensures Offset(parts, sep, i + 1) == Offset(parts, sep, i) + |parts[i]| + |sep| <= |Join(parts, sep)|
    ensures Join(parts, sep)[Offset(parts, sep, i) + |parts[i]|..Offset(parts, sep, i + 1)] == sep
  {
    if i == 0 {
      JoinFirst(parts, sep);
    } else {
      var head := parts[0] + sep;
      var tail := Join(parts[1..], sep);
      assert Join(parts, sep) == head + tail;
      JoinSep(parts[1..], sep, i - 1);
      assert parts[1..][i - 1] == parts[i];
      var from := Offset(parts[1..], sep, i - 1) + |parts[i]|;
      SliceAfter(head, tail, from, from + |sep|);
    }
  }

  /** The last part ends `Join(parts, sep)`. */
  lemma {:induction false} JoinEnd(parts: seq<string>, sep: string)
    requires |parts| > 0
    ensures Offset(parts, sep, |parts| - 1) + |parts[|parts| - 1]| == |Join(parts, sep)|
  {
    if |parts| > 1 {
      JoinEnd(parts[1..], sep);
      assert parts[1..][|parts| - 2] == parts[|parts| - 1];
    }
  }

  predicate IsDigit(c: char) {
    '0' <= c <= '9'
  }

  predicate AllDigits(s: string) {
    forall k :: 0 <= k < |s| ==> IsDigit(s[k])
  }

  function DigitChar(d: nat): (c: char)
    requires d < 10
  {
    (d + '0' as int) as char
  }

  /** Python's `str(n)` for `n >= 0`: decimal digits, no leading zero. */
  function Decimal(n: nat): (s: string)
    ensures |s| >= 1 && AllDigits(s)
    ensures |s| > 1 ==> s[0] != '0'
  {
    if n < 10 then [DigitChar(n)] else Decimal(n / 10) + [DigitChar(n % 10)]
  }

  /** The number a string of decimal digits denotes. */
  function DigitsValue(s: string): nat
    requires AllDigits(s)
  {
    if s == [] then 0 else DigitsValue(s[..|s| - 1]) * 10 + (s[|s| - 1] as int - '0' as int)
  }

  /** `str(n)` reads back as `n`; so different numbers get different labels. */
  lemma {:induction false} DecimalRoundTrip(n: nat)
    ensures DigitsValue(Decimal(n)) == n
  {
    if n >= 10 {
      DecimalRoundTrip(n / 10);
      var s := Decimal(n);
      assert s[..|s| - 1] == Decimal(n / 10);
    }
  }
}
