/**
 * The three java.lang.String operations the copy command relies on:
 * lastIndexOf(char), trim() and the decimal rendering of an int counter
 * in string concatenation.
 */
module Text {

  /** The characters String.trim strips from both ends: every code point up to and including the space. */
  predicate IsBlank(c: char) {
    c <= ' '
  }

  /** No index of s past i holds c. */
  predicate NoneAfter(s: string, c: char, i: int) {
    forall k :: 0 <= k < |s| && i < k ==> s[k] != c
  }

  /** The last index below n that holds c, or -1: the backward scan of String.lastIndexOf. */
  function LastIndexBelow(s: string, c: char, n: nat): (r: int)
    requires n <= |s|
    ensures -1 <= r < n
    ensures 0 <= r ==> s[r] == c
    ensures forall k :: r < k < n ==> s[k] != c
  {
    if n == 0 then -1
    else if s[n - 1] == c then n - 1
    else LastIndexBelow(s, c, n - 1)
  }

  /** String.lastIndexOf(c): the index of the last occurrence of c in s, or -1 if there is none. */
  function LastIndexOf(s: string, c: char): (r: int)
    ensures -1 <= r < |s|
    ensures r == -1 <==> c !in s
    ensures 0 <= r ==> s[r] == c
    ensures NoneAfter(s, c, r)
  {
    LastIndexBelow(s, c, |s|)
  }

  /** Any index holding c with no c after it is where LastIndexOf lands. */
  lemma LastIndexOfAt(s: string, c: char, i: nat)
    requires i < |s| && s[i] == c && NoneAfter(s, c, i)
    ensures LastIndexOf(s, c) == i
  {
  }

  /** c is absent from s[lo + 1..] exactly when no index past lo holds c. */
  lemma NotInSuffix(s: string, c: char, lo: int)
    requires -1 <= lo < |s|
    ensures c !in s[lo + 1..] <==> NoneAfter(s, c, lo)
  {
    var t := s[lo + 1..];
    assert forall i :: 0 <= i < |t| ==> t[i] == s[lo + 1 + i];
    assert forall k :: lo < k < |s| ==> s[k] == t[k - lo - 1];
  }

  /** The last c in x + y is the last c in y, when y holds one. */
  lemma LastIndexOfInSuffix(x: string, y: string, c: char)
    requires c in y
    ensures LastIndexOf(x + y, c) == |x| + LastIndexOf(y, c)
  {
    var s := x + y;
    var j := LastIndexOf(y, c);
    forall k | |x| + j < k < |s|
      ensures s[k] != c
    {
      assert s[k] == y[k - |x|];
    }
    LastIndexOfAt(s, c, |x| + j);
  }

  /** The last c in x + y is the last c in x, when y holds none. */
  lemma LastIndexOfNotInSuffix(x: string, y: string, c: char)
    requires c !in y
    ensures LastIndexOf(x + y, c) == LastIndexOf(x, c)
  {
    var s := x + y;
    var i := LastIndexOf(x, c);
    forall k | i < k < |s|
      ensures s[k] != c
    {
      if k < |x| {
        assert s[k] == x[k];
      } else {
        assert s[k] == y[k - |x|];
      }
    }
    if 0 <= i {
      LastIndexOfAt(s, c, i);
    } else {
      assert c !in s by {
        assert NoneAfter(s, c, -1);
      }
    }
  }

  /** The first loop of String.trim: drop the leading blanks. */
  function TrimStart(s: string): (r: string)
    ensures |r| <= |s| && r == s[|s| - |r|..]
    ensures forall k :: 0 <= k < |s| - |r| ==> IsBlank(s[k])
    ensures r == [] || !IsBlank(r[0])
  {
    if s != [] && IsBlank(s[0]) then TrimStart(s[1..]) else s
  }

  /** The second loop of String.trim: drop the trailing blanks. */
  function TrimEnd(s: string): (r: string)
    ensures |r| <= |s| && r == s[..|r|]
    ensures forall k :: |r| <= k < |s| ==> IsBlank(s[k])
    ensures r == [] || !IsBlank(r[|r| - 1])
  {
    if s != [] && IsBlank(s[|s| - 1]) then TrimEnd(s[..|s| - 1]) else s
  }

  /**
   * String.trim: s without its blank prefix and its blank suffix, both as long
   * as possible, so that what is left starts and ends with a non-blank.
   */
  function Trim(s: string): (r: string)
    ensures |s| - |TrimStart(s)| + |r| <= |s|
    ensures r == s[|s| - |TrimStart(s)|..|s| - |TrimStart(s)| + |r|]
    ensures forall k :: 0 <= k < |s| - |TrimStart(s)| ==> IsBlank(s[k])
    ensures forall k :: |s| - |TrimStart(s)| + |r| <= k < |s| ==> IsBlank(s[k])
    ensures r == [] || (!IsBlank(r[0]) && !IsBlank(r[|r| - 1]))
  {
    var t := TrimStart(s);
    var r := TrimEnd(t);
    TrimEndWithin(s, t, r);
    r
  }

  /**
   * Cutting a blank suffix off the suffix t of s cuts the same characters
   * off s, and keeps t's first character when anything is left.
   */
  lemma TrimEndWithin(s: string, t: string, r: string)
    requires |t| <= |s| && t == s[|s| - |t|..]
    requires |r| <= |t| && r == t[..|r|]
    requires forall k :: |r| <= k < |t| ==> IsBlank(t[k])
    ensures r == s[|s| - |t|..|s| - |t| + |r|]
    ensures forall k :: |s| - |t| + |r| <= k < |s| ==> IsBlank(s[k])
    ensures r == [] || r[0] == t[0]
  {
    var i := |s| - |t|;
    forall k | i + |r| <= k < |s|
      ensures IsBlank(s[k])
    {
      assert s[k] == t[k - i];
    }
  }

  /** Trimming keeps only characters the string already had, so a character s lacks is absent from Trim(s). */
  lemma TrimKeepsAbsence(s: string, c: char)
    requires c !in s
    ensures c !in Trim(s)
  {
    var i := |s| - |TrimStart(s)|;
    var r := Trim(s);
    forall k | 0 <= k < |r|
      ensures r[k] != c
    {
      assert r[k] == s[i + k];
    }
  }

  /** Trimming twice is trimming once. */
  lemma TrimIdempotent(s: string)
    ensures Trim(Trim(s)) == Trim(s)
  {
    var r := Trim(s);
    assert r == [] || !IsBlank(r[0]);
    assert TrimStart(r) == r;
    assert TrimEnd(r) == r;
  }

  /** A string that starts and ends with a non-blank is its own trim. */
  lemma TrimOfWord(s: string)
    requires s != [] && !IsBlank(s[0]) && !IsBlank(s[|s| - 1])
    ensures Trim(s) == s
  {
    assert TrimStart(s) == s;
    assert TrimEnd(s) == s;
  }

  /** The character of one decimal digit. */
  function Digit(d: nat): (c: char)
    requires d < 10
    ensures '0' <= c <= '9'
  {
    (('0' as int) + d) as char
  }

  predicate IsDigit(c: char) {
    '0' <= c <= '9'
  }

  /** The decimal string Java writes for a non-negative int in "..." + counter + "...". */
  function NatToDecimal(n: nat): (r: string)
    ensures |r| >= 1
    ensures forall k :: 0 <= k < |r| ==> IsDigit(r[k])
    ensures n > 0 ==> r[0] != '0'
  {
    if n < 10 then [Digit(n)] else NatToDecimal(n / 10) + [Digit(n % 10)]
  }

  /** Reads a string of digits back as the number it denotes. */
  function DecimalValue(s: string): nat
    requires forall k :: 0 <= k < |s| ==> IsDigit(s[k])
  {
    if s == [] then 0
    else
      assert IsDigit(s[|s| - 1]);
      DecimalValue(s[..|s| - 1]) * 10 + ((s[|s| - 1] as int) - ('0' as int))
  }

  /** Reading back the decimal rendering of n gives n. */
  lemma {:induction false} DecimalRoundTrip(n: nat)
    ensures DecimalValue(NatToDecimal(n)) == n
  {
    var s := NatToDecimal(n);
    if n >= 10 {
      assert s[..|s| - 1] == NatToDecimal(n / 10);
      DecimalRoundTrip(n / 10);
    }
  }

  /** Two different counters never render as the same digits. */
  lemma DecimalInjective(n: nat, m: nat)
    requires NatToDecimal(n) == NatToDecimal(m)
    ensures n == m
  {
    DecimalRoundTrip(n);
    DecimalRoundTrip(m);
  }
}
