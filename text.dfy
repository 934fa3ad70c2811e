/**
  The two pieces of Python text handling the hub relies on: `str.strip()` with no
  argument (it removes the characters for which `str.isspace()` holds) and the
  decimal rendering of a non-negative `int` in an f-string.
 */
module Text {

  /**
    `c.isspace()` in Python 3: the characters of Unicode bidirectional class WS, B or S
    and of general category Zs.
   */
  predicate IsSpace(c: char) {
    var x := c as int;
    || 0x09 <= x <= 0x0D || 0x1C <= x <= 0x20
    || x == 0x85 || x == 0xA0 || x == 0x1680
    || 0x2000 <= x <= 0x200A
    || x == 0x2028 || x == 0x2029 || x == 0x202F || x == 0x205F || x == 0x3000
  }

  predicate AllSpace(s: string) { forall i | 0 <= i < |s| :: IsSpace(s[i]) }

  /** Neither end of `s` is whitespace (vacuously for the empty string). */
  predicate Trimmed(s: string) { s == [] || (!IsSpace(s[0]) && !IsSpace(s[|s| - 1])) }

  /** The number of whitespace characters `s` starts with. */
  function LeadingSpaces(s: string): (n: nat)
    ensures n <= |s|
    ensures forall i | 0 <= i < n :: IsSpace(s[i])
    ensures n < |s| ==> !IsSpace(s[n])
  {
    if s != [] && IsSpace(s[0]) then 1 + LeadingSpaces(s[1..]) else 0
  }

  /** The number of whitespace characters `s` ends with. */
  function TrailingSpaces(s: string): (n: nat)
    ensures n <= |s|
    ensures forall i | |s| - n <= i < |s| :: IsSpace(s[i])
    ensures n < |s| ==> !IsSpace(s[|s| - n - 1])
  {
    if s != [] && IsSpace(s[|s| - 1]) then 1 + TrailingSpaces(s[..|s| - 1]) else 0
  }

  /* The whitespace run at the start of `s` is determined by where the first non-space is. */
  lemma {:induction false} LeadingSpacesUnique(s: string, n: nat)
    requires n <= |s| && (forall i | 0 <= i < n :: IsSpace(s[i])) && (n < |s| ==> !IsSpace(s[n]))
    ensures LeadingSpaces(s) == n
  {
    if n > 0 {
      assert IsSpace(s[0]);
      assert forall i | 0 <= i < n - 1 :: s[1..][i] == s[i + 1];
      LeadingSpacesUnique(s[1..], n - 1);
    }
  }

  /* The whitespace run at the end of `s` is determined by where the last non-space is. */
  lemma {:induction false} TrailingSpacesUnique(s: string, n: nat)
    requires n <= |s| && (forall i | |s| - n <= i < |s| :: IsSpace(s[i]))
    requires n < |s| ==> !IsSpace(s[|s| - n - 1])
    ensures TrailingSpaces(s) == n
  {
    if n > 0 {
      assert IsSpace(s[|s| - 1]);
      TrailingSpacesUnique(s[..|s| - 1], n - 1);
    }
  }

  /** `s.lstrip()`: the longest suffix of `s` that does not start with whitespace. */
  function TrimStart(s: string): (r: string)
    ensures |r| <= |s| && r == s[|s| - |r|..]
    ensures AllSpace(s[..|s| - |r|]) && (r == [] || !IsSpace(r[0]))
  {
    s[LeadingSpaces(s)..]
  }

  /** `s.rstrip()`: the longest prefix of `s` that does not end with whitespace. */
  function TrimEnd(s: string): (r: string)
    ensures |r| <= |s| && r == s[..|r|]
    ensures AllSpace(s[|r|..]) && (r == [] || !IsSpace(r[|r| - 1]))
  {
    s[..|s| - TrailingSpaces(s)]
  }

  /** `s.strip()`: a slice of `s` with no whitespace at either end. */
  function Strip(s: string): (r: string)
    ensures |r| <= |s| && Trimmed(r)
  {
    TrimEnd(TrimStart(s))
  }

  /* `s.lstrip()` cuts a whitespace prefix off `s` and leaves no whitespace at the start. */
  lemma TrimStartParts(s: string) returns (w: string)
    ensures AllSpace(w) && s == w + TrimStart(s)
    ensures TrimStart(s) == [] || !IsSpace(TrimStart(s)[0])
  {
    w := s[..LeadingSpaces(s)];
    assert s == w + TrimStart(s);
  }

  /* `s.rstrip()` cuts a whitespace suffix off `s` and leaves no whitespace at the end. */
  lemma TrimEndParts(s: string) returns (w: string)
    ensures AllSpace(w) && s == TrimEnd(s) + w
    ensures TrimEnd(s) == [] || !IsSpace(TrimEnd(s)[|TrimEnd(s)| - 1])
  {
    var n := TrailingSpaces(s);
    w := s[|s| - n..];
    assert AllSpace(w) by {
      forall i | 0 <= i < |w| ensures IsSpace(w[i]) {
        assert w[i] == s[|s| - n + i];
      }
    }
    assert s == TrimEnd(s) + w;
  }

  /** `s.strip()` is `s` with a whitespace prefix `w1` and a whitespace suffix `w2` cut off, and has no whitespace at either end. */
  lemma StripParts(s: string) returns (w1: string, w2: string)
    ensures Trimmed(Strip(s))
    ensures AllSpace(w1) && AllSpace(w2) && s == w1 + Strip(s) + w2
  {
    var t := TrimStart(s);
    var r := TrimEnd(t);
    w1 := TrimStartParts(s);
    w2 := TrimEndParts(t);
    if r != [] {
      assert r[0] == t[0];
    }
    assert w1 + (r + w2) == w1 + r + w2;
  }

  /** Stripping a text padded with whitespace on both sides recovers the text, when its own ends are not whitespace. */
  lemma StripPadded(w1: string, t: string, w2: string)
    requires AllSpace(w1) && AllSpace(w2) && Trimmed(t)
    ensures Strip(w1 + t + w2) == t
  {
    var s := w1 + t + w2;
    if t == [] {
      LeadingSpacesUnique(s, |s|);
      assert TrimStart(s) == [];
    } else {
      assert s[|w1|] == t[0];
      LeadingSpacesUnique(s, |w1|);
      var u := s[|w1|..];
      assert u == t + w2;
      assert u[|u| - |w2| - 1] == t[|t| - 1];
      TrailingSpacesUnique(u, |w2|);
      assert u[..|u| - |w2|] == t;
    }
  }

  /** Stripping is idempotent. */
  lemma StripIdempotent(s: string)
    ensures Strip(Strip(s)) == Strip(s)
  {
    var w1, w2 := StripParts(s);
    StripPadded([], Strip(s), []);
    assert [] + Strip(s) + [] == Strip(s);
  }

  function DigitChar(d: nat): (c: char)
    requires d < 10
  {
    ('0' as int + d) as char
  }

  predicate IsDigit(c: char) { '0' <= c <= '9' }

  /** `str(n)` for a non-negative `n`: its decimal digits, without leading zeros. */
  function Decimal(n: nat): (r: string)
    ensures r != [] && forall i | 0 <= i < |r| :: IsDigit(r[i])
    ensures |r| > 1 ==> r[0] != '0'
  {
    if n < 10 then [DigitChar(n)] else Decimal(n / 10) + [DigitChar(n % 10)]
  }

  /** Reads decimal digits back as a number, the reverse of `Decimal`. */
  function DigitsValue(s: string): nat
    requires forall i | 0 <= i < |s| :: IsDigit(s[i])
  {
    if s == [] then 0
    else
      var last := s[|s| - 1];
      assert IsDigit(last);
      DigitsValue(s[..|s| - 1]) * 10 + (last as int - '0' as int)
  }

  lemma {:induction false} DigitsValueOfDecimal(n: nat)
    ensures DigitsValue(Decimal(n)) == n
  {
    if n >= 10 {
      var r := Decimal(n);
      assert r[..|r| - 1] == Decimal(n / 10);
      DigitsValueOfDecimal(n / 10);
    }
  }

  function Pow10(k: nat): nat { if k == 0 then 1 else 10 * Pow10(k - 1) }

  /** A number below 10^k has at most k decimal digits. */
  lemma {:induction false} DecimalLength(n: nat, k: nat)
    requires 1 <= k && n < Pow10(k)
    ensures |Decimal(n)| <= k
  {
    if n >= 10 {
      assert Pow10(1) == 10;
      DecimalLength(n / 10, k - 1);
    }
  }
}
