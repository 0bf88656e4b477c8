/**
 * The string helpers the ledger leans on: Go's strings.TrimSpace,
 * strings.ToLower and strings.EqualFold, and the identifier generator
 * genID, which writes a prefix followed by a decimal number.
 */
module Text {

  /** Go's unicode.IsSpace: the Unicode White_Space code points. */
  predicate IsSpace(c: char) {
    var n := c as int;
    (9 <= n <= 13) || n == 0x20 || n == 0x85 || n == 0xA0 || n == 0x1680
    || (0x2000 <= n <= 0x200A) || n == 0x2028 || n == 0x2029 || n == 0x202F
    || n == 0x205F || n == 0x3000
  }

  /** Drops leading white space. */
  function TrimLeft(s: string): (r: string)
    ensures |r| <= |s|
    ensures r != [] ==> !IsSpace(r[0])
  {
    if s != [] && IsSpace(s[0]) then TrimLeft(s[1..]) else s
  }

  /** What TrimLeft keeps is a suffix of s, and all it drops is white space. */
  lemma {:induction false} TrimLeftCut(s: string)
    ensures var r := TrimLeft(s);
            && r == s[|s| - |r|..]
            && forall i :: 0 <= i < |s| - |r| ==> IsSpace(s[i])
  {
    if s != [] && IsSpace(s[0]) {
      TrimLeftCut(s[1..]);
    }
  }

  /** Drops trailing white space. */
  function TrimRight(s: string): (r: string)
    ensures |r| <= |s|
    ensures r != [] ==> !IsSpace(r[|r| - 1])
  {
    if s != [] && IsSpace(s[|s| - 1]) then TrimRight(s[..|s| - 1]) else s
  }

  /** What TrimRight keeps is a prefix of s, and all it drops is white space. */
  lemma {:induction false} TrimRightCut(s: string)
    ensures var r := TrimRight(s);
            && r == s[..|r|]
            && forall i :: |r| <= i < |s| ==> IsSpace(s[i])
  {
    if s != [] && IsSpace(s[|s| - 1]) {
      TrimRightCut(s[..|s| - 1]);
      assert s[..|s| - 1][..|TrimRight(s)|] == s[..|TrimRight(s)|];
    }
  }

  /** r is s[lo..lo + |r|], and everything of s outside it is white space. */
  predicate CutAt(s: string, r: string, lo: int) {
    && 0 <= lo <= lo + |r| <= |s|
    && r == s[lo..lo + |r|]
    && (forall i :: 0 <= i < lo ==> IsSpace(s[i]))
    && (forall i :: lo + |r| <= i < |s| ==> IsSpace(s[i]))
  }

  /** strings.TrimSpace: white space cut from both ends. */
  function TrimSpace(s: string): (r: string)
    ensures |r| <= |s|
    ensures r != [] ==> !IsSpace(r[0]) && !IsSpace(r[|r| - 1])
  {
    var l := TrimLeft(s);
    TrimRightCut(l);
    TrimRight(l)
  }

  /**
   * TrimSpace gives the infix of s obtained by cutting only white space
   * from both ends.
   */
  lemma TrimSpaceCut(s: string)
    ensures exists lo :: CutAt(s, TrimSpace(s), lo)
  {
    var l := TrimLeft(s);
    var r := TrimRight(l);
    var lo := |s| - |l|;
    TrimLeftCut(s);
    TrimRightCut(l);
    assert l == s[lo..];
    assert r == l[..|r|];
    assert r == s[lo..lo + |r|];
    forall i | lo + |r| <= i < |s|
      ensures IsSpace(s[i])
    {
      assert s[i] == l[i - lo];
    }
    assert TrimSpace(s) == r;
    assert CutAt(s, TrimSpace(s), lo);
  }

  /** A string that neither starts nor ends with white space is left alone. */
  lemma TrimSpaceKeepsTrimmed(s: string)
    requires s != [] ==> !IsSpace(s[0]) && !IsSpace(s[|s| - 1])
    ensures TrimSpace(s) == s
  {
  }

  /** One white-space character on either side of a trimmed string is cut off. */
  lemma TrimSpaceUnpads(c: char, s: string, d: char)
    requires IsSpace(c) && IsSpace(d)
    requires s != [] ==> !IsSpace(s[0]) && !IsSpace(s[|s| - 1])
    ensures TrimSpace([c] + s + [d]) == s
  {
    var p := [c] + s + [d];
    assert p[1..] == s + [d];
    if s == [] {
      assert TrimLeft(p) == TrimLeft([d]) == [];
    } else {
      assert TrimLeft(p) == s + [d];
      assert (s + [d])[..|s|] == s;
      assert TrimRight(s + [d]) == s;
    }
  }

  /** Trimming twice is trimming once. */
  lemma TrimSpaceIdempotent(s: string)
    ensures TrimSpace(TrimSpace(s)) == TrimSpace(s)
  {
    TrimSpaceKeepsTrimmed(TrimSpace(s));
  }

  /** Lower-casing of one character, for the ASCII letters A to Z. */
  function LowerChar(c: char): char {
    if 'A' <= c <= 'Z' then (c as int + 32) as char else c
  }

  /** strings.ToLower, character by character. */
  function ToLower(s: string): (r: string)
    ensures |r| == |s|
  {
    if s == [] then [] else [LowerChar(s[0])] + ToLower(s[1..])
  }

  /** Each character of the lower-cased string is the lower case of the one it came from. */
  lemma {:induction false} ToLowerAt(s: string, i: nat)
    requires i < |s|
    ensures ToLower(s)[i] == LowerChar(s[i])
  {
    if i > 0 {
      ToLowerAt(s[1..], i - 1);
    }
  }

  /** A string without upper-case letters is left alone. */
  lemma {:induction false} ToLowerKeepsLower(s: string)
    requires forall i :: 0 <= i < |s| ==> !('A' <= s[i] <= 'Z')
    ensures ToLower(s) == s
  {
    if s != [] {
      ToLowerKeepsLower(s[1..]);
    }
  }

  /** Lower-casing twice is lower-casing once. */
  lemma {:induction false} ToLowerIdempotent(s: string)
    ensures ToLower(ToLower(s)) == ToLower(s)
  {
    if s != [] {
      ToLowerIdempotent(s[1..]);
      assert ToLower(s)[1..] == ToLower(s[1..]);
    }
  }

  /** strings.EqualFold: equal once both sides are lower-cased. */
  predicate EqualFold(a: string, b: string): (r: bool)
    ensures r ==> |a| == |b|
    ensures a == b ==> r
  {
    ToLower(a) == ToLower(b)
  }

  /** EqualFold compares position by position, after lower-casing each character. */
  lemma EqualFoldPointwise(a: string, b: string)
    ensures EqualFold(a, b) <==> |a| == |b| && forall i :: 0 <= i < |a| ==> LowerChar(a[i]) == LowerChar(b[i])
  {
    forall i | 0 <= i < |a| ensures ToLower(a)[i] == LowerChar(a[i]) {
      ToLowerAt(a, i);
    }
    forall i | 0 <= i < |b| ensures ToLower(b)[i] == LowerChar(b[i]) {
      ToLowerAt(b, i);
    }
  }

  predicate IsDigit(c: char) {
    '0' as int <= c as int <= '9' as int
  }

  function DigitChar(d: nat): (c: char)
    requires d < 10
    ensures IsDigit(c) && c as int - '0' as int == d
  {
    ('0' as int + d) as char
  }

  /** The decimal numeral of n, as fmt's %d writes it. */
  function Decimal(n: nat): (r: string)
    ensures r != []
    ensures forall i :: 0 <= i < |r| ==> IsDigit(r[i])
  {
    if n < 10 then [DigitChar(n)] else Decimal(n / 10) + [DigitChar(n % 10)]
  }

  /** The value of a numeral, read back most significant digit first. */
  function DecimalValue(s: string): nat
    requires forall i :: 0 <= i < |s| ==> IsDigit(s[i])
  {
    if s == [] then 0
    else
      assert IsDigit(s[|s| - 1]);
      DecimalValue(s[..|s| - 1]) * 10 + (s[|s| - 1] as int - '0' as int)
  }

  /** Reading a numeral back gives the number it was written from. */
  lemma {:induction false} DecimalRoundTrip(n: nat)
    ensures DecimalValue(Decimal(n)) == n
  {
    if n >= 10 {
      var s := Decimal(n);
      assert s[..|s| - 1] == Decimal(n / 10);
      DecimalRoundTrip(n / 10);
    }
  }

  /** genID: the prefix followed by the decimal numeral of n. */
  function GenID(prefix: string, n: nat): (r: string)
    ensures |r| > |prefix| && r[..|prefix|] == prefix
  {
    prefix + Decimal(n)
  }

  /** Under one prefix, genID never gives the same identifier for two numbers. */
  lemma GenIDInjective(prefix: string, n: nat, m: nat)
    requires GenID(prefix, n) == GenID(prefix, m)
    ensures n == m
  {
    assert Decimal(n) == GenID(prefix, n)[|prefix|..];
    assert Decimal(m) == GenID(prefix, m)[|prefix|..];
    DecimalRoundTrip(n);
    DecimalRoundTrip(m);
  }
}
