/** The string operations the extension relies on: ASCII case folding, trimming,
    decimal printing and reading, and the byte order used for sorting. */
module Text {
  import opened Wrappers

  // ---------------------------------------------------------------- case folding

  function LowerChar(c: char): char {
    if 'A' <= c <= 'Z' then (c as int + 32) as char else c
  }

  function Lower(s: string): (r: string)
    ensures |r| == |s|
    ensures forall i :: 0 <= i < |s| ==> r[i] == LowerChar(s[i])
  {
    seq(|s|, i requires 0 <= i < |s| => LowerChar(s[i]))
  }

  predicate CIEquals(a: string, b: string) {
    Lower(a) == Lower(b)
  }

  /** One letter in either case, or the same character. */
  predicate SameLetter(x: char, y: char) {
    x == y || ('A' <= x <= 'Z' && y as int == x as int + 32) || ('A' <= y <= 'Z' && x as int == y as int + 32)
  }

  /** Equality up to case concerns the letters A to Z only. */
  lemma CIEqualsExactly(a: string, b: string)
    ensures CIEquals(a, b) <==> |a| == |b| && forall i :: 0 <= i < |a| ==> SameLetter(a[i], b[i])
  {
    forall x: char, y: char ensures LowerChar(x) == LowerChar(y) <==> SameLetter(x, y) { }
    if CIEquals(a, b) {
      assert |Lower(a)| == |a| && |Lower(b)| == |b|;
      forall i | 0 <= i < |a| ensures SameLetter(a[i], b[i]) { assert Lower(a)[i] == Lower(b)[i]; }
    }
  }

  // ---------------------------------------------------------------- trimming

  predicate IsSpace(c: char) {
    c == ' ' || '\t' <= c <= '\r'
  }

  function TrimLeft(s: string): string {
    if s != [] && IsSpace(s[0]) then TrimLeft(s[1..]) else s
  }

  function TrimRight(s: string): string {
    if s != [] && IsSpace(s[|s| - 1]) then TrimRight(s[..|s| - 1]) else s
  }

  function Trim(s: string): string {
    TrimRight(TrimLeft(s))
  }

  /** The whitespace characters: space, tab, newline, vertical tab, form feed, carriage return. */
  lemma SpacesExactly(c: char)
    ensures IsSpace(c) <==> c as int in {32, 9, 10, 11, 12, 13}
  {
  }

  /** No whitespace at either end. */
  predicate Trimmed(s: string) {
    s == [] || (!IsSpace(s[0]) && !IsSpace(s[|s| - 1]))
  }

  predicate Blank(s: string) {
    forall c | c in s :: IsSpace(c)
  }

  /** The key under which a dimension name is looked up. */
  function Normalize(s: string): string {
    Trim(Lower(s))
  }

  lemma {:induction false} TrimLeftShape(s: string)
    ensures |TrimLeft(s)| <= |s|
    ensures TrimLeft(s) == s[|s| - |TrimLeft(s)|..]
    ensures TrimLeft(s) == [] || !IsSpace(TrimLeft(s)[0])
    ensures forall i :: 0 <= i < |s| - |TrimLeft(s)| ==> IsSpace(s[i])
  {
    if s != [] && IsSpace(s[0]) {
      TrimLeftShape(s[1..]);
      forall i | 0 <= i < |s| - |TrimLeft(s)| ensures IsSpace(s[i]) {
        if i > 0 { assert s[i] == s[1..][i - 1]; }
      }
    }
  }

  lemma {:induction false} TrimRightShape(s: string)
    ensures |TrimRight(s)| <= |s|
    ensures TrimRight(s) == s[..|TrimRight(s)|]
    ensures TrimRight(s) == [] || !IsSpace(TrimRight(s)[|TrimRight(s)| - 1])
    ensures forall i :: |TrimRight(s)| <= i < |s| ==> IsSpace(s[i])
  {
    if s != [] && IsSpace(s[|s| - 1]) {
      TrimRightShape(s[..|s| - 1]);
      assert s[..|s| - 1][..|TrimRight(s)|] == s[..|TrimRight(s)|];
    }
  }

  /** Trimming keeps a slice: everything cut off is whitespace and the rest is trimmed. */
  lemma TrimShape(s: string) returns (lo: nat, hi: nat)
    ensures lo <= hi <= |s| && Trim(s) == s[lo..hi] && Trimmed(Trim(s))
    ensures forall i :: 0 <= i < lo || hi <= i < |s| ==> IsSpace(s[i])
  {
    TrimLeftShape(s);
    TrimRightShape(TrimLeft(s));
    lo := |s| - |TrimLeft(s)|;
    hi := lo + |Trim(s)|;
    forall i | 0 <= i < lo || hi <= i < |s| ensures IsSpace(s[i]) {
      if hi <= i { assert s[i] == TrimLeft(s)[i - lo]; }
    }
  }

  lemma TrimIsTrimmed(s: string)
    ensures Trimmed(Trim(s)) && |Trim(s)| <= |s|
  {
    var _, _ := TrimShape(s);
  }

  lemma TrimFixpoint(s: string)
    ensures Trim(s) == s <==> Trimmed(s)
  {
    var lo, hi := TrimShape(s);
  }

  lemma TrimIdempotent(s: string)
    ensures Trim(Trim(s)) == Trim(s)
  {
    TrimIsTrimmed(s);
    TrimFixpoint(Trim(s));
  }

  lemma TrimBlank(s: string)
    ensures Trim(s) == [] <==> Blank(s)
  {
    var lo, hi := TrimShape(s);
    if Trim(s) == [] {
      forall c | c in s ensures IsSpace(c) { var i :| 0 <= i < |s| && s[i] == c; }
    } else {
      assert Trim(s)[0] == s[lo] && s[lo] in s;
    }
  }

  lemma {:induction false} LowerTrimLeft(s: string)
    ensures Lower(TrimLeft(s)) == TrimLeft(Lower(s))
  {
    if s != [] && IsSpace(s[0]) {
      LowerTrimLeft(s[1..]);
      assert Lower(s)[1..] == Lower(s[1..]);
    }
  }

  lemma {:induction false} LowerTrimRight(s: string)
    ensures Lower(TrimRight(s)) == TrimRight(Lower(s))
  {
    if s != [] && IsSpace(s[|s| - 1]) {
      LowerTrimRight(s[..|s| - 1]);
      assert Lower(s)[..|s| - 1] == Lower(s[..|s| - 1]);
    }
  }

  lemma LowerTrim(s: string)
    ensures Lower(Trim(s)) == Trim(Lower(s))
  {
    LowerTrimLeft(s);
    LowerTrimRight(TrimLeft(s));
  }

  lemma NormalizeTrim(s: string)
    ensures Normalize(Trim(s)) == Normalize(s)
  {
    LowerTrim(s);
    TrimIdempotent(Lower(s));
  }

  /** Two names have one key exactly when they are equal up to case and outer whitespace. */
  lemma NormalizeExactly(a: string, b: string)
    ensures Normalize(a) == Normalize(b) <==> CIEquals(Trim(a), Trim(b))
  {
    LowerTrim(a);
    LowerTrim(b);
  }

  // ---------------------------------------------------------------- decimal numbers

  function Digit(d: nat): char
    requires d < 10
  {
    ('0' as int + d) as char
  }

  predicate IsDigit(c: char) {
    '0' <= c <= '9'
  }

  function DigitValue(c: char): nat
    requires IsDigit(c)
  {
    c as int - '0' as int
  }

  function Decimal(n: nat): (r: string)
    ensures r != [] && forall c | c in r :: IsDigit(c)
  {
    if n < 10 then [Digit(n)] else Decimal(n / 10) + [Digit(n % 10)]
  }

  function NatOf(s: string): nat
    requires forall c | c in s :: IsDigit(c)
  {
    if s == [] then 0 else 10 * NatOf(s[..|s| - 1]) + DigitValue(s[|s| - 1])
  }

  lemma {:induction false} NatOfDecimal(n: nat)
    ensures NatOf(Decimal(n)) == n
  {
    if n < 10 {
      assert Decimal(n)[..0] == [];
    } else {
      NatOfDecimal(n / 10);
      assert Decimal(n)[..|Decimal(n)| - 1] == Decimal(n / 10);
    }
  }

  lemma DecimalInjective(a: nat, b: nat)
    requires Decimal(a) == Decimal(b)
    ensures a == b
  {
    NatOfDecimal(a);
    NatOfDecimal(b);
  }

  lemma {:induction false} NatOfLeadingZero(s: string)
    requires forall c | c in s :: IsDigit(c)
    ensures NatOf("0" + s) == NatOf(s)
  {
    if s == [] {
      assert ("0" + s)[..0] == [];
    } else {
      NatOfLeadingZero(s[..|s| - 1]);
      assert ("0" + s)[..|s|] == "0" + s[..|s| - 1];
    }
  }

  /** Signed printing, as the cast of an integer to text. */
  function DecimalInt(n: int): (r: string)
    ensures r != []
  {
    if n < 0 then "-" + Decimal(-n) else Decimal(n)
  }

  predicate AllDigits(s: string) {
    s != [] && forall c | c in s :: IsDigit(c)
  }

  /** Signed reading, as the cast of text to an integer. */
  function IntegerOf(s: string): Option<int> {
    if AllDigits(s) then Some(NatOf(s))
    else if s != [] && s[0] == '-' && AllDigits(s[1..]) then Some(0 - NatOf(s[1..]))
    else None
  }

  lemma IntegerOfDecimalInt(n: int)
    ensures IntegerOf(DecimalInt(n)) == Some(n)
  {
    if n < 0 {
      NatOfDecimal(-n);
      assert DecimalInt(n)[0] in DecimalInt(n) && DecimalInt(n)[1..] == Decimal(-n);
    } else {
      NatOfDecimal(n);
    }
  }

  /** A second spelling of the same integer, one character longer. */
  function PaddedInt(n: int): string {
    if n < 0 then "-0" + Decimal(-n) else "0" + Decimal(n)
  }

  lemma DecimalEnds(n: nat)
    ensures AllDigits(Decimal(n)) && AllDigits("0" + Decimal(n))
    ensures IsDigit(Decimal(n)[0]) && IsDigit(Decimal(n)[|Decimal(n)| - 1])
    ensures NatOf("0" + Decimal(n)) == n
  {
    NatOfDecimal(n);
    NatOfLeadingZero(Decimal(n));
    assert Decimal(n)[0] in Decimal(n) && Decimal(n)[|Decimal(n)| - 1] in Decimal(n);
  }

  lemma IntegerOfPaddedInt(n: int)
    ensures IntegerOf(PaddedInt(n)) == Some(n) && |PaddedInt(n)| == |DecimalInt(n)| + 1
    ensures Trimmed(PaddedInt(n)) && Trimmed(DecimalInt(n))
  {
    var p := PaddedInt(n);
    if n < 0 {
      DecimalEnds(-n);
      assert p[1..] == "0" + Decimal(-n);
      assert p[0] == '-' && p[0] in p;
      assert p[|p| - 1] == Decimal(-n)[|Decimal(-n)| - 1];
    } else {
      DecimalEnds(n);
      assert p[|p| - 1] == Decimal(n)[|Decimal(n)| - 1];
    }
  }

  // ---------------------------------------------------------------- byte order

  /** Lexicographic order on character codes, the order of `std::string::operator<`. */
  predicate AtMost(a: string, b: string) {
    a == [] || (b != [] && (a[0] < b[0] || (a[0] == b[0] && AtMost(a[1..], b[1..]))))
  }

  /** The first position where the texts differ decides, and a prefix comes first. */
  predicate DecidedAt(a: string, b: string, k: nat) {
    k <= |a| && k <= |b| && a[..k] == b[..k] && (k == |a| || (k < |b| && a[k] < b[k]))
  }

  lemma {:induction false} AtMostExactly(a: string, b: string)
    ensures AtMost(a, b) <==> exists k: nat :: DecidedAt(a, b, k)
  {
    if a == [] {
      assert DecidedAt(a, b, 0);
    } else if b != [] {
      AtMostExactly(a[1..], b[1..]);
      if a[0] < b[0] { assert DecidedAt(a, b, 0); }
      if k: nat :| a[0] == b[0] && DecidedAt(a[1..], b[1..], k) {
        assert a[..k + 1] == [a[0]] + a[1..][..k] && b[..k + 1] == [b[0]] + b[1..][..k];
        assert DecidedAt(a, b, k + 1);
      }
      forall k: nat | DecidedAt(a, b, k) ensures AtMost(a, b) {
        if k > 0 {
          assert a[..k][0] == a[0] && b[..k][0] == b[0];
          assert a[1..][..k - 1] == a[..k][1..] && b[1..][..k - 1] == b[..k][1..];
          assert DecidedAt(a[1..], b[1..], k - 1);
        }
      }
    } else {
      assert forall k: nat :: DecidedAt(a, b, k) ==> k == 0;
    }
  }

  lemma {:induction false} AtMostAntisymmetric(a: string, b: string)
    requires AtMost(a, b) && AtMost(b, a)
    ensures a == b
  {
    if a != [] && b != [] {
      AtMostAntisymmetric(a[1..], b[1..]);
      assert a == [a[0]] + a[1..] && b == [b[0]] + b[1..];
    }
  }

  lemma {:induction false} AtMostTransitive(a: string, b: string, c: string)
    requires AtMost(a, b) && AtMost(b, c)
    ensures AtMost(a, c)
  {
    if a != [] && a[0] == b[0] && b[0] == c[0] {
      AtMostTransitive(a[1..], b[1..], c[1..]);
    }
  }

  lemma {:induction false} AtMostTotal(a: string, b: string)
    ensures AtMost(a, b) || AtMost(b, a)
  {
    if a != [] && b != [] && a[0] == b[0] {
      AtMostTotal(a[1..], b[1..]);
    }
  }
}
