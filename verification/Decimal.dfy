// Decimal numbers as text: printing, reading back, and how the text sorts.
module Decimal {
  import opened Prelude

  predicate IsDigit(c: char) { '0' <= c <= '9' }

  predicate AllDigits(s: string) { forall i :: 0 <= i < |s| ==> IsDigit(s[i]) }

  function DigitOf(c: char): (d: int)
    requires IsDigit(c)
    ensures 0 <= d < 10
  {
    c as int - '0' as int
  }

  function DigitChar(d: int): (c: char)
    requires 0 <= d < 10
    ensures IsDigit(c) && DigitOf(c) == d
  {
    ('0' as int + d) as char
  }

  function Value(s: string): (n: int)
    requires AllDigits(s)
    ensures 0 <= n
  {
    if s == "" then 0 else 10 * Value(s[..|s| - 1]) + DigitOf(s[|s| - 1])
  }

  function Show(n: int): (s: string)
    requires 0 <= n
    ensures s != "" && AllDigits(s)
  {
    if n < 10 then [DigitChar(n)] else Show(n / 10) + [DigitChar(n % 10)]
  }

  function ShowInt(n: int): (s: string)
    ensures s != ""
  {
    if n < 0 then "-" + Show(-n) else Show(n)
  }

  predicate Is64Bit(n: int) { -0x8000_0000_0000_0000 <= n < 0x8000_0000_0000_0000 }

  // An optional sign, at least one digit, nothing else, within 64 bits.
  function ParseInt(s: string): Option<int> {
    var signed := s != "" && (s[0] == '-' || s[0] == '+');
    var digits := if signed then s[1..] else s;
    if digits == "" || !AllDigits(digits) then None
    else
      var n := if s[0] == '-' then -Value(digits) else Value(digits);
      if Is64Bit(n) then Some(n) else None
  }

  lemma {:induction false} ValueOfShow(n: int)
    requires 0 <= n
    ensures Value(Show(n)) == n
  {
    if n >= 10 {
      ValueOfShow(n / 10);
      var s := Show(n / 10);
      assert (s + [DigitChar(n % 10)])[..|s|] == s;
    }
  }

  lemma {:induction false} ParseOfShow(n: int)
    requires Is64Bit(n)
    ensures ParseInt(ShowInt(n)) == Some(n)
  {
    var s := ShowInt(n);
    if n < 0 {
      ValueOfShow(-n);
      assert s[1..] == Show(-n);
    } else {
      ValueOfShow(n);
      assert IsDigit(s[0]);
    }
  }

  /******* What reads as a number *******/

  // An optional sign and digits, leading zeros or not, that make up `n`, which
  // fits 64 bits.
  ghost predicate Numeral(s: string, n: int) {
    && Is64Bit(n)
    && exists digits: string ::
         && digits != "" && AllDigits(digits)
         && ((s == digits && n == Value(digits)) || (s == "+" + digits && n == Value(digits))
             || (s == "-" + digits && n == -Value(digits)))
  }

  lemma {:induction false} ParseReadsNumeral(s: string, n: int)
    ensures ParseInt(s) == Some(n) <==> Numeral(s, n)
  {
    if digits: string :| digits != "" && AllDigits(digits) && (s == digits || s == "+" + digits || s == "-" + digits) {
      if s == digits {
        assert IsDigit(s[0]);
      } else {
        assert s[1..] == digits;
      }
    }
    if ParseInt(s).Some? {
      var signed := s[0] == '-' || s[0] == '+';
      var digits := if signed then s[1..] else s;
      assert signed ==> s == [s[0]] + digits;
      assert AllDigits(digits) && digits != "";
    }
  }

  // Zeros in front do not change what is read.
  lemma {:induction false} ValueOfPadded(zeros: string, digits: string)
    requires AllDigits(digits) && forall i :: 0 <= i < |zeros| ==> zeros[i] == '0'
    ensures AllDigits(zeros + digits) && Value(zeros + digits) == Value(digits)
  {
    var s := zeros + digits;
    if digits == "" {
      if zeros != "" {
        var n := |zeros| - 1;
        ValueOfPadded(zeros[..n], "");
        assert s[..n] == zeros[..n] + "" && s[n] == '0';
      }
    } else {
      var n := |digits| - 1;
      ValueOfPadded(zeros, digits[..n]);
      assert s[..|s| - 1] == zeros + digits[..n] && s[|s| - 1] == digits[n];
    }
  }

  /******* Byte order *******/

  // Strings in the order an ordered key-value store keeps them.
  predicate Less(a: string, b: string) {
    b != "" && (a == "" || a[0] < b[0] || (a[0] == b[0] && Less(a[1..], b[1..])))
  }

  lemma {:induction false} LessIrreflexive(a: string)
    ensures !Less(a, a)
  {
    if a == "" {
    } else {
      LessIrreflexive(a[1..]);
    }
  }

  lemma {:induction false} LessTransitive(a: string, b: string, c: string)
    requires Less(a, b) && Less(b, c)
    ensures Less(a, c)
  {
    if a != "" && a[0] == b[0] == c[0] { LessTransitive(a[1..], b[1..], c[1..]); }
  }

  lemma {:induction false} LessTotal(a: string, b: string)
    ensures Less(a, b) || a == b || Less(b, a)
  {
    if a != "" && b != "" && a[0] == b[0] {
      LessTotal(a[1..], b[1..]);
      if a[1..] == b[1..] { assert a == [a[0]] + a[1..] && b == [b[0]] + b[1..]; }
    }
  }

  // Equal prefixes do not matter; a difference before the end settles it.
  lemma {:induction false} LessAfter(p: string, a: string, b: string)
    ensures Less(p + a, p + b) <==> Less(a, b)
  {
    if p == "" {
      assert p + a == a && p + b == b;
    } else {
      LessAfter(p[1..], a, b);
      assert (p + a)[1..] == p[1..] + a && (p + b)[1..] == p[1..] + b;
    }
  }

  lemma {:induction false} LessBefore(a: string, b: string, x: string, y: string)
    requires |a| == |b| && Less(a, b)
    ensures Less(a + x, b + y)
  {
    if a[0] == b[0] {
      LessBefore(a[1..], b[1..], x, y);
    }
    assert (a + x)[1..] == a[1..] + x && (b + y)[1..] == b[1..] + y;
  }

  // Digit strings of one width sort like the numbers they spell.
  lemma {:induction false} WidthOrder(a: string, b: string)
    requires |a| == |b| && AllDigits(a) && AllDigits(b)
    ensures Less(a, b) <==> Value(a) < Value(b)
    decreases |a|
  {
    if a == "" {
    } else {
      var n := |a| - 1;
      var p, q := a[..n], b[..n];
      assert a == p + [a[n]] && b == q + [b[n]];
      WidthOrder(p, q);
      WidthOrder(q, p);
      LessTotal(p, q);
      if Less(p, q) {
        LessBefore(p, q, [a[n]], [b[n]]);
      } else if p == q {
        LessAfter(p, [a[n]], [b[n]]);
        assert [a[n]][1..] == "" && [b[n]][1..] == "";
      } else {
        LessBefore(q, p, [b[n]], [a[n]]);
        NotBoth(b, a);
      }
    }
  }

  lemma {:induction false} NotBoth(a: string, b: string)
    requires Less(a, b)
    ensures !Less(b, a)
  {
    if Less(b, a) {
      LessTransitive(a, b, a);
      LessIrreflexive(a);
    }
  }

  // Two strings with heads of one length compare by their heads first.
  lemma {:induction false} LessByHead(a: string, b: string, x: string, y: string)
    requires |a| == |b|
    ensures Less(a + x, b + y) <==> Less(a, b) || (a == b && Less(x, y))
  {
    LessTotal(a, b);
    LessAfter(a, x, y);
    if Less(a, b) {
      LessBefore(a, b, x, y);
    } else if Less(b, a) {
      LessBefore(b, a, y, x);
      NotBoth(b + y, a + x);
      LessIrreflexive(a);
    }
  }

  lemma {:induction false} WiderIsMore(m: int, n: int)
    requires 0 <= m && 0 <= n && |Show(m)| < |Show(n)|
    ensures m < n
  {
    if n <= m { WidthGrows(n, m); }
  }

  lemma {:induction false} WidthGrows(m: int, n: int)
    requires 0 <= m <= n
    ensures |Show(m)| <= |Show(n)|
  {
    if n < 10 {
    } else if m < 10 {
    } else {
      assert m / 10 <= n / 10;
      WidthGrows(m / 10, n / 10);
    }
  }

  lemma {:induction false} DigitsHead(s: string, w: nat)
    requires AllDigits(s) && w <= |s|
    ensures AllDigits(s[..w])
  {
  }

  // The number that the first `w` digits spell.
  function Lead(n: int, w: nat): int
    requires 0 <= n && w <= |Show(n)|
  {
    DigitsHead(Show(n), w);
    Value(Show(n)[..w])
  }
}
