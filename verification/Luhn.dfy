/**
 The Luhn checksum (ISO/IEC 7812-1, Annex B) that decides whether a run of
 digits is masked as a card number.
 */
module Luhn {
  import opened Decimal

  predicate IsSeparator(c: char) { c == ' ' || c == '-' }

  function Face(c: char): int { c as int - '0' as int }

  function Stripped(s: string): string {
    if s == "" then ""
    else Stripped(s[..|s| - 1]) + if IsSeparator(s[|s| - 1]) then [] else [s[|s| - 1]]
  }

  // A digit's share of the sum; every second one from the right is doubled.
  function Weight(c: char, doubled: bool): int {
    if !doubled then Face(c) else if 2 * Face(c) > 9 then 2 * Face(c) - 9 else 2 * Face(c)
  }

  function Checksum(digits: string, doubled: bool): int {
    if digits == "" then 0 else Weight(digits[|digits| - 1], doubled) + Checksum(digits[..|digits| - 1], !doubled)
  }

  predicate CardLength(n: int) { 13 <= n <= 19 }

  ghost predicate Card(digits: string) {
    AllDigits(digits) && CardLength(|digits|) && Checksum(digits, false) % 10 == 0
  }

  ghost predicate Accepted(s: string) { Card(Stripped(s)) }

  lemma {:induction false} StrippedConcat(a: string, b: string)
    ensures Stripped(a + b) == Stripped(a) + Stripped(b)
  {
    if b == "" {
      assert a + b == a;
    } else {
      var n := |b| - 1;
      assert (a + b)[..|a| + n] == a + b[..n];
      StrippedConcat(a, b[..n]);
    }
  }

  lemma {:induction false} StrippedOne(c: char)
    ensures Stripped([c]) == if IsSeparator(c) then [] else [c]
  {
    assert [c][..0] == "";
  }

  lemma {:induction false} StrippedSplit(s: string, i: nat)
    requires i < |s|
    ensures Stripped(s) == Stripped(s[..i]) + (if IsSeparator(s[i]) then [] else [s[i]]) + Stripped(s[i + 1..])
  {
    assert s == s[..i] + [s[i]] + s[i + 1..];
    StrippedConcat(s[..i] + [s[i]], s[i + 1..]);
    StrippedConcat(s[..i], [s[i]]);
    StrippedOne(s[i]);
  }

  // The share of everything but the digit between `digits` and `tail`, and
  // whether that one is doubled.
  ghost function Rest(digits: string, tail: string, doubled: bool): int {
    if tail == "" then Checksum(digits, !doubled)
    else Weight(tail[|tail| - 1], doubled) + Rest(digits, tail[..|tail| - 1], !doubled)
  }

  ghost predicate Flag(tail: string, doubled: bool) {
    if tail == "" then doubled else Flag(tail[..|tail| - 1], !doubled)
  }

  lemma {:induction false} ChecksumAt(digits: string, d: char, tail: string, doubled: bool)
    ensures Checksum(digits + [d] + tail, doubled) == Rest(digits, tail, doubled) + Weight(d, Flag(tail, doubled))
  {
    hide Weight;
    var all, n := digits + [d] + tail, |tail| - 1;
    if tail == "" {
      assert all == digits + [d] && all[..|digits|] == digits;
    } else {
      assert all[..|all| - 1] == digits + [d] + tail[..n] && all[|all| - 1] == tail[n];
      ChecksumAt(digits, d, tail[..n], !doubled);
    }
  }

  lemma {:induction false} WeightDistinguishes(c: char, d: char, doubled: bool, rest: int)
    requires IsDigit(c) && IsDigit(d) && c != d
    ensures (rest + Weight(c, doubled)) % 10 == 0 ==> (rest + Weight(d, doubled)) % 10 != 0
  {
    assert 0 <= Weight(c, doubled) <= 9 && 0 <= Weight(d, doubled) <= 9;
    assert Weight(c, doubled) != Weight(d, doubled);
  }

  // Grouping is ignored: a separator may be added or removed anywhere.
  lemma {:induction false} SeparatorsAreIgnored(s: string, i: nat, c: char)
    requires i <= |s| && IsSeparator(c)
    ensures Accepted(s[..i] + [c] + s[i..]) <==> Accepted(s)
  {
    hide Stripped, Card;
    StrippedConcat(s[..i] + [c], s[i..]);
    StrippedConcat(s[..i], [c]);
    StrippedOne(c);
    StrippedConcat(s[..i], s[i..]);
    assert s == s[..i] + s[i..];
    assert Stripped(s[..i]) + [] == Stripped(s[..i]);
  }

  lemma {:induction false} StrippedWith(s: string, i: nat, c: char)
    requires i < |s| && IsDigit(c)
    ensures Stripped(s[i := c]) == Stripped(s[..i]) + [c] + Stripped(s[i + 1..])
  {
    StrippedSplit(s[i := c], i);
    assert s[i := c][..i] == s[..i] && s[i := c][i + 1..] == s[i + 1..];
  }

  lemma {:induction false} DigitsReplaced(before: string, c: char, d: char, after: string)
    requires AllDigits(before + [c] + after) && IsDigit(d)
    ensures AllDigits(before + [d] + after)
  {
    var was, now := before + [c] + after, before + [d] + after;
    assert forall i :: 0 <= i < |now| && i != |before| ==> now[i] == was[i];
    assert now[|before|] == d;
  }

  lemma {:induction false} CardSubstituted(before: string, c: char, d: char, after: string)
    requires Card(before + [c] + after) && IsDigit(c) && IsDigit(d) && c != d
    ensures !Card(before + [d] + after)
  {
    hide Checksum, Weight, AllDigits, Rest, Flag;
    ChecksumAt(before, c, after, false);
    ChecksumAt(before, d, after, false);
    WeightDistinguishes(c, d, Flag(after, false), Rest(before, after, false));
  }

  // Changing any one digit of an accepted number makes it unacceptable.
  lemma {:induction false} SubstitutionIsCaught(s: string, i: nat, c: char)
    requires Accepted(s) && i < |s| && IsDigit(s[i]) && IsDigit(c) && c != s[i]
    ensures !Accepted(s[i := c])
  {
    hide Stripped, Card;
    StrippedWith(s, i, c);
    StrippedWith(s, i, s[i]);
    assert s[i := s[i]] == s;
    CardSubstituted(Stripped(s[..i]), s[i], c, Stripped(s[i + 1..]));
  }

  // The digit of each weight: doubling only permutes the ten digits.
  lemma {:induction false} DigitOfWeight(w: int, doubled: bool) returns (c: char)
    requires 0 <= w <= 9
    ensures IsDigit(c) && Weight(c, doubled) == w
  {
    var v := if !doubled then w else if w % 2 == 0 then w / 2 else (w + 9) / 2;
    c := ('0' as int + v) as char;
  }

  lemma {:induction false} CardCompleted(before: string, c: char, after: string) returns (d: char)
    requires AllDigits(before + [c] + after) && CardLength(|before| + 1 + |after|)
    ensures IsDigit(d) && Card(before + [d] + after)
  {
    hide Checksum, Weight, AllDigits, Rest, Flag;
    var rest := Rest(before, after, false);
    var w := (10 - rest % 10) % 10;
    d := DigitOfWeight(w, Flag(after, false));
    DigitsReplaced(before, c, d, after);
    ChecksumAt(before, d, after, false);
    assert (rest + w) % 10 == 0;
  }

  // Whatever the other digits are, exactly one digit in ten completes a card
  // number at a given place.
  lemma {:induction false} OneInTenPasses(s: string, i: nat) returns (c: char)
    requires i < |s| && IsDigit(s[i]) && AllDigits(Stripped(s)) && CardLength(|Stripped(s)|)
    ensures IsDigit(c) && Accepted(s[i := c])
    ensures forall d: char :: IsDigit(d) && Accepted(s[i := d]) ==> d == c
  {
    hide Stripped, Card, AllDigits;
    StrippedWith(s, i, s[i]);
    assert s[i := s[i]] == s;
    c := CardCompleted(Stripped(s[..i]), s[i], Stripped(s[i + 1..]));
    StrippedWith(s, i, c);
    forall d: char | IsDigit(d) && Accepted(s[i := d]) ensures d == c {
      assert s[i := c][i := d] == s[i := d];
      if d != c { SubstitutionIsCaught(s[i := c], i, d); }
    }
  }

  lemma {:induction false} NonDigitRefused(s: string, i: nat)
    requires i < |s| && !IsSeparator(s[i]) && !IsDigit(s[i])
    ensures !AllDigits(Stripped(s))
  {
    StrippedSplit(s, i);
    hide Stripped;
    var before := Stripped(s[..i]);
    assert Stripped(s)[|before|] == s[i];
  }

  lemma {:induction false} StrippedFrom(s: string, i: nat)
    requires i < |s|
    ensures Stripped(s[i..]) == (if IsSeparator(s[i]) then [] else [s[i]]) + Stripped(s[i + 1..])
  {
    StrippedSplit(s[i..], 0);
    assert s[i..][1..] == s[i + 1..] && s[i..][..0] == "";
  }

  // The flag after n digits from the right.
  predicate Toggled(n: nat) { n % 2 == 1 }

  lemma {:induction false} ChecksumFront(c: char, digits: string, doubled: bool)
    ensures Checksum([c] + digits, doubled) == Weight(c, doubled != Toggled(|digits|)) + Checksum(digits, doubled)
  {
    if digits == "" {
      assert [c] + digits == [c] && [c][..0] == "";
    } else {
      var n := |digits| - 1;
      assert ([c] + digits)[..|digits|] == [c] + digits[..n];
      ChecksumFront(c, digits[..n], !doubled);
    }
  }

  // What the loop has found in the characters it has passed.
  ghost predicate Scanned(tail: string, sum: int, count: int, double: bool) {
    var digits := Stripped(tail);
    AllDigits(digits) && count == |digits| && double == Toggled(count) && sum == Checksum(digits, false)
  }

  lemma {:induction false} ScanSeparator(s: string, i: nat, sum: int, count: int, double: bool)
    requires i < |s| && IsSeparator(s[i]) && Scanned(s[i + 1..], sum, count, double)
    ensures Scanned(s[i..], sum, count, double)
  {
    StrippedFrom(s, i);
    hide Stripped, Checksum;
    assert [] + Stripped(s[i + 1..]) == Stripped(s[i + 1..]);
  }

  lemma {:induction false} ScanDigit(s: string, i: nat, sum: int, count: int, double: bool)
    requires i < |s| && !IsSeparator(s[i]) && IsDigit(s[i]) && Scanned(s[i + 1..], sum, count, double)
    ensures Scanned(s[i..], sum + Weight(s[i], double), count + 1, !double)
  {
    StrippedFrom(s, i);
    var digits := Stripped(s[i + 1..]);
    hide Stripped, Checksum, Weight;
    ChecksumFront(s[i], digits, false);
    assert AllDigits([s[i]] + digits);
  }

  // The loop from the right decides membership.
  method Check(s: string) returns (ok: bool)
    ensures ok <==> Accepted(s)
  {
    var sum, count, double := 0, 0, false;
    var i := |s|;
    assert s[i..] == "";
    hide Stripped, Checksum;
    assert Scanned(s[i..], sum, count, double) by { Nothing(); }
    while i > 0
      invariant 0 <= i <= |s| && Scanned(s[i..], sum, count, double)
    {
      hide Scanned;
      i := i - 1;
      var c := s[i];
      if IsSeparator(c) {
        ScanSeparator(s, i, sum, count, double);
        continue;
      }
      if !IsDigit(c) {
        NonDigitRefused(s, i);
        return false;
      }
      ScanDigit(s, i, sum, count, double);
      var d := Face(c);
      if double {
        d := d * 2;
        if d > 9 { d := d - 9; }
      }
      sum, count, double := sum + d, count + 1, !double;
    }
    assert s[0..] == s;
    return CardLength(count) && sum % 10 == 0;
  }

  lemma {:induction false} Nothing()
    ensures Scanned("", 0, 0, false)
  {
  }

  /******* Place by place *******/

  ghost function Sum(vs: seq<int>): int { if vs == [] then 0 else vs[0] + Sum(vs[1..]) }

  // The share of each digit: at an odd distance from the last one it counts
  // twice, less nine if that makes two digits; otherwise once.
  ghost function Shares(digits: string): seq<int> {
    seq(|digits|, i requires 0 <= i < |digits| =>
      var d := digits[i] as int - '0' as int;
      if (|digits| - 1 - i) % 2 == 0 then d else if 2 * d >= 10 then 2 * d - 9 else 2 * d)
  }

  lemma {:induction false} ChecksumByPlace(digits: string)
    ensures Checksum(digits, false) == Sum(Shares(digits))
  {
    if digits == "" {
    } else {
      var c, rest := digits[0], digits[1..];
      ChecksumByPlace(rest);
      assert digits == [c] + rest;
      ChecksumFront(c, rest, false);
      assert Shares(digits)[1..] == Shares(rest);
      assert Shares(digits)[0] == Weight(c, Toggled(|rest|));
      hide Checksum, Weight;
    }
  }

  lemma {:induction false} StrippedOfPlain(s: string)
    requires ' ' !in s && '-' !in s
    ensures Stripped(s) == s
  {
    if s == "" {
    } else {
      var n := |s| - 1;
      assert s == s[..n] + [s[n]];
      StrippedOfPlain(s[..n]);
    }
  }

  /**
   What is accepted, place by place: thirteen to nineteen digits whose shares
   add up to a multiple of ten.
   */
  lemma {:induction false} AcceptedByPlace(s: string)
    requires ' ' !in s && '-' !in s
    ensures Accepted(s) <==>
            13 <= |s| <= 19 && (forall i :: 0 <= i < |s| ==> '0' <= s[i] <= '9') && Sum(Shares(s)) % 10 == 0
  {
    StrippedOfPlain(s);
    ChecksumByPlace(s);
    hide Stripped, Checksum, Sum, Shares;
  }
}
