// Unpadded base64 (sections 4 and 5 of RFC 4648): the standard alphabet and
// the URL one, read back the way a lenient decoder does.
module Base64 {
  import opened Prelude

  type byte = x: int | 0 <= x < 256

  datatype Alphabet = Std | Url

  predicate Sextet(v: int) { 0 <= v < 64 }

  function CharOf(a: Alphabet, v: int): char
    requires Sextet(v)
  {
    if v < 26 then ('A' as int + v) as char
    else if v < 52 then ('a' as int + v - 26) as char
    else if v < 62 then ('0' as int + v - 52) as char
    else if v == 62 then (if a == Std then '+' else '-')
    else (if a == Std then '/' else '_')
  }

  function ValueOf(a: Alphabet, c: char): Option<int> {
    if 'A' <= c <= 'Z' then Some(c as int - 'A' as int)
    else if 'a' <= c <= 'z' then Some(c as int - 'a' as int + 26)
    else if '0' <= c <= '9' then Some(c as int - '0' as int + 52)
    else if c == (if a == Std then '+' else '-') then Some(62)
    else if c == (if a == Std then '/' else '_') then Some(63)
    else None
  }

  lemma {:induction false} CharRoundTrip(a: Alphabet, v: int)
    requires Sextet(v)
    ensures ValueOf(a, CharOf(a, v)) == Some(v)
  {
  }

  // Characters that mean something around a token, and never occur in one.
  predicate Reserved(c: char) {
    c == '.' || c == ':' || c == ' ' || c == '\t' || c == '\r' || c == '\n' || c == '\0'
  }

  lemma {:induction false} CharNotReserved(a: Alphabet, v: int)
    requires Sextet(v)
    ensures !Reserved(CharOf(a, v))
  {
  }

  /******* Regrouping eight bits as six and back *******/

  function First(b0: byte): (v: int)
    ensures Sextet(v)
  {
    b0 / 4
  }

  function Second(b0: byte, b1: byte): (v: int)
    ensures Sextet(v)
  {
    b0 % 4 * 16 + b1 / 16
  }

  function Third(b1: byte, b2: byte): (v: int)
    ensures Sextet(v)
  {
    b1 % 16 * 4 + b2 / 64
  }

  function Fourth(b2: byte): (v: int)
    ensures Sextet(v)
  {
    b2 % 64
  }

  function Byte0(v0: int, v1: int): byte
    requires Sextet(v0) && Sextet(v1)
  {
    v0 * 4 + v1 / 16
  }

  function Byte1(v1: int, v2: int): byte
    requires Sextet(v1) && Sextet(v2)
  {
    v1 % 16 * 16 + v2 / 4
  }

  function Byte2(v2: int, v3: int): byte
    requires Sextet(v2) && Sextet(v3)
  {
    v2 % 4 * 64 + v3
  }

  lemma {:induction false} Regroup(b0: byte, b1: byte, b2: byte)
    ensures Byte0(First(b0), Second(b0, b1)) == b0
    ensures Byte1(Second(b0, b1), Third(b1, b2)) == b1
    ensures Byte2(Third(b1, b2), Fourth(b2)) == b2
  {
  }

  function Sextets(bs: seq<byte>): (vs: seq<int>)
    ensures forall i :: 0 <= i < |vs| ==> Sextet(vs[i])
    decreases |bs|
  {
    if bs == [] then []
    else if |bs| == 1 then [First(bs[0]), Second(bs[0], 0)]
    else if |bs| == 2 then [First(bs[0]), Second(bs[0], bs[1]), Third(bs[1], 0)]
    else [First(bs[0]), Second(bs[0], bs[1]), Third(bs[1], bs[2]), Fourth(bs[2])] + Sextets(bs[3..])
  }

  function Quanta(vs: seq<int>): Option<seq<byte>>
    requires forall i :: 0 <= i < |vs| ==> Sextet(vs[i])
    decreases |vs|
  {
    if vs == [] then Some([])
    else if |vs| == 1 then None
    else if |vs| == 2 then Some([Byte0(vs[0], vs[1])])
    else if |vs| == 3 then Some([Byte0(vs[0], vs[1]), Byte1(vs[1], vs[2])])
    else match Quanta(vs[4..])
      case None => None
      case Some(rest) => Some([Byte0(vs[0], vs[1]), Byte1(vs[1], vs[2]), Byte2(vs[2], vs[3])] + rest)
  }

  lemma {:induction false} QuantaOfSextets(bs: seq<byte>)
    ensures Quanta(Sextets(bs)) == Some(bs)
    decreases |bs|
  {
    hide First, Second, Third, Fourth, Byte0, Byte1, Byte2;
    if |bs| == 1 {
      Regroup(bs[0], 0, 0);
      assert bs == [bs[0]];
    } else if |bs| == 2 {
      Regroup(bs[0], bs[1], 0);
      assert bs == [bs[0], bs[1]];
    } else if |bs| >= 3 {
      Regroup(bs[0], bs[1], bs[2]);
      QuantaOfSextets(bs[3..]);
      assert Sextets(bs)[4..] == Sextets(bs[3..]);
      assert bs == [bs[0], bs[1], bs[2]] + bs[3..];
    }
  }

  /******* Text *******/

  function Letters(a: Alphabet, vs: seq<int>): string
    requires forall i :: 0 <= i < |vs| ==> Sextet(vs[i])
  {
    if vs == [] then "" else [CharOf(a, vs[0])] + Letters(a, vs[1..])
  }

  function Encode(a: Alphabet, bs: seq<byte>): string { Letters(a, Sextets(bs)) }

  // Line breaks are ignored wherever they stand.
  function Unwrapped(s: string): string {
    if s == "" then "" else (if s[0] == '\r' || s[0] == '\n' then "" else [s[0]]) + Unwrapped(s[1..])
  }

  function Values(a: Alphabet, s: string): (r: Option<seq<int>>)
    ensures r.Some? ==> forall i :: 0 <= i < |r.value| ==> Sextet(r.value[i])
  {
    if s == "" then Some([])
    else match (ValueOf(a, s[0]), Values(a, s[1..]))
      case (Some(v), Some(vs)) => Some([v] + vs)
      case _ => None
  }

  // Bits left over in the last letter are not checked.
  function Decode(a: Alphabet, s: string): Option<seq<byte>> {
    match Values(a, Unwrapped(s))
    case None => None
    case Some(vs) => Quanta(vs)
  }

  /******* Decoding undoes encoding *******/

  lemma {:induction false} LettersClean(a: Alphabet, vs: seq<int>)
    requires forall i :: 0 <= i < |vs| ==> Sextet(vs[i])
    ensures |Letters(a, vs)| == |vs|
    ensures forall i :: 0 <= i < |vs| ==> !Reserved(Letters(a, vs)[i])
  {
    if vs == [] {
    } else {
      CharNotReserved(a, vs[0]);
      hide Reserved, CharOf;
      LettersClean(a, vs[1..]);
    }
  }

  lemma {:induction false} EncodeClean(a: Alphabet, bs: seq<byte>)
    ensures forall i :: 0 <= i < |Encode(a, bs)| ==> !Reserved(Encode(a, bs)[i])
    ensures bs != [] ==> Encode(a, bs) != ""
  {
    LettersClean(a, Sextets(bs));
    hide Letters, Reserved;
  }

  lemma {:induction false} UnwrappedClean(s: string)
    requires forall i :: 0 <= i < |s| ==> !Reserved(s[i])
    ensures Unwrapped(s) == s
  {
    if s == "" {
    } else {
      UnwrappedClean(s[1..]);
    }
  }

  lemma {:induction false} ValuesOfLetters(a: Alphabet, vs: seq<int>)
    requires forall i :: 0 <= i < |vs| ==> Sextet(vs[i])
    ensures Values(a, Letters(a, vs)) == Some(vs)
  {
    if vs == [] {
    } else {
      CharRoundTrip(a, vs[0]);
      hide CharOf, ValueOf;
      ValuesOfLetters(a, vs[1..]);
      assert Letters(a, vs)[1..] == Letters(a, vs[1..]);
      assert vs == [vs[0]] + vs[1..];
    }
  }

  lemma {:induction false} DecodeUndoesEncode(a: Alphabet, bs: seq<byte>)
    ensures Decode(a, Encode(a, bs)) == Some(bs)
  {
    EncodeClean(a, bs);
    UnwrappedClean(Encode(a, bs));
    ValuesOfLetters(a, Sextets(bs));
    QuantaOfSextets(bs);
    hide Letters, Values, Sextets, Quanta, Unwrapped;
  }

  /******* The letters, group by group *******/

  // The tables of RFC 4648: which letter stands for six bits.
  ghost predicate StandsFor(a: Alphabet, c: char, v: int) {
    || (0 <= v < 26 && c as int == 'A' as int + v)
    || (26 <= v < 52 && c as int == 'a' as int + v - 26)
    || (52 <= v < 62 && c as int == '0' as int + v - 52)
    || (v == 62 && ((a == Std && c == '+') || (a == Url && c == '-')))
    || (v == 63 && ((a == Std && c == '/') || (a == Url && c == '_')))
  }

  lemma {:induction false} LettersMore(a: Alphabet, vs: seq<int>, ws: seq<int>)
    requires forall i :: 0 <= i < |vs| ==> Sextet(vs[i])
    requires forall i :: 0 <= i < |ws| ==> Sextet(ws[i])
    ensures Letters(a, vs + ws) == Letters(a, vs) + Letters(a, ws)
  {
    hide CharOf;
    if vs == [] {
      assert vs + ws == ws;
    } else {
      LettersMore(a, vs[1..], ws);
      assert (vs + ws)[1..] == vs[1..] + ws;
    }
  }

  lemma {:induction false} LetterAt(a: Alphabet, vs: seq<int>, i: nat)
    requires (forall j :: 0 <= j < |vs| ==> Sextet(vs[j])) && i < |vs|
    ensures |Letters(a, vs)| == |vs| && StandsFor(a, Letters(a, vs)[i], vs[i])
  {
    LettersClean(a, vs);
    if i == 0 {
    } else {
      LetterAt(a, vs[1..], i - 1);
    }
  }

  lemma {:induction false} DivMod(n: int, d: int, q: int, r: int)
    requires d > 0 && n == d * q + r && 0 <= r < d
    ensures n / d == q && n % d == r
  {
    var k := q - n / d;
    assert n == d * (n / d) + n % d && 0 <= n % d < d;
    Multiples(d, k);
    assert d * k == n % d - r;
  }

  lemma {:induction false} Multiples(d: int, k: int)
    requires d > 0
    ensures k >= 1 ==> d * k >= d
    ensures k <= -1 ==> d * k <= -d
  {
    if k >= 1 {
      assert d * k >= d * 1;
    } else {
      assert k <= -1 ==> d * k <= d * -1;
    }
  }

  lemma {:induction false} SixBits(b0: byte, b1: byte, b2: byte)
    ensures var n := b0 * 65536 + b1 * 256 + b2;
            && First(b0) == n / 262144 && Second(b0, b1) == n / 4096 % 64
            && Third(b1, b2) == n / 64 % 64 && Fourth(b2) == n % 64
  {
    var n := b0 * 65536 + b1 * 256 + b2;
    var p, q, r := b0 / 4, b1 / 16, b2 / 64;
    var x, y, z := b0 % 4, b1 % 16, b2 % 64;
    assert b0 == 4 * p + x && b1 == 16 * q + y && b2 == 64 * r + z;
    DivMod(n, 262144, p, x * 65536 + b1 * 256 + b2);
    DivMod(n, 4096, b0 * 16 + q, y * 256 + b2);
    DivMod(b0 * 16 + q, 64, p, x * 16 + q);
    DivMod(n, 64, b0 * 1024 + b1 * 4 + r, z);
    DivMod(b0 * 1024 + b1 * 4 + r, 64, b0 * 16 + q, y * 4 + r);
  }

  // Three bytes are four letters, six bits each, and the rest follows.
  lemma {:induction false} EncodeGroup(a: Alphabet, b0: byte, b1: byte, b2: byte, rest: seq<byte>)
    ensures var n, s := b0 * 65536 + b1 * 256 + b2, Encode(a, [b0, b1, b2] + rest);
            && |s| == 4 + |Encode(a, rest)| && s[4..] == Encode(a, rest)
            && StandsFor(a, s[0], n / 262144) && StandsFor(a, s[1], n / 4096 % 64)
            && StandsFor(a, s[2], n / 64 % 64) && StandsFor(a, s[3], n % 64)
  {
    var bs := [b0, b1, b2] + rest;
    var vs := [First(b0), Second(b0, b1), Third(b1, b2), Fourth(b2)];
    assert bs[3..] == rest && bs[0] == b0 && bs[1] == b1 && bs[2] == b2;
    assert Sextets(bs) == vs + Sextets(rest);
    SixBits(b0, b1, b2);
    hide Sextets, First, Second, Third, Fourth;
    LettersMore(a, vs, Sextets(rest));
    LetterAt(a, vs, 0);
    LetterAt(a, vs, 1);
    LetterAt(a, vs, 2);
    LetterAt(a, vs, 3);
    hide Letters, StandsFor;
  }

  lemma {:induction false} FewerBits(b0: byte, b1: byte)
    ensures First(b0) == b0 * 16 / 64 && Second(b0, 0) == b0 * 16 % 64
    ensures var n := b0 * 1024 + b1 * 4;
            First(b0) == n / 4096 && Second(b0, b1) == n / 64 % 64 && Third(b1, 0) == n % 64
  {
    var p, q, x, y := b0 / 4, b1 / 16, b0 % 4, b1 % 16;
    assert b0 == 4 * p + x && b1 == 16 * q + y;
    var n := b0 * 1024 + b1 * 4;
    DivMod(b0 * 16, 64, p, x * 16);
    DivMod(n, 4096, p, x * 1024 + b1 * 4);
    DivMod(n, 64, b0 * 16 + q, y * 4);
    DivMod(b0 * 16 + q, 64, p, x * 16 + q);
  }

  // One byte left over is two letters, two bytes are three; the last is padded
  // with zero bits and no sign follows.
  lemma {:induction false} EncodeEnd(a: Alphabet, b0: byte, b1: byte)
    ensures var n, s := b0 * 16, Encode(a, [b0]);
            |s| == 2 && StandsFor(a, s[0], n / 64) && StandsFor(a, s[1], n % 64)
    ensures var n, s := b0 * 1024 + b1 * 4, Encode(a, [b0, b1]);
            |s| == 3 && StandsFor(a, s[0], n / 4096) && StandsFor(a, s[1], n / 64 % 64) && StandsFor(a, s[2], n % 64)
  {
    hide StandsFor, Letters;
    FewerBits(b0, b1);
    EncodesTwo(a, [b0], [First(b0), Second(b0, 0)]);
    EncodesThree(a, [b0, b1], [First(b0), Second(b0, b1), Third(b1, 0)]);
  }

  lemma {:induction false} EncodesTwo(a: Alphabet, bs: seq<byte>, vs: seq<int>)
    requires |vs| == 2 && Sextets(bs) == vs
    ensures var s := Encode(a, bs); |s| == 2 && StandsFor(a, s[0], vs[0]) && StandsFor(a, s[1], vs[1])
  {
    hide Sextets, StandsFor, Letters;
    LetterAt(a, vs, 0);
    LetterAt(a, vs, 1);
  }

  lemma {:induction false} EncodesThree(a: Alphabet, bs: seq<byte>, vs: seq<int>)
    requires |vs| == 3 && Sextets(bs) == vs
    ensures var s := Encode(a, bs);
            |s| == 3 && StandsFor(a, s[0], vs[0]) && StandsFor(a, s[1], vs[1]) && StandsFor(a, s[2], vs[2])
  {
    hide Sextets, StandsFor, Letters;
    LetterAt(a, vs, 0);
    LetterAt(a, vs, 1);
    LetterAt(a, vs, 2);
  }
}
