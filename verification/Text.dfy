// The string searches the models share.
module Text {
  import opened Prelude

  predicate HasPrefix(s: string, p: string) { |p| <= |s| && s[..|p|] == p }

  predicate HasSuffix(s: string, p: string) { |p| <= |s| && s[|s| - |p|..] == p }

  predicate At(s: string, sub: string, i: int) {
    0 <= i <= |s| - |sub| && s[i..i + |sub|] == sub
  }

  predicate Contains(s: string, sub: string) {
    exists i :: 0 <= i <= |s| && At(s, sub, i)
  }

  // The first place of `c`.
  function IndexOf(s: string, c: char): (r: Option<nat>)
    ensures r.None? <==> c !in s
    ensures r.Some? ==> r.value < |s| && s[r.value] == c && c !in s[..r.value]
  {
    if s == "" then None
    else if s[0] == c then Some(0)
    else
      assert s == [s[0]] + s[1..];
      match IndexOf(s[1..], c)
      case None => None
      case Some(i) =>
        assert s[..i + 1] == [s[0]] + s[1..][..i];
        Some(i + 1)
  }

  // The last place of `c`.
  function LastIndexOf(s: string, c: char): (r: Option<nat>)
    ensures r.None? <==> c !in s
    ensures r.Some? ==> r.value < |s| && s[r.value] == c && c !in s[r.value + 1..]
  {
    if s == "" then None
    else
      var n := |s| - 1;
      assert s == s[..n] + [s[n]];
      if s[n] == c then Some(n)
      else
        match LastIndexOf(s[..n], c)
        case None => None
        case Some(i) =>
          assert s[i + 1..] == s[..n][i + 1..] + [s[n]];
          Some(i)
  }

  // A separator that the left part does not contain splits where it stands.
  lemma {:induction false} FirstSplit(a: string, c: char, b: string)
    requires c !in a
    ensures IndexOf(a + [c] + b, c) == Some(|a|)
    ensures (a + [c] + b)[..|a|] == a && (a + [c] + b)[|a| + 1..] == b
  {
    var s := a + [c] + b;
    assert s[|a|] == c && s[..|a|] == a;
    assert forall k :: 0 <= k < |a| ==> s[k] == a[k] && a[k] in a;
  }

  lemma {:induction false} LastSplit(a: string, c: char, b: string)
    requires c !in b
    ensures LastIndexOf(a + [c] + b, c) == Some(|a|)
    ensures (a + [c] + b)[..|a|] == a && (a + [c] + b)[|a| + 1..] == b
  {
    var s := a + [c] + b;
    assert s[|a|] == c && s[|a| + 1..] == b;
    assert forall k :: 0 <= k < |b| ==> s[|a| + 1 + k] == b[k] && b[k] in b;
  }

  /******* Case and surrounding space *******/

  predicate IsSpace(c: char) {
    c == ' ' || c == '\t' || c == '\n' || c == '\r' || c as int == 0x0B || c as int == 0x0C || c as int == 0x85
      || c as int == 0xA0
  }

  function TrimLeft(s: string): string {
    if s != "" && IsSpace(s[0]) then TrimLeft(s[1..]) else s
  }

  function TrimRight(s: string): string {
    if s != "" && IsSpace(s[|s| - 1]) then TrimRight(s[..|s| - 1]) else s
  }

  function Trim(s: string): string { TrimRight(TrimLeft(s)) }

  // Lower case, for the letters A to Z.
  function LowerChar(c: char): char {
    if 'A' <= c <= 'Z' then (c as int + 32) as char else c
  }

  function Lower(s: string): (r: string)
    ensures |r| == |s| && forall i :: 0 <= i < |s| ==> r[i] == LowerChar(s[i])
  {
    if s == "" then "" else [LowerChar(s[0])] + Lower(s[1..])
  }

  lemma {:induction false} TrimOfTight(s: string)
    requires s != "" && !IsSpace(s[0]) && !IsSpace(s[|s| - 1])
    ensures Trim(s) == s
  {
  }

  predicate Tight(s: string) { s != "" ==> !IsSpace(s[0]) && !IsSpace(s[|s| - 1]) }

  lemma {:induction false} TrimLeftStarts(s: string)
    ensures TrimLeft(s) != "" ==> !IsSpace(TrimLeft(s)[0])
  {
    if s != "" && IsSpace(s[0]) { TrimLeftStarts(s[1..]); }
  }

  lemma {:induction false} TrimRightEnds(s: string)
    ensures TrimRight(s) != "" ==> s != "" && TrimRight(s)[0] == s[0] && !IsSpace(TrimRight(s)[|TrimRight(s)| - 1])
  {
    if s != "" && IsSpace(s[|s| - 1]) { TrimRightEnds(s[..|s| - 1]); }
  }

  lemma {:induction false} TrimIsTight(s: string)
    ensures Tight(Trim(s))
  {
    TrimLeftStarts(s);
    TrimRightEnds(TrimLeft(s));
  }

  lemma {:induction false} LowerTwice(s: string)
    ensures Lower(Lower(s)) == Lower(s)
  {
    hide Lower;
  }

  lemma {:induction false} LowerKeepsTight(s: string)
    requires Tight(s)
    ensures Tight(Lower(s))
  {
    hide Lower;
  }

  // Trimming and lowering once is enough.
  lemma {:induction false} LowerTrimOnce(s: string)
    ensures Lower(Trim(Lower(Trim(s)))) == Lower(Trim(s))
  {
    TrimIsTight(s);
    var t := Lower(Trim(s));
    LowerKeepsTight(Trim(s));
    LowerTwice(Trim(s));
    if t == "" {
    } else {
      TrimOfTight(t);
    }
  }

  lemma {:induction false} LowerMore(a: string, b: string)
    ensures Lower(a + b) == Lower(a) + Lower(b)
  {
    hide Lower, LowerChar;
    var x, y := Lower(a + b), Lower(a) + Lower(b);
    forall i | 0 <= i < |x| ensures x[i] == y[i] {
      if i < |a| { assert (a + b)[i] == a[i]; } else { assert (a + b)[i] == b[i - |a|]; }
    }
  }

  /******* Spellings *******/

  ghost predicate Blank(s: string) { forall i :: 0 <= i < |s| ==> IsSpace(s[i]) }

  // The string without the space around it.
  ghost predicate Core(s: string, core: string) {
    Tight(core) && exists l, r :: Blank(l) && Blank(r) && s == l + core + r
  }

  // The same but for the case of the letters A to Z.
  ghost predicate SameLetter(c: char, d: char) {
    || c == d
    || ('A' <= c <= 'Z' && d as int == c as int + 32)
    || ('A' <= d <= 'Z' && c as int == d as int + 32)
  }

  ghost predicate SameLetters(a: string, b: string) {
    |a| == |b| && forall i :: 0 <= i < |a| ==> SameLetter(a[i], b[i])
  }

  // Two spellings that differ in case and surrounding space only.
  ghost predicate Alike(s: string, t: string) {
    exists a, b :: Core(s, a) && Core(t, b) && SameLetters(a, b)
  }

  lemma {:induction false} TrimLeftOf(l: string, s: string)
    requires Blank(l) && (s != "" ==> !IsSpace(s[0]))
    ensures TrimLeft(l + s) == s
  {
    if l == "" {
      assert l + s == s;
    } else {
      assert (l + s)[1..] == l[1..] + s;
      TrimLeftOf(l[1..], s);
    }
  }

  lemma {:induction false} TrimRightOf(s: string, r: string)
    requires Blank(r) && (s != "" ==> !IsSpace(s[|s| - 1]))
    ensures TrimRight(s + r) == s
  {
    if r == "" {
      assert s + r == s;
    } else {
      var n := |r| - 1;
      assert (s + r)[..|s + r| - 1] == s + r[..n];
      TrimRightOf(s, r[..n]);
    }
  }

  lemma {:induction false} BlankIsTrimmed(l: string)
    requires Blank(l)
    ensures TrimLeft(l) == ""
  {
    if l == "" {
    } else {
      BlankIsTrimmed(l[1..]);
    }
  }

  // Trimming finds the core, and there is no other.
  lemma {:induction false} TrimOfCore(s: string, core: string)
    requires Core(s, core)
    ensures Trim(s) == core
  {
    var l, r :| Blank(l) && Blank(r) && s == l + core + r;
    if core == "" {
      assert Blank(s);
      BlankIsTrimmed(s);
    } else {
      assert s == l + (core + r) && (core + r)[0] == core[0];
      TrimLeftOf(l, core + r);
      TrimRightOf(core, r);
    }
  }

  lemma {:induction false} BlankMore(a: string, b: string)
    requires Blank(a) && Blank(b)
    ensures Blank(a + b)
  {
  }

  lemma {:induction false} TrimLeftLeaves(s: string) returns (l: string)
    ensures s == l + TrimLeft(s) && Blank(l)
  {
    l := "";
    if s != "" && IsSpace(s[0]) {
      var rest := TrimLeftLeaves(s[1..]);
      l := [s[0]] + rest;
      assert Blank([s[0]]);
      assert TrimLeft(s) == TrimLeft(s[1..]);
      hide TrimLeft, Blank, IsSpace;
      BlankMore([s[0]], rest);
      assert s == [s[0]] + s[1..];
      assert s == l + TrimLeft(s);
    }
  }

  lemma {:induction false} TrimRightLeaves(s: string) returns (r: string)
    ensures s == TrimRight(s) + r && Blank(r)
  {
    r := "";
    if s != "" && IsSpace(s[|s| - 1]) {
      var n := |s| - 1;
      var rest := TrimRightLeaves(s[..n]);
      r := rest + [s[n]];
      assert Blank([s[n]]);
      assert TrimRight(s) == TrimRight(s[..n]);
      hide TrimRight, Blank, IsSpace;
      BlankMore(rest, [s[n]]);
      assert s == s[..n] + [s[n]];
      assert s == TrimRight(s) + r;
    }
  }

  lemma {:induction false} TrimIsCore(s: string)
    ensures Core(s, Trim(s))
  {
    TrimIsTight(s);
    var l := TrimLeftLeaves(s);
    var r := TrimRightLeaves(TrimLeft(s));
    hide TrimLeft, TrimRight, Blank, Tight;
    assert s == l + Trim(s) + r;
  }

  lemma {:induction false} SameLetterLowers(c: char, d: char)
    ensures LowerChar(c) == LowerChar(d) <==> SameLetter(c, d)
  {
  }

  lemma {:induction false} SameLettersLower(a: string, b: string)
    ensures Lower(a) == Lower(b) <==> SameLetters(a, b)
  {
    hide Lower, LowerChar, SameLetter;
    forall c, d ensures LowerChar(c) == LowerChar(d) <==> SameLetter(c, d) { SameLetterLowers(c, d); }
    if SameLetters(a, b) {
      assert forall i :: 0 <= i < |a| ==> Lower(a)[i] == Lower(b)[i];
    }
    if Lower(a) == Lower(b) {
      assert forall i :: 0 <= i < |a| ==> Lower(a)[i] == LowerChar(a[i]) && Lower(b)[i] == LowerChar(b[i]);
    }
  }

  // Trimming and lowering tells spellings apart exactly when they are not alike.
  lemma {:induction false} LowerTrimIffAlike(s: string, t: string)
    ensures Lower(Trim(s)) == Lower(Trim(t)) <==> Alike(s, t)
  {
    hide Lower, Trim, Core, SameLetters;
    TrimIsCore(s);
    TrimIsCore(t);
    SameLettersLower(Trim(s), Trim(t));
    if a, b :| Core(s, a) && Core(t, b) && SameLetters(a, b) {
      TrimOfCore(s, a);
      TrimOfCore(t, b);
    }
  }
}
