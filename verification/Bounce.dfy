/**
 What a delivery error says about its recipient. The patterns are written out
 as the searches they perform; letters are compared for A to Z.
 */
module Bounce {
  import opened Prelude
  import opened Text
  import opened Decimal

  datatype EventType = Unspecified | Rejected | SoftBounce | Unsubscribed | SpamReport | HardBounce | Bounced

  datatype Classification = Classification(event: EventType, recipientAtFault: bool, retryable: bool)

  /******* Removing addresses *******/

  // [^\s<>()\[\]"',;:]
  predicate AddressChar(c: char) {
    c !in "\t\n\r <>()[]\"',;:" && c as int != 0x0C
  }

  // The length of the run of address characters at the start.
  function RunLength(s: string): (n: nat)
    ensures n <= |s| && (forall i :: 0 <= i < n ==> AddressChar(s[i])) && (n < |s| ==> !AddressChar(s[n]))
  {
    if s == "" || !AddressChar(s[0]) then 0 else 1 + RunLength(s[1..])
  }

  // An at-sign with an address character on either side, within the first n.
  predicate HasAt(s: string, n: nat)
    requires n <= |s|
  {
    exists k :: 1 <= k < n - 1 && s[k] == '@'
  }

  // How much an address match starting here takes: the whole run, if it holds
  // an address at all.
  function MatchLength(s: string): (n: nat)
    ensures n <= |s|
  {
    var n := RunLength(s);
    if HasAt(s, n) then n else 0
  }

  // ReplaceAll with nothing, leftmost match first.
  function RemoveAddresses(s: string): string
    decreases |s|
  {
    if s == "" then ""
    else
      var n := MatchLength(s);
      if n == 0 then [s[0]] + RemoveAddresses(s[1..]) else RemoveAddresses(s[n..])
  }

  // A text that the address pattern, one or more characters on each side of an
  // at-sign, accepts in full.
  predicate IsAddress(s: string) {
    (forall i :: 0 <= i < |s| ==> AddressChar(s[i])) && HasAt(s, |s|)
  }

  // MatchLength is the longest prefix the pattern accepts.
  lemma {:induction false} MatchIsLongest(s: string, j: nat)
    requires j <= |s|
    ensures IsAddress(s[..j]) ==> j <= MatchLength(s)
    ensures MatchLength(s) > 0 ==> IsAddress(s[..MatchLength(s)])
  {
    var n := RunLength(s);
    if IsAddress(s[..j]) {
      assert forall i :: 0 <= i < j ==> s[..j][i] == s[i];
      var k :| 1 <= k < j - 1 && s[..j][k] == '@';
      assert s[k] == '@';
    }
    if MatchLength(s) > 0 {
      var k :| 1 <= k < n - 1 && s[k] == '@';
      assert s[..n][k] == '@';
    }
  }

  /******* Searching *******/

  predicate ContainsAny(s: string, patterns: seq<string>) {
    exists i :: 0 <= i < |patterns| && Contains(s, patterns[i])
  }

  predicate CodeChar(c: char) { IsDigit(c) || c == '.' }

  // (?:^|[^\d.]) code (?:[^\d.]|$), for any set of codes.
  predicate CodeAt(s: string, accepts: string -> bool, i: int, j: int) {
    && 0 <= i <= j <= |s| && accepts(s[i..j])
    && (i == 0 || !CodeChar(s[i - 1])) && (j == |s| || !CodeChar(s[j]))
  }

  predicate HasCode(s: string, accepts: string -> bool) {
    exists i, j :: 0 <= i <= |s| && 0 <= j <= |s| && CodeAt(s, accepts, i, j)
  }

  predicate RecipientHardBounceCode(code: string) { code in ["5.1.1", "5.1.2", "5.1.3", "5.1.6", "5.1.10"] }

  predicate InfrastructureCode(code: string) { code in ["5.7.0", "5.7.8", "5.7.9"] }

  predicate OneToThreeDigits(s: string) { 1 <= |s| <= 3 && AllDigits(s) }

  // 4\.\d{1,3}\.\d{1,3}
  predicate TransientCode(code: string) {
    && HasPrefix(code, "4.") && IndexOf(code[2..], '.').Some?
    && OneToThreeDigits(code[2..][..IndexOf(code[2..], '.').value])
    && OneToThreeDigits(code[2..][IndexOf(code[2..], '.').value + 1..])
  }

  // (?:^|[\s:])([2-5]\d\d)(?:[ -]|$), by where the code itself starts.
  predicate ReplyAt(s: string, g: int) {
    && 0 <= g <= |s| - 3 && '2' <= s[g] <= '5' && IsDigit(s[g + 1]) && IsDigit(s[g + 2])
    && (g == 0 || s[g - 1] in "\t\n\r :" || s[g - 1] as int == 0x0C)
    && (g + 3 == |s| || s[g + 3] == ' ' || s[g + 3] == '-')
  }

  function FirstReply(s: string, from: nat): (r: Option<nat>)
    requires from <= |s|
    ensures r.Some? ==> ReplyAt(s, r.value) && forall g :: from <= g < r.value ==> !ReplyAt(s, g)
    ensures r.None? ==> forall g :: from <= g ==> !ReplyAt(s, g)
    decreases |s| - from
  {
    if ReplyAt(s, from) then Some(from) else if from == |s| then None else FirstReply(s, from + 1)
  }

  const RECIPIENT_HARD_BOUNCE_PATTERNS: seq<string> :=
    ["user unknown", "no such user", "no such recipient", "mailbox not found", "mailbox unavailable",
     "invalid recipient", "recipient address rejected", "address rejected", "account disabled", "user doesn't exist",
     "user does not exist", "unknown recipient", "recipient not found", "does not exist"]

  const COMPLAINT_PATTERNS: seq<string> :=
    ["feedback loop", "spam complaint", "abuse complaint", "complained", "marked as spam", "reported as spam"]

  const CONTENT_REJECTION_PATTERNS: seq<string> :=
    ["spam", "unacceptable content", "policy violation", "content rejected", "message rejected", "virus", "malware",
     "phishing"]

  const UNSUBSCRIBE_PATTERNS: seq<string> := ["unsubscribed", "opted out"]

  const TRANSIENT_PATTERNS: seq<string> :=
    ["mailbox full", "quota exceeded", "storage full", "over quota", "connection timed out", "connection refused",
     "connection reset", "i/o timeout", "no route to host", "network is unreachable", "server busy", "try again later",
     "greylist", "greylisted", "rate limit", "too many messages", "too many connections", "temporary failure",
     "temporarily deferred", "deferred", "context deadline exceeded", "eof"]

  const INFRASTRUCTURE_PATTERNS: seq<string> :=
    ["authentication failed", "authentication credentials", "auth failed", "invalid credentials",
     "username and password not accepted", "relay access denied", "relaying denied", "relay denied",
     "not authorized to send", "sender address rejected", "blacklisted", "blocklisted", "certificate", "x509",
     "tls", "ssl", "unable to look up host", "no such host", "dns", "connection closed by remote host"]

  /******* The verdict *******/

  function Told(err: string): string { RemoveAddresses(Lower(err)) }

  predicate OurFault(text: string) {
    ContainsAny(text, INFRASTRUCTURE_PATTERNS) || HasCode(text, InfrastructureCode)
  }

  // The server's reply, from its basic code on, when there is one.
  function ReplyOf(text: string): string {
    match FirstReply(text, 0)
    case None => text
    case Some(g) => text[g..]
  }

  function ReplyCode(text: string): string {
    match FirstReply(text, 0)
    case None => ""
    case Some(g) => text[g..g + 3]
  }

  function Classify(err: string): Classification {
    if err == "" then Classification(Unspecified, false, false)
    else
      var text := Told(err);
      if OurFault(text) then Classification(Rejected, false, true)
      else
        var reply := ReplyOf(text);
        if HasPrefix(ReplyCode(text), "4") || HasCode(reply, TransientCode)
          || ContainsAny(reply, TRANSIENT_PATTERNS) then
          Classification(SoftBounce, false, true)
        else if ContainsAny(reply, UNSUBSCRIBE_PATTERNS) then Classification(Unsubscribed, true, false)
        else if ContainsAny(reply, COMPLAINT_PATTERNS) then Classification(SpamReport, true, false)
        else if ContainsAny(reply, CONTENT_REJECTION_PATTERNS) then Classification(Rejected, false, false)
        else if HasCode(reply, RecipientHardBounceCode) || ContainsAny(reply, RECIPIENT_HARD_BOUNCE_PATTERNS) then
          Classification(HardBounce, true, false)
        else Classification(Bounced, false, true)
  }

  /******* The recipient cannot influence the verdict *******/

  lemma {:induction false} RunStops(x: string, sep: char, y: string)
    requires !AddressChar(sep)
    ensures RunLength(x + [sep] + y) == RunLength(x)
  {
    hide AddressChar;
    if x == "" {
      assert (x + [sep] + y)[0] == sep;
    } else {
      assert (x + [sep] + y)[0] == x[0] && (x + [sep] + y)[1..] == x[1..] + [sep] + y;
      RunStops(x[1..], sep, y);
    }
  }

  lemma {:induction false} MatchStops(x: string, sep: char, y: string)
    requires !AddressChar(sep)
    ensures MatchLength(x + [sep] + y) == MatchLength(x)
  {
    RunStops(x, sep, y);
    var s, n := x + [sep] + y, RunLength(x);
    hide RunLength, AddressChar;
    assert forall k :: 0 <= k < n ==> s[k] == x[k];
  }

  // No match reaches across a character that cannot be part of an address.
  lemma {:induction false} RemovalSplits(x: string, sep: char, y: string)
    requires !AddressChar(sep)
    ensures RemoveAddresses(x + [sep] + y) == RemoveAddresses(x) + [sep] + RemoveAddresses(y)
    decreases |x|
  {
    hide MatchLength, AddressChar, RemoveAddresses;
    var s := x + [sep] + y;
    if x == "" {
      RemoveSeparator(sep, y);
      assert s == [sep] + y && "" + [sep] + RemoveAddresses(y) == [sep] + RemoveAddresses(y);
    } else {
      MatchStops(x, sep, y);
      var n := MatchLength(x);
      var m := if n == 0 then 1 else n;
      var rest := x[m..];
      assert s[m..] == rest + [sep] + y && s[0] == x[0];
      RemovalSplits(rest, sep, y);
      RemoveOnce(x);
      RemoveOnce(s);
      var a, b := RemoveAddresses(rest), RemoveAddresses(y);
      assert [x[0]] + (a + [sep] + b) == [x[0]] + a + [sep] + b;
    }
  }

  lemma {:induction false} RemoveOnce(s: string)
    requires s != ""
    ensures RemoveAddresses(s) ==
            if MatchLength(s) == 0 then [s[0]] + RemoveAddresses(s[1..]) else RemoveAddresses(s[MatchLength(s)..])
  {
  }

  lemma {:induction false} RemoveSeparator(sep: char, y: string)
    requires !AddressChar(sep)
    ensures RemoveAddresses("") == "" && RemoveAddresses([sep] + y) == [sep] + RemoveAddresses(y)
  {
    var s := [sep] + y;
    assert s[0] == sep && s[1..] == y && RunLength(s) == 0;
  }

  lemma {:induction false} AddressVanishes(a: string)
    requires IsAddress(a)
    ensures RemoveAddresses(a) == ""
  {
    var n := RunLength(a);
    assert n == |a|;
    assert MatchLength(a) == |a|;
    assert a[|a|..] == "";
  }

  lemma {:induction false} LowerKeepsAddress(a: string)
    requires IsAddress(a)
    ensures IsAddress(Lower(a))
  {
    var b := Lower(a);
    forall i | 0 <= i < |b| ensures AddressChar(b[i]) { assert AddressChar(a[i]); }
    var k :| 1 <= k < |a| - 1 && a[k] == '@';
    assert b[k] == '@';
  }

  lemma {:induction false} LowerKeepsSeparator(c: char)
    requires !AddressChar(c)
    ensures LowerChar(c) == c
  {
  }

  // What comes before an address leaves it alone, and what comes after.
  predicate Opens(head: string) { head == "" || !AddressChar(head[|head| - 1]) }

  predicate Closes(tail: string) { tail == "" || !AddressChar(tail[0]) }

  lemma {:induction false} ToldAt(p: string, l: char, y: string)
    requires !AddressChar(l)
    ensures Told(p + [l] + y) == Told(p) + [l] + Told(y)
  {
    hide RemoveAddresses, AddressChar, Lower;
    LowerKeepsSeparator(l);
    LowerOne(l);
    LowerMore(p + [l], y);
    LowerMore(p, [l]);
    RemovalSplits(Lower(p), l, Lower(y));
  }

  lemma {:induction false} ToldNothing()
    ensures Told("") == ""
  {
  }

  // A word set off on either side is read by itself.
  lemma {:induction false} ToldAround(head: string, w: string, tail: string)
    requires Opens(head) && Closes(tail)
    ensures Told(head + w + tail) == Told(head) + Told(w) + Told(tail)
  {
    hide Told, AddressChar;
    ToldNothing();
    ToldBefore(w, tail);
    if head == "" {
      assert head + w + tail == w + tail && "" + Told(w) == Told(w);
    } else {
      var n := |head| - 1;
      var p, l := head[..n], head[n];
      assert head == p + [l] && head + w + tail == p + [l] + (w + tail);
      ToldAt(p, l, w + tail);
      ToldAt(p, l, "");
      assert p + [l] + "" == head && Told(p) + [l] + "" == Told(p) + [l];
      assert Told(p) + [l] + (Told(w) + Told(tail)) == Told(p) + [l] + Told(w) + Told(tail);
    }
  }

  lemma {:induction false} ToldBefore(w: string, tail: string)
    requires Closes(tail)
    ensures Told(w + tail) == Told(w) + Told(tail)
  {
    hide Told, AddressChar;
    ToldNothing();
    if tail == "" {
      assert w + tail == w && Told(w) + "" == Told(w);
    } else {
      var r, q := tail[0], tail[1..];
      assert tail == [r] + q && w + tail == w + [r] + q && "" + [r] + q == tail;
      ToldAt(w, r, q);
      ToldAt("", r, q);
      assert Told(w) + [r] + Told(q) == Told(w) + ("" + [r] + Told(q));
    }
  }

  // Of an address set off on either side nothing is left.
  lemma {:induction false} AddressIsRemoved(head: string, a: string, tail: string)
    requires IsAddress(a) && Opens(head) && Closes(tail)
    ensures Told(head + a + tail) == Told(head) + Told(tail)
  {
    assert Told(a) == "" by {
      LowerKeepsAddress(a);
      AddressVanishes(Lower(a));
    }
    hide Told, AddressChar, IsAddress;
    ToldAround(head, a, tail);
    assert Told(head) + "" == Told(head);
  }

  lemma {:induction false} LowerOne(c: char)
    ensures Lower([c]) == [LowerChar(c)]
  {
    hide LowerChar;
  }

  lemma {:induction false} ToldDecides(err: string, err': string)
    requires err != "" && err' != "" && Told(err) == Told(err')
    ensures Classify(err) == Classify(err')
  {
    hide Told, OurFault, HasCode, ContainsAny, ReplyOf, ReplyCode;
  }

  /**
   The recipient cannot influence the verdict: whatever stands before and
   after, swapping one address for another, each set off by the ends of the
   error or by characters that cannot be part of an address, changes nothing.
   */
  lemma {:induction false} RecipientCannotInfluence(head: string, a: string, b: string, tail: string)
    requires IsAddress(a) && IsAddress(b) && Opens(head) && Closes(tail)
    ensures Classify(head + a + tail) == Classify(head + b + tail)
  {
    assert a != "" && b != "";
    hide *;
    AddressIsRemoved(head, a, tail);
    AddressIsRemoved(head, b, tail);
    ToldDecides(head + a + tail, head + b + tail);
  }

  /******* Codes are matched whole *******/

  function CodeRun(s: string): (n: nat)
    ensures n <= |s| && (forall i :: 0 <= i < n ==> CodeChar(s[i])) && (n < |s| ==> !CodeChar(s[n]))
  {
    if s == "" || !CodeChar(s[0]) then 0 else 1 + CodeRun(s[1..])
  }

  // The maximal runs of digits and dots, in order.
  function Runs(s: string): seq<string>
    decreases |s|
  {
    if s == "" then []
    else if !CodeChar(s[0]) then Runs(s[1..])
    else [s[..CodeRun(s)]] + Runs(s[CodeRun(s)..])
  }

  ghost predicate IsRun(s: string, i: int, j: int) {
    && 0 <= i < j <= |s| && (forall k :: i <= k < j ==> CodeChar(s[k]))
    && (i == 0 || !CodeChar(s[i - 1])) && (j == |s| || !CodeChar(s[j]))
  }

  // A set of codes: texts of digits and dots, never empty.
  ghost predicate Codes(accepts: string -> bool) {
    forall c :: accepts(c) ==> c != "" && forall k :: 0 <= k < |c| ==> CodeChar(c[k])
  }

  // The runs of a text behind a prefix that ends outside any run.
  lemma {:induction false} RunShifts(s: string, n: nat, i: int, j: int)
    requires n <= |s| && (n == 0 || !CodeChar(s[n - 1]) || n == |s| || !CodeChar(s[n]))
    requires 0 <= i <= |s| - n && 0 <= j <= |s| - n
    ensures IsRun(s[n..], i, j) <==> IsRun(s, i + n, j + n)
  {
    var t := s[n..];
    hide CodeChar;
    assert forall k :: 0 <= k < |t| ==> t[k] == s[k + n];
    if IsRun(t, i, j) {
      forall k | i + n <= k < j + n ensures CodeChar(s[k]) { assert CodeChar(t[k - n]); }
      if i == 0 && n > 0 { assert CodeChar(t[0]); }
    }
    if IsRun(s, i + n, j + n) {
      forall k | i <= k < j ensures CodeChar(t[k]) { assert CodeChar(s[k + n]); }
    }
  }

  // Where the first run ends, or the first character if it is in none.
  function Head(s: string): (n: nat)
    requires s != ""
    ensures 1 <= n <= |s|
  {
    if CodeChar(s[0]) then CodeRun(s) else 1
  }

  lemma {:induction false} RunsUnfold(s: string)
    requires s != ""
    ensures Runs(s) == (if CodeChar(s[0]) then [s[..Head(s)]] else []) + Runs(s[Head(s)..])
    ensures CodeChar(s[0]) ==> IsRun(s, 0, Head(s))
    ensures Head(s) == |s| || !CodeChar(s[Head(s)]) || !CodeChar(s[Head(s) - 1])
  {
  }

  // A run either is the first one or starts behind it.
  lemma {:induction false} RunPlace(s: string, i: int, j: int)
    requires s != "" && IsRun(s, i, j)
    ensures i >= Head(s) || (CodeChar(s[0]) && i == 0 && j == Head(s))
  {
  }

  lemma {:induction false} RunsAreFound(s: string, r: string) returns (i: int, j: int)
    requires r in Runs(s)
    ensures IsRun(s, i, j) && s[i..j] == r
    decreases |s|
  {
    assert s != "";
    hide CodeChar, Head, Runs, IsRun;
    RunsUnfold(s);
    var n := Head(s);
    var t := s[n..];
    if r in Runs(t) {
      i, j := RunsAreFound(t, r);
      BehindHead(s, n, i, j);
      i, j := i + n, j + n;
    } else {
      i, j := 0, n;
      assert s[0..n] == s[..n];
    }
  }

  lemma {:induction false} BehindHead(s: string, n: nat, i: int, j: int)
    requires n <= |s| && (n == 0 || !CodeChar(s[n - 1]) || n == |s| || !CodeChar(s[n])) && IsRun(s[n..], i, j)
    ensures IsRun(s, i + n, j + n) && s[i + n..j + n] == s[n..][i..j]
  {
    assert 0 <= i < j <= |s| - n;
    RunShifts(s, n, i, j);
    hide IsRun, CodeChar;
  }

  lemma {:induction false} InTail(s: string, n: nat, i: int, j: int)
    requires n <= |s| && (n == 0 || !CodeChar(s[n - 1]) || n == |s| || !CodeChar(s[n])) && IsRun(s, i, j) && n <= i
    ensures IsRun(s[n..], i - n, j - n) && s[n..][i - n..j - n] == s[i..j]
  {
    assert 0 <= i < j <= |s|;
    RunShifts(s, n, i - n, j - n);
    hide IsRun, CodeChar;
  }

  lemma {:induction false} RunsAreAll(s: string, i: int, j: int, r: string)
    requires IsRun(s, i, j) && s[i..j] == r
    ensures r in Runs(s)
    decreases |s|
  {
    assert 0 <= i < j <= |s|;
    hide CodeChar, Head, Runs, IsRun;
    RunsUnfold(s);
    RunPlace(s, i, j);
    var n := Head(s);
    if i >= n {
      InTail(s, n, i, j);
      RunsAreAll(s[n..], i - n, j - n, r);
    } else {
      assert s[..n] == s[0..n];
    }
  }

  /**
   A code pattern matches a text exactly when some maximal run of digits and
   dots in it is one of the codes. So no IP address and no longer number, which
   are longer runs, ever counts.
   */
  lemma {:induction false} CodesMatchWhole(s: string, accepts: string -> bool)
    requires Codes(accepts)
    ensures HasCode(s, accepts) <==> exists r :: r in Runs(s) && accepts(r)
  {
    if HasCode(s, accepts) {
      var i, j :| 0 <= i <= |s| && 0 <= j <= |s| && CodeAt(s, accepts, i, j);
      var c := s[i..j];
      forall k | i <= k < j ensures CodeChar(s[k]) { assert CodeChar(c[k - i]); }
      RunsAreAll(s, i, j, c);
    }
    if r :| r in Runs(s) && accepts(r) {
      var i, j := RunsAreFound(s, r);
      assert CodeAt(s, accepts, i, j);
    }
  }

  lemma {:induction false} TransientIsCode(c: string)
    requires TransientCode(c)
    ensures c != "" && forall k :: 0 <= k < |c| ==> CodeChar(c[k])
  {
    var rest := c[2..];
    var d := IndexOf(rest, '.').value;
    var a, b := rest[..d], rest[d + 1..];
    assert c == "4." + a + "." + b;
    hide TransientCode, IndexOf;
    forall k | 0 <= k < |c| ensures CodeChar(c[k]) {
      if 2 <= k < d + 2 { assert IsDigit(a[k - 2]); }
      else if k > d + 2 { assert IsDigit(b[k - d - 3]); }
    }
  }

  lemma {:induction false} LiteralIsCode(c: string)
    requires RecipientHardBounceCode(c) || InfrastructureCode(c)
    ensures c != "" && forall k :: 0 <= k < |c| ==> CodeChar(c[k])
  {
    if c == "5.1.10" {
      assert c == ['5', '.', '1', '.', '1', '0'];
    } else {
      var b, d := c[2], c[4];
      assert c == ['5', '.', b, '.', d] && IsDigit(b) && IsDigit(d);
    }
    hide RecipientHardBounceCode, InfrastructureCode;
  }

  // The three patterns in use are sets of codes.
  lemma {:induction false} PatternsAreCodes()
    ensures Codes(RecipientHardBounceCode) && Codes(InfrastructureCode) && Codes(TransientCode)
  {
    hide TransientCode, RecipientHardBounceCode, InfrastructureCode, CodeChar;
    forall c | TransientCode(c) ensures c != "" && forall k :: 0 <= k < |c| ==> CodeChar(c[k]) { TransientIsCode(c); }
    forall c | RecipientHardBounceCode(c) || InfrastructureCode(c)
      ensures c != "" && forall k :: 0 <= k < |c| ==> CodeChar(c[k])
    {
      LiteralIsCode(c);
    }
  }

  /******* Blame *******/

  // By the text that is left when addresses are removed: a basic code of class
  // 4 and a transient code in the reply are worth retrying, a fault of ours
  // blames no one else, and whoever is blamed is not retried.
  lemma {:induction false} BlameIsSound(err: string)
    requires err != ""
    ensures HasPrefix(ReplyCode(Told(err)), "4") ==> Classify(err).retryable && !Classify(err).recipientAtFault
    ensures OurFault(Told(err)) ==> Classify(err) == Classification(Rejected, false, true)
    ensures HasCode(ReplyOf(Told(err)), TransientCode) ==> Classify(err).retryable && !Classify(err).recipientAtFault
    ensures Classify(err).recipientAtFault ==>
              !Classify(err).retryable && Classify(err).event in [Unsubscribed, SpamReport, HardBounce]
  {
    hide Told, OurFault, HasCode, ContainsAny, ReplyOf, ReplyCode;
  }

  // What may stand before a basic reply code, and after it.
  predicate BeforeReply(c: char) { c in "\t\n\r :" || c as int == 0x0C }

  predicate StartsReply(head: string) { head == "" || BeforeReply(head[|head| - 1]) }

  predicate EndsReply(tail: string) { tail == "" || tail[0] == ' ' }

  predicate ReplyDigits(code: string) { |code| == 3 && AllDigits(code) && '2' <= code[0] <= '5' }

  ghost predicate NoReply(text: string) { forall g :: 0 <= g <= |text| ==> !ReplyAt(text, g) }

  lemma {:induction false} NoMatchWithoutAt(s: string)
    requires '@' !in s
    ensures RemoveAddresses(s) == s
    decreases |s|
  {
    if s == "" {
    } else {
      assert MatchLength(s) == 0;
      assert s == [s[0]] + s[1..];
      NoMatchWithoutAt(s[1..]);
    }
  }

  lemma {:induction false} CodeIsTold(code: string)
    requires AllDigits(code)
    ensures Told(code) == code
  {
    assert Lower(code) == code by { hide Lower; }
    NoMatchWithoutAt(code);
  }

  lemma {:induction false} TellsStart(head: string)
    requires StartsReply(head)
    ensures Opens(head) && StartsReply(Told(head))
  {
    ToldNothing();
    if head == "" {
    } else {
      var p, l := head[..|head| - 1], head[|head| - 1];
      assert !AddressChar(l) && head == p + [l] + "";
      hide Told;
      ToldAt(p, l, "");
      assert Told(head) == Told(p) + [l];
    }
  }

  lemma {:induction false} TellsEnd(tail: string)
    requires EndsReply(tail)
    ensures Closes(tail) && EndsReply(Told(tail))
  {
    ToldNothing();
    if tail == "" {
    } else {
      var q := tail[1..];
      assert !AddressChar(' ') && tail == "" + [' '] + q;
      hide Told;
      ToldAt("", ' ', q);
      assert Told(tail) == [' '] + Told(q);
    }
  }

  lemma {:induction false} TellsReply(head: string, code: string, tail: string)
    requires StartsReply(head) && ReplyDigits(code) && EndsReply(tail)
    ensures Told(head + code + tail) == Told(head) + code + Told(tail)
    ensures StartsReply(Told(head)) && EndsReply(Told(tail))
  {
    assert AllDigits(code);
    hide Told, StartsReply, EndsReply, Opens, Closes, ReplyDigits;
    CodeIsTold(code);
    TellsStart(head);
    TellsEnd(tail);
    ToldAround(head, code, tail);
  }

  // A code set off in the text is the reply if none comes before it.
  lemma {:induction false} FirstReplyIs(head: string, code: string, tail: string)
    requires StartsReply(head) && ReplyDigits(code) && EndsReply(tail) && NoReply(head)
    ensures FirstReply(head + code + tail, 0) == Some(|head|)
    ensures ReplyCode(head + code + tail) == code && ReplyOf(head + code + tail) == code + tail
  {
    var text, n := head + code + tail, |head|;
    assert text[n..n + 3] == code && text[n..] == code + tail;
    assert text[n] == code[0] && text[n + 1] == code[1] && text[n + 2] == code[2];
    assert n + 3 < |text| ==> text[n + 3] == tail[0];
    assert ReplyAt(text, n);
    forall g | 0 <= g < n ensures !ReplyAt(text, g) {
      assert !ReplyAt(head, g);
      assert forall i :: 0 <= i < n ==> text[i] == head[i];
    }
    hide ReplyAt;
    var first := FirstReply(text, 0);
    assert first.Some? && first.value == n;
  }

  /**
   Whatever else the error says, before or after and in whatever wording: if
   its first basic reply code, counting what is left when addresses are
   removed, is of class 4, it is retried and the recipient is not blamed.
   */
  lemma {:induction false} ClassFourIsRetried(head: string, code: string, tail: string)
    requires StartsReply(head) && ReplyDigits(code) && EndsReply(tail) && code[0] == '4' && NoReply(Told(head))
    ensures var c := Classify(head + code + tail); c.retryable && !c.recipientAtFault
  {
    TellsReply(head, code, tail);
    hide Told, ReplyAt, Classify, NoReply, ReplyCode, ReplyOf, FirstReply;
    FirstReplyIs(Told(head), code, Told(tail));
    BlameIsSound(head + code + tail);
  }

  lemma {:induction false} ReplyDecides(err: string, err': string)
    requires err != "" && err' != "" && !OurFault(Told(err)) && !OurFault(Told(err'))
    requires ReplyOf(Told(err)) == ReplyOf(Told(err')) && ReplyCode(Told(err)) == ReplyCode(Told(err'))
    ensures Classify(err) == Classify(err')
  {
    hide Told, ReplyCode, ReplyOf, OurFault, HasCode, ContainsAny;
  }

  // Unless the fault is ours, what comes before the reply decides nothing: the
  // recipient is blamed only for what the reply itself says.
  lemma {:induction false} BlameIsInReply(head: string, head': string, code: string, tail: string)
    requires StartsReply(head) && StartsReply(head') && ReplyDigits(code) && EndsReply(tail)
    requires NoReply(Told(head)) && NoReply(Told(head'))
    requires !OurFault(Told(head + code + tail)) && !OurFault(Told(head' + code + tail))
    ensures Classify(head + code + tail) == Classify(head' + code + tail)
  {
    assert code != "";
    hide *;
    TellsReply(head, code, tail);
    TellsReply(head', code, tail);
    FirstReplyIs(Told(head), code, Told(tail));
    FirstReplyIs(Told(head'), code, Told(tail));
    ReplyDecides(head + code + tail, head' + code + tail);
  }

  lemma {:induction false} ToldOpens(head: string)
    requires Opens(head)
    ensures Opens(Told(head))
  {
    ToldNothing();
    if head == "" {
    } else {
      var p, l := head[..|head| - 1], head[|head| - 1];
      assert head == p + [l] + "";
      hide Told, AddressChar;
      ToldAt(p, l, "");
      assert Told(head) == Told(p) + [l];
    }
  }

  lemma {:induction false} ToldCloses(tail: string)
    requires Closes(tail)
    ensures Closes(Told(tail))
  {
    ToldNothing();
    if tail == "" {
    } else {
      var r, q := tail[0], tail[1..];
      assert tail == "" + [r] + q;
      hide Told, AddressChar;
      ToldAt("", r, q);
      assert Told(tail) == [r] + Told(q);
    }
  }

  lemma {:induction false} WordsCarry(p: string, w: string, q: string, patterns: seq<string>)
    requires ContainsAny(w, patterns)
    ensures ContainsAny(p + w + q, patterns)
  {
    hide At;
    var i :| 0 <= i < |patterns| && Contains(w, patterns[i]);
    var k :| 0 <= k <= |w| && At(w, patterns[i], k);
    AtCarries(p, w, q, patterns[i], k);
    assert Contains(p + w + q, patterns[i]);
  }

  lemma {:induction false} AtCarries(p: string, w: string, q: string, sub: string, k: int)
    requires At(w, sub, k)
    ensures At(p + w + q, sub, |p| + k) && |p| + k <= |p + w + q|
  {
    var s := p + w + q;
    assert s[|p| + k..|p| + k + |sub|] == w[k..k + |sub|];
  }

  lemma {:induction false} CodesCarry(p: string, w: string, q: string, accepts: string -> bool)
    requires Opens(p) && Closes(q) && HasCode(w, accepts)
    ensures HasCode(p + w + q, accepts)
  {
    var i, j :| CodeAt(w, accepts, i, j);
    CodeCarries(p, w, q, accepts, i, j);
  }

  lemma {:induction false} CodeCarries(p: string, w: string, q: string, accepts: string -> bool, i: int, j: int)
    requires Opens(p) && Closes(q) && CodeAt(w, accepts, i, j)
    ensures CodeAt(p + w + q, accepts, |p| + i, |p| + j)
  {
    var s := p + w + q;
    assert s[|p| + i..|p| + j] == w[i..j];
    assert forall c :: CodeChar(c) ==> AddressChar(c);
    hide AddressChar, CodeChar;
    assert i > 0 ==> s[|p| + i - 1] == w[i - 1];
    assert i == 0 && p != "" ==> s[|p| - 1] == p[|p| - 1];
    assert j < |w| ==> s[|p| + j] == w[j];
    assert j == |w| && q != "" ==> s[|p| + j] == q[0];
  }

  /**
   What is our own fault when said alone is our own fault in whatever it is
   said: no word and no code around it, of any class, blames the recipient.
   */
  lemma {:induction false} OurFaultStaysOurs(head: string, w: string, tail: string)
    requires Opens(head) && Closes(tail) && w != "" && OurFault(Told(w))
    ensures Classify(head + w + tail) == Classification(Rejected, false, true)
  {
    ToldAround(head, w, tail);
    ToldOpens(head);
    ToldCloses(tail);
    hide Told, Classify, HasCode, ContainsAny, Opens, Closes;
    if ContainsAny(Told(w), INFRASTRUCTURE_PATTERNS) {
      WordsCarry(Told(head), Told(w), Told(tail), INFRASTRUCTURE_PATTERNS);
    } else {
      CodesCarry(Told(head), Told(w), Told(tail), InfrastructureCode);
    }
    BlameIsSound(head + w + tail);
  }
}
