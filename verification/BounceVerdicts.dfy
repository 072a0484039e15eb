/**
 What each verdict of the bounce classifier takes, said of the text: which words
 it holds, which codes stand in it whole, and where the server's reply begins.
 */
module BounceVerdicts {
  import opened Prelude
  import opened Text
  import opened Decimal
  import opened Bounce

  /******* Words and codes *******/

  ghost predicate SaysWord(text: string, w: string) { exists p, q :: text == p + w + q }

  ghost predicate Says(text: string, words: seq<string>) { exists w :: w in words && SaysWord(text, w) }

  lemma {:induction false} ContainsIsSaid(text: string, w: string)
    ensures Contains(text, w) <==> SaysWord(text, w)
  {
    if i :| 0 <= i <= |text| && At(text, w, i) {
      assert text == text[..i] + w + text[i + |w|..];
    }
    if p, q: string :| text == p + w + q {
      assert At(text, w, |p|);
    }
  }

  lemma {:induction false} AnyIsSaid(text: string, words: seq<string>)
    ensures ContainsAny(text, words) <==> Says(text, words)
  {
    hide Contains, SaysWord;
    forall w ensures Contains(text, w) <==> SaysWord(text, w) { ContainsIsSaid(text, w); }
    if w :| w in words && SaysWord(text, w) {
      var i :| 0 <= i < |words| && words[i] == w;
      assert Contains(text, words[i]);
    }
  }

  ghost predicate DigitOrDot(c: char) { '0' <= c <= '9' || c == '.' }

  // The code stands in the text, and no digit or dot on either side of it.
  ghost predicate Whole(text: string, code: string) {
    exists p, q :: text == p + code + q && Apart(p, q)
  }

  ghost predicate Apart(p: string, q: string) {
    (p == "" || !DigitOrDot(p[|p| - 1])) && (q == "" || !DigitOrDot(q[0]))
  }

  lemma {:induction false} CodeIsWhole(text: string, accepts: string -> bool)
    ensures HasCode(text, accepts) <==> exists code :: accepts(code) && Whole(text, code)
  {
    if i, j :| 0 <= i <= |text| && 0 <= j <= |text| && CodeAt(text, accepts, i, j) {
      var p, code, q := text[..i], text[i..j], text[j..];
      assert text == p + code + q && Apart(p, q);
      assert Whole(text, code);
    }
    if code :| accepts(code) && Whole(text, code) {
      var p, q :| text == p + code + q && Apart(p, q);
      WholeIsCode(text, accepts, p, code, q);
    }
  }

  lemma {:induction false} WholeIsCode(text: string, accepts: string -> bool, p: string, code: string, q: string)
    requires text == p + code + q && Apart(p, q) && accepts(code)
    ensures HasCode(text, accepts)
  {
    var i, j := |p|, |p| + |code|;
    assert text[i..j] == code;
    assert i > 0 ==> text[i - 1] == p[i - 1];
    assert j < |text| ==> text[j] == q[0];
    assert CodeAt(text, accepts, i, j);
  }

  /******* The reply *******/

  // Three digits, the first from 2 to 5, at the start or after space or a colon,
  // and before a space, a hyphen or the end.
  ghost predicate Stands(head: string, code: string, tail: string) {
    && (head == "" || head[|head| - 1] in "\t\n\r :" || head[|head| - 1] as int == 0x0C)
    && |code| == 3 && '2' <= code[0] <= '5' && '0' <= code[1] <= '9' && '0' <= code[2] <= '9'
    && (tail == "" || tail[0] == ' ' || tail[0] == '-')
  }

  ghost predicate StandsIn(text: string, head: string, code: string, tail: string) {
    text == head + code + tail && Stands(head, code, tail)
  }

  // The server's reply goes from the first such code to the end; without one all
  // of the text is read.
  ghost predicate Reply(text: string, code: string, reply: string) {
    || (code == "" && reply == text && forall h, c, t :: !StandsIn(text, h, c, t))
    || exists head, tail ::
         && StandsIn(text, head, code, tail) && reply == code + tail
         && forall h, c, t :: StandsIn(text, h, c, t) ==> |head| <= |h|
  }

  lemma {:induction false} StandsAt(text: string, head: string, code: string, tail: string)
    requires StandsIn(text, head, code, tail)
    ensures ReplyAt(text, |head|) && text[|head|..] == code + tail && text[|head|..|head| + 3] == code
  {
    var n := |head|;
    assert text[n] == code[0] && text[n + 1] == code[1] && text[n + 2] == code[2];
    assert n > 0 ==> text[n - 1] == head[n - 1];
    assert n + 3 < |text| ==> text[n + 3] == tail[0];
  }

  lemma {:induction false} AtStands(text: string, g: nat)
    requires ReplyAt(text, g)
    ensures StandsIn(text, text[..g], text[g..g + 3], text[g + 3..])
  {
    var head, code, tail := text[..g], text[g..g + 3], text[g + 3..];
    assert text == head + code + tail;
  }

  lemma {:induction false} ReplyIsRead(text: string, code: string, reply: string)
    requires Reply(text, code, reply)
    ensures code == ReplyCode(text) && reply == ReplyOf(text)
  {
    var first := FirstReply(text, 0);
    hide ReplyAt, StandsIn, FirstReply;
    if first.Some? {
      AtStands(text, first.value);
    }
    if head, tail :| StandsIn(text, head, code, tail) && reply == code + tail
                     && forall h, c, t :: StandsIn(text, h, c, t) ==> |head| <= |h| {
      StandsAt(text, head, code, tail);
      assert first.Some? && first.value <= |head|;
      assert |text[..first.value]| == first.value;
    }
  }

  // Every text has a reply in this sense.
  lemma {:induction false} ReplyExists(text: string)
    ensures Reply(text, ReplyCode(text), ReplyOf(text))
  {
    var first := FirstReply(text, 0);
    hide ReplyAt, StandsIn, FirstReply;
    forall h, c, t | StandsIn(text, h, c, t) ensures first.Some? && first.value <= |h| {
      StandsAt(text, h, c, t);
    }
    if first.Some? {
      var g := first.value;
      AtStands(text, g);
      assert text[g..] == text[g..g + 3] + text[g + 3..];
    }
  }

  /******* What the text says *******/

  // Our own fault: read in all of the error.
  ghost predicate Ours(text: string) {
    || Says(text, INFRASTRUCTURE_PATTERNS)
    || Whole(text, "5.7.0") || Whole(text, "5.7.8") || Whole(text, "5.7.9")
  }

  // Not now: the code is of class 4, or the reply says so in a code or in words.
  ghost predicate Later(code: string, reply: string) {
    || "4" <= code
    || (exists a, b :: OneToThreeDigits(a) && OneToThreeDigits(b) && Whole(reply, "4." + a + "." + b))
    || Says(reply, TRANSIENT_PATTERNS)
  }

  // The address itself is bad.
  ghost predicate Gone(reply: string) {
    || Whole(reply, "5.1.1") || Whole(reply, "5.1.2") || Whole(reply, "5.1.3") || Whole(reply, "5.1.6")
    || Whole(reply, "5.1.10")
    || Says(reply, RECIPIENT_HARD_BOUNCE_PATTERNS)
  }

  lemma {:induction false} OursIs(text: string)
    ensures Ours(text) <==> OurFault(text)
  {
    hide Whole, HasCode, Says, ContainsAny;
    AnyIsSaid(text, INFRASTRUCTURE_PATTERNS);
    CodeIsWhole(text, InfrastructureCode);
    assert forall c :: InfrastructureCode(c) <==> c == "5.7.0" || c == "5.7.8" || c == "5.7.9";
  }

  lemma {:induction false} GoneIs(reply: string)
    ensures Gone(reply) <==>
            HasCode(reply, RecipientHardBounceCode) || ContainsAny(reply, RECIPIENT_HARD_BOUNCE_PATTERNS)
  {
    hide Whole, HasCode, Says, ContainsAny;
    AnyIsSaid(reply, RECIPIENT_HARD_BOUNCE_PATTERNS);
    CodeIsWhole(reply, RecipientHardBounceCode);
    assert forall c :: RecipientHardBounceCode(c) <==>
                         c == "5.1.1" || c == "5.1.2" || c == "5.1.3" || c == "5.1.6" || c == "5.1.10";
  }

  lemma {:induction false} TransientIs(a: string, b: string)
    requires OneToThreeDigits(a) && OneToThreeDigits(b)
    ensures TransientCode("4." + a + "." + b)
  {
    var code := "4." + a + "." + b;
    assert code[..2] == "4." && code[2..] == a + ['.'] + b;
    assert '.' !in a by { assert forall i :: 0 <= i < |a| ==> IsDigit(a[i]); }
    FirstSplit(a, '.', b);
  }

  lemma {:induction false} TransientSplits(code: string)
    requires TransientCode(code)
    ensures exists a, b :: OneToThreeDigits(a) && OneToThreeDigits(b) && code == "4." + a + "." + b
  {
    var rest := code[2..];
    assert code == "4." + rest;
    var i := IndexOf(rest, '.').value;
    var a, b := rest[..i], rest[i + 1..];
    hide IndexOf, OneToThreeDigits;
    assert OneToThreeDigits(a) && OneToThreeDigits(b);
    hide TransientCode;
    Rejoined(rest, i);
    assert "4." + (a + "." + b) == "4." + a + "." + b;
  }

  lemma {:induction false} Rejoined(s: string, i: nat)
    requires i < |s| && s[i] == '.'
    ensures s == s[..i] + "." + s[i + 1..]
  {
  }

  lemma {:induction false} LaterIs(code: string, reply: string)
    ensures Later(code, reply) <==>
            HasPrefix(code, "4") || HasCode(reply, TransientCode) || ContainsAny(reply, TRANSIENT_PATTERNS)
  {
    hide Whole, HasCode, Says, ContainsAny, TransientCode, OneToThreeDigits;
    AnyIsSaid(reply, TRANSIENT_PATTERNS);
    CodeIsWhole(reply, TransientCode);
    if c :| TransientCode(c) && Whole(reply, c) {
      TransientSplits(c);
    }
    forall a, b | OneToThreeDigits(a) && OneToThreeDigits(b) ensures TransientCode("4." + a + "." + b) {
      TransientIs(a, b);
    }
  }

  /******* The verdicts *******/

  /**
   What an error is taken for. Its addresses removed, `text` is left; `code` and
   `reply` are where the server's reply begins in it. The recipient is blamed if
   and only if the fault is not ours, the reply does not ask to come back later,
   and it says that they opted out or complained, or that the address is bad
   without refusing the content. An error is worth retrying if and only if it
   neither blames them nor refuses the content; in particular if nothing in it
   is recognised.
   */
  lemma {:induction false} VerdictOnText(err: string, text: string, code: string, reply: string)
    requires err != "" && text == Told(err) && Reply(text, code, reply)
    ensures var c := Classify(err);
            var mine, later := Ours(text), Later(code, reply);
            var left, complained := Says(reply, UNSUBSCRIBE_PATTERNS), Says(reply, COMPLAINT_PATTERNS);
            var content := Says(reply, CONTENT_REJECTION_PATTERNS);
            && (c.recipientAtFault <==> !mine && !later && (left || complained || (!content && Gone(reply))))
            && (c.retryable <==> !c.recipientAtFault && (mine || later || !content))
            && (mine ==> c.event == Rejected)
            && (!mine && later ==> c.event == SoftBounce)
            && (!mine && !later && left ==> c.event == Unsubscribed)
            && (!mine && !later && !left && complained ==> c.event == SpamReport)
            && (!mine && !later && !left && !complained && content ==> c.event == Rejected)
            && (!mine && !later && !left && !complained && !content ==>
                  c.event == if Gone(reply) then HardBounce else Bounced)
  {
    hide Says, Reply, HasCode, ContainsAny, Told, ReplyCode, ReplyOf, Ours, OurFault, Later, Gone;
    ReplyIsRead(text, code, reply);
    OursIs(text);
    LaterIs(code, reply);
    GoneIs(reply);
    AnyIsSaid(reply, UNSUBSCRIBE_PATTERNS);
    AnyIsSaid(reply, COMPLAINT_PATTERNS);
    AnyIsSaid(reply, CONTENT_REJECTION_PATTERNS);
  }

  // No error, no verdict.
  lemma {:induction false} NoErrorNoVerdict()
    ensures Classify("") == Classification(Unspecified, false, false)
  {
  }

  // An error without an address is read as it stands, but for its case.
  lemma {:induction false} WithoutAddress(err: string)
    requires '@' !in err
    ensures Told(err) == Lower(err)
  {
    hide Lower;
    assert '@' !in Lower(err) by {
      forall i | 0 <= i < |err| ensures Lower(err)[i] != '@' { assert err[i] in err; }
    }
    NoMatchWithoutAt(Lower(err));
  }

  /**
   An error that says none of it is retried and blames no one, whatever code
   comes with it.
   */
  lemma {:induction false} UnrecognisedIsRetried(err: string)
    requires err != "" && !Ours(Told(err))
    requires var reply := ReplyOf(Told(err));
             && !Later(ReplyCode(Told(err)), reply) && !Gone(reply) && !Says(reply, UNSUBSCRIBE_PATTERNS)
             && !Says(reply, COMPLAINT_PATTERNS) && !Says(reply, CONTENT_REJECTION_PATTERNS)
    ensures Classify(err) == Classification(Bounced, false, true)
  {
    hide Says, Reply, Told, ReplyCode, ReplyOf, Ours, Later, Gone, Classify;
    ReplyExists(Told(err));
    VerdictOnText(err, Told(err), ReplyCode(Told(err)), ReplyOf(Told(err)));
  }
}
