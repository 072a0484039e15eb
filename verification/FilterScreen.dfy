/**
 Screening: the rules are applied to a message whose attachments are read only
 when a rule asks about their text. The reading is unobservable.
 */
module FilterScreen {
  import opened Prelude
  import opened FilterModel
  import opened FilterRules

  function Read(env: Env, a: Attachment): Attachment {
    if a.text != "" || a.data == "" || !env.supported(a.filename, a.contentType) then a
    else a.(text := env.extract(a.filename, a.contentType, a.data))
  }

  function ReadEach(env: Env, attachments: seq<Attachment>): seq<Attachment> {
    seq(|attachments|, i requires 0 <= i < |attachments| => Read(env, attachments[i]))
  }

  function ReadAll(env: Env, m: Message): Message { m.(attachments := ReadEach(env, m.attachments)) }

  predicate Mentions(conditions: seq<Condition>) {
    exists i :: 0 <= i < |conditions| && conditions[i].field == AttachmentText
  }

  predicate NeedsText(rules: seq<Rule>) {
    exists i :: 0 <= i < |rules| && (Mentions(rules[i].conditions) || Mentions(rules[i].exceptions))
  }

  // `stored` is what the rule store answered, None for a failure.
  function Screened(env: Env, stored: Option<seq<Rule>>, direction: Direction, m: Message): Option<Decision> {
    match stored
    case None => None
    case Some(rules) =>
      if rules == [] then Some(UNDECIDED)
      else Some(Evaluate(env, rules, direction, if NeedsText(rules) then ReadAll(env, m) else m))
  }

  /******* Only conditions on text can tell *******/

  // The same message but for the text of its attachments.
  ghost predicate AlikeButText(m: Message, n: Message) {
    && |m.attachments| == |n.attachments|
    && n == m.(attachments := n.attachments)
    && forall i :: 0 <= i < |m.attachments| ==> AlikeAttachment(m.attachments[i], n.attachments[i])
  }

  predicate AlikeAttachment(a: Attachment, b: Attachment) { a.filename == b.filename && a.size == b.size }

  lemma {:induction false} SizesIgnoreText(xs: seq<Attachment>, ys: seq<Attachment>)
    requires |xs| == |ys| && forall i :: 0 <= i < |xs| ==> AlikeAttachment(xs[i], ys[i])
    ensures TotalSize(xs) == TotalSize(ys) && LargestSize(xs) == LargestSize(ys)
  {
    if xs == [] {
    } else {
      SizesIgnoreText(xs[..|xs| - 1], ys[..|ys| - 1]);
    }
  }

  lemma {:induction false} NamesIgnoreText(xs: seq<Attachment>, ys: seq<Attachment>)
    requires |xs| == |ys| && forall i :: 0 <= i < |xs| ==> AlikeAttachment(xs[i], ys[i])
    ensures Names(xs) == Names(ys) && Extensions(xs) == Extensions(ys)
    ensures (exists i :: 0 <= i < |xs| && IsExecutable(xs[i])) <==> (exists i :: 0 <= i < |ys| && IsExecutable(ys[i]))
  {
    forall i | 0 <= i < |xs| ensures Extension(xs[i]) == Extension(ys[i]) { assert AlikeAttachment(xs[i], ys[i]); }
    assert forall i :: 0 <= i < |xs| ==> IsExecutable(xs[i]) == IsExecutable(ys[i]);
  }

  lemma {:induction false} AlikeFields(m: Message, n: Message)
    requires AlikeButText(m, n)
    ensures m.from == n.from && m.to == n.to && m.cc == n.cc && m.bcc == n.bcc && m.subject == n.subject
            && m.html == n.html
    ensures m.text == n.text && m.headers == n.headers && m.size == n.size && m.provider == n.provider
    ensures m.spf == n.spf && m.dkim == n.dkim && m.dmarc == n.dmarc && |m.attachments| == |n.attachments|
    ensures Names(m.attachments) == Names(n.attachments) && Extensions(m.attachments) == Extensions(n.attachments)
    ensures TotalSize(m.attachments) == TotalSize(n.attachments)
            && LargestSize(m.attachments) == LargestSize(n.attachments)
  {
    SizesIgnoreText(m.attachments, n.attachments);
    NamesIgnoreText(m.attachments, n.attachments);
    hide Names, Extensions, TotalSize, LargestSize;
  }

  lemma {:induction false} SubjectsIgnoreText(c: Condition, m: Message, n: Message)
    requires AlikeButText(m, n) && c.field != AttachmentText
    ensures Subjects(c, m) == Subjects(c, n)
  {
    AlikeFields(m, n);
    hide AlikeButText, Names, Extensions, TotalSize, LargestSize, Distinct, Texts;
  }

  lemma {:induction false} NumberIgnoresText(c: Condition, m: Message, n: Message)
    requires AlikeButText(m, n)
    ensures Number(c, m) == Number(c, n)
  {
    AlikeFields(m, n);
    hide AlikeButText, Names, Extensions, TotalSize, LargestSize, Distinct, Texts;
  }

  lemma {:induction false} ConditionIgnoresText(env: Env, c: Condition, m: Message, n: Message)
    requires AlikeButText(m, n) && c.field != AttachmentText
    ensures ConditionHolds(env, c, m) == ConditionHolds(env, c, n)
  {
    AlikeFields(m, n);
    hide Names, Extensions, Subjects, Number, AnySubjectMatches, IsExecutable, Texts, TotalSize, LargestSize;
    if c.field == HasExecutableAttachment {
      NamesIgnoreText(m.attachments, n.attachments);
    } else {
      SubjectsIgnoreText(c, m, n);
      NumberIgnoresText(c, m, n);
      hide AlikeButText;
    }
  }

  lemma {:induction false} ConditionsIgnoreText(env: Env, conditions: seq<Condition>, m: Message, n: Message)
    requires AlikeButText(m, n) && !Mentions(conditions)
    ensures forall i :: 0 <= i < |conditions| ==>
            ConditionHolds(env, conditions[i], m) == ConditionHolds(env, conditions[i], n)
  {
    hide ConditionHolds, AlikeButText;
    forall i | 0 <= i < |conditions|
      ensures ConditionHolds(env, conditions[i], m) == ConditionHolds(env, conditions[i], n)
    {
      ConditionIgnoresText(env, conditions[i], m, n);
    }
  }

  lemma {:induction false} BestIgnoresText(env: Env, rules: seq<Rule>, direction: Direction, m: Message, n: Message)
    requires AlikeButText(m, n) && !NeedsText(rules)
    ensures Best(env, rules, direction, m) == Best(env, rules, direction, n)
  {
    if rules == [] {
    } else {
      var k := |rules| - 1;
      var init, last := rules[..k], rules[k];
      assert !NeedsText(init) by { assert forall i :: 0 <= i < |init| ==> init[i] == rules[i]; }
      assert rules[k] == last;
      BestIgnoresText(env, init, direction, m, n);
      ConditionsIgnoreText(env, last.conditions, m, n);
      ConditionsIgnoreText(env, last.exceptions, m, n);
      hide ConditionHolds, AlikeButText, NeedsText, Mentions;
      assert Fires(env, last, m) == Fires(env, last, n);
      assert Qualifies(env, last, direction, m) == Qualifies(env, last, direction, n);
    }
  }

  lemma {:induction false} ReadingChangesTextOnly(env: Env, m: Message)
    ensures AlikeButText(m, ReadAll(env, m))
  {
  }

  // Reading only when asked decides as if everything had always been read.
  lemma {:induction false} LazyReadingIsInvisible(env: Env, rules: seq<Rule>, direction: Direction, m: Message)
    ensures Screened(env, Some(rules), direction, m) == Some(Evaluate(env, rules, direction, ReadAll(env, m)))
  {
    var n := ReadAll(env, m);
    ReadingChangesTextOnly(env, m);
    hide AlikeButText, ReadAll;
    EngineFindsBest(env, rules, direction, n);
    EngineFindsBest(env, rules, direction, m);
    if rules != [] && !NeedsText(rules) { BestIgnoresText(env, rules, direction, m, n); }
  }

  // A second reading finds nothing new.
  lemma {:induction false} ReadingTwiceIsReadingOnce(env: Env, m: Message)
    ensures ReadAll(env, ReadAll(env, m)) == ReadAll(env, m)
  {
    var xs := m.attachments;
    assert ReadEach(env, ReadEach(env, xs)) == ReadEach(env, xs);
  }
}
