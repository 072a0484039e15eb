/**
 What a condition asks, field by field, in terms of the message and of what the
 condition names.
 */
module FilterMeaning {
  import opened Prelude
  import opened Text
  import opened FilterModel

  /******* Numbers *******/

  lemma {:induction false} TotalAdds(a: seq<Attachment>, b: seq<Attachment>)
    ensures TotalSize(a + b) == TotalSize(a) + TotalSize(b)
  {
    if b == [] {
      assert a + b == a;
    } else {
      var n := |b| - 1;
      TotalAdds(a, b[..n]);
      assert (a + b)[..|a + b| - 1] == a + b[..n];
    }
  }

  lemma {:induction false} TotalOfOne(x: Attachment)
    ensures TotalSize([x]) == x.size && TotalSize([]) == 0
  {
    assert [x][..0] == [];
  }

  // The greatest of the sizes, and zero if none is greater.
  lemma {:induction false} LargestIsGreatest(attachments: seq<Attachment>, number: int)
    ensures LargestSize(attachments) >= number <==>
            number <= 0 || exists i :: 0 <= i < |attachments| && attachments[i].size >= number
  {
    if attachments == [] {
    } else {
      var n := |attachments| - 1;
      var init := attachments[..n];
      LargestIsGreatest(init, number);
      assert forall i :: 0 <= i < n ==> init[i] == attachments[i];
      hide LargestSize;
      assert LargestSize(attachments) >= number <==>
             LargestSize(init) >= number || attachments[n].size >= number by { LargestLast(attachments, number); }
    }
  }

  lemma {:induction false} LargestLast(attachments: seq<Attachment>, number: int)
    requires attachments != []
    ensures var n := |attachments| - 1;
            LargestSize(attachments) >= number <==>
            LargestSize(attachments[..n]) >= number || attachments[n].size >= number
  {
  }

  // The nonblank addresses, spelled alike up to case and surrounding space.
  ghost function Keys(addresses: seq<string>): set<string> {
    set i | 0 <= i < |addresses| && Lower(Trim(addresses[i])) != "" :: Lower(Trim(addresses[i]))
  }

  lemma {:induction false} KeysMore(init: seq<string>, last: string)
    ensures Keys(init + [last]) == Keys(init) + if KeyOf(last) == "" then {} else {KeyOf(last)}
  {
    hide Lower, Trim;
    var all := init + [last];
    assert all[|init|] == last;
    forall i | 0 <= i < |init| ensures all[i] == init[i] {}
    forall k ensures k in Keys(all) <==> k in Keys(init) || (k == KeyOf(last) && k != "") {
      if k in Keys(init) {
        var i :| 0 <= i < |init| && Lower(Trim(init[i])) == k && k != "";
        assert all[i] == init[i];
      }
    }
  }

  lemma {:induction false} SeenIsKey(addresses: seq<string>, k: string)
    requires k != ""
    ensures Seen(addresses, k) <==> k in Keys(addresses)
  {
    hide Lower, Trim;
  }

  // Every recipient counts once, however often and however it is spelled.
  lemma {:induction false} DistinctCounts(addresses: seq<string>)
    ensures |Distinct(addresses)| == |Keys(addresses)|
  {
    if addresses == [] {
    } else {
      var n := |addresses| - 1;
      var init, last := addresses[..n], addresses[n];
      DistinctCounts(init);
      assert addresses == init + [last];
      hide Distinct, KeyOf, Keys;
      KeysMore(init, last);
      DistinctUnfolds(addresses);
      var key := KeyOf(last);
      if key != "" {
        DistinctIsExact(init);
        assert Seen(Distinct(init), key) <==> Seen(init, key);
        SeenIsKey(init, key);
        if key in Keys(init) { assert Keys(init) + {key} == Keys(init); }
      }
    }
  }

  /**
   A condition on a number holds if and only if that number is at least the
   threshold: the count of attachments, the greatest of their sizes, the sum of
   them, the size of the message, the count of distinct recipients.
   */
  lemma {:induction false} NumbersReachThreshold(env: Env, c: Condition, m: Message)
    ensures c.field == AttachmentCount ==> (ConditionHolds(env, c, m) <==> |m.attachments| >= c.number)
    ensures c.field == AttachmentSize ==>
              (ConditionHolds(env, c, m) <==>
                 c.number <= 0 || exists i :: 0 <= i < |m.attachments| && m.attachments[i].size >= c.number)
    ensures c.field == TotalAttachmentSize ==> (ConditionHolds(env, c, m) <==> TotalSize(m.attachments) >= c.number)
    ensures c.field == MessageSize ==> (ConditionHolds(env, c, m) <==> m.size >= c.number)
    ensures c.field == RecipientCount ==> (ConditionHolds(env, c, m) <==> |Keys(m.to + m.cc + m.bcc)| >= c.number)
  {
    hide LargestSize, TotalSize, Distinct, Keys, AnySubjectMatches;
    if c.field == AttachmentSize { LargestIsGreatest(m.attachments, c.number); }
    if c.field == RecipientCount { DistinctCounts(m.to + m.cc + m.bcc); }
  }

  // A lower threshold holds wherever a higher one does.
  lemma {:induction false} LowerThresholdHolds(env: Env, c: Condition, number: int, m: Message)
    requires IsNumeric(c.field) && number <= c.number && ConditionHolds(env, c, m)
    ensures ConditionHolds(env, c.(number := number), m)
  {
    hide LargestSize, TotalSize, Distinct, AnySubjectMatches;
    assert Number(c.(number := number), m) == Number(c, m);
  }

  /******* Texts *******/

  // What an operator asks of one string, `wanted` being trimmed and lowered.
  ghost predicate Asked(op: Operator, subject: string, wanted: string) {
    || (op == OpContains && exists p, q :: Lower(subject) == p + wanted + q)
    || ((op == OpEquals || op == OpIn) && Lower(subject) == wanted)
    || (op == OpDomainIs && DomainMatches(Lower(subject), wanted))
  }

  // The string is not empty, and answers one of the values, or one of the patterns.
  ghost predicate Answers(env: Env, c: Condition, subject: string) {
    && subject != ""
    && (c.op != OpMatches ==>
          exists v :: v in c.values && Lower(Trim(v)) != "" && Asked(c.op, subject, Lower(Trim(v))))
    && (c.op == OpMatches ==> exists p :: p in c.compiled && env.search(p, subject))
  }

  lemma {:induction false} ContainsIsPart(s: string, w: string)
    ensures Contains(s, w) <==> exists p, q :: s == p + w + q
  {
    if i :| 0 <= i <= |s| && At(s, w, i) { assert s == s[..i] + w + s[i + |w|..]; }
    if p, q: string :| s == p + w + q { assert At(s, w, |p|); }
  }

  lemma {:induction false} ValueIsAsked(op: Operator, subject: string, v: string)
    ensures ValueMatches(op, Lower(subject), v) <==> Lower(Trim(v)) != "" && Asked(op, subject, Lower(Trim(v)))
  {
    ContainsIsPart(Lower(subject), Lower(Trim(v)));
    hide Lower, Trim, Contains, DomainMatches;
  }

  lemma {:induction false} SubjectAnswers(env: Env, c: Condition, subject: string)
    ensures SubjectMatches(env, c, subject) <==> Answers(env, c, subject)
  {
    hide Lower, Trim, ValueMatches, Asked;
    forall v ensures ValueMatches(c.op, Lower(subject), v) <==>
                     Lower(Trim(v)) != "" && Asked(c.op, subject, Lower(Trim(v)))
    {
      ValueIsAsked(c.op, subject, v);
    }
    if v :| v in c.values && Lower(Trim(v)) != "" && Asked(c.op, subject, Lower(Trim(v))) {
      var i :| 0 <= i < |c.values| && c.values[i] == v;
    }
    if p :| p in c.compiled && env.search(p, subject) {
      var i :| 0 <= i < |c.compiled| && c.compiled[i] == p;
    }
  }

  lemma {:induction false} AnyAnswers(env: Env, c: Condition, subjects: seq<string>)
    ensures AnySubjectMatches(env, c, subjects) <==> exists s :: s in subjects && Answers(env, c, s)
  {
    hide SubjectMatches, Answers;
    forall s ensures SubjectMatches(env, c, s) <==> Answers(env, c, s) { SubjectAnswers(env, c, s); }
    if s :| s in subjects && Answers(env, c, s) {
      var i :| 0 <= i < |subjects| && subjects[i] == s;
      assert SubjectMatches(env, c, subjects[i]);
    }
  }

  lemma {:induction false} TextIsSubjects(env: Env, c: Condition, m: Message)
    requires !IsNumeric(c.field) && c.field !in {HasAttachment, HasExecutableAttachment, Header}
    ensures ConditionHolds(env, c, m) <==> exists s :: s in Subjects(c, m) && Answers(env, c, s)
  {
    AnyAnswers(env, c, Subjects(c, m));
    hide Answers, AnySubjectMatches, Subjects;
  }

  /**
   A condition on the envelope holds if and only if the field's own string, or
   one of its addresses, answers it.
   */
  lemma {:induction false} EnvelopeAnswers(env: Env, c: Condition, m: Message)
    ensures c.field == From ==> (ConditionHolds(env, c, m) <==> Answers(env, c, m.from))
    ensures c.field == To ==> (ConditionHolds(env, c, m) <==> exists s :: s in m.to && Answers(env, c, s))
    ensures c.field == Cc ==> (ConditionHolds(env, c, m) <==> exists s :: s in m.cc && Answers(env, c, s))
    ensures c.field == Bcc ==> (ConditionHolds(env, c, m) <==> exists s :: s in m.bcc && Answers(env, c, s))
    ensures c.field == Provider ==> (ConditionHolds(env, c, m) <==> Answers(env, c, m.provider))
    ensures c.field == Spf ==> (ConditionHolds(env, c, m) <==> Answers(env, c, m.spf))
    ensures c.field == Dkim ==> (ConditionHolds(env, c, m) <==> Answers(env, c, m.dkim))
    ensures c.field == Dmarc ==> (ConditionHolds(env, c, m) <==> Answers(env, c, m.dmarc))
    ensures c.field.UnknownField? ==> !ConditionHolds(env, c, m)
  {
    hide Answers, ConditionHolds, Distinct;
    if c.field in {From, To, Cc, Bcc, Provider, Spf, Dkim, Dmarc} || c.field.UnknownField? {
      TextIsSubjects(env, c, m);
    }
  }

  /**
   A condition on what the message says holds if and only if the subject, the
   HTML or the plain text answers it, whichever the field names; one on
   attachments if and only if the name, extension or text of one of them does.
   */
  lemma {:induction false} ContentAnswers(env: Env, c: Condition, m: Message)
    ensures c.field == Subject ==> (ConditionHolds(env, c, m) <==> Answers(env, c, m.subject))
    ensures c.field == Body ==> (ConditionHolds(env, c, m) <==> Answers(env, c, m.html) || Answers(env, c, m.text))
    ensures c.field == SubjectOrBody ==>
              (ConditionHolds(env, c, m) <==>
                 Answers(env, c, m.subject) || Answers(env, c, m.html) || Answers(env, c, m.text))
  {
    hide Answers, ConditionHolds, Distinct;
    if c.field in {Subject, Body, SubjectOrBody} { TextIsSubjects(env, c, m); }
  }

  lemma {:induction false} AttachmentsAnswer(env: Env, c: Condition, m: Message)
    ensures c.field == AttachmentName ==>
              (ConditionHolds(env, c, m) <==>
                 exists i :: 0 <= i < |m.attachments| && Answers(env, c, m.attachments[i].filename))
    ensures c.field == AttachmentExtension ==>
              (ConditionHolds(env, c, m) <==>
                 exists i :: 0 <= i < |m.attachments| && Answers(env, c, Extension(m.attachments[i])))
    ensures c.field == AttachmentText ==>
              (ConditionHolds(env, c, m) <==>
                 exists i :: 0 <= i < |m.attachments| && Answers(env, c, m.attachments[i].text))
  {
    hide Answers, Extension, ConditionHolds;
    if c.field == AttachmentName {
      NamesAnswer(env, c, m);
    } else if c.field == AttachmentExtension {
      ExtensionsAnswer(env, c, m);
    } else if c.field == AttachmentText {
      TextsAnswer(env, c, m);
    }
  }

  lemma {:induction false} NamesAnswer(env: Env, c: Condition, m: Message)
    requires c.field == AttachmentName
    ensures ConditionHolds(env, c, m) <==>
            exists i :: 0 <= i < |m.attachments| && Answers(env, c, m.attachments[i].filename)
  {
    hide Answers, ConditionHolds;
    TextIsSubjects(env, c, m);
    PartAnswers(env, c, m.attachments, (a: Attachment) => a.filename, Subjects(c, m));
  }

  lemma {:induction false} ExtensionsAnswer(env: Env, c: Condition, m: Message)
    requires c.field == AttachmentExtension
    ensures ConditionHolds(env, c, m) <==>
            exists i :: 0 <= i < |m.attachments| && Answers(env, c, Extension(m.attachments[i]))
  {
    hide Answers, ConditionHolds, Extension;
    TextIsSubjects(env, c, m);
    PartAnswers(env, c, m.attachments, (a: Attachment) => Extension(a), Subjects(c, m));
  }

  lemma {:induction false} TextsAnswer(env: Env, c: Condition, m: Message)
    requires c.field == AttachmentText
    ensures ConditionHolds(env, c, m) <==>
            exists i :: 0 <= i < |m.attachments| && Answers(env, c, m.attachments[i].text)
  {
    hide Answers, ConditionHolds;
    TextIsSubjects(env, c, m);
    PartAnswers(env, c, m.attachments, (a: Attachment) => a.text, Subjects(c, m));
  }

  // Whether there is an attachment, and one that runs, by its extension.
  lemma {:induction false} AttachmentsTell(env: Env, c: Condition, m: Message)
    ensures c.field == HasAttachment ==> (ConditionHolds(env, c, m) <==> m.attachments != [])
    ensures c.field == HasExecutableAttachment ==>
              (ConditionHolds(env, c, m) <==>
                 exists i :: 0 <= i < |m.attachments| && Extension(m.attachments[i]) in EXECUTABLE_EXTENSIONS)
  {
    hide Extension;
    if c.field == HasExecutableAttachment && ConditionHolds(env, c, m) {
      var i :| 0 <= i < |m.attachments| && IsExecutable(m.attachments[i]);
    }
    if i :| 0 <= i < |m.attachments| && Extension(m.attachments[i]) in EXECUTABLE_EXTENSIONS {
      assert IsExecutable(m.attachments[i]);
    }
  }

  lemma {:induction false} PartAnswers(env: Env, c: Condition, attachments: seq<Attachment>, part: Attachment -> string,
                                       subjects: seq<string>)
    requires |subjects| == |attachments|
    requires forall i :: 0 <= i < |attachments| ==> subjects[i] == part(attachments[i])
    ensures (exists s :: s in subjects && Answers(env, c, s)) <==>
            exists i :: 0 <= i < |attachments| && Answers(env, c, part(attachments[i]))
  {
    hide Answers;
    if s :| s in subjects && Answers(env, c, s) {
      var i :| 0 <= i < |subjects| && subjects[i] == s;
      assert Answers(env, c, part(attachments[i]));
    }
    if i :| 0 <= i < |attachments| && Answers(env, c, part(attachments[i])) {
      assert subjects[i] in subjects;
    }
  }

  // The extension is what follows the last dot of the file's own name, in lower
  // case; a file without a dot has none.
  lemma {:induction false} ExtensionMeans(a: Attachment, directory: string, base: string, ext: string)
    requires '.' !in ext && '/' !in ext
    ensures a.filename == base + "." + ext ==> Extension(a) == Lower(ext)
    ensures a.filename == directory + ext && (directory == "" || directory[|directory| - 1] == '/') ==>
            Extension(a) == ""
  {
    if a.filename == base + "." + ext {
      ExtensionFollowsLastDot(base, ext);
      LowerMore(".", ext);
      assert Lower(".") == ".";
      hide Lower, ExtensionOf;
      assert ("." + Lower(ext))[..1] == "." && ("." + Lower(ext))[1..] == Lower(ext);
    }
    if a.filename == directory + ext && (directory == "" || directory[|directory| - 1] == '/') {
      NoDotNoExtension(directory, ext);
    }
  }

  // Any recipient, by its first spelling: To before Cc before Bcc.
  ghost predicate FirstSpelling(all: seq<string>, i: nat)
    requires i < |all|
  {
    Lower(Trim(all[i])) != "" && forall j :: 0 <= j < i ==> Lower(Trim(all[j])) != Lower(Trim(all[i]))
  }

  ghost predicate IsFirst(all: seq<string>, s: string) {
    exists i: nat :: i < |all| && all[i] == s && FirstSpelling(all, i)
  }

  lemma {:induction false} IsFirstMore(all: seq<string>, s: string)
    requires all != []
    ensures var n := |all| - 1;
            IsFirst(all, s) <==> IsFirst(all[..n], s) || (s == all[n] && FirstSpelling(all, n))
  {
    var n := |all| - 1;
    var init := all[..n];
    hide FirstSpelling;
    if i: nat :| i < |init| && init[i] == s && FirstSpelling(init, i) {
      FirstStaysFirst(all, i);
      assert all[i] == s;
    }
    if i: nat :| i < |all| && all[i] == s && FirstSpelling(all, i) {
      if i < n {
        FirstStaysFirst(all, i);
        assert init[i] == s;
      }
    }
  }

  lemma {:induction false} DistinctAreFirst(all: seq<string>, s: string)
    ensures s in Distinct(all) <==> IsFirst(all, s)
  {
    if all == [] {
    } else {
      DistinctAreFirst(all[..|all| - 1], s);
      IsFirstMore(all, s);
      DistinctAdds(all);
      hide Distinct, FirstSpelling, IsFirst;
    }
  }

  lemma {:induction false} FirstStaysFirst(all: seq<string>, i: nat)
    requires i < |all| - 1
    ensures FirstSpelling(all[..|all| - 1], i) <==> FirstSpelling(all, i)
  {
    hide Lower, Trim;
    var init := all[..|all| - 1];
    assert forall j :: 0 <= j <= i ==> init[j] == all[j];
  }

  lemma {:induction false} DistinctAdds(all: seq<string>)
    requires all != []
    ensures var n := |all| - 1;
            Distinct(all) == if FirstSpelling(all, n) then Distinct(all[..n]) + [all[n]] else Distinct(all[..n])
  {
    var n := |all| - 1;
    var init, key := all[..n], KeyOf(all[n]);
    DistinctUnfolds(all);
    DistinctIsExact(init);
    hide Distinct, Lower, Trim;
    assert Seen(Distinct(init), key) <==> key != "" && Seen(init, key);
    assert forall j :: 0 <= j < n ==> init[j] == all[j];
    if Seen(init, key) {
      var j :| 0 <= j < |init| && KeyOf(init[j]) == key;
      assert all[j] == init[j];
    }
    if j :| 0 <= j < n && KeyOf(all[j]) == key { assert KeyOf(init[j]) == key; }
  }

  lemma {:induction false} RecipientsAnswer(env: Env, c: Condition, m: Message)
    requires c.field == AnyRecipient
    ensures var all := m.to + m.cc + m.bcc;
            ConditionHolds(env, c, m) <==>
              exists i: nat :: i < |all| && FirstSpelling(all, i) && Answers(env, c, all[i])
  {
    var all := m.to + m.cc + m.bcc;
    TextIsSubjects(env, c, m);
    assert Subjects(c, m) == Distinct(all);
    hide Answers, ConditionHolds, Distinct, FirstSpelling, Subjects;
    if s :| s in Distinct(all) && Answers(env, c, s) {
      DistinctAreFirst(all, s);
    }
    if i: nat :| i < |all| && FirstSpelling(all, i) && Answers(env, c, all[i]) {
      assert IsFirst(all, all[i]);
      DistinctAreFirst(all, all[i]);
    }
  }

  // A header is found by its lowered name, and is there or answers.
  lemma {:induction false} HeadersAnswer(env: Env, c: Condition, m: Message)
    requires c.field == Header
    ensures var name := Lower(Trim(c.header));
            && (c.op == OpExists ==> (ConditionHolds(env, c, m) <==> name in m.headers && m.headers[name] != []))
            && (c.op != OpExists ==>
                  (ConditionHolds(env, c, m) <==>
                     name in m.headers && exists s :: s in m.headers[name] && Answers(env, c, s)))
  {
    AnyAnswers(env, c, HeaderValues(m, c.header));
    hide Answers, AnySubjectMatches, Lower, Trim;
  }

  // More values to choose from never make a condition fail.
  lemma {:induction false} MoreValuesHold(env: Env, c: Condition, values: seq<string>, m: Message)
    requires (forall v :: v in c.values ==> v in values) && ConditionHolds(env, c, m)
    ensures ConditionHolds(env, c.(values := values), m)
  {
    hide ConditionHolds, Answers;
    if c.field == Header {
      MoreValuesHeader(env, c, values, m);
    } else if IsNumeric(c.field) || c.field in {HasAttachment, HasExecutableAttachment} {
      ValuesUnasked(env, c, values, m);
    } else {
      var d := c.(values := values);
      assert Subjects(d, m) == Subjects(c, m);
      hide Subjects;
      TextIsSubjects(env, c, m);
      TextIsSubjects(env, d, m);
      var s :| s in Subjects(c, m) && Answers(env, c, s);
      MoreValuesAnswer(env, c, values, s);
    }
  }

  lemma {:induction false} ValuesUnasked(env: Env, c: Condition, values: seq<string>, m: Message)
    requires IsNumeric(c.field) || c.field in {HasAttachment, HasExecutableAttachment}
    ensures ConditionHolds(env, c.(values := values), m) <==> ConditionHolds(env, c, m)
  {
    assert Number(c.(values := values), m) == Number(c, m);
    hide Number, AnySubjectMatches, IsExecutable, HeaderValues, Subjects;
  }

  lemma {:induction false} MoreValuesHeader(env: Env, c: Condition, values: seq<string>, m: Message)
    requires c.field == Header && (forall v :: v in c.values ==> v in values) && ConditionHolds(env, c, m)
    ensures ConditionHolds(env, c.(values := values), m)
  {
    HeadersAnswer(env, c, m);
    HeadersAnswer(env, c.(values := values), m);
    hide ConditionHolds, Answers, Lower, Trim;
    if c.op != OpExists {
      var s :| s in m.headers[Lower(Trim(c.header))] && Answers(env, c, s);
      MoreValuesAnswer(env, c, values, s);
    }
  }

  lemma {:induction false} MoreValuesAnswer(env: Env, c: Condition, values: seq<string>, s: string)
    requires (forall v :: v in c.values ==> v in values) && Answers(env, c, s)
    ensures Answers(env, c.(values := values), s)
  {
    hide Asked, Lower, Trim;
  }
}
