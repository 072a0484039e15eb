/**
 The loops of the mail filter, each proved against its meaning.
 */
module FilterEngine {
  import opened Prelude
  import opened FilterModel
  import opened FilterRules
  import opened FilterScreen
  import opened StableSort

  // The keys seen are those of the addresses listed.
  ghost predicate Marks(seen: set<string>, out: seq<string>) { forall k :: k in seen <==> Seen(out, k) }

  lemma {:induction false} DistinctNext(all: seq<string>, address: string, seen: set<string>)
    requires Marks(seen, Distinct(all))
    ensures var key, out := KeyOf(address), Distinct(all);
            if key != "" && key !in seen then
              Distinct(all + [address]) == out + [address] && Marks(seen + {key}, out + [address])
            else Distinct(all + [address]) == out
  {
    var key, out := KeyOf(address), Distinct(all);
    DistinctUnfolds(all + [address]);
    assert (all + [address])[..|all|] == all;
    hide KeyOf, Distinct, Seen;
    forall k ensures Seen(out + [address], k) <==> Seen(out, k) || k == key { SeenMore(out, address, k); }
  }

  method CollectDistinct(addresses: seq<string>, out: seq<string>, seen: set<string>, ghost before: seq<string>)
    returns (more: seq<string>, marked: set<string>)
    requires out == Distinct(before) && Marks(seen, out)
    ensures more == Distinct(before + addresses) && Marks(marked, more)
  {
    hide KeyOf, Distinct, Marks;
    more, marked := out, seen;
    assert before + addresses[..0] == before;
    for i := 0 to |addresses|
      invariant more == Distinct(before + addresses[..i]) && Marks(marked, more)
    {
      var key := KeyOf(addresses[i]);
      DistinctNext(before + addresses[..i], addresses[i], marked);
      assert before + addresses[..i] + [addresses[i]] == before + addresses[..i + 1];
      if key != "" && key !in marked {
        more, marked := more + [addresses[i]], marked + {key};
      }
    }
    assert addresses[..|addresses|] == addresses;
  }

  // Every address that receives a copy: each nonblank one of the three lists
  // once, whatever its case or surrounding space.
  method CollectRecipients(m: Message) returns (out: seq<string>)
    ensures out == Recipients(m)
    ensures forall i, j :: 0 <= i < j < |out| ==> KeyOf(out[i]) != KeyOf(out[j])
    ensures forall k :: Seen(out, k) <==> k != "" && Seen(m.to + m.cc + m.bcc, k)
  {
    var seen: set<string> := {};
    out, seen := CollectDistinct(m.to, [], seen, []);
    out, seen := CollectDistinct(m.cc, out, seen, [] + m.to);
    out, seen := CollectDistinct(m.bcc, out, seen, [] + m.to + m.cc);
    assert [] + m.to + m.cc + m.bcc == m.to + m.cc + m.bcc;
    DistinctIsExact(m.to + m.cc + m.bcc);
  }

  // The sum and the greatest of the attachment sizes.
  method MeasureAttachments(attachments: seq<Attachment>) returns (total: int, largest: int)
    ensures total == TotalSize(attachments) && largest == LargestSize(attachments)
    ensures forall i :: 0 <= i < |attachments| ==> attachments[i].size <= largest
    ensures largest == 0 || exists i :: 0 <= i < |attachments| && attachments[i].size == largest
  {
    total, largest := 0, 0;
    for n := 0 to |attachments|
      invariant total == TotalSize(attachments[..n]) && largest == LargestSize(attachments[..n])
      invariant forall i :: 0 <= i < n ==> attachments[i].size <= largest
      invariant largest == 0 || exists i :: 0 <= i < n && attachments[i].size == largest
    {
      assert attachments[..n + 1][..n] == attachments[..n];
      total := total + attachments[n].size;
      if attachments[n].size > largest { largest := attachments[n].size; }
    }
    assert attachments[..|attachments|] == attachments;
  }

  // Whether the rule fires, and the conditions that carried it.
  method MatchRule(env: Env, r: Rule, m: Message) returns (matched: seq<Condition>, ok: bool)
    ensures ok == Fires(env, r, m)
    ensures ok <==> r.enabled && (forall i :: 0 <= i < |r.conditions| ==> ConditionHolds(env, r.conditions[i], m))
                    && !(exists i :: 0 <= i < |r.exceptions| && ConditionHolds(env, r.exceptions[i], m))
    ensures matched == if ok then r.conditions else []
  {
    hide ConditionHolds;
    if !r.enabled { return [], false; }
    matched := [];
    for i := 0 to |r.conditions|
      invariant matched == r.conditions[..i] && forall k :: 0 <= k < i ==> ConditionHolds(env, r.conditions[k], m)
    {
      if !ConditionHolds(env, r.conditions[i], m) { return [], false; }
      matched := matched + [r.conditions[i]];
    }
    for i := 0 to |r.exceptions|
      invariant forall k :: 0 <= k < i ==> !ConditionHolds(env, r.exceptions[k], m)
    {
      if ConditionHolds(env, r.exceptions[i], m) { return [], false; }
    }
    return matched, true;
  }

  method SelectApplicable(rules: seq<Rule>, direction: Direction) returns (applicable: seq<Rule>)
    ensures applicable == Applicable(rules, direction)
  {
    applicable := [];
    for i := 0 to |rules|
      invariant applicable == Applicable(rules[..i], direction)
    {
      assert rules[..i + 1][..i] == rules[..i];
      if rules[i].direction == direction && rules[i].enabled { applicable := applicable + [rules[i]]; }
    }
    assert rules[..|rules|] == rules;
  }

  lemma {:induction false} FirstStands(env: Env, rules: seq<Rule>, m: Message, i: nat)
    requires i <= |rules| && FirstFiring(env, rules[..i], m) != None
    ensures FirstFiring(env, rules, m) == FirstFiring(env, rules[..i], m)
    decreases |rules| - i
  {
    if i < |rules| {
      hide Fires;
      assert rules[..i + 1][..i] == rules[..i];
      FirstStands(env, rules, m, i + 1);
    } else {
      assert rules[..i] == rules;
    }
  }

  // The first rule of the list that fires, and what it decides.
  method FindFirst(env: Env, rules: seq<Rule>, m: Message) returns (d: Decision)
    ensures d == DecisionBy(FirstFiring(env, rules, m))
  {
    hide Fires;
    for n := 0 to |rules|
      invariant FirstFiring(env, rules[..n], m) == None
    {
      var rule := rules[n];
      var matched, ok := MatchRule(env, rule, m);
      assert rules[..n + 1][..n] == rules[..n];
      if ok {
        FirstStands(env, rules, m, n + 1);
        if rule.action == Allow { return Decision(None, Some(rule), matched); }
        return Decision(Some(rule.action), Some(rule), matched);
      }
    }
    assert rules[..|rules|] == rules;
    return UNDECIDED;
  }

  // The rule that decides is the qualifying one with the least priority, the
  // earliest of those.
  method RunRules(env: Env, rules: seq<Rule>, direction: Direction, m: Message) returns (d: Decision)
    ensures d == Evaluate(env, rules, direction, m)
    ensures forall i: nat :: Decides(env, rules, direction, m, i) ==> d == DecisionOf(rules[i])
    ensures NoneQualifies(env, rules, direction, m) ==> d == UNDECIDED
  {
    hide FirstFiring, Sorted, Applicable, Decides, NoneQualifies;
    var applicable := SelectApplicable(rules, direction);
    d := FindFirst(env, Sorted(Rank, applicable), m);
    Explain(env, rules, direction, m);
  }

  lemma {:induction false} Explain(env: Env, rules: seq<Rule>, direction: Direction, m: Message)
    ensures forall i: nat :: Decides(env, rules, direction, m, i) ==>
            Evaluate(env, rules, direction, m) == DecisionOf(rules[i])
    ensures NoneQualifies(env, rules, direction, m) ==> Evaluate(env, rules, direction, m) == UNDECIDED
  {
    var _ := UndecidedIffNoneQualifies(env, rules, direction, m);
    hide Qualifies, Evaluate;
    forall i: nat | Decides(env, rules, direction, m, i)
      ensures Evaluate(env, rules, direction, m) == DecisionOf(rules[i])
    {
      DecidedByLeast(env, rules, direction, m, i);
    }
  }

  lemma {:induction false} MentionedIs(r: Rule)
    requires Mentions(r.conditions) || Mentions(r.exceptions)
    ensures exists c :: (c in r.conditions || c in r.exceptions) && c.field == AttachmentText
  {
  }

  lemma {:induction false} NotMentioned(r: Rule, c: Condition)
    requires !Mentions(r.conditions) && !Mentions(r.exceptions) && (c in r.conditions || c in r.exceptions)
    ensures c.field != AttachmentText
  {
  }

  method AsksAboutText(rules: seq<Rule>) returns (asks: bool)
    ensures asks == NeedsText(rules)
    ensures asks <==> exists r, c :: r in rules && (c in r.conditions || c in r.exceptions) && c.field == AttachmentText
  {
    for i := 0 to |rules|
      invariant forall k :: 0 <= k < i ==> !Mentions(rules[k].conditions) && !Mentions(rules[k].exceptions)
    {
      if Mentions(rules[i].conditions) || Mentions(rules[i].exceptions) {
        MentionedIs(rules[i]);
        return true;
      }
    }
    forall r | r in rules ensures !Mentions(r.conditions) && !Mentions(r.exceptions) {
      var k :| 0 <= k < |rules| && rules[k] == r;
    }
    forall r, c | r in rules && (c in r.conditions || c in r.exceptions) ensures c.field != AttachmentText {
      NotMentioned(r, c);
    }
    return false;
  }

  // Fills in the text of a copy of the attachments.
  method ReadAttachments(env: Env, m: Message) returns (r: Message)
    ensures r == ReadAll(env, m)
    ensures |r.attachments| == |m.attachments| && r == m.(attachments := r.attachments)
    ensures forall i :: 0 <= i < |m.attachments| ==>
              var a := m.attachments[i];
              r.attachments[i] == if a.text == "" && a.data != "" && env.supported(a.filename, a.contentType)
                                  then a.(text := env.extract(a.filename, a.contentType, a.data)) else a
  {
    if m.attachments == [] { return m; }
    var n := |m.attachments|;
    var copied := new Attachment[n](i requires 0 <= i < n => m.attachments[i]);
    for i := 0 to n
      invariant forall k :: 0 <= k < i ==> copied[k] == Read(env, m.attachments[k])
      invariant forall k :: i <= k < n ==> copied[k] == m.attachments[k]
    {
      var a := copied[i];
      if a.text == "" && a.data != "" && env.supported(a.filename, a.contentType) {
        copied[i] := a.(text := env.extract(a.filename, a.contentType, a.data));
      }
    }
    assert copied[..] == ReadEach(env, m.attachments);
    return m.(attachments := copied[..]);
  }

  // The decision is the one taken on a message whose attachments were all
  // read; a failure to read the rules is reported.
  method Screen(env: Env, stored: Option<seq<Rule>>, direction: Direction, m: Message) returns (d: Option<Decision>)
    ensures d == Screened(env, stored, direction, m)
    ensures d == None <==> stored == None
    ensures stored != None ==> d == Some(Evaluate(env, stored.value, direction, ReadAll(env, m)))
  {
    if stored == None { return None; }
    var rules := stored.value;
    LazyReadingIsInvisible(env, rules, direction, m);
    if rules == [] { return Some(UNDECIDED); }
    hide Evaluate;
    var view := m;
    var asks := AsksAboutText(rules);
    if asks { view := ReadAttachments(env, m); }
    var decision := RunRules(env, rules, direction, view);
    return Some(decision);
  }
}
