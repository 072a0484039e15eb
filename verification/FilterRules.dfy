/**
 Which rule decides about a message. The engine filters, sorts and takes the
 first rule that fires; what it means is the enabled rule of that direction
 with the least priority, and the earliest of those.
 */
module FilterRules {
  import opened Prelude
  import opened FilterModel
  import opened StableSort

  datatype Decision = Decision(action: Option<Action>, rule: Option<Rule>, matched: seq<Condition>)

  const UNDECIDED: Decision := Decision(None, None, [])

  function DecisionOf(r: Rule): Decision {
    Decision(if r.action == Allow then None else Some(r.action), Some(r), r.conditions)
  }

  predicate Delivers(d: Decision) { d.action == None || d.action == Some(Allow) || d.action == Some(Tag) }

  function Rank(r: Rule): int { r.priority }

  predicate Applies(r: Rule, direction: Direction) { r.direction == direction && r.enabled }

  function Applicable(rules: seq<Rule>, direction: Direction): seq<Rule> {
    if rules == [] then []
    else
      var before, last := Applicable(rules[..|rules| - 1], direction), rules[|rules| - 1];
      if Applies(last, direction) then before + [last] else before
  }

  function FirstFiring(env: Env, rules: seq<Rule>, m: Message): Option<Rule> {
    if rules == [] then None
    else
      var before, last := FirstFiring(env, rules[..|rules| - 1], m), rules[|rules| - 1];
      if before == None && Fires(env, last, m) then Some(last) else before
  }

  function DecisionBy(r: Option<Rule>): Decision {
    if r == None then UNDECIDED else DecisionOf(r.value)
  }

  function Evaluate(env: Env, rules: seq<Rule>, direction: Direction, m: Message): Decision {
    DecisionBy(FirstFiring(env, Sorted(Rank, Applicable(rules, direction)), m))
  }

  /******* What it means *******/

  predicate Qualifies(env: Env, r: Rule, direction: Direction, m: Message) {
    r.direction == direction && Fires(env, r, m)
  }

  // Rule i comes before rule j: a lesser priority, or the same and listed no later.
  predicate Precedes(rules: seq<Rule>, i: nat, j: nat)
    requires i < |rules| && j < |rules|
  {
    rules[i].priority < rules[j].priority || (rules[i].priority == rules[j].priority && i <= j)
  }

  ghost predicate Decides(env: Env, rules: seq<Rule>, direction: Direction, m: Message, i: nat) {
    && i < |rules|
    && Qualifies(env, rules[i], direction, m)
    && forall j: nat :: j < |rules| && Qualifies(env, rules[j], direction, m) ==> Precedes(rules, i, j)
  }

  ghost predicate NoneQualifies(env: Env, rules: seq<Rule>, direction: Direction, m: Message) {
    forall j: nat :: j < |rules| ==> !Qualifies(env, rules[j], direction, m)
  }

  // The deciding rule, found in one pass.
  ghost function Best(env: Env, rules: seq<Rule>, direction: Direction, m: Message): (r: Option<Rule>) {
    if rules == [] then None
    else Better(env, Best(env, rules[..|rules| - 1], direction, m), rules[|rules| - 1], direction, m)
  }

  ghost function Better(env: Env, best: Option<Rule>, r: Rule, direction: Direction, m: Message): Option<Rule> {
    if Qualifies(env, r, direction, m) && (best == None || r.priority < best.value.priority) then Some(r) else best
  }

  /******* First firing rule of a sorted list *******/

  lemma {:induction false} FiringIsRanked(env: Env, rules: seq<Rule>, m: Message, bound: int)
    requires forall i :: 0 <= i < |rules| ==> Rank(rules[i]) <= bound
    ensures FirstFiring(env, rules, m) != None ==> Rank(FirstFiring(env, rules, m).value) <= bound
  {
    hide Fires;
    if rules == [] {
    } else {
      FiringIsRanked(env, rules[..|rules| - 1], m, bound);
    }
  }

  lemma {:induction false} FirstFiringMore(env: Env, rules: seq<Rule>, x: Rule, m: Message)
    ensures FirstFiring(env, rules + [x], m) ==
            if FirstFiring(env, rules, m) == None && Fires(env, x, m) then Some(x) else FirstFiring(env, rules, m)
  {
    hide Fires;
    assert (rules + [x])[..|rules|] == rules;
  }

  ghost function Prefer(env: Env, first: Option<Rule>, x: Rule, m: Message): Option<Rule> {
    if Fires(env, x, m) && (first == None || Rank(x) < Rank(first.value)) then Some(x) else first
  }

  lemma {:induction false} FirstOfInsert(env: Env, x: Rule, rules: seq<Rule>, m: Message)
    requires Ordered(Rank, rules)
    ensures FirstFiring(env, Insert(Rank, x, rules), m) == Prefer(env, FirstFiring(env, rules, m), x, m)
  {
    if rules == [] {
      FirstFiringMore(env, [], x, m);
      assert [] + [x] == [x];
    } else {
      var n := |rules| - 1;
      var init, last := rules[..n], rules[n];
      assert rules == init + [last];
      assert Insert(Rank, x, rules) == if Rank(last) <= Rank(x) then rules + [x] else Insert(Rank, x, init) + [last];
      hide Fires, Insert, FirstFiring;
      FirstFiringMore(env, init, last, m);
      if Rank(last) <= Rank(x) {
        FirstFiringMore(env, rules, x, m);
        FiringIsRanked(env, rules, m, Rank(last));
      } else {
        FirstOfInsert(env, x, init, m);
        FirstFiringMore(env, Insert(Rank, x, init), last, m);
      }
    }
  }

  lemma {:induction false} ApplicableMore(rules: seq<Rule>, x: Rule, direction: Direction)
    ensures Sorted(Rank, Applicable(rules + [x], direction)) ==
            if Applies(x, direction) then Insert(Rank, x, Sorted(Rank, Applicable(rules, direction)))
            else Sorted(Rank, Applicable(rules, direction))
  {
    assert (rules + [x])[..|rules|] == rules;
    var before := Applicable(rules, direction);
    if Applies(x, direction) { assert (before + [x])[..|before|] == before; }
  }

  // Filtering, sorting and searching find what one pass finds.
  lemma {:induction false} EngineFindsBest(env: Env, rules: seq<Rule>, direction: Direction, m: Message)
    ensures FirstFiring(env, Sorted(Rank, Applicable(rules, direction)), m) == Best(env, rules, direction, m)
  {
    if rules == [] {
    } else {
      var n := |rules| - 1;
      var init, last := rules[..n], rules[n];
      assert rules == init + [last];
      EngineFindsBest(env, init, direction, m);
      var before := Sorted(Rank, Applicable(init, direction));
      SortedSorts(Rank, Applicable(init, direction));
      FirstOfInsert(env, last, before, m);
      ApplicableMore(init, last, direction);
    }
  }

  /******* The deciding rule *******/

  lemma {:induction false} BestDecides(env: Env, rules: seq<Rule>, direction: Direction, m: Message) returns (i: nat)
    ensures Best(env, rules, direction, m) == None ==> NoneQualifies(env, rules, direction, m)
    ensures Best(env, rules, direction, m) != None ==>
              Decides(env, rules, direction, m, i) && Best(env, rules, direction, m) == Some(rules[i])
  {
    i := 0;
    if rules == [] {
    } else {
      var n := |rules| - 1;
      var init, last := rules[..n], rules[n];
      i := BestDecides(env, init, direction, m);
      var best := Best(env, init, direction, m);
      hide Qualifies;
      if Qualifies(env, last, direction, m) && (best == None || last.priority < best.value.priority) { i := n; }
      assert Best(env, rules, direction, m) == Better(env, best, last, direction, m);
      forall j: nat | j < |rules| && Qualifies(env, rules[j], direction, m)
        ensures Best(env, rules, direction, m) != None && i < |rules| && Precedes(rules, i, j)
      {
        assert j < n ==> rules[j] == init[j];
      }
    }
  }

  lemma {:induction false} OneDecides(env: Env, rules: seq<Rule>, direction: Direction, m: Message, i: nat, j: nat)
    requires Decides(env, rules, direction, m, i) && Decides(env, rules, direction, m, j)
    ensures i == j
  {
    hide Qualifies;
    assert Precedes(rules, i, j) && Precedes(rules, j, i);
  }

  // The decision is that of the qualifying rule with the least priority, the
  // earliest of those, and carries all its conditions.
  lemma {:induction false} DecidedByLeast(env: Env, rules: seq<Rule>, direction: Direction, m: Message, i: nat)
    requires Decides(env, rules, direction, m, i)
    ensures Evaluate(env, rules, direction, m) == DecisionOf(rules[i])
  {
    EngineFindsBest(env, rules, direction, m);
    var k := BestDecides(env, rules, direction, m);
    hide Qualifies, Best, FirstFiring;
    OneDecides(env, rules, direction, m, i, k);
  }

  // Without a qualifying rule the message is delivered; otherwise one decides.
  lemma {:induction false} UndecidedIffNoneQualifies(env: Env, rules: seq<Rule>, direction: Direction, m: Message)
    returns (i: nat)
    ensures Evaluate(env, rules, direction, m).rule == None <==> NoneQualifies(env, rules, direction, m)
    ensures NoneQualifies(env, rules, direction, m) ==> Evaluate(env, rules, direction, m) == UNDECIDED
    ensures !NoneQualifies(env, rules, direction, m) ==> Decides(env, rules, direction, m, i)
  {
    EngineFindsBest(env, rules, direction, m);
    i := BestDecides(env, rules, direction, m);
    hide Qualifies, Best, FirstFiring;
  }

  // Mail is stopped exactly when the deciding rule holds or rejects.
  lemma {:induction false} StoppedIffDeciderStops(env: Env, rules: seq<Rule>, direction: Direction, m: Message)
    ensures !Delivers(Evaluate(env, rules, direction, m)) <==>
            exists i: nat :: Decides(env, rules, direction, m, i) && rules[i].action in {Hold, Reject}
  {
    var i := UndecidedIffNoneQualifies(env, rules, direction, m);
    hide Qualifies;
    if !NoneQualifies(env, rules, direction, m) {
      DecidedByLeast(env, rules, direction, m, i);
      forall j: nat | Decides(env, rules, direction, m, j) ensures j == i {
        OneDecides(env, rules, direction, m, i, j);
      }
    }
  }

  /******* Adding a rule *******/

  function With(rules: seq<Rule>, k: nat, x: Rule): seq<Rule>
    requires k <= |rules|
  {
    rules[..k] + [x] + rules[k..]
  }

  // Some qualifying rule beats `x` listed at position k.
  ghost predicate Outranked(env: Env, rules: seq<Rule>, direction: Direction, m: Message, k: nat, x: Rule) {
    exists i: nat :: i < |rules| && Qualifies(env, rules[i], direction, m) && Beats(rules[i], i, k, x)
  }

  predicate Beats(r: Rule, i: nat, k: nat, x: Rule) {
    r.priority < x.priority || (r.priority == x.priority && i < k)
  }

  lemma {:induction false} WithAt(rules: seq<Rule>, k: nat, x: Rule)
    requires k <= |rules|
    ensures |With(rules, k, x)| == |rules| + 1 && With(rules, k, x)[k] == x
    ensures forall j: nat :: j < k ==> With(rules, k, x)[j] == rules[j]
    ensures forall j: nat :: k < j <= |rules| ==> With(rules, k, x)[j] == rules[j - 1]
  {
  }

  // A rule that is disabled, for the other direction, does not fire, or is
  // outranked can be listed anywhere without changing the decision.
  lemma {:induction false} IrrelevantRuleIsIgnored(env: Env, rules: seq<Rule>, direction: Direction, m: Message,
                                                   k: nat, x: Rule)
    requires k <= |rules|
    requires !Qualifies(env, x, direction, m) || Outranked(env, rules, direction, m, k, x)
    ensures Evaluate(env, With(rules, k, x), direction, m) == Evaluate(env, rules, direction, m)
  {
    var i := UndecidedIffNoneQualifies(env, rules, direction, m);
    var more := With(rules, k, x);
    WithAt(rules, k, x);
    hide Qualifies, With, Evaluate;
    if NoneQualifies(env, rules, direction, m) {
      assert NoneQualifies(env, more, direction, m);
      var _ := UndecidedIffNoneQualifies(env, more, direction, m);
    } else {
      var at: nat := if i < k then i else i + 1;
      DeciderStays(env, rules, direction, m, k, x, i);
      DecidedByLeast(env, rules, direction, m, i);
      DecidedByLeast(env, more, direction, m, at);
    }
  }

  lemma {:induction false} DeciderStays(env: Env, rules: seq<Rule>, direction: Direction, m: Message, k: nat, x: Rule,
                                        i: nat)
    requires k <= |rules| && Decides(env, rules, direction, m, i)
    requires !Qualifies(env, x, direction, m) || Outranked(env, rules, direction, m, k, x)
    ensures Decides(env, With(rules, k, x), direction, m, if i < k then i else i + 1)
  {
    var more := With(rules, k, x);
    WithAt(rules, k, x);
    hide Qualifies, With;
    var at: nat := if i < k then i else i + 1;
    forall j: nat | j < |more| && Qualifies(env, more[j], direction, m) ensures Precedes(more, at, j) {
      if j == k {
        var b: nat :| b < |rules| && Qualifies(env, rules[b], direction, m) && Beats(rules[b], b, k, x);
        assert Precedes(rules, i, b);
      } else {
        var was: nat := if j < k then j else j - 1;
        assert Precedes(rules, i, was);
      }
    }
  }

  // Any other rule takes the decision over.
  lemma {:induction false} RelevantRuleDecides(env: Env, rules: seq<Rule>, direction: Direction, m: Message, k: nat,
                                               x: Rule)
    requires k <= |rules|
    requires Qualifies(env, x, direction, m) && !Outranked(env, rules, direction, m, k, x)
    ensures Evaluate(env, With(rules, k, x), direction, m) == DecisionOf(x)
  {
    var more := With(rules, k, x);
    WithAt(rules, k, x);
    hide Qualifies, With, Evaluate;
    forall j: nat | j < |more| && Qualifies(env, more[j], direction, m) ensures Precedes(more, k, j) {
      if j != k {
        var was: nat := if j < k then j else j - 1;
        assert !Beats(rules[was], was, k, x);
      }
    }
    DecidedByLeast(env, more, direction, m, k);
  }
}
