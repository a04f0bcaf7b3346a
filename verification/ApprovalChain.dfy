/** Multi-level approval: a chain of steps with dependencies, advanced by `Decide`. */
module ApprovalChain {
  import opened Wrappers
  import opened Text

  datatype StepStatus = Pending | Approved | Rejected | Skipped
  datatype BookingStatus = PendingApproval | Confirmed | Cancelled

  datatype Level = Level(approverIds: seq<string>, approverRole: string, minGrade: string, dependencies: seq<int>)
  datatype Step = Step(approverIds: seq<string>, approverRole: string, minGrade: string, status: StepStatus)
  datatype User = User(id: string, role: string, grade: string)

  type Rule = seq<Level>

  datatype Chain = Chain(steps: seq<Step>, booking: BookingStatus)

  /** One call of `Decide`, with the rule as it stands at that moment (`None` once it is deleted). */
  datatype Call = Call(rule: Option<Rule>, decider: Option<User>, verdict: StepStatus)

  // ---- Who may decide ----

  function GradeRank(grade: string): int {
    var g := ToUpper(TrimSpace(grade));
    if g == "SO" then 10 else if g == "SSO" then 20 else if g == "ADO" then 25 else if g == "DO" then 30
    else if g == "SDO" then 40 else if g == "ADD" then 50 else if g == "DDGFS" then 60 else if g == "DGFS" then 70 else 0
  }

  predicate GradeAtLeast(actual: string, required: string) {
    TrimSpace(required) == "" || GradeRank(actual) >= GradeRank(required)
  }

  function Fold(c: char): char {
    if 'A' <= c <= 'Z' then (c as int - 'A' as int + 'a' as int) as char
    else if c == '\U{17F}' then 's' else if c == '\U{212A}' then 'k' else c
  }

  predicate EqualFold(a: string, b: string) {
    |a| == |b| && forall i | 0 <= i < |a| :: Fold(a[i]) == Fold(b[i])
  }

  predicate CanDecide(s: Step, u: Option<User>) {
    if u == None then false
    else if u.value.id in s.approverIds then GradeAtLeast(u.value.grade, s.minGrade)
    else if s.approverRole != "" && EqualFold(s.approverRole, u.value.role) then GradeAtLeast(u.value.grade, s.minGrade)
    else u.value.role == "System Admin" && s.approverIds == [] && s.approverRole == ""
  }

  // ---- One decision ----

  predicate Done(s: Step) { s.status == Approved || s.status == Skipped }

  /** The steps that `k` waits for: those its level lists, or the one before it. */
  function Dependencies(rule: Option<Rule>, k: nat): seq<int> {
    if rule.Some? && k < |rule.value| && rule.value[k].dependencies != [] then rule.value[k].dependencies
    else if k == 0 then [] else [k - 1]
  }

  predicate DepsSatisfied(steps: seq<Step>, rule: Option<Rule>, k: nat) {
    forall d | d in Dependencies(rule, k) :: 0 <= d < |steps| && Done(steps[d])
  }

  predicate Actionable(steps: seq<Step>, rule: Option<Rule>, k: nat)
    requires k < |steps|
  {
    steps[k].status == Pending && DepsSatisfied(steps, rule, k)
  }

  predicate Eligible(steps: seq<Step>, call: Call, k: nat)
    requires k < |steps|
  {
    Actionable(steps, call.rule, k) && CanDecide(steps[k], call.decider)
  }

  /** The first step from `i` on that the decider may act on, or the length. */
  function FirstEligible(steps: seq<Step>, call: Call, i: nat): (k: nat)
    requires i <= |steps|
    ensures i <= k <= |steps| && (k < |steps| ==> Eligible(steps, call, k))
    ensures forall j | i <= j < k :: !Eligible(steps, call, j)
    decreases |steps| - i
  {
    if i == |steps| || Eligible(steps, call, i) then i else FirstEligible(steps, call, i + 1)
  }

  predicate IsVerdict(s: StepStatus) { s == Approved || s == Rejected }

  /** The step a call decides; the length of the chain when the call is refused. */
  function Decided(c: Chain, call: Call): (k: nat)
    ensures k <= |c.steps| && (k < |c.steps| ==> IsVerdict(call.verdict) && Eligible(c.steps, call, k))
  {
    if IsVerdict(call.verdict) then FirstEligible(c.steps, call, 0) else |c.steps|
  }

  predicate AllDone(steps: seq<Step>) { forall k | 0 <= k < |steps| :: Done(steps[k]) }

  function AfterDecision(c: Chain, call: Call): Chain {
    var k := Decided(c, call);
    if k == |c.steps| then c
    else
      var steps := c.steps[k := c.steps[k].(status := call.verdict)];
      if call.verdict == Rejected then Chain(steps, Cancelled)
      else if AllDone(steps) then Chain(steps, Confirmed)
      else Chain(steps, c.booking)
  }

  function Run(c: Chain, calls: seq<Call>): Chain
    decreases |calls|
  {
    if calls == [] then c else Run(AfterDecision(c, calls[0]), calls[1..])
  }

  function Materialized(rule: Rule): Chain {
    Chain(seq(|rule|, k requires 0 <= k < |rule| =>
      Step(rule[k].approverIds, rule[k].approverRole, rule[k].minGrade, Pending)), PendingApproval)
  }

  // ---- In the form of the source ----

  class ChainRows {
    var steps: seq<Step>
    var booking: BookingStatus

    function Value(): Chain
      reads this
    { Chain(steps, booking) }

    /** One pending row per level of the matched rule. */
    constructor Materialize(rule: Rule)
      ensures Value() == Materialized(rule)
    {
      var rows: seq<Step> := [];
      for i := 0 to |rule|
        invariant |rows| == i
        invariant forall k | 0 <= k < i :: rows[k] == Step(rule[k].approverIds, rule[k].approverRole, rule[k].minGrade, Pending)
      {
        rows := rows + [Step(rule[i].approverIds, rule[i].approverRole, rule[i].minGrade, Pending)];
      }
      steps := rows;
      booking := PendingApproval;
    }

    method Decide(call: Call) returns (decided: bool)
      modifies this
      ensures Value() == AfterDecision(old(Value()), call)
      ensures decided <==> Decided(old(Value()), call) < |steps|
    {
      decided := false;
      if call.verdict != Approved && call.verdict != Rejected { return; }
      var k := 0;
      while k < |steps| && !Eligible(steps, call, k)
        invariant 0 <= k <= |steps|
        invariant FirstEligible(steps, call, 0) == FirstEligible(steps, call, k)
      {
        k := k + 1;
      }
      if k == |steps| { return; }
      decided := true;
      ghost var before := steps;
      steps := steps[k := steps[k].(status := call.verdict)];
      if call.verdict == Rejected {
        booking := Cancelled;
        return;
      }
      var allApproved := true;
      var i := 0;
      while i < |steps|
        invariant 0 <= i <= |steps| && steps == before[k := before[k].(status := call.verdict)]
        invariant booking == old(booking)
        invariant allApproved <==> forall j | 0 <= j < i :: Done(steps[j])
      {
        if i != k && !Done(steps[i]) { allApproved := false; break; }
        i := i + 1;
      }
      if allApproved { booking := Confirmed; }
    }
  }

  // ---- Any deciders, any rule edits ----

  /** Steps only ever leave Pending, and what is decided stays as it is. */
  predicate Extends(a: seq<Step>, b: seq<Step>) {
    |a| == |b| && forall k | 0 <= k < |a| :: b[k] == a[k] || (a[k].status == Pending && IsVerdict(b[k].status))
  }

  /** Over any run each step is decided at most once. */
  lemma {:induction false} EachStepDecidedOnce(c: Chain, calls: seq<Call>)
    ensures Extends(c.steps, Run(c, calls).steps)
    decreases |calls|
  {
    if calls != [] {
      EachStepDecidedOnce(AfterDecision(c, calls[0]), calls[1..]);
    }
  }

  predicate SomeRejected(steps: seq<Step>) { exists k | 0 <= k < |steps| :: steps[k].status == Rejected }

  /** The booking's status tells the chain's: Confirmed when all steps are done, Cancelled when one was
      rejected, and waiting otherwise. */
  predicate Coherent(c: Chain) {
    && c.steps != []
    && (c.booking == Confirmed <==> AllDone(c.steps))
    && (c.booking == Cancelled <==> SomeRejected(c.steps))
  }

  lemma DecisionKeepsCoherent(c: Chain, call: Call)
    requires Coherent(c)
    ensures Coherent(AfterDecision(c, call))
  {
    var k := Decided(c, call);
    if k < |c.steps| {
      var c' := AfterDecision(c, call);
      assert c'.steps[k].status == call.verdict;
      if call.verdict == Approved && SomeRejected(c.steps) {
        var j :| 0 <= j < |c.steps| && c.steps[j].status == Rejected;
        assert c'.steps[j].status == Rejected;
      }
    }
  }

  /** As long as nothing but `Decide` writes it, the booking's status follows the steps. */
  lemma {:induction false} StatusFollowsSteps(c: Chain, calls: seq<Call>)
    requires Coherent(c)
    ensures Coherent(Run(c, calls))
    decreases |calls|
  {
    if calls != [] {
      DecisionKeepsCoherent(c, calls[0]);
      StatusFollowsSteps(AfterDecision(c, calls[0]), calls[1..]);
    }
  }

  lemma MaterializedIsCoherent(rule: Rule)
    requires rule != []
    ensures Coherent(Materialized(rule))
  {
    assert Materialized(rule).steps[0].status == Pending;
  }

  lemma {:induction false} RunAppend(c: Chain, one: seq<Call>, two: seq<Call>)
    ensures Run(c, one + two) == Run(Run(c, one), two)
    decreases |one|
  {
    if one == [] {
      assert one + two == two;
    } else {
      assert (one + two)[1..] == one[1..] + two;
      RunAppend(AfterDecision(c, one[0]), one[1..], two);
    }
  }

  /** After one rejection the booking is Cancelled, and no later call confirms it, whoever decides and
      however the rule is edited. */
  lemma RejectionIsFinal(rule: Rule, before: seq<Call>, later: seq<Call>)
    requires rule != [] && SomeRejected(Run(Materialized(rule), before).steps)
    ensures Run(Materialized(rule), before + later).booking == Cancelled
  {
    var c := Run(Materialized(rule), before);
    MaterializedIsCoherent(rule);
    RunAppend(Materialized(rule), before, later);
    StatusFollowsSteps(Materialized(rule), before + later);
    EachStepDecidedOnce(c, later);
    var k :| 0 <= k < |c.steps| && c.steps[k].status == Rejected;
    assert Run(c, later).steps[k].status == Rejected;
  }

  // ---- A fixed rule ----

  predicate FixedRule(rule: Rule, calls: seq<Call>) {
    forall k | 0 <= k < |calls| :: calls[k].rule == Some(rule)
  }

  /** Every decided step had what it waits for decided before it. */
  predicate OrderRespected(steps: seq<Step>, rule: Rule) {
    forall k | 0 <= k < |steps| && IsVerdict(steps[k].status) :: DepsSatisfied(steps, Some(rule), k)
  }

  lemma DecisionRespectsOrder(c: Chain, rule: Rule, call: Call)
    requires OrderRespected(c.steps, rule) && call.rule == Some(rule)
    ensures OrderRespected(AfterDecision(c, call).steps, rule)
  {
    var steps, steps' := c.steps, AfterDecision(c, call).steps;
    forall k | 0 <= k < |steps'| && IsVerdict(steps'[k].status) ensures DepsSatisfied(steps', Some(rule), k) {
      assert DepsSatisfied(steps, Some(rule), k);
    }
  }

  /** The decision order of every run respects the dependency graph, linear where a level lists nothing. */
  lemma {:induction false} RunRespectsOrder(c: Chain, rule: Rule, calls: seq<Call>)
    requires OrderRespected(c.steps, rule) && FixedRule(rule, calls)
    ensures OrderRespected(Run(c, calls).steps, rule)
    decreases |calls|
  {
    if calls != [] {
      DecisionRespectsOrder(c, rule, calls[0]);
      RunRespectsOrder(AfterDecision(c, calls[0]), rule, calls[1..]);
    }
  }

  function ApprovedSteps(steps: seq<Step>): set<int> {
    set k | 0 <= k < |steps| && steps[k].status == Approved
  }

  /** The calls of a run that approved a step. */
  function Approvals(c: Chain, calls: seq<Call>): nat
    decreases |calls|
  {
    if calls == [] then 0
    else
      (if Decided(c, calls[0]) < |c.steps| && calls[0].verdict == Approved then 1 else 0)
      + Approvals(AfterDecision(c, calls[0]), calls[1..])
  }

  lemma OneMoreApproved(c: Chain, call: Call)
    ensures |ApprovedSteps(AfterDecision(c, call).steps)|
      == |ApprovedSteps(c.steps)| + if Decided(c, call) < |c.steps| && call.verdict == Approved then 1 else 0
  {
    hide Decided;
    var k, steps' := Decided(c, call), AfterDecision(c, call).steps;
    if k < |c.steps| && call.verdict == Approved {
      assert ApprovedSteps(steps') == ApprovedSteps(c.steps) + {k};
    } else {
      assert ApprovedSteps(steps') == ApprovedSteps(c.steps);
    }
  }

  lemma {:induction false} ApprovalsCountSteps(c: Chain, calls: seq<Call>)
    ensures |ApprovedSteps(Run(c, calls).steps)| == |ApprovedSteps(c.steps)| + Approvals(c, calls)
    decreases |calls|
  {
    if calls != [] {
      OneMoreApproved(c, calls[0]);
      ApprovalsCountSteps(AfterDecision(c, calls[0]), calls[1..]);
    }
  }

  /** A set of indices below `n` has `n` elements exactly when it has them all. */
  lemma {:induction false} IndexSet(n: nat, a: set<int>)
    requires forall k | k in a :: 0 <= k < n
    ensures |a| <= n && (|a| == n <==> forall k | 0 <= k < n :: k in a)
  {
    if n == 0 {
      assert forall k :: k !in a;
      assert a == {};
    } else {
      var b := a - {n - 1};
      IndexSet(n - 1, b);
      if n - 1 in a {
        assert a == b + {n - 1};
        assert forall k | 0 <= k < n - 1 :: k in b <==> k in a;
      } else {
        assert a == b;
      }
    }
  }

  function DoneSteps(steps: seq<Step>): set<int> {
    set k | 0 <= k < |steps| && Done(steps[k])
  }

  lemma AllDoneByCount(steps: seq<Step>)
    ensures |DoneSteps(steps)| <= |steps| && (AllDone(steps) <==> |DoneSteps(steps)| == |steps|)
  {
    IndexSet(|steps|, DoneSteps(steps));
    if |DoneSteps(steps)| == |steps| {
      forall k | 0 <= k < |steps| ensures Done(steps[k]) { assert k in DoneSteps(steps); }
    }
  }

  /** A chain of n levels is Confirmed at exactly the n-th approval, whatever rejections or refused calls
      the run holds. */
  lemma ConfirmedAtNthApproval(rule: Rule, calls: seq<Call>)
    requires rule != []
    ensures Run(Materialized(rule), calls).booking == Confirmed <==> Approvals(Materialized(rule), calls) == |rule|
  {
    var c0 := Materialized(rule);
    var c := Run(c0, calls);
    MaterializedIsCoherent(rule);
    StatusFollowsSteps(c0, calls);
    EachStepDecidedOnce(c0, calls);
    ApprovalsCountSteps(c0, calls);
    assert ApprovedSteps(c0.steps) == {};
    assert ApprovedSteps(c.steps) == DoneSteps(c.steps);
    AllDoneByCount(c.steps);
  }

  // ---- When a chain can finish ----

  /** `rank` orders the steps so that each waits only for steps of the chain with a smaller rank. */
  predicate Ranked(rule: Rule, rank: seq<int>) {
    && |rank| == |rule|
    && forall k | 0 <= k < |rule| :: forall d | d in Dependencies(Some(rule), k) :: 0 <= d < |rule| && rank[d] < rank[k]
  }

  lemma {:induction false} LowestPending(steps: seq<Step>, rank: seq<int>, n: nat) returns (k: nat)
    requires n <= |steps| == |rank| && exists j | 0 <= j < n :: steps[j].status == Pending
    ensures k < n && steps[k].status == Pending
    ensures forall j | 0 <= j < n && steps[j].status == Pending :: rank[k] <= rank[j]
    decreases n
  {
    if exists j | 0 <= j < n - 1 :: steps[j].status == Pending {
      k := LowestPending(steps, rank, n - 1);
      if steps[n - 1].status == Pending && rank[n - 1] < rank[k] { k := n - 1; }
    } else {
      k := n - 1;
    }
  }

  /** Until a rejection some pending step can always be acted on. */
  lemma SomeStepIsActionable(steps: seq<Step>, rule: Rule, rank: seq<int>) returns (k: nat)
    requires |steps| == |rule| && Ranked(rule, rank) && !SomeRejected(steps) && !AllDone(steps)
    ensures k < |steps| && Actionable(steps, Some(rule), k)
  {
    var j :| 0 <= j < |steps| && !Done(steps[j]);
    assert steps[j].status == Pending;
    k := LowestPending(steps, rank, |steps|);
  }

  /** A user who may decide every step. */
  predicate DecidesAll(steps: seq<Step>, u: User) {
    forall k | 0 <= k < |steps| :: CanDecide(steps[k], Some(u))
  }

  function Repeat(call: Call, n: nat): seq<Call> {
    seq(n, i => call)
  }

  /** An approval by someone who may decide an actionable step decides one more step. */
  lemma ApprovalAdvances(c: Chain, rule: Rule, u: User, k: nat)
    requires Coherent(c) && |c.steps| == |rule| && !SomeRejected(c.steps)
    requires k < |c.steps| && Actionable(c.steps, Some(rule), k) && CanDecide(c.steps[k], Some(u))
    ensures var c' := AfterDecision(c, Call(Some(rule), Some(u), Approved));
      && Coherent(c') && |c'.steps| == |rule| && !SomeRejected(c'.steps) && (DecidesAll(c.steps, u) ==> DecidesAll(c'.steps, u))
      && |DoneSteps(c'.steps)| == |DoneSteps(c.steps)| + 1
  {
    hide CanDecide;
    var call := Call(Some(rule), Some(u), Approved);
    var c' := AfterDecision(c, call);
    var j := Decided(c, call);
    assert j < |c.steps| by { assert Eligible(c.steps, call, k); }
    assert DoneSteps(c'.steps) == DoneSteps(c.steps) + {j};
    DecisionKeepsCoherent(c, call);
    ApproversStay(c, call, u);
  }

  /** A decision changes who may decide nothing. */
  lemma ApproversStay(c: Chain, call: Call, u: User)
    ensures |AfterDecision(c, call).steps| == |c.steps|
    ensures forall k | 0 <= k < |c.steps| :: CanDecide(AfterDecision(c, call).steps[k], Some(u)) <==> CanDecide(c.steps[k], Some(u))
  {
  }

  /** Approving over and over finishes a ranked chain in as many calls as there are steps left. */
  lemma {:induction false} ApprovingFinishes(c: Chain, rule: Rule, rank: seq<int>, u: User, left: nat)
    requires Coherent(c) && |c.steps| == |rule| && Ranked(rule, rank) && !SomeRejected(c.steps) && DecidesAll(c.steps, u)
    requires left == |c.steps| - |DoneSteps(c.steps)|
    ensures Run(c, Repeat(Call(Some(rule), Some(u), Approved), left)).booking == Confirmed
    decreases left
  {
    AllDoneByCount(c.steps);
    if left > 0 {
      hide AfterDecision, Coherent, SomeRejected, DoneSteps, Ranked, CanDecide;
      var call := Call(Some(rule), Some(u), Approved);
      var k := SomeStepIsActionable(c.steps, rule, rank);
      ApprovalAdvances(c, rule, u, k);
      assert Repeat(call, left)[1..] == Repeat(call, left - 1);
      ApprovingFinishes(AfterDecision(c, call), rule, rank, u, left - 1);
    }
  }

  /** The approved steps carry distinct times below `now` that respect the graph. */
  predicate Timed(steps: seq<Step>, rule: Rule, time: seq<int>, now: int) {
    && |time| == |steps| == |rule|
    && (forall k | 0 <= k < |steps| && steps[k].status == Approved ::
          && time[k] < now
          && (forall d | d in Dependencies(Some(rule), k) :: 0 <= d < |steps| && steps[d].status == Approved && time[d] < time[k]))
  }

  lemma TimedAfterDecision(c: Chain, rule: Rule, call: Call, time: seq<int>, now: int) returns (time': seq<int>)
    requires Timed(c.steps, rule, time, now) && call.rule == Some(rule)
    requires forall k | 0 <= k < |c.steps| :: c.steps[k].status != Skipped
    ensures Timed(AfterDecision(c, call).steps, rule, time', now + 1)
  {
    var k := Decided(c, call);
    time' := time;
    if k < |c.steps| && call.verdict == Approved {
      time' := time[k := now];
      var steps' := AfterDecision(c, call).steps;
      forall j | 0 <= j < |steps'| && steps'[j].status == Approved
        ensures time'[j] < now + 1
        ensures forall d | d in Dependencies(Some(rule), j) :: 0 <= d < |steps'| && steps'[d].status == Approved && time'[d] < time'[j]
      {
        if j == k {
          assert DepsSatisfied(c.steps, Some(rule), k);
        }
      }
    }
  }

  lemma {:induction false} RunGivesTimes(c: Chain, rule: Rule, calls: seq<Call>, time: seq<int>, now: int)
    returns (time': seq<int>, now': int)
    requires Timed(c.steps, rule, time, now) && FixedRule(rule, calls)
    requires forall k | 0 <= k < |c.steps| :: c.steps[k].status != Skipped
    ensures Timed(Run(c, calls).steps, rule, time', now')
    decreases |calls|
  {
    if calls == [] {
      time', now' := time, now;
    } else {
      var t := TimedAfterDecision(c, rule, calls[0], time, now);
      time', now' := RunGivesTimes(AfterDecision(c, calls[0]), rule, calls[1..], t, now + 1);
    }
  }

  /** Every step names somebody: an approver or a role, of the highest grade, or else the System Admin. */
  lemma SomeoneMayDecide(s: Step) returns (u: User)
    ensures CanDecide(s, Some(u))
  {
    TopGrade(s.minGrade);
    if s.approverIds != [] {
      u := User(s.approverIds[0], "", "DGFS");
    } else if s.approverRole != "" {
      u := User("", s.approverRole, "DGFS");
    } else {
      u := User("", "System Admin", "DGFS");
    }
  }

  lemma TopGrade(required: string)
    ensures GradeAtLeast("DGFS", required)
  {
    assert !IsSpace('D') && !IsSpace('S');
    assert TrimLeft("DGFS") == "DGFS" && TrimRight("DGFS") == "DGFS";
    assert ToUpper("DGFS") == "DGFS";
  }

  /** A ranked chain can be finished by the right people. */
  lemma {:induction false} CanBeFinished(c: Chain, rule: Rule, rank: seq<int>, left: nat) returns (calls: seq<Call>)
    requires Coherent(c) && |c.steps| == |rule| && Ranked(rule, rank) && !SomeRejected(c.steps)
    requires left == |c.steps| - |DoneSteps(c.steps)|
    ensures FixedRule(rule, calls) && Run(c, calls).booking == Confirmed
    decreases left
  {
    hide AfterDecision, SomeRejected, DoneSteps, Ranked, CanDecide, AllDone;
    AllDoneByCount(c.steps);
    calls := [];
    if left > 0 {
      var k := SomeStepIsActionable(c.steps, rule, rank);
      var u := SomeoneMayDecide(c.steps[k]);
      var call := Call(Some(rule), Some(u), Approved);
      ApprovalAdvances(c, rule, u, k);
      var rest := CanBeFinished(AfterDecision(c, call), rule, rank, left - 1);
      calls := [call] + rest;
      assert calls[1..] == rest;
    }
  }

  /** Whoever decides, a run with a fixed rule that confirms the booking ranks the steps by the time of their approval. */
  lemma ConfirmedRunIsRanked(rule: Rule, calls: seq<Call>) returns (rank: seq<int>)
    requires rule != [] && FixedRule(rule, calls) && Run(Materialized(rule), calls).booking == Confirmed
    ensures Ranked(rule, rank)
  {
    var c := Materialized(rule);
    MaterializedIsCoherent(rule);
    StatusFollowsSteps(c, calls);
    EachStepDecidedOnce(c, calls);
    var now;
    rank, now := RunGivesTimes(c, rule, calls, seq(|rule|, i => 0), 0);
    assert forall k | 0 <= k < |rule| :: Done(Run(c, calls).steps[k]);
  }

  /** With a fixed rule some run confirms the booking exactly when the dependencies stay in range and have no cycle. */
  lemma CanFinishIffRanked(rule: Rule)
    requires rule != []
    ensures (exists calls :: FixedRule(rule, calls) && Run(Materialized(rule), calls).booking == Confirmed)
      <==> exists rank :: Ranked(rule, rank)
  {
    if calls :| FixedRule(rule, calls) && Run(Materialized(rule), calls).booking == Confirmed {
      var rank := ConfirmedRunIsRanked(rule, calls);
    }
    if rank :| Ranked(rule, rank) {
      MaterializedIsCoherent(rule);
      assert DoneSteps(Materialized(rule).steps) == {};
      var calls := CanBeFinished(Materialized(rule), rule, rank, |rule|);
    }
  }

  function Unlinked(rule: Rule): Rule {
    seq(|rule|, k requires 0 <= k < |rule| => rule[k].(dependencies := []))
  }

  /** Every chain can be finished once its rule is edited, here by clearing the dependencies. */
  lemma EditedRuleCanFinish(rule: Rule) returns (calls: seq<Call>)
    requires rule != []
    ensures FixedRule(Unlinked(rule), calls) && Run(Materialized(rule), calls).booking == Confirmed
  {
    var edited := Unlinked(rule);
    EarlierDependenciesAreRanked(edited);
    MaterializedIsCoherent(rule);
    assert DoneSteps(Materialized(rule).steps) == {};
    calls := CanBeFinished(Materialized(rule), edited, seq(|edited|, i => i), |rule|);
  }

  /** Two levels that wait for each other: under that rule nobody can ever confirm the booking. */
  lemma CycleNeverConfirms(a: Level, b: Level, calls: seq<Call>)
    requires a.dependencies == [1] && b.dependencies == [0] && FixedRule([a, b], calls)
    ensures Run(Materialized([a, b]), calls).booking != Confirmed
  {
    var rule := [a, b];
    assert 1 in Dependencies(Some(rule), 0) && 0 in Dependencies(Some(rule), 1);
    if Run(Materialized(rule), calls).booking == Confirmed {
      var rank := ConfirmedRunIsRanked(rule, calls);
    }
  }

  /** Dependencies that all point to earlier levels are ranked by the level's own index. */
  lemma EarlierDependenciesAreRanked(rule: Rule)
    requires forall k | 0 <= k < |rule| :: forall d | d in rule[k].dependencies :: 0 <= d < k
    ensures Ranked(rule, seq(|rule|, i => i))
  {
  }
}
