/** Who may decide a step of an approval chain, written out: approvers, roles, grades and dependencies, over whole runs. */
module ApprovalRights {
  import opened Wrappers
  import opened Text
  import opened ApprovalChain

  // ---- Grades ----

  /** The ladder from the lowest grade to the highest. */
  const LADDER: seq<string> := ["SO", "SSO", "ADO", "DO", "SDO", "ADD", "DDGFS", "DGFS"]

  /** The rung of a grade in any letter case, with or without white space around it; unknown ones stand below the first. */
  ghost function Rung(grade: string): (k: nat)
    ensures k <= |LADDER|
  {
    var g := ToUpper(TrimSpace(grade));
    if g in LADDER then
      var k: nat :| k < |LADDER| && LADDER[k] == g;
      k + 1
    else 0
  }

  lemma RungsDiffer(i: nat, j: nat)
    requires i < |LADDER| && j < |LADDER| && LADDER[i] == LADDER[j]
    ensures i == j
  {
    assert LADDER[i][0] == LADDER[j][0] && (|LADDER[i]| > 1 ==> LADDER[i][1] == LADDER[j][1]);
    assert |LADDER[i]| > 2 ==> LADDER[i][2] == LADDER[j][2];
  }

  lemma RankRises(grade: string, k: nat)
    requires k == Rung(grade)
    ensures GradeRank(grade) == [0, 10, 20, 25, 30, 40, 50, 60, 70][k]
  {
    var g := ToUpper(TrimSpace(grade));
    if k > 0 { assert g == LADDER[k - 1]; }
    assert g !in LADDER ==> forall i | 0 <= i < |LADDER| :: g != LADDER[i];
  }

  /** A grade is high enough when the step asks for none or it stands no lower than the one asked for. */
  lemma GradeAtLeastIff(actual: string, required: string)
    ensures GradeAtLeast(actual, required) <==> TrimSpace(required) == "" || Rung(actual) >= Rung(required)
  {
    hide GradeRank, Rung;
    RankRises(actual, Rung(actual));
    RankRises(required, Rung(required));
  }

  lemma RungOf(k: nat)
    requires k < |LADDER|
    ensures Rung(LADDER[k]) == k + 1 && TrimSpace(LADDER[k]) == LADDER[k]
  {
    var g := LADDER[k];
    ToUpperKeeps(g);
    assert g != "" && !IsSpace(g[0]) && !IsSpace(g[|g| - 1]);
    assert TrimLeft(g) == g && TrimRight(g) == g;
    var j := Rung(g) - 1;
    RungsDiffer(j, k);
  }

  /** SO, SSO, ADO, DO, SDO, ADD, DDGFS, DGFS strictly rise, and a grade that is none of them is below them all. */
  lemma GradesRise(i: nat, j: nat, other: string)
    requires i < |LADDER| && j < |LADDER| && ToUpper(TrimSpace(other)) !in LADDER
    ensures GradeAtLeast(LADDER[i], LADDER[j]) <==> i >= j
    ensures !GradeAtLeast(other, LADDER[j])
  {
    hide GradeAtLeast, Rung;
    RungOf(i);
    RungOf(j);
    GradeAtLeastIff(LADDER[i], LADDER[j]);
    GradeAtLeastIff(other, LADDER[j]);
    UnknownIsLowest(other);
  }

  lemma UnknownIsLowest(other: string)
    ensures Rung(other) == 0 <==> ToUpper(TrimSpace(other)) !in LADDER
  {
  }

  /** A minimum grade lets everyone pass exactly when it is blank or not on the ladder: a typo lets everyone pass. */
  lemma EveryoneIsHighEnoughIff(required: string)
    ensures (forall actual :: GradeAtLeast(actual, required))
      <==> TrimSpace(required) == "" || ToUpper(TrimSpace(required)) !in LADDER
  {
    hide GradeAtLeast, Rung;
    UnknownIsLowest(required);
    forall actual ensures GradeAtLeast(actual, required) <==> TrimSpace(required) == "" || Rung(actual) >= Rung(required) {
      GradeAtLeastIff(actual, required);
    }
    if forall actual :: GradeAtLeast(actual, required) {
      assert GradeAtLeast("", required);
      UnknownIsLowest("");
    }
  }

  // ---- One step ----

  /** The same letter in either case; the long s and the Kelvin sign are forms of s and k. */
  predicate SameLetter(a: char, b: char) {
    || a == b
    || ('A' <= a <= 'Z' && b as int == a as int + 32) || ('A' <= b <= 'Z' && a as int == b as int + 32)
    || (a in "sS\U{17F}" && b in "sS\U{17F}") || (a in "kK\U{212A}" && b in "kK\U{212A}")
  }

  predicate SameRole(a: string, b: string) {
    |a| == |b| && forall i | 0 <= i < |a| :: SameLetter(a[i], b[i])
  }

  /** A known user who is a listed approver or has the step's role, and is of a sufficient grade; or a System Admin where the
      step names neither. */
  ghost predicate Entitled(s: Step, decider: Option<User>) {
    decider.Some? &&
    var u := decider.value;
    || ((u.id in s.approverIds || (s.approverRole != "" && SameRole(s.approverRole, u.role)))
        && (TrimSpace(s.minGrade) == "" || Rung(u.grade) >= Rung(s.minGrade)))
    || (s.approverIds == [] && s.approverRole == "" && u.role == "System Admin")
  }

  lemma FoldIff(a: char, b: char)
    ensures Fold(a) == Fold(b) <==> SameLetter(a, b)
  {
  }

  lemma EntitledIff(s: Step, u: Option<User>)
    ensures CanDecide(s, u) <==> Entitled(s, u)
  {
    hide Rung, GradeAtLeast;
    if u.Some? {
      GradeAtLeastIff(u.value.grade, s.minGrade);
      forall a: char, b: char ensures Fold(a) == Fold(b) <==> SameLetter(a, b) { FoldIff(a, b); }
    }
  }

  /** What the step waits for is approved or skipped: the steps its level lists, each of them in the chain, or the one before
      it when the level lists none or the rule does not reach it. */
  predicate Free(steps: seq<Step>, rule: Option<Rule>, k: nat) {
    if rule.Some? && k < |rule.value| && rule.value[k].dependencies != [] then
      forall d | d in rule.value[k].dependencies :: 0 <= d < |steps| && (steps[d].status == Approved || steps[d].status == Skipped)
    else
      k == 0 || (k <= |steps| && (steps[k - 1].status == Approved || steps[k - 1].status == Skipped))
  }

  ghost predicate MayDecide(steps: seq<Step>, call: Call, k: nat) {
    && k < |steps| && steps[k].status == Pending
    && (call.verdict == Approved || call.verdict == Rejected)
    && Free(steps, call.rule, k) && Entitled(steps[k], call.decider)
  }

  lemma MayDecideIff(steps: seq<Step>, call: Call, k: nat)
    requires k < |steps|
    ensures MayDecide(steps, call, k) <==> IsVerdict(call.verdict) && Eligible(steps, call, k)
  {
    hide Entitled, CanDecide;
    EntitledIff(steps[k], call.decider);
    assert DepsSatisfied(steps, call.rule, k) <==> Free(steps, call.rule, k);
  }

  /** A call decides the first step its caller may decide: a rejection cancels the booking, and an approval that leaves no
      other step open confirms it. */
  lemma FirstStepIsDecided(c: Chain, call: Call, k: nat)
    requires MayDecide(c.steps, call, k) && forall j: nat | j < k :: !MayDecide(c.steps, call, j)
    ensures AfterDecision(c, call) == Chain(
      c.steps[k := Step(c.steps[k].approverIds, c.steps[k].approverRole, c.steps[k].minGrade, call.verdict)],
      if call.verdict == Rejected then Cancelled
      else if forall j | 0 <= j < |c.steps| && j != k :: c.steps[j].status == Approved || c.steps[j].status == Skipped then Confirmed
      else c.booking)
  {
    hide MayDecide, Eligible;
    forall j: nat | j < |c.steps| ensures MayDecide(c.steps, call, j) <==> IsVerdict(call.verdict) && Eligible(c.steps, call, j) {
      MayDecideIff(c.steps, call, j);
    }
    VerdictOfMay(c.steps, call, k);
    assert Decided(c, call) == k;
    var steps := c.steps[k := c.steps[k].(status := call.verdict)];
    assert Done(steps[k]) <==> call.verdict == Approved;
    assert forall j | 0 <= j < |c.steps| && j != k :: steps[j] == c.steps[j];
  }

  lemma VerdictOfMay(steps: seq<Step>, call: Call, k: nat)
    requires MayDecide(steps, call, k)
    ensures k < |steps| && (call.verdict == Approved || call.verdict == Rejected)
  {
  }

  /** Any other call leaves the chain as it is. */
  lemma OtherCallsChangeNothing(c: Chain, call: Call)
    requires forall k: nat | k < |c.steps| :: !MayDecide(c.steps, call, k)
    ensures AfterDecision(c, call) == c
  {
    hide MayDecide, Eligible;
    var k := Decided(c, call);
    if k < |c.steps| { MayDecideIff(c.steps, call, k); }
  }

  // ---- Whole runs ----

  lemma OneDecision(c: Chain, call: Call, k: nat)
    requires k < |c.steps|
    ensures var c' := AfterDecision(c, call);
      |c'.steps| == |c.steps| && (c'.steps[k] == c.steps[k] || (MayDecide(c.steps, call, k) && c'.steps[k].status == call.verdict))
  {
    hide MayDecide, Eligible;
    MayDecideIff(c.steps, call, k);
  }

  /** The call decided the step: its caller may decide it at that moment, and the verdict is the call's. */
  ghost predicate DecidedBy(c: Chain, calls: seq<Call>, k: nat, i: nat) {
    && i < |calls| && MayDecide(Run(c, calls[..i]).steps, calls[i], k)
    && k < |Run(c, calls).steps| && Run(c, calls).steps[k].status == calls[i].verdict
  }

  /** In any run each step that is decided was decided by a call whose caller was entitled to it, when what it waits for was
      done. */
  lemma {:induction false} DecidedByTheEntitled(c: Chain, calls: seq<Call>, k: nat)
    requires k < |c.steps| && c.steps[k].status == Pending
    ensures |Run(c, calls).steps| == |c.steps|
    ensures Run(c, calls).steps[k].status == Pending || exists i: nat :: DecidedBy(c, calls, k, i)
    decreases |calls|
  {
    hide MayDecide, AfterDecision;
    if calls != [] {
      var front, last := calls[..|calls| - 1], calls[|calls| - 1];
      assert calls == front + [last];
      DecidedByTheEntitled(c, front, k);
      RunAppend(c, front, [last]);
      var c1 := Run(c, front);
      RunOne(c1, last);
      OneDecision(c1, last, k);
      if AfterDecision(c1, last).steps[k] != c1.steps[k] {
        assert calls[..|front|] == front;
        assert DecidedBy(c, calls, k, |front|);
      } else if c1.steps[k].status != Pending {
        var i: nat :| DecidedBy(c, front, k, i);
        assert calls[..i] == front[..i];
        assert DecidedBy(c, calls, k, i);
      }
    }
  }

  lemma RunOne(c: Chain, call: Call)
    ensures Run(c, [call]) == AfterDecision(c, call)
  {
    assert Run(AfterDecision(c, call), [call][1..]) == AfterDecision(c, call);
  }

  /** The call's caller is entitled to the level as the rule words it, and what the step waits for is done. */
  ghost predicate EntitledCall(rule: Rule, calls: seq<Call>, k: nat, i: nat)
    requires k < |rule|
  {
    && i < |calls| && (calls[i].verdict == Approved || calls[i].verdict == Rejected)
    && Entitled(Step(rule[k].approverIds, rule[k].approverRole, rule[k].minGrade, Pending), calls[i].decider)
    && Free(Run(Materialized(rule), calls[..i]).steps, calls[i].rule, k)
  }

  /** A chain has one step for each level of its rule, and whatever calls are made, a step that is no longer pending has the
      verdict of a call by somebody entitled to its level. */
  lemma EveryVerdictIsEntitled(rule: Rule, calls: seq<Call>, k: nat)
    requires k < |rule|
    ensures var steps := Run(Materialized(rule), calls).steps;
      |steps| == |rule| && (steps[k].status == Pending
                            || exists i: nat :: EntitledCall(rule, calls, k, i) && calls[i].verdict == steps[k].status)
  {
    hide Run, Entitled, Free;
    var c := Materialized(rule);
    DecidedByTheEntitled(c, calls, k);
    if Run(c, calls).steps[k].status != Pending {
      var i: nat :| DecidedBy(c, calls, k, i);
      EachStepDecidedOnce(c, calls[..i]);
      assert EntitledCall(rule, calls, k, i);
    }
  }

  // ---- At one step ----

  /** One step with the approver "boss" and the minimum grade DO: neither a stranger nor a boss of too low a grade can confirm
      the booking, nor a System Admin; a boss of a higher grade can. */
  lemma OnlyTheBossDecides()
    ensures
      var c := Chain([Step(["boss"], "", "DO", Pending)], PendingApproval);
      && AfterDecision(c, Call(None, Some(User("anybody", "General User", "SO")), Approved)) == c
      && AfterDecision(c, Call(None, Some(User("anybody", "System Admin", "DGFS")), Approved)) == c
      && AfterDecision(c, Call(None, Some(User("boss", "General User", "ADO")), Approved)) == c
      && AfterDecision(c, Call(None, None, Approved)) == c
      && AfterDecision(c, Call(None, Some(User("boss", "General User", "SDO")), Approved))
         == Chain([Step(["boss"], "", "DO", Approved)], Confirmed)
  {
    hide AfterDecision, Rung;
    var s := Step(["boss"], "", "DO", Pending);
    var c := Chain([s], PendingApproval);
    RungOf(2);
    RungOf(3);
    RungOf(4);
    var boss := Call(None, Some(User("boss", "General User", "SDO")), Approved);
    OtherCallsChangeNothing(c, Call(None, Some(User("anybody", "General User", "SO")), Approved));
    OtherCallsChangeNothing(c, Call(None, Some(User("anybody", "System Admin", "DGFS")), Approved));
    OtherCallsChangeNothing(c, Call(None, Some(User("boss", "General User", "ADO")), Approved));
    OtherCallsChangeNothing(c, Call(None, None, Approved));
    assert MayDecide(c.steps, boss, 0) by { assert "boss" in s.approverIds; }
    FirstStepIsDecided(c, boss, 0);
  }
}
