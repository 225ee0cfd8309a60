/** The generated event machine: condition callbacks that start and stop branches. */
module SealMachine {
  import opened SealSpec
  import opened SealCompiler

  // ---------------------------------------------------------------- generated C expressions

  /** C expressions over conditionStatus. */
  datatype Expr =
    | Status(index: int)
    | Not(e: Expr)
    | And(l: Expr, r: Expr)
    | Or(l: Expr, r: Expr)
    | IsUndefined(e: Expr)

  const UNDEFINED := -1

  function FromBool(b: bool): int {
    if b then 1 else 0
  }

  /** The value in C of an expression; an index out of bounds, which does not occur, counts as 0. */
  function Value(e: Expr, status: seq<int>): int {
    match e
    case Status(i) => if 0 <= i < |status| then status[i] else 0
    case Not(x) => FromBool(Value(x, status) == 0)
    case And(l, r) => FromBool(Value(l, status) != 0 && Value(r, status) != 0)
    case Or(l, r) => FromBool(Value(l, status) != 0 || Value(r, status) != 0)
    case IsUndefined(x) => FromBool(Value(x, status) == UNDEFINED)
  }

  predicate Undefined(literals: seq<int>, status: seq<int>)
    requires AllLiterals(literals, |status|)
  {
    exists i :: 0 <= i < |literals| && status[Abs(literals[i]) - 1] == UNDEFINED
  }

  predicate Conjunction(literals: seq<int>, status: seq<int>)
    requires AllLiterals(literals, |status|)
  {
    forall i :: 0 <= i < |literals| ==> (status[Abs(literals[i]) - 1] != 0) == (literals[i] > 0)
  }

  /** e is true in C exactly when all literals are true. */
  ghost predicate TestsAll(e: Expr, literals: seq<int>) {
    forall status :: AllLiterals(literals, |status|) ==> (Value(e, status) != 0 <==> Conjunction(literals, status))
  }

  /** e is true in C exactly when the status of some literal's condition is not known. */
  ghost predicate TestsUndefined(e: Expr, literals: seq<int>) {
    forall status :: AllLiterals(literals, |status|) ==> (Value(e, status) != 0 <==> Undefined(literals, status))
  }

  function FormatCondition(literal: int): Expr {
    Status(Abs(literal) - 1)
  }

  function FormatLiteral(literal: int): Expr {
    if literal < 0 then Not(FormatCondition(literal)) else FormatCondition(literal)
  }

  lemma LiteralValue(x: int, status: seq<int>)
    requires IsLiteral(x, |status|)
    ensures Value(FormatCondition(x), status) == status[Abs(x) - 1]
    ensures Value(FormatLiteral(x), status) != 0 <==> (status[Abs(x) - 1] != 0) == (x > 0)
  {
  }

  /** formatConditions: a conjunction of all the literals. */
  method FormatConditions(literals: seq<int>) returns (e: Expr)
    requires literals != []
    ensures TestsAll(e, literals)
  {
    hide *;
    e := FormatLiteral(literals[0]);
    TestsFirst(literals[0]);
    assert literals[..1] == [literals[0]];
    for i := 1 to |literals|
      invariant TestsAll(e, literals[..i])
    {
      TestsAlso(e, literals[..i], literals[i]);
      e := And(e, FormatLiteral(literals[i]));
      assert literals[..i + 1] == literals[..i] + [literals[i]];
    }
    assert literals[..|literals|] == literals;
  }

  lemma TestsFirst(x: int)
    ensures TestsAll(FormatLiteral(x), [x])
    ensures TestsUndefined(IsUndefined(FormatCondition(x)), [x])
  {
    forall status: seq<int> | AllLiterals([x], |status|)
      ensures Value(FormatLiteral(x), status) != 0 <==> Conjunction([x], status)
      ensures Value(IsUndefined(FormatCondition(x)), status) != 0 <==> Undefined([x], status)
    {
      assert IsLiteral([x][0], |status|);
      assert [] + [x] == [x];
      ConjunctionSnoc([], x, status);
      LiteralValue(x, status);
    }
  }

  lemma TestsAlso(e: Expr, s: seq<int>, x: int)
    requires TestsAll(e, s)
    ensures TestsAll(And(e, FormatLiteral(x)), s + [x])
  {
    hide Conjunction;
    forall status: seq<int> | AllLiterals(s + [x], |status|)
      ensures Value(And(e, FormatLiteral(x)), status) != 0 <==> Conjunction(s + [x], status)
    {
      AllLiteralsSnoc(s, x, |status|);
      ConjunctionSnoc(s, x, status);
      LiteralValue(x, status);
    }
  }

  lemma TestsUndefinedAlso(e: Expr, s: seq<int>, x: int)
    requires TestsUndefined(e, s)
    ensures TestsUndefined(Or(e, IsUndefined(FormatCondition(x))), s + [x])
  {
    hide Undefined;
    forall status: seq<int> | AllLiterals(s + [x], |status|)
      ensures Value(Or(e, IsUndefined(FormatCondition(x))), status) != 0 <==> Undefined(s + [x], status)
    {
      AllLiteralsSnoc(s, x, |status|);
      ConjunctionSnoc(s, x, status);
      LiteralValue(x, status);
    }
  }

  lemma AllLiteralsSnoc(s: seq<int>, x: int, n: nat)
    requires AllLiterals(s + [x], n)
    ensures AllLiterals(s, n) && IsLiteral(x, n)
  {
    var t := s + [x];
    assert t[|s|] == x && forall i :: 0 <= i < |s| ==> t[i] == s[i];
  }

  lemma ConjunctionSnoc(s: seq<int>, x: int, status: seq<int>)
    requires AllLiterals(s, |status|) && IsLiteral(x, |status|)
    ensures AllLiterals(s + [x], |status|)
    ensures Conjunction(s + [x], status) <==> Conjunction(s, status) && ((status[Abs(x) - 1] != 0) == (x > 0))
    ensures Undefined(s + [x], status) <==> Undefined(s, status) || status[Abs(x) - 1] == UNDEFINED
  {
    var t := s + [x];
    assert t[|s|] == x && forall i :: 0 <= i < |s| ==> t[i] == s[i];
  }

  /** formatConditionsUndefined: true when the status of some condition is not known yet. */
  method FormatConditionsUndefined(literals: seq<int>) returns (e: Expr)
    requires literals != []
    ensures TestsUndefined(e, literals)
  {
    hide *;
    e := IsUndefined(FormatCondition(literals[0]));
    TestsFirst(literals[0]);
    assert literals[..1] == [literals[0]];
    for i := 1 to |literals|
      invariant TestsUndefined(e, literals[..i])
    {
      TestsUndefinedAlso(e, literals[..i], literals[i]);
      e := Or(e, IsUndefined(FormatCondition(literals[i])));
      assert literals[..i + 1] == literals[..i] + [literals[i]];
    }
    assert literals[..|literals|] == literals;
  }

  // ---------------------------------------------------------------- starting and stopping

  /** A call of a branch's Start or Stop function. */
  datatype Event = Event(branch: nat, start: bool)

  /** The calls made for one branch, in order: true for Start, false for Stop. */
  function Calls(log: seq<Event>, b: nat): seq<bool> {
    if log == [] then [] else
    Calls(log[..|log| - 1], b) + (if log[|log| - 1].branch == b then [log[|log| - 1].start] else [])
  }

  /** Start, Stop, Start, ... */
  predicate Alternating(calls: seq<bool>) {
    forall i :: 0 <= i < |calls| ==> calls[i] == (i % 2 == 0)
  }

  predicate Running(calls: seq<bool>) {
    calls != [] && calls[|calls| - 1]
  }

  /** The calls of branch b are consistent with its status. */
  ghost predicate InOrder(log: seq<Event>, b: nat, status: bool) {
    Alternating(Calls(log, b)) && Running(Calls(log, b)) == status
  }

  lemma CallsSnoc(log: seq<Event>, e: Event, b: nat)
    ensures Calls(log + [e], b) == Calls(log, b) + (if e.branch == b then [e.start] else [])
  {
    assert (log + [e])[..|log|] == log;
  }

  /** Switching a branch keeps all branches in order. */
  lemma SwitchInOrder(log: seq<Event>, c: nat, on: bool, b: nat, status: bool)
    requires InOrder(log, b, status)
    requires c == b ==> on != status
    ensures InOrder(log + [Event(c, on)], b, if c == b then on else status)
  {
    CallsSnoc(log, Event(c, on), b);
  }

  /** The calls es switch exactly the branches whose status differs, each to its new status, in the order of their
      numbers. */
  ghost predicate Switches(es: seq<Event>, was: seq<bool>, now: seq<bool>) {
    && |was| == |now|
    && (forall i, j :: 0 <= i < j < |es| ==> es[i].branch < es[j].branch)
    && forall e :: e in es <==> e.branch < |now| && was[e.branch] != now[e.branch] && e.start == now[e.branch]
  }

  lemma NoSwitch(was: seq<bool>)
    ensures Switches([], was, was)
  {
  }

  lemma OneMoreSwitch(es: seq<Event>, was: seq<bool>, now: seq<bool>, b: nat, on: bool)
    requires Switches(es, was, now) && b < |now| && on != now[b]
    requires forall k :: 0 <= k < |es| ==> es[k].branch < b
    ensures Switches(es + [Event(b, on)], was, now[b := on])
  {
    assert Event(b, now[b]) !in es;
  }

  /** A callback that goes through its branches in ascending order switches them in that order. */
  lemma SwitchInTurn(es: seq<Event>, was: seq<bool>, now: seq<bool>, callback: seq<nat>, i: nat, on: bool)
    requires Switches(es, was, now) && i < |callback| && callback[i] < |now| && on != now[callback[i]]
    requires forall j, k :: 0 <= j < k < |callback| ==> callback[j] <= callback[k]
    requires callback[i] !in callback[..i] && forall k :: 0 <= k < |es| ==> es[k].branch in callback[..i]
    ensures Switches(es + [Event(callback[i], on)], was, now[callback[i] := on])
  {
    forall k | 0 <= k < |es| ensures es[k].branch < callback[i] {
      var j :| 0 <= j < i && callback[..i][j] == es[k].branch;
    }
    OneMoreSwitch(es, was, now, callback[i], on);
  }

  // ---------------------------------------------------------------- the machine

  /** The status a branch should have. */
  predicate Settled(literals: seq<int>, status: seq<int>)
    requires AllLiterals(literals, |status|)
  {
    !Undefined(literals, status) && Conjunction(literals, status)
  }

  ghost predicate Mentions(literals: seq<int>, condition: nat) {
    exists j :: 0 <= j < |literals| && Abs(literals[j]) == condition
  }

  lemma SettledFrame(literals: seq<int>, s: seq<int>, t: seq<int>, condition: nat)
    requires AllLiterals(literals, |s|) && 1 <= condition <= |s|
    requires |t| == |s| && forall i :: 0 <= i < |s| && i != condition - 1 ==> t[i] == s[i]
    requires !Mentions(literals, condition)
    ensures AllLiterals(literals, |t|) && Settled(literals, t) == Settled(literals, s)
  {
    forall i | 0 <= i < |literals| ensures t[Abs(literals[i]) - 1] == s[Abs(literals[i]) - 1] {
      assert IsLiteral(literals[i], |s|) && Abs(literals[i]) != condition;
    }
    assert AllLiterals(literals, |t|);
  }

  /** A branch that stays undefined when a condition becomes known was off before. */
  lemma StillUndefined(literals: seq<int>, s: seq<int>, t: seq<int>, condition: nat)
    requires AllLiterals(literals, |s|) && 1 <= condition <= |s|
    requires |t| == |s| && forall i :: 0 <= i < |s| && i != condition - 1 ==> t[i] == s[i]
    requires t[condition - 1] != UNDEFINED && AllLiterals(literals, |t|)
    ensures Undefined(literals, t) ==> !Settled(literals, t) && !Settled(literals, s)
  {
    if Undefined(literals, t) {
      var i :| 0 <= i < |literals| && t[Abs(literals[i]) - 1] == UNDEFINED;
      assert s[Abs(literals[i]) - 1] == UNDEFINED;
    }
  }

  /** The branches whose code a condition's callback may start or stop, in ascending order. */
  ghost predicate Serves(callback: seq<nat>, condition: nat, literals: seq<seq<int>>) {
    && (forall i :: 0 <= i < |callback| ==> 0 < callback[i] < |literals|)
    && (forall i, j :: 0 <= i < j < |callback| ==> callback[i] <= callback[j])
    && (forall b :: 0 < b < |literals| ==> (b in callback <==> Mentions(literals[b], condition)))
  }

  /** The literals of each branch, with which the machine is generated. */
  ghost predicate Usable(literals: seq<seq<int>>, numConditions: nat) {
    && literals != []
    && (forall b :: 0 <= b < |literals| ==> AllLiterals(literals[b], numConditions))
    && (forall b :: 0 < b < |literals| ==> literals[b] != [])
  }

  ghost predicate InRange(status: seq<int>) {
    forall c :: 0 <= c < |status| ==> status[c] in {UNDEFINED, 0, 1}
  }

  /** The branches done follow the new status, the others still the old one. */
  ghost predicate PartlySettled(literals: seq<seq<int>>, branches: seq<bool>, done: seq<nat>, status: seq<int>,
      before: seq<int>) {
    && |branches| == |literals| > 0 && Usable(literals, |status|) && |before| == |status|
    && branches[0]
    && forall d :: 0 < d < |literals| ==> branches[d] == Settled(literals[d], if d in done then status else before)
  }

  /** The branches below b were switched on if they should be, the others are still off. */
  ghost predicate Started(literals: seq<seq<int>>, branches: seq<bool>, b: nat, status: seq<int>) {
    && |branches| == |literals| > 0 && Usable(literals, |status|)
    && branches[0]
    && forall d :: 0 < d < |literals| ==> branches[d] == (d < b && Settled(literals[d], status))
  }

  ghost predicate AllSettled(literals: seq<seq<int>>, branches: seq<bool>, status: seq<int>) {
    && |branches| == |literals| > 0 && Usable(literals, |status|)
    && branches[0]
    && forall d :: 0 < d < |literals| ==> branches[d] == Settled(literals[d], status)
  }

  ghost predicate AllInOrder(log: seq<Event>, branches: seq<bool>) {
    && Calls(log, 0) == [true]
    && forall d :: 0 < d < |branches| ==> InOrder(log, d, branches[d])
  }

  class EventMachine {
    /** The literals the machine was generated from; branch 0 is the program itself. */
    ghost const literals: seq<seq<int>>
    const numConditions: nat
    const numBranches: nat
    /** The two expressions of each branch's evaluation function. */
    const undefinedTests: seq<Expr>
    const conjunctions: seq<Expr>
    /** The branches each condition's callback evaluates. */
    const callbacks: seq<seq<nat>>
    const conditionStatus: array<int>
    const branchStatus: array<bool>
    /** The calls of Start and Stop functions so far. */
    ghost var log: seq<Event>

    /** The generated code belongs to the literals. */
    ghost predicate Wired() {
      && conditionStatus.Length == numConditions && branchStatus.Length == numBranches == |literals|
      && Usable(literals, numConditions)
      && |undefinedTests| == |conjunctions| == numBranches && |callbacks| == numConditions
      && (forall b :: 0 < b < numBranches ==>
        TestsUndefined(undefinedTests[b], literals[b]) && TestsAll(conjunctions[b], literals[b]))
      && (forall c :: 0 <= c < numConditions ==> Serves(callbacks[c], c + 1, literals))
    }

    ghost predicate Valid()
      reads conditionStatus
    {
      Wired() && InRange(conditionStatus[..])
    }

    /** What holds between events: every branch but the first runs exactly when its conditions are known and its
        conjunction is true, and its Start and Stop calls alternate, beginning with Start. */
    ghost predicate Steady()
      requires Valid()
      reads this, conditionStatus, branchStatus
    {
      && AllSettled(literals, branchStatus[..], conditionStatus[..])
      && AllInOrder(log, branchStatus[..])
    }

    /** generateVariables: all conditions undefined, all branches but the first off. */
    constructor (ghost literals: seq<seq<int>>, numConditions: nat, numBranches: nat,
                 undefinedTests: seq<Expr>, conjunctions: seq<Expr>, callbacks: seq<seq<nat>>)
      requires Usable(literals, numConditions) && numBranches == |literals|
      requires |undefinedTests| == |conjunctions| == numBranches && |callbacks| == numConditions
      requires forall b :: 0 < b < numBranches ==>
        TestsUndefined(undefinedTests[b], literals[b]) && TestsAll(conjunctions[b], literals[b])
      requires forall c :: 0 <= c < numConditions ==> Serves(callbacks[c], c + 1, literals)
      ensures Valid() && this.literals == literals && this.numConditions == numConditions
      ensures fresh(conditionStatus) && fresh(branchStatus) && Initial()
    {
      hide Serves, Usable, TestsUndefined, TestsAll;
      this.literals, this.numConditions, this.numBranches := literals, numConditions, numBranches;
      this.undefinedTests, this.conjunctions, this.callbacks := undefinedTests, conjunctions, callbacks;
      conditionStatus := new int[numConditions](_ => UNDEFINED);
      branchStatus := new bool[numBranches](b => b == 0);
      log := [];
    }

    /** Before appMain. */
    ghost predicate Initial()
      reads this, conditionStatus, branchStatus
    {
      && log == [] && (forall c :: 0 <= c < conditionStatus.Length ==> conditionStatus[c] == UNDEFINED)
      && (forall b :: 0 <= b < branchStatus.Length ==> branchStatus[b] == (b == 0))
    }

    /** The generated branch evaluation function. */
    method Evaluate(b: nat) returns (r: bool)
      requires Valid() && 0 < b < numBranches
      ensures r == if Undefined(literals[b], conditionStatus[..]) then branchStatus[b]
        else Conjunction(literals[b], conditionStatus[..])
    {
      if Value(undefinedTests[b], conditionStatus[..]) != 0 {
        return branchStatus[b];
      }
      return Value(conjunctions[b], conditionStatus[..]) != 0;
    }

    /** The generated appMain: checks[c] is the value of a static condition, which is evaluated at once. The program's
        own branch starts first, then the others in the order of their numbers. */
    method AppMain(isStatic: seq<bool>, checks: seq<bool>)
      requires Valid() && |isStatic| == |checks| == numConditions && Initial()
      modifies conditionStatus, branchStatus, `log
      ensures Valid() && Steady()
      ensures log != [] && log[0] == Event(0, true) && Switches(log[1..], old(branchStatus[..]), branchStatus[..])
      ensures forall c :: 0 <= c < numConditions ==>
        conditionStatus[c] == if isStatic[c] then FromBool(checks[c]) else UNDEFINED
    {
      var c := 0;
      while c < numConditions
        modifies conditionStatus
        invariant 0 <= c <= numConditions
        invariant forall d :: 0 <= d < numConditions ==>
          conditionStatus[d] == if d < c && isStatic[d] then FromBool(checks[d]) else UNDEFINED
      {
        if isStatic[c] {
          conditionStatus[c] := FromBool(checks[c]);
        }
        c := c + 1;
      }
      log := log + [Event(0, true)];
      FirstStart(log, branchStatus[..], literals, conditionStatus[..]);
      assert |log| == 1;
      StartBranches();
    }

    /** The second half of appMain. */
    method StartBranches()
      requires Valid() && AllInOrder(log, branchStatus[..])
      requires Started(literals, branchStatus[..], 1, conditionStatus[..])
      modifies branchStatus, `log
      ensures Valid() && Steady()
      ensures old(log) <= log && Switches(log[|old(log)|..], old(branchStatus[..]), branchStatus[..])
    {
      hide *;
      WiredFacts();
      ghost var status, es := conditionStatus[..], [];
      NoSwitch(branchStatus[..]);
      var b := 1;
      while b < numBranches
        modifies branchStatus, `log
        invariant 1 <= b <= numBranches && AllInOrder(log, branchStatus[..])
        invariant Started(literals, branchStatus[..], b, status)
        invariant log == old(log) + es && Switches(es, old(branchStatus[..]), branchStatus[..])
        invariant forall k :: 0 <= k < |es| ==> es[k].branch < b
      {
        ghost var branches := branchStatus[..];
        StartedStep(literals, branches, b, status);
        var newBranchStatus := Evaluate(b);
        if newBranchStatus {
          SwitchAll(log, b, true, branches);
          OneMoreSwitch(es, old(branchStatus[..]), branches, b, true);
          branchStatus[b] := true;
          log := log + [Event(b, true)];
          es := es + [Event(b, true)];
          assert branchStatus[..] == branches[b := true];
        }
        b := b + 1;
      }
      StartedAll(literals, branchStatus[..], status);
      SteadyIs();
    }

    lemma WiredFacts()
      requires Valid()
      ensures numBranches == |literals| == branchStatus.Length > 0
      ensures conditionStatus.Length == numConditions == |callbacks|
      ensures Usable(literals, numConditions) && InRange(conditionStatus[..])
      ensures forall b :: 0 <= b < numBranches ==> AllLiterals(literals[b], numConditions)
      ensures forall c :: 0 <= c < numConditions ==> Serves(callbacks[c], c + 1, literals)
    {
    }

    lemma SteadyIs()
      requires Valid() && AllSettled(literals, branchStatus[..], conditionStatus[..])
      requires AllInOrder(log, branchStatus[..])
      ensures Steady()
    {
    }

    /** The generated callback of one condition. Filtered events change nothing; any other leaves the machine steady
        with the new status. Exactly the branches whose status changes are stopped or started, in the order of their
        numbers. */
    method ConditionCallback(id: nat, isFilteredOut: bool, value: bool)
      requires Valid() && Steady() && 1 <= id <= numConditions
      modifies conditionStatus, branchStatus, `log
      ensures Valid() && Steady()
      ensures conditionStatus[..] == if isFilteredOut then old(conditionStatus[..])
        else old(conditionStatus[..])[id - 1 := FromBool(value)]
      ensures old(log) <= log && Switches(log[|old(log)|..], old(branchStatus[..]), branchStatus[..])
      ensures conditionStatus[..] == old(conditionStatus[..]) ==>
        branchStatus[..] == old(branchStatus[..]) && log == old(log)
    {
      var result := FromBool(value);
      NoSwitch(branchStatus[..]);
      if isFilteredOut {
        return;
      }
      if result == conditionStatus[id - 1] {
        return;
      }
      ghost var before := conditionStatus[..];
      conditionStatus[id - 1] := result;
      UpdateBranches(id, before);
    }

    /** The second half of a callback: all branches that mention the condition are evaluated again. */
    method UpdateBranches(id: nat, ghost before: seq<int>)
      requires Valid() && 1 <= id <= numConditions == |before| && conditionStatus[id - 1] != UNDEFINED
      requires conditionStatus[..] == before[id - 1 := conditionStatus[id - 1]]
      requires AllSettled(literals, branchStatus[..], before) && AllInOrder(log, branchStatus[..])
      modifies branchStatus, `log
      ensures Valid() && Steady()
      ensures old(log) <= log && Switches(log[|old(log)|..], old(branchStatus[..]), branchStatus[..])
    {
      hide *;
      WiredFacts();
      ghost var status, es := conditionStatus[..], [];
      NoSwitch(branchStatus[..]);
      var associated := callbacks[id - 1];
      NoneSettled(literals, branchStatus[..], status, before);
      var i := 0;
      while i < |associated|
        modifies branchStatus, `log
        invariant 0 <= i <= |associated| && AllInOrder(log, branchStatus[..])
        invariant PartlySettled(literals, branchStatus[..], associated[..i], status, before)
        invariant log == old(log) + es && Switches(es, old(branchStatus[..]), branchStatus[..])
        invariant forall k :: 0 <= k < |es| ==> es[k].branch in associated[..i]
      {
        var br := associated[i];
        ghost var branches := branchStatus[..];
        ServesAt(associated, id, literals, i);
        PartlyStep(literals, branches, associated[..i], status, before, br, id);
        assert associated[..i + 1] == associated[..i] + [br];
        var newBranchStatus := Evaluate(br);
        if newBranchStatus != branchStatus[br] {
          SwitchAll(log, br, newBranchStatus, branches);
          SwitchInTurn(es, old(branchStatus[..]), branches, associated, i, newBranchStatus);
          branchStatus[br] := newBranchStatus;
          log := log + [Event(br, newBranchStatus)];
          es := es + [Event(br, newBranchStatus)];
          assert branchStatus[..] == branches[br := newBranchStatus];
        } else {
          assert branches[br := newBranchStatus] == branches;
        }
        i := i + 1;
      }
      assert associated[..|associated|] == associated;
      AllDone(literals, branchStatus[..], associated, status, before, id);
      SteadyIs();
    }
  }

  lemma FirstStart(log: seq<Event>, branches: seq<bool>, literals: seq<seq<int>>, status: seq<int>)
    requires log == [Event(0, true)] && |branches| == |literals| && Usable(literals, |status|)
    requires forall b :: 0 <= b < |branches| ==> branches[b] == (b == 0)
    ensures AllInOrder(log, branches) && Started(literals, branches, 1, status)
  {
    forall b: nat ensures Calls(log, b) == if b == 0 then [true] else [] {
      CallsSnoc([], Event(0, true), b);
    }
  }

  lemma SwitchAll(log: seq<Event>, c: nat, on: bool, branches: seq<bool>)
    requires 0 < c < |branches| && on != branches[c] && AllInOrder(log, branches)
    ensures AllInOrder(log + [Event(c, on)], branches[c := on])
  {
    forall d | 0 < d < |branches| ensures InOrder(log + [Event(c, on)], d, if d == c then on else branches[d]) {
      SwitchInOrder(log, c, on, d, branches[d]);
    }
    CallsSnoc(log, Event(c, on), 0);
  }

  lemma StartedStep(literals: seq<seq<int>>, branches: seq<bool>, b: nat, status: seq<int>)
    requires Started(literals, branches, b, status) && 0 < b < |literals|
    ensures AllLiterals(literals[b], |status|) && !branches[b]
    ensures var r := if Undefined(literals[b], status) then branches[b] else Conjunction(literals[b], status);
      Started(literals, if r then branches[b := true] else branches, b + 1, status)
  {
  }

  lemma StartedAll(literals: seq<seq<int>>, branches: seq<bool>, status: seq<int>)
    requires Started(literals, branches, |literals|, status)
    ensures AllSettled(literals, branches, status)
  {
  }

  lemma NoneSettled(literals: seq<seq<int>>, branches: seq<bool>, status: seq<int>, before: seq<int>)
    requires AllSettled(literals, branches, before) && |status| == |before|
    ensures PartlySettled(literals, branches, [], status, before)
  {
  }

  lemma ServesAt(callback: seq<nat>, condition: nat, literals: seq<seq<int>>, i: nat)
    requires Serves(callback, condition, literals) && i < |callback|
    ensures 0 < callback[i] < |literals|
    ensures forall j, k :: 0 <= j < k < |callback| ==> callback[j] <= callback[k]
  {
  }

  lemma PartlyStep(literals: seq<seq<int>>, branches: seq<bool>, done: seq<nat>, status: seq<int>, before: seq<int>,
      br: nat, id: nat)
    requires PartlySettled(literals, branches, done, status, before) && 0 < br < |literals|
    requires 1 <= id <= |before| && status == before[id - 1 := status[id - 1]] && status[id - 1] != UNDEFINED
    ensures |branches| == |literals| && AllLiterals(literals[br], |status|)
    ensures var r := if Undefined(literals[br], status) then branches[br] else Conjunction(literals[br], status);
      && PartlySettled(literals, branches[br := r], done + [br], status, before)
      && (br in done ==> r == branches[br])
  {
    hide Settled, Undefined, Conjunction, Usable;
    UsableAt(literals, |status|, br);
    StillUndefined(literals[br], before, status, id);
    SettledIs(literals[br], status);
  }

  lemma UsableAt(literals: seq<seq<int>>, n: nat, b: nat)
    requires Usable(literals, n)
    ensures forall d :: 0 <= d < |literals| ==> AllLiterals(literals[d], n)
  {
  }

  lemma AllDone(literals: seq<seq<int>>, branches: seq<bool>, done: seq<nat>, status: seq<int>, before: seq<int>,
      id: nat)
    requires PartlySettled(literals, branches, done, status, before) && Serves(done, id, literals)
    requires 1 <= id <= |before| && status == before[id - 1 := status[id - 1]]
    ensures AllSettled(literals, branches, status)
  {
    hide Settled;
    forall d | 0 < d < |literals| ensures branches[d] == Settled(literals[d], status) {
      if d !in done {
        SettledFrame(literals[d], before, status, id);
      }
    }
  }

  lemma SettledIs(literals: seq<int>, status: seq<int>)
    requires AllLiterals(literals, |status|)
    ensures Settled(literals, status) <==> !Undefined(literals, status) && Conjunction(literals, status)
  {
  }

  // ---------------------------------------------------------------- from the program to the machine

  /** generateConditions, for the branches of a compiled program. */
  method Generate(register: BranchCollection, totalConditions: nat, ghost b: CodeBlock) returns (m: EventMachine)
    requires WellFormed(b) && b.kind.Program? && Compiled(b, register.conditions, register.branches)
    requires totalConditions == |Conditions(b)|
    ensures fresh(m) && fresh(m.conditionStatus) && fresh(m.branchStatus) && m.Valid() && m.Initial()
    ensures m.numConditions == totalConditions && |Stacks(b, [], 0)| == |Blocks(b)| && m.literals == Stacks(b, [], 0)
  {
    hide *;
    FirstBlock(b);
    ghost var literals := Stacks(b, [], 0);
    CompiledUsable(b, register.conditions, register.branches);
    KeysCount(register.conditions.Keys, |Blocks(b)|);
    var n := |register.conditions|;
    var undefinedTests, conjunctions := [Status(0)], [Status(0)];
    for i := 1 to n
      invariant |undefinedTests| == |conjunctions| == i
      invariant forall k :: 0 < k < i ==>
        TestsUndefined(undefinedTests[k], literals[k]) && TestsAll(conjunctions[k], literals[k])
    {
      var u := FormatConditionsUndefined(register.conditions[i]);
      var c := FormatConditions(register.conditions[i]);
      undefinedTests, conjunctions := undefinedTests + [u], conjunctions + [c];
    }
    var callbacks: seq<seq<nat>> := [];
    for c := 0 to totalConditions
      invariant |callbacks| == c && forall k :: 0 <= k < c ==> Serves(callbacks[k], k + 1, literals)
    {
      var associated := register.GetAssociatedBranches(c + 1);
      AssociatedAscend(register.conditions, |register.conditions|, c + 1);
      ServesIs(associated, c + 1, register.conditions, literals);
      callbacks := callbacks + [associated];
    }
    m := new EventMachine(literals, totalConditions, n, undefinedTests, conjunctions, callbacks);
  }

  lemma {:induction false} KeysCount(keys: set<nat>, n: nat)
    requires forall i: nat :: i in keys <==> i < n
    ensures |keys| == n
  {
    if n > 0 {
      assert keys == (keys - {n - 1}) + {n - 1};
      KeysCount(keys - {n - 1}, n - 1);
    } else {
      assert keys == {};
    }
  }

  lemma CompiledUsable(b: CodeBlock, conditions: map<nat, seq<int>>, branches: map<nat, seq<nat>>)
    requires WellFormed(b) && b.kind.Program? && Compiled(b, conditions, branches)
    ensures Fits(b, []) && |Stacks(b, [], 0)| == |Blocks(b)| && Usable(Stacks(b, [], 0), |Conditions(b)|)
    ensures Stacks(b, [], 0)[0] == []
    ensures forall i: nat :: i in conditions <==> i < |Blocks(b)|
    ensures forall i: nat :: i < |Blocks(b)| ==>
      conditions[i] == Stacks(b, [], 0)[i] && (conditions[i] == [] <==> i == 0)
  {
    FirstBlock(b);
    forall i | 0 <= i < |Stacks(b, [], 0)|
      ensures AllLiterals(Stacks(b, [], 0)[i], |Conditions(b)|) && (Stacks(b, [], 0)[i] == [] <==> i == 0)
    {
      CompiledWellNumbered(b, conditions, branches, i);
    }
  }

  lemma ServesIs(associated: seq<nat>, condition: nat, conditions: map<nat, seq<int>>, literals: seq<seq<int>>)
    requires forall i: nat :: i in conditions <==> i < |literals|
    requires forall i: nat :: i < |literals| ==> conditions[i] == literals[i]
    requires literals != [] && literals[0] == []
    requires Ascends(associated, |literals|)
    requires forall b :: b in associated <==>
      b in conditions && exists j :: 0 <= j < |conditions[b]| && Abs(conditions[b][j]) == condition
    ensures Serves(associated, condition, literals)
  {
    forall i | 0 <= i < |associated| ensures 0 < associated[i] < |literals| {
      assert associated[i] in associated;
    }
  }

  /** The end-to-end law. When every condition's status is what a valuation says, a branch of the generated machine is
      on exactly when its block is active under the nested semantics of the program. */
  lemma MachineFollowsProgram(b: CodeBlock, m: EventMachine, v: Valuation, i: nat)
    requires WellFormed(b) && b.kind.Program? && Fits(b, [])
    requires m.Valid() && m.Steady() && m.numConditions == |Conditions(b)| && m.literals == Stacks(b, [], 0)
    requires forall c :: 0 <= c < m.numConditions ==> m.conditionStatus[c] == FromBool(v(Conditions(b)[c]))
    requires i < |Blocks(b)|
    ensures i < m.branchStatus.Length && i < |Activity(b, v, true, false)|
    ensures m.branchStatus[i] <==> Activity(b, v, true, false)[i]
    ensures Running(Calls(m.log, i)) <==> Activity(b, v, true, false)[i]
  {
    FlatteningKeepsMeaning(b, v, i);
    var status, truth, literals := m.conditionStatus[..], Truth(Conditions(b), v), m.literals[i];
    KnownSettled(literals, status, truth);
    if i == 0 {
      StacksAscend(b, [], 0);
    }
  }

  lemma KnownSettled(literals: seq<int>, status: seq<int>, truth: seq<bool>)
    requires |status| == |truth| && AllLiterals(literals, |truth|)
    requires forall c :: 0 <= c < |status| ==> status[c] == FromBool(truth[c])
    ensures Settled(literals, status) <==> Satisfied(literals, truth)
  {
    forall i | 0 <= i < |literals|
      ensures status[Abs(literals[i]) - 1] != UNDEFINED
      ensures (status[Abs(literals[i]) - 1] != 0) == (literals[i] > 0) <==> Holds(literals[i], truth)
    {
      assert IsLiteral(literals[i], |truth|);
    }
    if Settled(literals, status) {
      forall i | 0 <= i < |literals| ensures Holds(literals[i], truth) {
      }
    }
  }
}
