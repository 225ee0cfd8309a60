/** The compiler's three traversals, which number conditions and branches and bind statements to them. */
module SealCompiler {
  import opened SealSpec

  /** The three traversals of CodeBlock.add. Only the last hands use cases to their branch. */
  datatype Pass = AddComponents | AddVirtualComponents | AddUseCases

  /** What the statements of one block get to see. */
  datatype Visit = Visit(block: CodeBlock, stack: seq<int>, branch: nat)

  /** The identities of the statements among the first k declarations. */
  function Statements(b: CodeBlock, k: nat): seq<nat>
    requires k <= |b.declarations|
  {
    if k == 0 then [] else
    Statements(b, k - 1) + (if b.declarations[k - 1].Statement? then [b.declarations[k - 1].id] else [])
  }

  /** Where the statements stand among the first k declarations. */
  function Places(b: CodeBlock, k: nat): set<nat>
    requires k <= |b.declarations|
  {
    set i: nat | i < k && b.declarations[i].Statement?
  }

  /** uses holds every statement of b and nothing else, in the order of the declarations. */
  ghost predicate RunsStatements(uses: seq<nat>, b: CodeBlock) {
    var ds := b.declarations;
    && |uses| == |Places(b, |ds|)|
    && (forall j :: 0 <= j < |ds| && ds[j].Statement? ==>
          |Places(b, j)| < |uses| && uses[|Places(b, j)|] == ds[j].id)
    && (forall id :: id in uses <==> Statement(id) in ds)
  }

  lemma PlacesStep(b: CodeBlock, k: nat)
    requires k < |b.declarations|
    ensures |Places(b, k + 1)| == |Places(b, k)| + if b.declarations[k].Statement? then 1 else 0
  {
    assert Places(b, k + 1) == Places(b, k) + if b.declarations[k].Statement? then {k} else {};
  }

  lemma {:induction false} StatementsAt(b: CodeBlock, k: nat)
    requires k <= |b.declarations|
    ensures |Statements(b, k)| == |Places(b, k)|
    ensures forall j :: 0 <= j < k && b.declarations[j].Statement? ==>
      |Places(b, j)| < |Statements(b, k)| && Statements(b, k)[|Places(b, j)|] == b.declarations[j].id
  {
    hide Places;
    if k > 0 {
      StatementsAt(b, k - 1);
      PlacesStep(b, k - 1);
      var s := Statements(b, k - 1);
      assert Statements(b, k) == s + if b.declarations[k - 1].Statement? then [b.declarations[k - 1].id] else [];
    } else {
      NoPlaces(b);
    }
  }

  lemma NoPlaces(b: CodeBlock)
    ensures Places(b, 0) == {}
  {
  }

  lemma {:induction false} StatementsAre(b: CodeBlock, k: nat, id: nat)
    requires k <= |b.declarations|
    ensures id in Statements(b, k) <==> Statement(id) in b.declarations[..k]
  {
    if k > 0 {
      StatementsAre(b, k - 1, id);
      assert b.declarations[..k] == b.declarations[..k - 1] + [b.declarations[k - 1]];
    }
  }

  lemma StatementsRun(b: CodeBlock)
    ensures RunsStatements(Statements(b, |b.declarations|), b)
  {
    hide Places, Statements;
    StatementsAt(b, |b.declarations|);
    assert b.declarations[..|b.declarations|] == b.declarations;
    forall id ensures id in Statements(b, |b.declarations|) <==> Statement(id) in b.declarations {
      StatementsAre(b, |b.declarations|, id);
    }
  }

  function UsesOf(b: CodeBlock, pass: Pass): seq<nat> {
    if pass.AddUseCases? then Statements(b, |b.declarations|) else []
  }

  function Uses(bs: seq<CodeBlock>, pass: Pass): seq<seq<nat>> {
    if bs == [] then [] else [UsesOf(bs[0], pass)] + Uses(bs[1..], pass)
  }

  function VisitsOf(bs: seq<CodeBlock>, stacks: seq<seq<int>>, branch: nat): seq<Visit>
    requires |bs| == |stacks|
  {
    if bs == [] then [] else [Visit(bs[0], stacks[0], branch)] + VisitsOf(bs[1..], stacks[1..], branch + 1)
  }

  function SetDefault<T>(m: map<nat, T>, k: nat, v: T): map<nat, T> {
    if k in m then m else m[k := v]
  }

  /** SetDefault for keys k, k + 1, ... */
  function Fill<T>(m: map<nat, T>, k: nat, vs: seq<T>): map<nat, T>
    decreases |vs|
  {
    if vs == [] then m else Fill(SetDefault(m, k, vs[0]), k + 1, vs[1..])
  }

  function AppendAt(m: map<nat, seq<nat>>, k: nat, us: seq<nat>): map<nat, seq<nat>> {
    m[k := (if k in m then m[k] else []) + us]
  }

  function FillUses(m: map<nat, seq<nat>>, k: nat, us: seq<seq<nat>>): map<nat, seq<nat>>
    decreases |us|
  {
    if us == [] then m else FillUses(AppendAt(m, k, us[0]), k + 1, us[1..])
  }

  lemma {:induction false} FillConcat<T>(m: map<nat, T>, k: nat, x: seq<T>, y: seq<T>)
    ensures Fill(m, k, x + y) == Fill(Fill(m, k, x), k + |x|, y)
    decreases |x|
  {
    if x == [] {
      assert x + y == y;
    } else {
      assert (x + y)[0] == x[0] && (x + y)[1..] == x[1..] + y;
      FillConcat(SetDefault(m, k, x[0]), k + 1, x[1..], y);
    }
  }

  lemma {:induction false} FillUsesConcat(m: map<nat, seq<nat>>, k: nat, x: seq<seq<nat>>, y: seq<seq<nat>>)
    ensures FillUses(m, k, x + y) == FillUses(FillUses(m, k, x), k + |x|, y)
    decreases |x|
  {
    if x == [] {
      assert x + y == y;
    } else {
      assert (x + y)[0] == x[0] && (x + y)[1..] == x[1..] + y;
      FillUsesConcat(AppendAt(m, k, x[0]), k + 1, x[1..], y);
    }
  }

  lemma {:induction false} UsesConcat(x: seq<CodeBlock>, y: seq<CodeBlock>, pass: Pass)
    ensures Uses(x + y, pass) == Uses(x, pass) + Uses(y, pass)
    ensures |Uses(x, pass)| == |x|
  {
    if x == [] {
      assert x + y == y;
    } else {
      assert (x + y)[0] == x[0] && (x + y)[1..] == x[1..] + y;
      UsesConcat(x[1..], y, pass);
    }
  }

  lemma {:induction false} VisitsConcat(x: seq<CodeBlock>, y: seq<CodeBlock>, s: seq<seq<int>>, t: seq<seq<int>>,
      branch: nat)
    requires |x| == |s| && |y| == |t|
    ensures VisitsOf(x + y, s + t, branch) == VisitsOf(x, s, branch) + VisitsOf(y, t, branch + |x|)
  {
    if x == [] {
      assert x + y == y && s + t == t;
    } else {
      assert (x + y)[0] == x[0] && (x + y)[1..] == x[1..] + y;
      assert (s + t)[0] == s[0] && (s + t)[1..] == s[1..] + t;
      VisitsConcat(x[1..], y, s[1..], t, branch + 1);
    }
  }

  /** What Fill leaves under each key. */
  lemma {:induction false} FillAt<T>(m: map<nat, T>, k: nat, vs: seq<T>, j: nat)
    ensures j in Fill(m, k, vs) <==> j in m || k <= j < k + |vs|
    ensures j in m ==> Fill(m, k, vs)[j] == m[j]
    ensures j !in m && k <= j < k + |vs| ==> Fill(m, k, vs)[j] == vs[j - k]
    decreases |vs|
  {
    if vs != [] {
      FillAt(SetDefault(m, k, vs[0]), k + 1, vs[1..], j);
    }
  }

  lemma {:induction false} FillUsesAt(m: map<nat, seq<nat>>, k: nat, us: seq<seq<nat>>, j: nat)
    ensures j in FillUses(m, k, us) <==> j in m || k <= j < k + |us|
    ensures j in FillUses(m, k, us) ==>
      FillUses(m, k, us)[j] == (if j in m then m[j] else []) + (if k <= j < k + |us| then us[j - k] else [])
    decreases |us|
  {
    if us != [] {
      FillUsesAt(AppendAt(m, k, us[0]), k + 1, us[1..], j);
    }
  }

  // ---------------------------------------------------------------- the effect of a traversal

  /** Everything a traversal reads and writes. */
  datatype State = State(stack: seq<int>, list: seq<Condition>, branch: nat, conditions: map<nat, seq<int>>,
      branches: map<nat, seq<nat>>)

  /** A program starts from scratch, but keeps the branches found before. */
  function Start(b: CodeBlock, st: State): State {
    if b.kind.Program? then State([], [], 0, st.conditions, st.branches) else st
  }

  /** The stack when b has been left: unchanged by a when chain, and by a later arm up to its last literal. */
  function After(b: CodeBlock, stack: seq<int>, n: nat): (r: seq<int>)
    requires WellFormed(b) && Fits(b, stack)
    ensures b.kind.When? ==> r == stack
    ensures b.kind.ElseWhen? || b.kind.Else? ==> |r| >= |stack| && r[..|stack| - 1] == stack[..|stack| - 1]
  {
    var s, m := Entered(b, stack, n), n + |Tested(b)| + |ConditionsIn(b, |b.declarations|)|;
    var e := if b.next.End? then s else After(b.next.block, s, m);
    if b.kind.When? then
      assert e[..|stack|] == stack by {
        if b.next.Next? {
          assert e[..|stack|] == e[..|s| - 1] == s[..|s| - 1];
        }
      }
      e[..|stack|]
    else
      assert b.kind.ElseWhen? ==> |e| >= |stack| && e[..|stack| - 1] == stack[..|stack| - 1] by {
        if b.next.Next? && b.kind.ElseWhen? {
          assert e[..|stack| - 1] == e[..|s| - 1][..|stack| - 1] == s[..|stack| - 1];
        }
      }
      e
  }

  ghost function Effect(b: CodeBlock, pass: Pass, st: State): State
    requires WellFormed(b) && Fits(b, st.stack)
  {
    var n := |st.list|;
    State(After(b, st.stack, n), st.list + Conditions(b), st.branch + |Blocks(b)|,
          Fill(st.conditions, st.branch, Stacks(b, st.stack, n)),
          FillUses(st.branches, st.branch, Uses(Blocks(b), pass)))
  }

  /** The effect of the blocks nested in the first k declarations. */
  ghost function EffectIn(b: CodeBlock, k: nat, pass: Pass, st: State): State
    requires WellFormed(b) && k <= |b.declarations|
  {
    State(st.stack, st.list + ConditionsIn(b, k), st.branch + |BlocksIn(b, k)|,
          Fill(st.conditions, st.branch, StacksIn(b, k, st.stack, |st.list|)),
          FillUses(st.branches, st.branch, Uses(BlocksIn(b, k), pass)))
  }

  /** The effect of entering b and handling its own statements. */
  ghost function Entry(b: CodeBlock, pass: Pass, st: State): State
    requires Fits(b, st.stack)
  {
    var s := Entered(b, st.stack, |st.list|);
    State(s, st.list + Tested(b), st.branch + 1, SetDefault(st.conditions, st.branch, s),
          AppendAt(st.branches, st.branch, UsesOf(b, pass)))
  }

  lemma EntryFills(b: CodeBlock, pass: Pass, st: State)
    requires Fits(b, st.stack)
    ensures var e, s := Entry(b, pass, st), Entered(b, st.stack, |st.list|);
      && e.stack == s && e.list == st.list + Tested(b) && e.branch == st.branch + 1
      && e.conditions == Fill(st.conditions, st.branch, [s])
      && e.branches == FillUses(st.branches, st.branch, Uses([b], pass))
  {
    var s := Entered(b, st.stack, |st.list|);
    assert [s][1..] == [] && [b][1..] == [];
    assert Fill(st.conditions, st.branch, [s]) == Fill(SetDefault(st.conditions, st.branch, s), st.branch + 1, []);
    var u := UsesOf(b, pass);
    var us: seq<seq<nat>> := [u];
    assert us[1..] == [];
    assert FillUses(st.branches, st.branch, us) == FillUses(AppendAt(st.branches, st.branch, u), st.branch + 1, []);
  }

  lemma CountsMatch(b: CodeBlock, stack: seq<int>, n: nat)
    requires WellFormed(b) && Fits(b, stack)
    ensures |Stacks(b, stack, n)| == |Blocks(b)|
  {
    SameCount(b, stack, n, _ => true, true, true);
  }

  lemma CountsMatchIn(b: CodeBlock, k: nat, s: seq<int>, m: nat)
    requires WellFormed(b) && k <= |b.declarations|
    ensures |StacksIn(b, k, s, m)| == |BlocksIn(b, k)|
  {
    SameCountIn(b, k, s, m, _ => true, true);
  }

  /** Two stretches of blocks, one after the other. */
  lemma Sequence(c: map<nat, seq<int>>, u: map<nat, seq<nat>>, k: nat, x: seq<CodeBlock>, y: seq<CodeBlock>,
                 s: seq<seq<int>>, t: seq<seq<int>>, pass: Pass)
    requires |x| == |s| && |y| == |t|
    ensures Fill(c, k, s + t) == Fill(Fill(c, k, s), k + |x|, t)
    ensures FillUses(u, k, Uses(x + y, pass)) == FillUses(FillUses(u, k, Uses(x, pass)), k + |x|, Uses(y, pass))
    ensures VisitsOf(x + y, s + t, k) == VisitsOf(x, s, k) + VisitsOf(y, t, k + |x|)
  {
    hide *;
    FillConcat(c, k, s, t);
    UsesConcat(x, y, pass);
    FillUsesConcat(u, k, Uses(x, pass), Uses(y, pass));
    VisitsConcat(x, y, s, t, k);
  }

  /** One more declaration. */
  lemma EffectInStep(b: CodeBlock, k: nat, pass: Pass, st: State)
    requires WellFormed(b) && k < |b.declarations|
    ensures var d, before, after := b.declarations[k], EffectIn(b, k, pass, st), EffectIn(b, k + 1, pass, st);
      && (d.Statement? ==>
            && after == before
            && BlocksIn(b, k + 1) == BlocksIn(b, k)
            && StacksIn(b, k + 1, st.stack, |st.list|) == StacksIn(b, k, st.stack, |st.list|))
      && (d.Nested? ==>
            && WellFormed(d.block) && d.block.kind.When? && Fits(d.block, before.stack)
            && after == Effect(d.block, pass, before)
            && |BlocksIn(b, k)| == |StacksIn(b, k, st.stack, |st.list|)|
            && |Blocks(d.block)| == |Stacks(d.block, before.stack, |before.list|)|
            && BlocksIn(b, k + 1) == BlocksIn(b, k) + Blocks(d.block)
            && StacksIn(b, k + 1, st.stack, |st.list|) ==
                 StacksIn(b, k, st.stack, |st.list|) + Stacks(d.block, before.stack, |before.list|))
  {
    hide Stacks, StacksIn, Blocks, BlocksIn, Conditions, ConditionsIn, Fill, FillUses, Uses, WellFormed, Fits, After;
    hide VisitsOf;
    var s, n := st.stack, |st.list|;
    WellFormedStep(b);
    ConditionsInStep(b, k + 1);
    BlocksInStep(b, k + 1);
    CountsMatchIn(b, k, s, n);
    if b.declarations[k].Nested? {
      var d, m := b.declarations[k].block, n + |ConditionsIn(b, k)|;
      NestedFits(d, s);
      StacksInStep(b, k + 1, s, n);
      CountsMatch(d, s, m);
      Sequence(st.conditions, st.branches, st.branch, BlocksIn(b, k), Blocks(d), StacksIn(b, k, s, n),
        Stacks(d, s, m), pass);
      assert st.list + ConditionsIn(b, k + 1) == st.list + ConditionsIn(b, k) + Conditions(d);
    } else {
      StacksInStep(b, k + 1, s, n);
      assert BlocksIn(b, k + 1) == BlocksIn(b, k) && ConditionsIn(b, k + 1) == ConditionsIn(b, k);
      assert StacksIn(b, k + 1, s, n) == StacksIn(b, k, s, n);
    }
  }

  lemma EffectInNone(b: CodeBlock, pass: Pass, st: State)
    requires WellFormed(b)
    ensures EffectIn(b, 0, pass, st) == st && BlocksIn(b, 0) == [] && StacksIn(b, 0, st.stack, |st.list|) == []
  {
    assert st.list + [] == st.list;
  }

  /** The state when all that is nested in b, and the rest of b's chain, has been traversed. */
  ghost function Inner(b: CodeBlock, pass: Pass, st: State): State
    requires WellFormed(b) && Fits(b, st.stack)
  {
    EffectIn(b, |b.declarations|, pass, Entry(b, pass, st))
  }

  lemma StackAfter(b: CodeBlock, stack: seq<int>, n: nat)
    requires WellFormed(b) && Fits(b, stack)
    requires b.next.Next? ==> WellFormed(b.next.block) && Fits(b.next.block, Entered(b, stack, n))
    ensures var s := Entered(b, stack, n);
      var e := if b.next.End? then s else After(b.next.block, s, n + |Tested(b)| + |ConditionsIn(b, |b.declarations|)|);
      (b.kind.When? ==> |e| >= |stack|) && After(b, stack, n) == if b.kind.When? then e[..|stack|] else e
  {
  }

  /** Effect, as the traversal brings it about. */
  lemma EffectStep(b: CodeBlock, pass: Pass, st: State)
    requires WellFormed(b) && Fits(b, st.stack)
    ensures var mid := Inner(b, pass, st);
      && (b.next.Next? ==> WellFormed(b.next.block) && Fits(b.next.block, mid.stack) && !b.next.block.kind.Program?)
      && var end := if b.next.End? then mid else Effect(b.next.block, pass, mid);
      && (b.kind.When? ==> |end.stack| >= |st.stack|)
      && Effect(b, pass, st) == if b.kind.When? then end.(stack := end.stack[..|st.stack|]) else end
  {
    hide Stacks, StacksIn, Blocks, BlocksIn, Conditions, ConditionsIn, Fill, FillUses, Uses, WellFormed, Fits, After,
      Entry, Entered, Tested, UsesOf, SetDefault, AppendAt, VisitsOf, Abs;
    var n, k, e := |st.list|, |b.declarations|, Entry(b, pass, st);
    var s, m := Entered(b, st.stack, n), n + |Tested(b)|;
    WellFormedStep(b);
    NextFits(b, st.stack, n);
    EntryFills(b, pass, st);
    ConditionsStep(b);
    BlocksStep(b);
    StacksStep(b, st.stack, n);
    StackAfter(b, st.stack, n);
    CountsMatchIn(b, k, s, m);
    Sequence(st.conditions, st.branches, st.branch, [b], BlocksIn(b, k), [s], StacksIn(b, k, s, m), pass);
    var mid := Inner(b, pass, st);
    if b.next.Next? {
      var arm, p := b.next.block, m + |ConditionsIn(b, k)|;
      CountsMatch(arm, s, p);
      Sequence(st.conditions, st.branches, st.branch, [b] + BlocksIn(b, k), Blocks(arm), [s] + StacksIn(b, k, s, m),
        Stacks(arm, s, p), pass);
      assert st.list + Conditions(b) == st.list + Tested(b) + ConditionsIn(b, k) + Conditions(arm);
    } else {
      assert [b] + BlocksIn(b, k) + [] == [b] + BlocksIn(b, k);
      assert [s] + StacksIn(b, k, s, m) + [] == [s] + StacksIn(b, k, s, m);
      assert st.list + Conditions(b) == st.list + Tested(b) + ConditionsIn(b, k);
    }
  }

  // ---------------------------------------------------------------- the compiler's objects

  class ConditionCollection {
    var conditionStack: seq<int>
    var conditionList: seq<Condition>
    var branchNumber: nat
    var branchChanged: bool

    constructor ()
      ensures conditionStack == [] && conditionList == [] && branchNumber == 0 && !branchChanged
    {
      conditionStack, conditionList, branchNumber, branchChanged := [], [], 0, false;
    }

    method Reset()
      modifies this
      ensures conditionStack == [] && conditionList == [] && branchNumber == 0 && !branchChanged
    {
      conditionStack, conditionList, branchNumber, branchChanged := [], [], 0, false;
    }

    method Add(condition: Condition)
      modifies `conditionStack, `conditionList
      ensures conditionList == old(conditionList) + [condition]
      ensures conditionStack == old(conditionStack) + [|conditionList|]
    {
      conditionList := conditionList + [condition];
      var currentConditionNumber := |conditionList|;
      conditionStack := conditionStack + [currentConditionNumber];
    }

    method InvertLast()
      requires conditionStack != []
      modifies `conditionStack
      ensures conditionStack == Inverted(old(conditionStack))
    {
      var last := conditionStack[|conditionStack| - 1];
      conditionStack := conditionStack[..|conditionStack| - 1];
      conditionStack := conditionStack + [-last];
    }

    method Pop(count: nat)
      requires count <= |conditionStack|
      modifies `conditionStack
      ensures conditionStack == old(conditionStack[..|conditionStack| - count])
    {
      var n := count;
      while n > 0
        invariant 0 <= n <= count && conditionStack == old(conditionStack[..|conditionStack| - (count - n)])
      {
        conditionStack := conditionStack[..|conditionStack| - 1];
        n := n - 1;
      }
    }

    method EnsureBranchIsPresent(register: BranchCollection)
      modifies `branchChanged, register
      ensures branchChanged
      ensures register.conditions == SetDefault(old(register.conditions), branchNumber, conditionStack)
      ensures register.branches == SetDefault(old(register.branches), branchNumber, [])
    {
      register.AddBranch(branchNumber, conditionStack);
      branchChanged := true;
    }

    method NextBranch()
      modifies `branchNumber
      ensures branchNumber == if branchChanged then old(branchNumber) + 1 else old(branchNumber)
    {
      if branchChanged {
        branchNumber := branchNumber + 1;
      }
    }
  }

  /** How often the first k literals mention a condition. */
  function Mentions(literals: seq<int>, k: nat, condition: nat): nat
    requires k <= |literals|
  {
    if k == 0 then 0
    else Mentions(literals, k - 1, condition) + if Abs(literals[k - 1]) == condition then 1 else 0
  }

  function Repeated(b: nat, times: nat): seq<nat> {
    seq(times, _ => b)
  }

  /** The branches below n that mention a condition, in order, each as often as it does. */
  function Associated(conditions: map<nat, seq<int>>, n: nat, condition: nat): seq<nat>
    requires forall i :: 0 <= i < n ==> i in conditions
  {
    if n == 0 then [] else
    var last := Mentions(conditions[n - 1], |conditions[n - 1]|, condition);
    Associated(conditions, n - 1, condition) + Repeated(n - 1, last)
  }

  lemma {:induction false} MentionedIff(literals: seq<int>, k: nat, condition: nat)
    requires k <= |literals|
    ensures Mentions(literals, k, condition) > 0 <==> exists j :: 0 <= j < k && Abs(literals[j]) == condition
  {
    if k > 0 {
      MentionedIff(literals, k - 1, condition);
    }
  }

  /** The branches are listed in ascending order. */
  lemma {:induction false} AssociatedAscend(conditions: map<nat, seq<int>>, n: nat, condition: nat)
    requires forall i :: 0 <= i < n ==> i in conditions
    ensures Ascends(Associated(conditions, n, condition), n)
  {
    if n > 0 {
      var s := Associated(conditions, n - 1, condition);
      AssociatedAscend(conditions, n - 1, condition);
      AscendsOn(s, n - 1, Mentions(conditions[n - 1], |conditions[n - 1]|, condition));
    }
  }

  ghost predicate Ascends(s: seq<nat>, bound: nat) {
    && (forall i :: 0 <= i < |s| ==> s[i] < bound)
    && forall i, j :: 0 <= i < j < |s| ==> s[i] <= s[j]
  }

  lemma AscendsOn(s: seq<nat>, b: nat, times: nat)
    requires Ascends(s, b)
    ensures Ascends(s + Repeated(b, times), b + 1)
  {
  }

  /** Exactly the branches that mention the condition are listed. */
  lemma {:induction false} AssociatedIff(conditions: map<nat, seq<int>>, n: nat, condition: nat, b: nat)
    requires forall i :: 0 <= i < n ==> i in conditions
    ensures b in Associated(conditions, n, condition) <==>
      b < n && exists j :: 0 <= j < |conditions[b]| && Abs(conditions[b][j]) == condition
  {
    if n > 0 {
      AssociatedIff(conditions, n - 1, condition, b);
      MentionedIff(conditions[n - 1], |conditions[n - 1]|, condition);
      var times := Mentions(conditions[n - 1], |conditions[n - 1]|, condition);
      assert times > 0 ==> Repeated(n - 1, times)[0] == n - 1;
    }
  }

  class BranchCollection {
    /** The use cases started and stopped with each branch. */
    var branches: map<nat, seq<nat>>
    /** The literals each branch waits for. */
    var conditions: map<nat, seq<int>>

    constructor ()
      ensures branches == map[0 := []] && conditions == map[0 := []]
    {
      branches, conditions := map[0 := []], map[0 := []];
    }

    method AddBranch(n: nat, literals: seq<int>)
      modifies this
      ensures branches == SetDefault(old(branches), n, []) && conditions == SetDefault(old(conditions), n, literals)
    {
      if n !in branches {
        branches := branches[n := []];
      }
      if n !in conditions {
        conditions := conditions[n := literals];
      }
    }

    method AddUseCase(branchNumber: nat, useCase: nat)
      modifies `branches
      ensures branches == AppendAt(old(branches), branchNumber, [useCase])
    {
      if branchNumber !in branches {
        branches := branches[branchNumber := []];
      }
      branches := branches[branchNumber := branches[branchNumber] + [useCase]];
    }

    /** The branches that mention a condition, in order; a branch is listed once per mention. */
    method GetAssociatedBranches(condition: nat) returns (result: seq<nat>)
      requires forall i :: i in conditions <==> 0 <= i < |conditions|
      ensures result == Associated(conditions, |conditions|, condition)
      ensures forall b :: b in result <==>
        b in conditions && exists j :: 0 <= j < |conditions[b]| && Abs(conditions[b][j]) == condition
    {
      result := [];
      var i := 0;
      while i < |conditions|
        invariant 0 <= i <= |conditions|
        invariant result == Associated(conditions, i, condition)
      {
        ghost var before := result;
        var k := 0;
        while k < |conditions[i]|
          invariant 0 <= k <= |conditions[i]|
          invariant result == before + Repeated(i, Mentions(conditions[i], k, condition))
        {
          if Abs(conditions[i][k]) == condition {
            result := result + [i];
          }
          k := k + 1;
        }
        i := i + 1;
      }
      forall b ensures b in result <==>
        b in conditions && exists j :: 0 <= j < |conditions[b]| && Abs(conditions[b][j]) == condition
      {
        AssociatedIff(conditions, |conditions|, condition, b);
      }
    }
  }

  ghost function StateOf(cc: ConditionCollection, register: BranchCollection): State
    reads cc, register
  {
    State(cc.conditionStack, cc.conditionList, cc.branchNumber, register.conditions, register.branches)
  }

  method EnterCodeBlock(b: CodeBlock, register: BranchCollection, cc: ConditionCollection) returns (stackStartSize: nat)
    requires Fits(b, cc.conditionStack)
    modifies cc, register
    ensures stackStartSize == |old(cc.conditionStack)| && cc.branchChanged
    ensures var st := Start(b, old(StateOf(cc, register)));
      && cc.conditionStack == Entered(b, st.stack, |st.list|) && cc.conditionList == st.list + Tested(b)
      && cc.branchNumber == st.branch
      && register.conditions == SetDefault(st.conditions, st.branch, cc.conditionStack)
      && register.branches == SetDefault(st.branches, st.branch, [])
  {
    stackStartSize := |cc.conditionStack|;
    match b.kind {
      case Program =>
        cc.Reset();
      case When =>
        cc.Add(b.condition);
      case ElseWhen =>
        cc.InvertLast();
        cc.Add(b.condition);
      case Else =>
        cc.InvertLast();
    }
    cc.EnsureBranchIsPresent(register);
  }

  method ExitCodeBlock(b: CodeBlock, cc: ConditionCollection, stackStartSize: nat)
    requires b.kind.When? ==> stackStartSize <= |cc.conditionStack|
    modifies cc`conditionStack
    ensures cc.conditionStack == if b.kind.When? then old(cc.conditionStack)[..stackStartSize]
      else old(cc.conditionStack)
  {
    if b.kind.When? {
      cc.Pop(|cc.conditionStack| - stackStartSize);
    }
  }

  lemma AppendNothing(m: map<nat, seq<nat>>, k: nat)
    requires k in m
    ensures AppendAt(m, k, []) == m
  {
    assert m[k] + [] == m[k];
  }

  lemma AppendTwice(m: map<nat, seq<nat>>, k: nat, us: seq<nat>, vs: seq<nat>)
    ensures AppendAt(AppendAt(m, k, us), k, vs) == AppendAt(m, k, us + vs)
  {
    var base := if k in m then m[k] else [];
    assert base + us + vs == base + (us + vs);
  }

  /** The block's own statements; in the last pass each use case goes to the current branch. */
  method HandleStatements(b: CodeBlock, pass: Pass, register: BranchCollection, cc: ConditionCollection)
    requires cc.branchNumber in register.branches
    modifies register`branches
    ensures register.branches == AppendAt(old(register.branches), cc.branchNumber, UsesOf(b, pass))
  {
    ghost var uses := [];
    AppendNothing(register.branches, cc.branchNumber);
    for i := 0 to |b.declarations|
      invariant uses == if pass.AddUseCases? then Statements(b, i) else []
      invariant register.branches == AppendAt(old(register.branches), cc.branchNumber, uses)
    {
      if b.declarations[i].Statement? && pass.AddUseCases? {
        AppendTwice(old(register.branches), cc.branchNumber, uses, [b.declarations[i].id]);
        uses := uses + [b.declarations[i].id];
        register.AddUseCase(cc.branchNumber, b.declarations[i].id);
      }
    }
  }

  lemma StartFits(b: CodeBlock, st: State)
    requires Fits(b, st.stack)
    ensures Fits(b, Start(b, st).stack)
  {
  }

  lemma PresentAfter(m: map<nat, seq<nat>>, k: nat)
    ensures k in SetDefault(m, k, [])
  {
  }

  lemma EntryIs(b: CodeBlock, pass: Pass, st: State)
    requires Fits(b, st.stack)
    ensures var s := Entered(b, st.stack, |st.list|);
      Entry(b, pass, st) == State(s, st.list + Tested(b), st.branch + 1, SetDefault(st.conditions, st.branch, s),
                                  AppendAt(st.branches, st.branch, UsesOf(b, pass)))
    ensures |st.list + Tested(b)| == |st.list| + |Tested(b)|
  {
  }

  lemma EffectInIs(b: CodeBlock, k: nat, pass: Pass, st: State)
    requires WellFormed(b) && k <= |b.declarations|
    ensures var r := EffectIn(b, k, pass, st);
      && r.stack == st.stack && |r.list| == |st.list| + |ConditionsIn(b, k)| && r.branch == st.branch + |BlocksIn(b, k)|
  {
  }

  lemma VisitsNone(branch: nat)
    ensures VisitsOf([], [], branch) == []
  {
  }

  /** The visits of b: its own, those of what is nested in it, those of the rest of its chain. */
  lemma VisitsStep(b: CodeBlock, st: State)
    requires WellFormed(b) && Fits(b, st.stack)
    ensures |Blocks(b)| == |Stacks(b, st.stack, |st.list|)|
    ensures var s, m, k := Entered(b, st.stack, |st.list|), |st.list| + |Tested(b)|, |b.declarations|;
      var p := m + |ConditionsIn(b, k)|;
      && |BlocksIn(b, k)| == |StacksIn(b, k, s, m)|
      && (b.next.Next? ==>
            && WellFormed(b.next.block) && Fits(b.next.block, s)
            && |Blocks(b.next.block)| == |Stacks(b.next.block, s, p)|)
      && VisitsOf(Blocks(b), Stacks(b, st.stack, |st.list|), st.branch)
         == [Visit(b, s, st.branch)] + VisitsOf(BlocksIn(b, k), StacksIn(b, k, s, m), st.branch + 1)
            + (if b.next.End? then [] else
               VisitsOf(Blocks(b.next.block), Stacks(b.next.block, s, p), st.branch + 1 + |BlocksIn(b, k)|))
  {
    hide Blocks, BlocksIn, Stacks, StacksIn, Fits, WellFormed, Entered, Tested, Conditions, ConditionsIn;
    var s, m, k := Entered(b, st.stack, |st.list|), |st.list| + |Tested(b)|, |b.declarations|;
    var p, own, ownStack := m + |ConditionsIn(b, k)|, [b], [s];
    WellFormedStep(b);
    NextFits(b, st.stack, |st.list|);
    BlocksStep(b);
    StacksStep(b, st.stack, |st.list|);
    CountsMatch(b, st.stack, |st.list|);
    CountsMatchIn(b, k, s, m);
    VisitsConcat(own, BlocksIn(b, k), ownStack, StacksIn(b, k, s, m), st.branch);
    assert own[1..] == [] && ownStack[1..] == [];
    assert VisitsOf(own, ownStack, st.branch) == [Visit(b, s, st.branch)];
    if b.next.Next? {
      CountsMatch(b.next.block, s, p);
      VisitsConcat(own + BlocksIn(b, k), Blocks(b.next.block), ownStack + StacksIn(b, k, s, m),
        Stacks(b.next.block, s, p), st.branch);
    } else {
      assert own + BlocksIn(b, k) + [] == own + BlocksIn(b, k);
      assert ownStack + StacksIn(b, k, s, m) + [] == ownStack + StacksIn(b, k, s, m);
    }
  }

  lemma SetDefaultThenAppend(m: map<nat, seq<nat>>, k: nat, us: seq<nat>)
    ensures AppendAt(SetDefault(m, k, []), k, us) == AppendAt(m, k, us)
  {
  }

  /** addComponents, addVirtualComponents and addUseCases. The visits say which stack and which branch number the
      statements of each block saw. */
  method Traverse(b: CodeBlock, pass: Pass, register: BranchCollection, cc: ConditionCollection)
    returns (ghost visits: seq<Visit>)
    requires WellFormed(b) && Fits(b, cc.conditionStack)
    modifies cc, register
    ensures var st := Start(b, old(StateOf(cc, register)));
      && StateOf(cc, register) == Effect(b, pass, st)
      && |Blocks(b)| == |Stacks(b, st.stack, |st.list|)|
      && visits == VisitsOf(Blocks(b), Stacks(b, st.stack, |st.list|), st.branch)
    decreases b
  {
    hide Effect, EffectIn, Entry, Blocks, BlocksIn, Stacks, StacksIn, VisitsOf, WellFormed, Fits, Entered;
    hide SetDefault, AppendAt, Conditions, ConditionsIn, Tested, After, UsesOf;
    ghost var st := Start(b, StateOf(cc, register));
    StartFits(b, StateOf(cc, register));
    ghost var k := |b.declarations|;
    var stackStartSize := EnterCodeBlock(b, register, cc);
    SetDefaultThenAppend(st.branches, st.branch, UsesOf(b, pass));
    PresentAfter(st.branches, st.branch);
    HandleStatements(b, pass, register, cc);
    cc.NextBranch();
    EntryIs(b, pass, st);
    ghost var e := Entry(b, pass, st);
    EffectInNone(b, pass, e);
    VisitsNone(e.branch);
    ghost var inner := [];
    EffectStep(b, pass, st);
    VisitsStep(b, st);
    var i := 0;
    while i < |b.declarations|
      invariant 0 <= i <= |b.declarations|
      invariant StateOf(cc, register) == EffectIn(b, i, pass, e)
      invariant |BlocksIn(b, i)| == |StacksIn(b, i, e.stack, |e.list|)|
      invariant inner == VisitsOf(BlocksIn(b, i), StacksIn(b, i, e.stack, |e.list|), e.branch)
    {
      EffectInStep(b, i, pass, e);
      EffectInIs(b, i, pass, e);
      if b.declarations[i].Nested? {
        var block := b.declarations[i].block;
        ghost var before := StateOf(cc, register);
        ghost var more := Traverse(block, pass, register, cc);
        VisitsConcat(BlocksIn(b, i), Blocks(block), StacksIn(b, i, e.stack, |e.list|),
          Stacks(block, before.stack, |before.list|), e.branch);
        inner := inner + more;
      }
      i := i + 1;
    }
    EffectInIs(b, k, pass, e);
    ghost var later := [];
    if b.next.Next? {
      later := Traverse(b.next.block, pass, register, cc);
    }
    ExitCodeBlock(b, cc, stackStartSize);
    visits := [Visit(b, e.stack, st.branch)] + inner + later;
  }

  // ---------------------------------------------------------------- the whole compilation

  /** The branches a program is compiled to: one for each block, numbered in preorder, waiting for the literals of
      its block and running exactly the statements of its block, in their order. */
  ghost predicate Compiled(b: CodeBlock, conditions: map<nat, seq<int>>, branches: map<nat, seq<nat>>)
    requires WellFormed(b) && b.kind.Program?
  {
    var stacks, blocks := Stacks(b, [], 0), Blocks(b);
    && |stacks| == |blocks|
    && (forall i :: i in conditions <==> 0 <= i < |blocks|)
    && (forall i :: i in branches <==> 0 <= i < |blocks|)
    && (forall i :: 0 <= i < |blocks| ==> conditions[i] == stacks[i])
    && (forall i :: 0 <= i < |blocks| ==> RunsStatements(branches[i], blocks[i]))
  }

  /** Three passes, each from scratch but for the branches found. */
  ghost function Passes(b: CodeBlock, st: State): State
    requires WellFormed(b) && b.kind.Program?
  {
    Effect(b, AddUseCases, Start(b, Effect(b, AddVirtualComponents, Start(b, Effect(b, AddComponents, Start(b, st))))))
  }

  lemma UsesAt(bs: seq<CodeBlock>, pass: Pass, i: nat)
    requires i < |bs|
    ensures |Uses(bs, pass)| == |bs| && Uses(bs, pass)[i] == UsesOf(bs[i], pass)
  {
    if i > 0 {
      UsesAt(bs[1..], pass, i - 1);
    } else {
      UsesConcat(bs, [], pass);
    }
  }

  lemma FirstBlock(b: CodeBlock)
    requires WellFormed(b) && b.kind.Program?
    ensures Fits(b, []) && Blocks(b) != [] && |Stacks(b, [], 0)| == |Blocks(b)| && Stacks(b, [], 0)[0] == []
  {
    CountsMatch(b, [], 0);
  }

  /** The later passes find the branches of the first and leave their literals alone. */
  lemma PassesCompile(b: CodeBlock, st: State)
    requires WellFormed(b) && b.kind.Program?
    requires st.conditions == map[0 := []] && st.branches == map[0 := []]
    ensures Compiled(b, Passes(b, st).conditions, Passes(b, st).branches)
    ensures Passes(b, st).list == Conditions(b)
  {
    hide Stacks, Blocks, Conditions, After, Fill, FillUses, Uses, Statements, RunsStatements;
    FirstBlock(b);
    var stacks, blocks := Stacks(b, [], 0), Blocks(b);
    var c1 := Fill(st.conditions, 0, stacks);
    var c2 := Fill(c1, 0, stacks);
    var c3 := Fill(c2, 0, stacks);
    var u1 := FillUses(st.branches, 0, Uses(blocks, AddComponents));
    var u2 := FillUses(u1, 0, Uses(blocks, AddVirtualComponents));
    var u3 := FillUses(u2, 0, Uses(blocks, AddUseCases));
    UsesAt(blocks, AddComponents, 0);
    UsesAt(blocks, AddVirtualComponents, 0);
    UsesAt(blocks, AddUseCases, 0);
    forall i: nat
      ensures i in c3 <==> i < |blocks|
      ensures i in u3 <==> i < |blocks|
      ensures i < |blocks| ==> c3[i] == stacks[i] && RunsStatements(u3[i], blocks[i])
    {
      FillAt(st.conditions, 0, stacks, i);
      FillAt(c1, 0, stacks, i);
      FillAt(c2, 0, stacks, i);
      FillUsesAt(st.branches, 0, Uses(blocks, AddComponents), i);
      FillUsesAt(u1, 0, Uses(blocks, AddVirtualComponents), i);
      FillUsesAt(u2, 0, Uses(blocks, AddUseCases), i);
      if i < |blocks| {
        UsesAt(blocks, AddComponents, i);
        UsesAt(blocks, AddVirtualComponents, i);
        UsesAt(blocks, AddUseCases, i);
        assert u3[i] == Statements(blocks[i], |blocks[i].declarations|);
        StatementsRun(blocks[i]);
      }
    }
    assert Passes(b, st).conditions == c3 && Passes(b, st).branches == u3;
    assert [] + Conditions(b) == Conditions(b);
  }

  /** CodeBlock.add on a whole program. All three passes show each block's statements the same literals and the same
      branch number, and the branch number is the block's place in preorder. */
  method Compile(b: CodeBlock, register: BranchCollection, cc: ConditionCollection)
    returns (ghost first: seq<Visit>, ghost second: seq<Visit>, ghost third: seq<Visit>)
    requires WellFormed(b) && b.kind.Program?
    requires register.conditions == map[0 := []] && register.branches == map[0 := []]
    modifies cc, register
    ensures Compiled(b, register.conditions, register.branches) && cc.conditionList == Conditions(b)
    ensures |Blocks(b)| == |Stacks(b, [], 0)| && first == VisitsOf(Blocks(b), Stacks(b, [], 0), 0)
    ensures first == second == third
  {
    hide Stacks, Blocks, Conditions, VisitsOf, Effect, Compiled, WellFormed, Fits;
    FirstBlock(b);
    ProgramFits(b);
    ghost var st := StateOf(cc, register);
    first := Traverse(b, AddComponents, register, cc);
    second := Traverse(b, AddVirtualComponents, register, cc);
    third := Traverse(b, AddUseCases, register, cc);
    PassesCompile(b, st);
  }

  lemma ProgramFits(b: CodeBlock)
    requires b.kind.Program?
    ensures forall stack: seq<int> :: Fits(b, stack)
  {
  }

  /** Every branch but the program's own waits for at least one condition, for none twice, and only for existing
      ones. */
  lemma CompiledWellNumbered(b: CodeBlock, conditions: map<nat, seq<int>>, branches: map<nat, seq<nat>>, i: nat)
    requires WellFormed(b) && b.kind.Program? && Compiled(b, conditions, branches) && i in conditions
    ensures conditions[i] == [] <==> i == 0
    ensures Ascending(conditions[i], |Conditions(b)|)
  {
    StacksAscend(b, [], 0);
    var r := Stacks(b, [], 0);
    assert i > 0 ==> r[i] == r[1..][i - 1];
  }
}
