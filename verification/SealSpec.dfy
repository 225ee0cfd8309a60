/** Programs of nested when / elsewhen / else blocks: what they mean, and how they are flattened into branches. */
module SealSpec {
  type Condition = string

  datatype Kind = Program | When | ElseWhen | Else

  datatype Declaration = Statement(id: nat) | Nested(block: CodeBlock)

  datatype Chain = End | Next(block: CodeBlock)

  datatype CodeBlock = CodeBlock(kind: Kind, condition: Condition, declarations: seq<Declaration>, next: Chain)

  /** The trees the parser builds: nested blocks start a chain, and a chain goes on with elsewhen or else. */
  predicate WellFormed(b: CodeBlock) {
    && (b.next.Next? ==>
          && (b.kind.When? || b.kind.ElseWhen?)
          && (b.next.block.kind.ElseWhen? || b.next.block.kind.Else?)
          && WellFormed(b.next.block))
    && (forall i :: 0 <= i < |b.declarations| && b.declarations[i].Nested? ==>
          b.declarations[i].block.kind.When? && WellFormed(b.declarations[i].block))
  }

  function Tested(b: CodeBlock): seq<Condition> {
    if b.kind.When? || b.kind.ElseWhen? then [b.condition] else []
  }

  // ---------------------------------------------------------------- preorder

  /** All blocks in the order the compiler enters them: the block, what is nested in it, the rest of its chain. */
  function Blocks(b: CodeBlock): (r: seq<CodeBlock>)
    decreases b, |b.declarations| + 1
  {
    [b] + BlocksIn(b, |b.declarations|) + (if b.next.End? then [] else Blocks(b.next.block))
  }

  /** The blocks nested in the first k declarations of b. */
  function BlocksIn(b: CodeBlock, k: nat): seq<CodeBlock>
    requires k <= |b.declarations|
    decreases b, k
  {
    if k == 0 then [] else
    BlocksIn(b, k - 1) + (if b.declarations[k - 1].Nested? then Blocks(b.declarations[k - 1].block) else [])
  }

  /** All conditions in the same order. */
  function Conditions(b: CodeBlock): seq<Condition>
    decreases b, |b.declarations| + 1
  {
    Tested(b) + ConditionsIn(b, |b.declarations|) + (if b.next.End? then [] else Conditions(b.next.block))
  }

  function ConditionsIn(b: CodeBlock, k: nat): seq<Condition>
    requires k <= |b.declarations|
    decreases b, k
  {
    if k == 0 then [] else
    ConditionsIn(b, k - 1) + (if b.declarations[k - 1].Nested? then Conditions(b.declarations[k - 1].block) else [])
  }

  // ---------------------------------------------------------------- meaning

  type Valuation = Condition -> bool

  /** A when block is active if its surroundings are and its condition holds; an elsewhen or else arm needs, besides,
      that no earlier arm of its chain was taken. */
  function Active(b: CodeBlock, v: Valuation, outer: bool, taken: bool): bool {
    match b.kind
    case Program => true
    case When => outer && v(b.condition)
    case ElseWhen => outer && !taken && v(b.condition)
    case Else => outer && !taken
  }

  /** Which blocks are active, in preorder. */
  function Activity(b: CodeBlock, v: Valuation, outer: bool, taken: bool): seq<bool>
    decreases b, |b.declarations| + 1
  {
    var here := Active(b, v, outer, taken);
    [here] + ActivityIn(b, |b.declarations|, v, here)
    + (if b.next.End? then [] else Activity(b.next.block, v, outer, (b.kind.ElseWhen? && taken) || v(b.condition)))
  }

  function ActivityIn(b: CodeBlock, k: nat, v: Valuation, here: bool): seq<bool>
    requires k <= |b.declarations|
    decreases b, k
  {
    if k == 0 then [] else
    ActivityIn(b, k - 1, v, here)
    + (if b.declarations[k - 1].Nested? then Activity(b.declarations[k - 1].block, v, here, false) else [])
  }

  // ---------------------------------------------------------------- what activity means

  /** The arms of a chain, from b on. */
  function Arms(b: CodeBlock): (r: seq<CodeBlock>)
    ensures r != [] && r[0] == b
  {
    [b] + if b.next.End? then [] else Arms(b.next.block)
  }

  /** An arm is chosen if its own condition holds, an else arm in any case, and those of the arms before it do not. */
  predicate Chosen(arms: seq<CodeBlock>, a: nat, v: Valuation)
    requires a < |arms|
  {
    (arms[a].kind.Else? || v(arms[a].condition)) && forall e :: 0 <= e < a ==> !v(arms[e].condition)
  }

  /** Block k of the list is arm a, and active exactly if it is chosen and its surroundings are active. */
  ghost predicate ArmAt(bs: seq<CodeBlock>, active: seq<bool>, v: Valuation, arms: seq<CodeBlock>, a: nat, on: bool,
      k: int)
    requires |active| == |bs| && a < |arms|
  {
    0 <= k < |bs| && bs[k] == arms[a] && active[k] == (on && Chosen(arms, a, v))
  }

  ghost predicate ArmListed(bs: seq<CodeBlock>, active: seq<bool>, v: Valuation, arms: seq<CodeBlock>, a: nat, on: bool)
    requires |active| == |bs| && a < |arms|
  {
    exists k :: ArmAt(bs, active, v, arms, a, on, k)
  }

  ghost predicate ChainListed(bs: seq<CodeBlock>, active: seq<bool>, v: Valuation, arms: seq<CodeBlock>, on: bool)
    requires |active| == |bs|
  {
    forall a: nat :: a < |arms| ==> ArmListed(bs, active, v, arms, a, on)
  }

  ghost predicate NestedListed(bs: seq<CodeBlock>, active: seq<bool>, v: Valuation, i: nat, j: nat)
    requires |active| == |bs|
  {
    i < |bs| && j < |bs[i].declarations| && bs[i].declarations[j].Nested? ==>
      ChainListed(bs, active, v, Arms(bs[i].declarations[j].block), active[i])
  }

  /** Every arm of every chain nested in a listed block is listed too. It is active exactly if that block is and
      the arm is chosen. */
  ghost predicate Follows(bs: seq<CodeBlock>, active: seq<bool>, v: Valuation) {
    |active| == |bs| && forall i: nat, j: nat :: NestedListed(bs, active, v, i, j)
  }

  lemma ChainWithin(bs: seq<CodeBlock>, active: seq<bool>, v: Valuation, arms: seq<CodeBlock>, on: bool,
      cs: seq<CodeBlock>, more: seq<bool>, n: nat)
    requires |active| == |bs| && ChainListed(bs, active, v, arms, on)
    requires |more| == |cs| && n + |bs| <= |cs| && cs[n..n + |bs|] == bs && more[n..n + |bs|] == active
    ensures ChainListed(cs, more, v, arms, on)
  {
    forall a: nat | a < |arms| ensures ArmListed(cs, more, v, arms, a, on) {
      assert ArmListed(bs, active, v, arms, a, on);
      var k :| ArmAt(bs, active, v, arms, a, on, k);
      assert cs[n..n + |bs|][k] == cs[n + k] && more[n..n + |bs|][k] == more[n + k];
      assert ArmAt(cs, more, v, arms, a, on, n + k);
    }
  }

  lemma ChainBehind(x: seq<CodeBlock>, ax: seq<bool>, y: seq<CodeBlock>, ay: seq<bool>, v: Valuation,
      arms: seq<CodeBlock>, on: bool)
    requires |ax| == |x| && |ay| == |y| && ChainListed(y, ay, v, arms, on)
    ensures ChainListed(x + y, ax + ay, v, arms, on)
  {
    ChainWithin(y, ay, v, arms, on, x + y, ax + ay, |x|);
  }

  lemma ChainBefore(x: seq<CodeBlock>, ax: seq<bool>, y: seq<CodeBlock>, ay: seq<bool>, v: Valuation,
      arms: seq<CodeBlock>, on: bool)
    requires |ax| == |x| && |ay| == |y| && ChainListed(x, ax, v, arms, on)
    ensures ChainListed(x + y, ax + ay, v, arms, on)
  {
    ChainWithin(x, ax, v, arms, on, x + y, ax + ay, 0);
  }

  lemma FollowsConcat(x: seq<CodeBlock>, ax: seq<bool>, y: seq<CodeBlock>, ay: seq<bool>, v: Valuation)
    requires Follows(x, ax, v) && Follows(y, ay, v)
    ensures Follows(x + y, ax + ay, v)
  {
    hide ChainListed;
    var z, az := x + y, ax + ay;
    forall i: nat, j: nat ensures NestedListed(z, az, v, i, j) {
      if i < |z| && j < |z[i].declarations| && z[i].declarations[j].Nested? {
        var arms := Arms(z[i].declarations[j].block);
        if i < |x| {
          assert NestedListed(x, ax, v, i, j);
          ChainBefore(x, ax, y, ay, v, arms, ax[i]);
        } else {
          assert NestedListed(y, ay, v, i - |x|, j);
          ChainBehind(x, ax, y, ay, v, arms, ay[i - |x|]);
        }
      }
    }
  }

  /** Putting a block in front of all that is nested in it. */
  lemma FollowsBlock(b: CodeBlock, here: bool, inner: seq<CodeBlock>, active: seq<bool>, v: Valuation)
    requires Follows(inner, active, v)
    requires forall j :: 0 <= j < |b.declarations| && b.declarations[j].Nested? ==>
      ChainListed(inner, active, v, Arms(b.declarations[j].block), here)
    ensures Follows([b] + inner, [here] + active, v)
  {
    hide ChainListed;
    var z, az := [b] + inner, [here] + active;
    assert z[1..] == inner && az[1..] == active;
    forall i: nat, j: nat ensures NestedListed(z, az, v, i, j) {
      if i < |z| && j < |z[i].declarations| && z[i].declarations[j].Nested? {
        if i > 0 {
          assert NestedListed(inner, active, v, i - 1, j);
        }
        ChainBehind([b], [here], inner, active, v, Arms(z[i].declarations[j].block), az[i]);
      }
    }
  }

  /** The chain from b on, when the block b itself comes first and the later arms are in the rest. */
  lemma ChainFrom(b: CodeBlock, here: bool, bs: seq<CodeBlock>, active: seq<bool>, v: Valuation, on: bool, later: bool)
    requires |active| == |bs| > 0 && bs[0] == b && active[0] == here == (on && (b.kind.Else? || v(b.condition)))
    requires b.next.Next? ==> ChainListed(bs, active, v, Arms(b.next.block), later) && later == (on && !v(b.condition))
    ensures ChainListed(bs, active, v, Arms(b), on)
  {
    var arms := Arms(b);
    assert ArmAt(bs, active, v, arms, 0, on, 0);
    forall a: nat | 0 < a < |arms| ensures ArmListed(bs, active, v, arms, a, on) {
      var rest := Arms(b.next.block);
      assert ArmListed(bs, active, v, rest, a - 1, later);
      var k :| ArmAt(bs, active, v, rest, a - 1, later, k);
      assert forall e :: 0 < e < |arms| ==> arms[e] == rest[e - 1];
      assert Chosen(arms, a, v) == (!v(b.condition) && Chosen(rest, a - 1, v)) by {
        assert arms[0] == b;
        assert forall e :: 0 <= e < a - 1 ==> rest[e] == arms[e + 1];
      }
      assert ArmAt(bs, active, v, arms, a, on, k);
    }
  }

  /** Activity means what it should, all through the program: nothing nested is forgotten, and an arm is active
      exactly if the block around it is, its condition holds and none of the arms before it was taken. */
  lemma {:induction false} ActivityFollows(b: CodeBlock, v: Valuation, outer: bool, taken: bool)
    requires WellFormed(b)
    ensures Follows(Blocks(b), Activity(b, v, outer, taken), v)
    ensures Blocks(b) != [] && Blocks(b)[0] == b && Activity(b, v, outer, taken)[0] == Active(b, v, outer, taken)
    ensures !b.kind.Program? ==>
      ChainListed(Blocks(b), Activity(b, v, outer, taken), v, Arms(b), outer && (b.kind.When? || !taken))
    decreases b, |b.declarations| + 1
  {
    hide *;
    var here, n := Active(b, v, outer, taken), |b.declarations|;
    var inner, active := BlocksIn(b, n), ActivityIn(b, n, v, here);
    WellFormedStep(b);
    BlocksStep(b);
    ActivityStep(b, v, outer, taken);
    ActivityInFollows(b, n, v, here);
    FollowsLength(inner, active, v);
    FollowsBlock(b, here, inner, active, v);
    var bs, all := [b] + inner, [here] + active;
    if b.next.Next? {
      var arm, t := b.next.block, (b.kind.ElseWhen? && taken) || v(b.condition);
      var rest, more := Blocks(arm), Activity(arm, v, outer, t);
      ActivityFollows(arm, v, outer, t);
      FollowsLength(rest, more, v);
      FollowsConcat(bs, all, rest, more, v);
      ChainBehind(bs, all, rest, more, v, Arms(arm), outer && !t);
      bs, all := bs + rest, all + more;
    } else {
      assert bs + [] == bs && all + [] == all;
    }
    if !b.kind.Program? {
      ActiveArm(b, v, outer, taken);
      var on := outer && (b.kind.When? || !taken);
      ChainFrom(b, here, bs, all, v, on, on && !v(b.condition));
    }
  }

  lemma ActiveArm(b: CodeBlock, v: Valuation, outer: bool, taken: bool)
    requires !b.kind.Program?
    ensures Active(b, v, outer, taken) ==
      (outer && (b.kind.When? || !taken) && (b.kind.Else? || v(b.condition)))
  {
  }

  lemma FollowsLength(bs: seq<CodeBlock>, active: seq<bool>, v: Valuation)
    requires Follows(bs, active, v)
    ensures |active| == |bs|
  {
  }

  lemma FollowsNothing(v: Valuation)
    ensures Follows([], [], v)
  {
  }

  lemma {:induction false} ActivityInFollows(b: CodeBlock, k: nat, v: Valuation, here: bool)
    requires WellFormed(b) && k <= |b.declarations|
    ensures Follows(BlocksIn(b, k), ActivityIn(b, k, v, here), v)
    ensures |ActivityIn(b, k, v, here)| == |BlocksIn(b, k)|
    ensures forall j :: 0 <= j < k && b.declarations[j].Nested? ==>
      ChainListed(BlocksIn(b, k), ActivityIn(b, k, v, here), v, Arms(b.declarations[j].block), here)
    decreases b, k
  {
    hide *;
    WellFormedStep(b);
    BlocksInStep(b, k);
    ActivityInStep(b, k, v, here);
    if k == 0 {
      FollowsNothing(v);
    } else {
      var before, active := BlocksIn(b, k - 1), ActivityIn(b, k - 1, v, here);
      ActivityInFollows(b, k - 1, v, here);
      if b.declarations[k - 1].Nested? {
        var d := b.declarations[k - 1].block;
        var own, on := Blocks(d), Activity(d, v, here, false);
        ActivityFollows(d, v, here, false);
        FollowsLength(own, on, v);
        FollowsConcat(before, active, own, on, v);
        ChainBehind(before, active, own, on, v, Arms(d), here);
        forall j | 0 <= j < k - 1 && b.declarations[j].Nested?
          ensures ChainListed(before + own, active + on, v, Arms(b.declarations[j].block), here)
        {
          ChainBefore(before, active, own, on, v, Arms(b.declarations[j].block), here);
        }
      } else {
        assert BlocksIn(b, k) == before && ActivityIn(b, k, v, here) == active;
      }
    }
  }

  // ---------------------------------------------------------------- flattening

  /** Literal n stands for condition n, -n for its negation; conditions are numbered from 1. */
  function Abs(x: int): nat {
    if x < 0 then -x else x
  }

  predicate IsLiteral(x: int, conditions: nat) {
    1 <= Abs(x) <= conditions
  }

  predicate Holds(x: int, truth: seq<bool>)
    requires IsLiteral(x, |truth|)
  {
    truth[Abs(x) - 1] == (x > 0)
  }

  predicate AllLiterals(stack: seq<int>, conditions: nat) {
    forall i :: 0 <= i < |stack| ==> IsLiteral(stack[i], conditions)
  }

  /** Every literal on the stack is true. */
  predicate Satisfied(stack: seq<int>, truth: seq<bool>)
    requires AllLiterals(stack, |truth|)
  {
    forall i :: 0 <= i < |stack| ==> Holds(stack[i], truth)
  }

  function Inverted(stack: seq<int>): seq<int>
    requires stack != []
  {
    stack[..|stack| - 1] + [-stack[|stack| - 1]]
  }

  predicate Fits(b: CodeBlock, stack: seq<int>) {
    b.kind.ElseWhen? || b.kind.Else? ==> stack != []
  }

  /** The literals on the stack inside b, when n conditions were numbered before it. */
  function Entered(b: CodeBlock, stack: seq<int>, n: nat): seq<int>
    requires Fits(b, stack)
  {
    match b.kind
    case Program => []
    case When => stack + [n + 1]
    case ElseWhen => Inverted(stack) + [n + 1]
    case Else => Inverted(stack)
  }

  /** The stack inside each block, in preorder. */
  function Stacks(b: CodeBlock, stack: seq<int>, n: nat): seq<seq<int>>
    requires WellFormed(b) && Fits(b, stack)
    decreases b, |b.declarations| + 1
  {
    var s, m := Entered(b, stack, n), n + |Tested(b)|;
    [s] + StacksIn(b, |b.declarations|, s, m)
    + (if b.next.End? then [] else Stacks(b.next.block, s, m + |ConditionsIn(b, |b.declarations|)|))
  }

  function StacksIn(b: CodeBlock, k: nat, s: seq<int>, m: nat): seq<seq<int>>
    requires WellFormed(b) && k <= |b.declarations|
    decreases b, k
  {
    if k == 0 then [] else
    StacksIn(b, k - 1, s, m)
    + (if b.declarations[k - 1].Nested? then Stacks(b.declarations[k - 1].block, s, m + |ConditionsIn(b, k - 1)|)
      else [])
  }

  // One unfolding of each definition, for proofs that keep the definitions themselves hidden.

  lemma WellFormedStep(b: CodeBlock)
    requires WellFormed(b)
    ensures b.next.Next? ==> WellFormed(b.next.block) && !b.next.block.kind.Program? && !b.next.block.kind.When?
    ensures b.next.Next? ==> b.kind.When? || b.kind.ElseWhen?
    ensures forall i :: 0 <= i < |b.declarations| && b.declarations[i].Nested? ==>
      b.declarations[i].block.kind.When? && WellFormed(b.declarations[i].block)
  {
  }

  lemma NextFits(b: CodeBlock, stack: seq<int>, n: nat)
    requires WellFormed(b) && Fits(b, stack)
    ensures b.next.Next? ==> Fits(b.next.block, Entered(b, stack, n))
  {
  }

  lemma NestedFits(b: CodeBlock, stack: seq<int>)
    requires b.kind.When?
    ensures Fits(b, stack)
  {
  }

  lemma StacksStep(b: CodeBlock, stack: seq<int>, n: nat)
    requires WellFormed(b) && Fits(b, stack)
    requires b.next.Next? ==> WellFormed(b.next.block) && Fits(b.next.block, Entered(b, stack, n))
    ensures var s, m, k := Entered(b, stack, n), n + |Tested(b)|, |b.declarations|;
      Stacks(b, stack, n) == [s] + StacksIn(b, k, s, m)
        + (if b.next.End? then [] else Stacks(b.next.block, s, m + |ConditionsIn(b, k)|))
  {
  }

  lemma StacksInStep(b: CodeBlock, k: nat, s: seq<int>, m: nat)
    requires WellFormed(b) && k <= |b.declarations|
    requires k > 0 && b.declarations[k - 1].Nested? ==>
      WellFormed(b.declarations[k - 1].block) && Fits(b.declarations[k - 1].block, s)
    ensures StacksIn(b, k, s, m) == if k == 0 then [] else
      StacksIn(b, k - 1, s, m)
      + (if b.declarations[k - 1].Nested? then Stacks(b.declarations[k - 1].block, s, m + |ConditionsIn(b, k - 1)|)
        else [])
  {
    hide Entered, Tested, Blocks, BlocksIn, Fits, Arms;
    if k > 0 && b.declarations[k - 1].Nested? {
      WellFormedStep(b);
      NestedFits(b.declarations[k - 1].block, s);
    }
  }

  lemma ConditionsStep(b: CodeBlock)
    ensures Conditions(b) ==
      Tested(b) + ConditionsIn(b, |b.declarations|) + (if b.next.End? then [] else Conditions(b.next.block))
  {
  }

  lemma ConditionsInStep(b: CodeBlock, k: nat)
    requires k <= |b.declarations|
    ensures ConditionsIn(b, k) == if k == 0 then [] else
      ConditionsIn(b, k - 1) + (if b.declarations[k - 1].Nested? then Conditions(b.declarations[k - 1].block) else [])
  {
  }

  lemma ActivityStep(b: CodeBlock, v: Valuation, outer: bool, taken: bool)
    ensures var here, k := Active(b, v, outer, taken), |b.declarations|;
      Activity(b, v, outer, taken) == [here] + ActivityIn(b, k, v, here)
        + (if b.next.End? then [] else Activity(b.next.block, v, outer, (b.kind.ElseWhen? && taken) || v(b.condition)))
  {
  }

  lemma ActivityInStep(b: CodeBlock, k: nat, v: Valuation, here: bool)
    requires k <= |b.declarations|
    ensures ActivityIn(b, k, v, here) == if k == 0 then [] else
      ActivityIn(b, k - 1, v, here)
      + (if b.declarations[k - 1].Nested? then Activity(b.declarations[k - 1].block, v, here, false) else [])
  {
  }

  lemma BlocksStep(b: CodeBlock)
    ensures Blocks(b) == [b] + BlocksIn(b, |b.declarations|) + (if b.next.End? then [] else Blocks(b.next.block))
  {
  }

  lemma BlocksInStep(b: CodeBlock, k: nat)
    requires k <= |b.declarations|
    ensures BlocksIn(b, k) == if k == 0 then [] else
      BlocksIn(b, k - 1) + (if b.declarations[k - 1].Nested? then Blocks(b.declarations[k - 1].block) else [])
  {
  }

  /** One stack and one verdict for every block. */
  lemma {:induction false} SameCount(b: CodeBlock, stack: seq<int>, n: nat, v: Valuation, outer: bool, taken: bool)
    requires WellFormed(b) && Fits(b, stack)
    ensures |Stacks(b, stack, n)| == |Activity(b, v, outer, taken)| == |Blocks(b)|
    decreases b, |b.declarations| + 1
  {
    hide *;
    var s, m, here := Entered(b, stack, n), n + |Tested(b)|, Active(b, v, outer, taken);
    WellFormedStep(b);
    NextFits(b, stack, n);
    SameCountIn(b, |b.declarations|, s, m, v, here);
    StacksStep(b, stack, n);
    ActivityStep(b, v, outer, taken);
    BlocksStep(b);
    if b.next.Next? {
      SameCount(b.next.block, s, m + |ConditionsIn(b, |b.declarations|)|, v, outer,
        (b.kind.ElseWhen? && taken) || v(b.condition));
    }
  }

  lemma {:induction false} SameCountIn(b: CodeBlock, k: nat, s: seq<int>, m: nat, v: Valuation, here: bool)
    requires WellFormed(b) && k <= |b.declarations|
    ensures |StacksIn(b, k, s, m)| == |ActivityIn(b, k, v, here)| == |BlocksIn(b, k)|
    decreases b, k
  {
    hide *;
    WellFormedStep(b);
    if k > 0 && b.declarations[k - 1].Nested? {
      NestedFits(b.declarations[k - 1].block, s);
      SameCount(b.declarations[k - 1].block, s, m + |ConditionsIn(b, k - 1)|, v, here, false);
    }
    StacksInStep(b, k, s, m);
    ActivityInStep(b, k, v, here);
    BlocksInStep(b, k);
    if k > 0 {
      SameCountIn(b, k - 1, s, m, v, here);
    }
  }

  // ---------------------------------------------------------------- numbering

  /** No condition occurs twice on a stack: the numbers go up, and none is above n. */
  predicate Ascending(stack: seq<int>, n: nat) {
    && AllLiterals(stack, n)
    && forall i, j :: 0 <= i < j < |stack| ==> Abs(stack[i]) < Abs(stack[j])
  }

  predicate AllAscending(stacks: seq<seq<int>>, n: nat) {
    forall i :: 0 <= i < |stacks| ==> Ascending(stacks[i], n)
  }

  lemma EnteredAscends(b: CodeBlock, stack: seq<int>, n: nat)
    requires Fits(b, stack) && Ascending(stack, n)
    ensures Ascending(Entered(b, stack, n), n + |Tested(b)|)
    ensures b.kind.Program? <==> Entered(b, stack, n) == []
  {
    var s := Entered(b, stack, n);
    forall i | 0 <= i < |s| ensures IsLiteral(s[i], n + |Tested(b)|) {
      assert i < |stack| ==> IsLiteral(stack[i], n) && (s[i] == stack[i] || s[i] == -stack[i]);
    }
    forall i, j | 0 <= i < j < |s| ensures Abs(s[i]) < Abs(s[j]) {
      assert IsLiteral(stack[i], n);
      assert j < |stack| ==> Abs(stack[i]) < Abs(stack[j]);
    }
  }

  lemma AscendingMono(stacks: seq<seq<int>>, n: nat, m: nat)
    requires AllAscending(stacks, n) && n <= m
    ensures AllAscending(stacks, m)
  {
    forall i | 0 <= i < |stacks| ensures Ascending(stacks[i], m) {
      assert Ascending(stacks[i], n);
    }
  }

  /** Stacks of nested blocks and later arms: ascending, and never empty. */
  predicate Proper(stacks: seq<seq<int>>, n: nat) {
    forall i :: 0 <= i < |stacks| ==> Ascending(stacks[i], n) && stacks[i] != []
  }

  lemma ProperConcat(x: seq<seq<int>>, y: seq<seq<int>>, n: nat, m: nat)
    requires Proper(x, n) && Proper(y, m) && n <= m
    ensures Proper(x + y, m)
  {
    AscendingMono(x, n, m);
  }

  lemma {:induction false} StacksAscend(b: CodeBlock, stack: seq<int>, n: nat)
    requires WellFormed(b) && Fits(b, stack) && Ascending(stack, n)
    ensures var r := Stacks(b, stack, n);
      && r != [] && r[0] == Entered(b, stack, n)
      && Ascending(r[0], n + |Conditions(b)|) && Proper(r[1..], n + |Conditions(b)|)
    decreases b, |b.declarations| + 1
  {
    hide *;
    var s, m, k := Entered(b, stack, n), n + |Tested(b)|, |b.declarations|;
    var inner, p := StacksIn(b, k, s, m), m + |ConditionsIn(b, k)|;
    WellFormedStep(b);
    NextFits(b, stack, n);
    StacksStep(b, stack, n);
    ConditionsStep(b);
    EnteredAscends(b, stack, n);
    AscendingOne(s, m, n + |Conditions(b)|);
    StacksInAscend(b, k, s, m);
    var r := Stacks(b, stack, n);
    if b.next.Next? {
      AscendingOne(s, m, p);
      StacksAscend(b.next.block, s, p);
      EnteredAscends(b.next.block, s, p);
      var later := Stacks(b.next.block, s, p);
      assert r[1..] == inner + later;
      ProperOne(later, n + |Conditions(b)|);
      ProperConcat(inner, later, p, n + |Conditions(b)|);
    } else {
      assert r[1..] == inner;
    }
  }

  lemma AscendingOne(s: seq<int>, n: nat, m: nat)
    requires Ascending(s, n) && n <= m
    ensures Ascending(s, m)
  {
    AscendingMono([s], n, m);
    assert [s][0] == s;
  }

  lemma ProperOne(r: seq<seq<int>>, n: nat)
    requires r != [] && Ascending(r[0], n) && r[0] != [] && Proper(r[1..], n)
    ensures Proper(r, n)
  {
    forall i | 0 <= i < |r| ensures Ascending(r[i], n) && r[i] != [] {
      assert i > 0 ==> r[i] == r[1..][i - 1];
    }
  }

  lemma {:induction false} StacksInAscend(b: CodeBlock, k: nat, s: seq<int>, m: nat)
    requires WellFormed(b) && k <= |b.declarations| && Ascending(s, m)
    ensures Proper(StacksIn(b, k, s, m), m + |ConditionsIn(b, k)|)
    decreases b, k
  {
    hide *;
    WellFormedStep(b);
    ConditionsInStep(b, k);
    if k > 0 && b.declarations[k - 1].Nested? {
      var d, p := b.declarations[k - 1].block, m + |ConditionsIn(b, k - 1)|;
      NestedFits(d, s);
      StacksInAscend(b, k - 1, s, m);
      AscendingOne(s, m, p);
      StacksAscend(d, s, p);
      EnteredAscends(d, s, p);
      ProperOne(Stacks(d, s, p), p + |Conditions(d)|);
      ProperConcat(StacksIn(b, k - 1, s, m), Stacks(d, s, p), p, p + |Conditions(d)|);
    } else if k > 0 {
      StacksInAscend(b, k - 1, s, m);
      assert ConditionsIn(b, k) == ConditionsIn(b, k - 1);
    }
    StacksInStep(b, k, s, m);
    assert k > 0 && !b.declarations[k - 1].Nested? ==> StacksIn(b, k, s, m) == StacksIn(b, k - 1, s, m);
    ProperNone(m);
  }

  lemma ProperNone(n: nat)
    ensures Proper([], n)
  {
  }

  // ---------------------------------------------------------------- the flattening preserves meaning

  /** What each numbered condition says under a valuation. */
  function Truth(conditions: seq<Condition>, v: Valuation): seq<bool> {
    seq(|conditions|, i requires 0 <= i < |conditions| => v(conditions[i]))
  }

  /** all holds the conditions from number n + 1 on. */
  predicate Numbered(all: seq<Condition>, n: nat, own: seq<Condition>) {
    n + |own| <= |all| && all[n..n + |own|] == own
  }

  ghost predicate Agree(stacks: seq<seq<int>>, activity: seq<bool>, truth: seq<bool>) {
    && |stacks| == |activity|
    && forall i :: 0 <= i < |stacks| ==> AllLiterals(stacks[i], |truth|) && Satisfied(stacks[i], truth) == activity[i]
  }

  lemma AgreeConcat(s: seq<seq<int>>, t: seq<seq<int>>, a: seq<bool>, c: seq<bool>, truth: seq<bool>)
    requires Agree(s, a, truth) && Agree(t, c, truth)
    ensures Agree(s + t, a + c, truth)
  {
  }

  /** Before b, the stack must say that b's surroundings are active and, for a later arm, that none was taken. */
  ghost predicate Faithful(b: CodeBlock, stack: seq<int>, truth: seq<bool>, outer: bool, taken: bool)
    requires Fits(b, stack)
  {
    && AllLiterals(stack, |truth|)
    && (b.kind.When? ==> Satisfied(stack, truth) == outer)
    && (b.kind.ElseWhen? || b.kind.Else? ==>
          AllLiterals(Inverted(stack), |truth|) && Satisfied(Inverted(stack), truth) == (outer && !taken))
  }

  lemma SatisfiedSnoc(s: seq<int>, x: int, truth: seq<bool>)
    requires AllLiterals(s, |truth|) && IsLiteral(x, |truth|)
    ensures AllLiterals(s + [x], |truth|)
    ensures Satisfied(s + [x], truth) == (Satisfied(s, truth) && Holds(x, truth))
  {
    if Satisfied(s + [x], truth) {
      forall i | 0 <= i < |s| ensures Holds(s[i], truth) {
        assert (s + [x])[i] == s[i];
      }
      assert (s + [x])[|s|] == x;
    }
  }

  lemma LiteralMeans(all: seq<Condition>, v: Valuation, n: nat)
    requires n < |all|
    ensures var truth := Truth(all, v);
      && IsLiteral(n + 1, |truth|) && Holds(n + 1, truth) == v(all[n])
      && IsLiteral(-(n + 1), |truth|) && Holds(-(n + 1), truth) == !v(all[n])
  {
  }

  /** A program's own stack has no literals. */
  lemma EmptySatisfied(truth: seq<bool>)
    ensures AllLiterals([], |truth|) && Satisfied([], truth)
  {
  }

  /** Entering b, and then going on to the next arm. */
  lemma EnteredFaithful(b: CodeBlock, stack: seq<int>, n: nat, all: seq<Condition>, v: Valuation, outer: bool,
      taken: bool)
    requires WellFormed(b) && Fits(b, stack) && Faithful(b, stack, Truth(all, v), outer, taken)
    requires Numbered(all, n, Tested(b))
    ensures var truth, s := Truth(all, v), Entered(b, stack, n);
      && AllLiterals(s, |truth|) && Satisfied(s, truth) == Active(b, v, outer, taken)
      && (b.next.Next? ==>
            && Fits(b.next.block, s)
            && Faithful(b.next.block, s, truth, outer, (b.kind.ElseWhen? && taken) || v(b.condition)))
  {
    hide Satisfied, AllLiterals, Truth, IsLiteral, Holds;
    var truth := Truth(all, v);
    EmptySatisfied(truth);
    if b.kind.When? || b.kind.ElseWhen? {
      var base := if b.kind.When? then stack else Inverted(stack);
      assert all[n] == all[n..n + 1][0] == b.condition;
      LiteralMeans(all, v, n);
      SatisfiedSnoc(base, n + 1, truth);
      SatisfiedSnoc(base, -(n + 1), truth);
      assert Inverted(base + [n + 1]) == base + [-(n + 1)];
    }
  }

  /** The central law, for any block in any context: its stacks are satisfied exactly when its blocks are active. */
  lemma {:induction false} MeaningKept(b: CodeBlock, stack: seq<int>, n: nat, all: seq<Condition>, v: Valuation,
      outer: bool, taken: bool)
    requires WellFormed(b) && Fits(b, stack) && Faithful(b, stack, Truth(all, v), outer, taken)
    requires Numbered(all, n, Conditions(b))
    ensures Agree(Stacks(b, stack, n), Activity(b, v, outer, taken), Truth(all, v))
    decreases b, |b.declarations| + 1
  {
    hide *;
    var s, m, k, truth := Entered(b, stack, n), n + |Tested(b)|, |b.declarations|, Truth(all, v);
    var here := Active(b, v, outer, taken);
    var inner, innerActivity := StacksIn(b, k, s, m), ActivityIn(b, k, v, here);
    WellFormedStep(b);
    NextFits(b, stack, n);
    ConditionsStep(b);
    NumberedSplit(all, n, Tested(b), ConditionsIn(b, k), if b.next.End? then [] else Conditions(b.next.block));
    EnteredFaithful(b, stack, n, all, v, outer, taken);
    MeaningKeptIn(b, k, s, m, all, v, here);
    AgreeOne(s, here, truth);
    AgreeConcat([s], inner, [here], innerActivity, truth);
    StacksStep(b, stack, n);
    ActivityStep(b, v, outer, taken);
    if b.next.Next? {
      var arm, t, p := b.next.block, (b.kind.ElseWhen? && taken) || v(b.condition), m + |ConditionsIn(b, k)|;
      MeaningKept(arm, s, p, all, v, outer, t);
      AgreeConcat([s] + inner, Stacks(arm, s, p), [here] + innerActivity, Activity(arm, v, outer, t), truth);
    } else {
      assert [s] + inner + [] == [s] + inner && [here] + innerActivity + [] == [here] + innerActivity;
    }
  }

  lemma AgreeOne(s: seq<int>, here: bool, truth: seq<bool>)
    requires AllLiterals(s, |truth|) && Satisfied(s, truth) == here
    ensures Agree([s], [here], truth)
  {
  }

  lemma SliceOfSlice(all: seq<Condition>, n: nat, len: nat, i: nat, j: nat)
    requires n + len <= |all| && i <= j <= len
    ensures all[n..n + len][i..j] == all[n + i..n + j]
  {
    var x, y := all[n..n + len][i..j], all[n + i..n + j];
    forall k | 0 <= k < j - i ensures x[k] == y[k] {
    }
  }

  lemma NumberedSplit(all: seq<Condition>, n: nat, x: seq<Condition>, y: seq<Condition>, z: seq<Condition>)
    requires Numbered(all, n, x + y + z)
    ensures Numbered(all, n, x) && Numbered(all, n + |x|, y) && Numbered(all, n + |x| + |y|, z)
  {
    var w := x + y + z;
    assert w[..|x|] == x && w[|x|..|x| + |y|] == y && w[|x| + |y|..|w|] == z;
    SliceOfSlice(all, n, |w|, 0, |x|);
    SliceOfSlice(all, n, |w|, |x|, |x| + |y|);
    SliceOfSlice(all, n, |w|, |x| + |y|, |w|);
  }

  lemma {:induction false} MeaningKeptIn(b: CodeBlock, k: nat, s: seq<int>, m: nat, all: seq<Condition>, v: Valuation,
      here: bool)
    requires WellFormed(b) && k <= |b.declarations|
    requires AllLiterals(s, |Truth(all, v)|) && Satisfied(s, Truth(all, v)) == here
    requires Numbered(all, m, ConditionsIn(b, k))
    ensures Agree(StacksIn(b, k, s, m), ActivityIn(b, k, v, here), Truth(all, v))
    decreases b, k
  {
    hide *;
    WellFormedStep(b);
    ConditionsInStep(b, k);
    ActivityInStep(b, k, v, here);
    if k > 0 && b.declarations[k - 1].Nested? {
      var d, truth, p := b.declarations[k - 1].block, Truth(all, v), m + |ConditionsIn(b, k - 1)|;
      assert ConditionsIn(b, k) == ConditionsIn(b, k - 1) + Conditions(d) + [];
      NumberedSplit(all, m, ConditionsIn(b, k - 1), Conditions(d), []);
      MeaningKeptIn(b, k - 1, s, m, all, v, here);
      NestedFits(d, s);
      NestedFaithful(d, s, truth, here);
      MeaningKept(d, s, p, all, v, here, false);
      AgreeConcat(StacksIn(b, k - 1, s, m), Stacks(d, s, p), ActivityIn(b, k - 1, v, here),
        Activity(d, v, here, false), truth);
    } else if k > 0 {
      assert ConditionsIn(b, k) == ConditionsIn(b, k - 1);
      MeaningKeptIn(b, k - 1, s, m, all, v, here);
      assert ActivityIn(b, k, v, here) == ActivityIn(b, k - 1, v, here);
    }
    StacksInStep(b, k, s, m);
    assert k > 0 && !b.declarations[k - 1].Nested? ==> StacksIn(b, k, s, m) == StacksIn(b, k - 1, s, m);
    AgreeNone(Truth(all, v));
  }

  lemma AgreeNone(truth: seq<bool>)
    ensures Agree([], [], truth)
  {
  }

  lemma NestedFaithful(b: CodeBlock, s: seq<int>, truth: seq<bool>, here: bool)
    requires b.kind.When? && AllLiterals(s, |truth|) && Satisfied(s, truth) == here
    ensures Fits(b, s) && Faithful(b, s, truth, here, false)
  {
  }

  /** For every program and every truth assignment, a block is active under the nested semantics exactly when all
      literals of its branch are true. */
  lemma FlatteningKeepsMeaning(b: CodeBlock, v: Valuation, i: nat)
    requires WellFormed(b) && b.kind.Program? && i < |Blocks(b)|
    ensures var stacks, truth := Stacks(b, [], 0), Truth(Conditions(b), v);
      && |stacks| == |Activity(b, v, true, false)| == |Blocks(b)|
      && AllLiterals(stacks[i], |truth|)
      && (Satisfied(stacks[i], truth) <==> Activity(b, v, true, false)[i])
  {
    SameCount(b, [], 0, v, true, false);
    MeaningKept(b, [], 0, Conditions(b), v, true, false);
  }
}
