/** The integer square root: Newton's iteration on 32-bit integers, stopped when it repeats or cycles. */
module IntSqrt {
  import opened Bytes
  import opened Arith

  /** The first estimate, by the number of decimal digits. */
  function Seed(v: uint32): (k: uint32)
    ensures 2 <= k <= 60000
  {
    if v < 10 then 2 else
    if v < 100 then 6 else
    if v < 1000 then 20 else
    if v < 10000 then 60 else
    if v < 100000 then 200 else
    if v < 1000000 then 600 else
    if v < 10000000 then 2000 else
    if v < 100000000 then 6000 else
    if v < 1000000000 then 20000 else
    60000
  }

  /** r is the square root of v, rounded down. */
  predicate IsRoot(v: int, r: int) {
    0 <= r && r * r <= v < (r + 1) * (r + 1)
  }

  /** One below the square after the seed's: where the iteration starts in a cycle of two. */
  predicate Exceptional(v: uint32) {
    v == (Seed(v) + 1) * (Seed(v) + 1) - 1
  }

  /** The exceptions are ten numbers. */
  lemma ExceptionalValues(v: uint32)
    ensures Exceptional(v) <==>
      v in {8, 48, 440, 3720, 40400, 361200, 4004000, 36012000, 400040000, 3600120000}
  {
  }

  function Next(v: nat, x: nat): nat
    requires x > 0
  {
    (x + v / x) / 2
  }

  /** The same in 32-bit arithmetic. */
  function Next32(v: uint32, x: uint32): uint32
    requires x > 0
  {
    (x + v / x) % 0x1_0000_0000 / 2
  }

  /** Division, pinned down by its quotient. */
  lemma QuotientAtLeast(v: nat, x: nat, q: int)
    requires x > 0 && q * x <= v
    ensures v / x >= q
  {
    var y := v / x - q;
    MultipleAtLeast(y, x);
    assert y * x == v / x * x - q * x;
  }

  lemma QuotientAtMost(v: nat, x: nat, q: nat)
    requires x > 0 && v < (q + 1) * x
    ensures v / x <= q
  {
    var y := v / x - (q + 1);
    MultipleAtLeast(y, x);
    assert y * x == v / x * x - (q + 1) * x;
  }

  lemma SquareMono(a: nat, b: nat)
    ensures a <= b ==> a * a <= b * b
  {
    if a <= b {
      MulMono(a, b, a);
      MulMono(a, b, b);
    }
  }

  /** The iteration never falls below the root. */
  lemma NeverBelow(v: nat, x: nat, s: nat)
    requires IsRoot(v, s) && x > 0
    ensures Next(v, x) >= s
  {
    var t := x - s;
    assert (s - t) * x <= s * s by {
      assert (s - t) * (s + t) == s * s - t * t;
      assert t * t >= 0;
    }
    QuotientAtLeast(v, x, s - t);
  }

  /** Above the root it falls. */
  lemma FallsAbove(v: nat, x: nat, s: nat)
    requires IsRoot(v, s) && x > s
    ensures Next(v, x) < x
  {
    MulMono(s + 1, x, s + 1);
    assert x * (s + 1) == (s + 1) * x;
    QuotientAtMost(v, x, s);
  }

  /** At the root it rests, unless v is one below the next square. */
  lemma RestsAtRoot(v: nat, s: nat)
    requires IsRoot(v, s) && s > 0
    ensures Next(v, s) == if v == (s + 1) * (s + 1) - 1 then s + 1 else s
  {
    if v == (s + 1) * (s + 1) - 1 {
      assert (s + 2) * s == v && v < (s + 3) * s;
      QuotientAtLeast(v, s, s + 2);
      QuotientAtMost(v, s, s + 2);
    } else {
      assert v < (s + 2) * s;
      QuotientAtLeast(v, s, s);
      QuotientAtMost(v, s, s + 1);
    }
  }

  /** One below the next square, the root is reached from its successor only. */
  lemma OnlyFromSuccessor(v: nat, x: nat, s: nat)
    requires IsRoot(v, s) && v == (s + 1) * (s + 1) - 1 && x > 0
    ensures x != s && x != s + 1 ==> Next(v, x) >= s + 1
    ensures x == s + 1 ==> Next(v, x) == s
  {
    var t := x - (s + 1);
    if t == 0 {
      assert v == s * (s + 1) + s;
      QuotientAtLeast(v, x, s);
      QuotientAtMost(v, x, s);
    } else {
      assert t * t >= 1;
      assert (s + 1 - t) * x == (s + 1) * (s + 1) - t * t;
      QuotientAtLeast(v, x, s + 1 - t);
    }
  }

  /** One root for every number. */
  ghost function Root(v: nat): (s: nat)
    ensures IsRoot(v, s)
  {
    if v == 0 then 0 else
    var r := Root(v - 1);
    if (r + 1) * (r + 1) <= v then r + 1 else r
  }

  lemma RootUnique(v: nat, r: nat, s: nat)
    requires IsRoot(v, r) && IsRoot(v, s)
    ensures r == s
  {
    SquareMono(r + 1, s);
    SquareMono(s + 1, r);
  }

  /** Where the iteration can be after its first step, seed and root given. */
  ghost predicate OnCourse(v: nat, seed: nat, s: nat, prev: nat, cur: nat) {
    && cur >= s
    && (cur == s ==> v == (s + 1) * (s + 1) - 1 ==> prev == s + 1)
    && (cur > s ==> prev > cur || prev < s || (prev == s == seed && v == (s + 1) * (s + 1) - 1 && cur == s + 1))
    && (v == (s + 1) * (s + 1) - 1 && seed == s ==> prev == s && cur == s + 1)
  }

  lemma StaysOnCourse(v: nat, seed: nat, s: nat, prev: nat, cur: nat)
    requires IsRoot(v, s) && cur > 0 && Next(v, cur) != cur && Next(v, cur) != prev
    requires (prev == cur == seed) || OnCourse(v, seed, s, prev, cur)
    ensures OnCourse(v, seed, s, cur, Next(v, cur))
    ensures OnCourse(v, seed, s, prev, cur) ==> Next(v, cur) < cur
  {
    NeverBelow(v, cur, s);
    if cur > s {
      FallsAbove(v, cur, s);
    }
    if cur == s {
      RestsAtRoot(v, s);
    }
    if v == (s + 1) * (s + 1) - 1 {
      OnlyFromSuccessor(v, cur, s);
    }
  }

  /** Where it stops: at the root, or in the cycle it was started in. */
  lemma StopsAtRoot(v: nat, seed: nat, s: nat, prev: nat, cur: nat)
    requires IsRoot(v, s) && cur > 0 && (Next(v, cur) == cur || Next(v, cur) == prev)
    requires (prev == cur == seed) || OnCourse(v, seed, s, prev, cur)
    ensures cur == if v == (s + 1) * (s + 1) - 1 && seed == s then s + 1 else s
  {
    NeverBelow(v, cur, s);
    if cur > s {
      FallsAbove(v, cur, s);
    }
    if cur == s {
      RestsAtRoot(v, s);
    }
  }

  lemma ExceptionalIs(v: uint32, s: nat)
    requires IsRoot(v, s)
    ensures Exceptional(v) <==> v == (s + 1) * (s + 1) - 1 && Seed(v) == s
  {
    if Exceptional(v) {
      assert IsRoot(v, Seed(v));
      RootUnique(v, s, Seed(v));
    }
  }

  lemma NoOverflow(v: uint32, s: nat, x: nat)
    requires IsRoot(v, s) && 0 < x <= 0x8000_0000 && (x >= s || x >= 2)
    ensures Next32(v, x) == Next(v, x) <= 0x8000_0000
  {
    if x >= 2 {
      QuotientAtMost(v, x, 0x7FFF_FFFF);
    } else {
      assert v < 4 by {
        assert s <= 1;
      }
    }
  }

  /** intSqrt ends for every 32-bit number, without overflow, and rounds the root down, except for the ten
      exceptional numbers, for which it rounds up. */
  method Sqrt(val: uint32) returns (r: uint16)
    ensures !Exceptional(val) ==> IsRoot(val, r)
    ensures Exceptional(val) ==> r == Seed(val) + 1 && IsRoot(val, r - 1)
  {
    hide *;
    ghost var s := Root(val);
    ghost var seed := Seed(val);
    ExceptionalIs(val, s);
    RootFits(val, s);
    var prev: uint32 := Seed(val);
    var cur: uint32 := prev;
    ghost var first := true;
    while cur != 0
      invariant cur <= 0x8000_0000 && (cur >= s || cur >= 2)
      invariant first ==> prev == cur == seed
      invariant !first ==> OnCourse(val, seed, s, prev, cur)
      decreases first, cur
    {
      NoOverflow(val, s, cur);
      var next: uint32 := Next32(val, cur);
      if next == cur || next == prev {
        StopsAtRoot(val, seed, s, prev, cur);
        return cur;
      }
      StaysOnCourse(val, seed, s, prev, cur);
      NeverBelow(val, cur, s);
      prev := cur;
      cur := next;
      first := false;
    }
    r := 0;
  }

  lemma RootFits(v: uint32, s: nat)
    requires IsRoot(v, s)
    ensures s <= 0xFFFF && (Exceptional(v) ==> s + 1 <= 0xFFFF)
    ensures s == 0 ==> v == 0
  {
    SquareMono(0x1_0000, s);
    ExceptionalIs(v, s);
  }
}
