/** Headers in memory, and the circular doubly linked list they form. */
module FreeLinks {
  import opened Bytes
  import opened Collections
  import opened HeapSpec

  /** Node_t. */
  datatype Node = Node(size: uint16, prev: int, next: int)

  /** The headers written so far, by address. */
  type Memory = map<int, Node>

  function SetSize(mem: Memory, a: int, v: uint16): Memory
    requires a in mem
  {
    mem[a := mem[a].(size := v)]
  }

  function SetPrev(mem: Memory, a: int, v: int): Memory
    requires a in mem
  {
    mem[a := mem[a].(prev := v)]
  }

  function SetNext(mem: Memory, a: int, v: int): Memory
    requires a in mem
  {
    mem[a := mem[a].(next := v)]
  }

  function Succ(i: nat, n: nat): nat {
    if i + 1 == n then 0 else i + 1
  }

  function Pred(i: nat, n: nat): nat
    requires i < n
  {
    if i == 0 then n - 1 else i - 1
  }

  /** Entry i of fl points at its neighbours in fl. */
  ghost predicate LinkedAt(mem: Memory, fl: seq<int>, i: nat)
    requires i < |fl|
  {
    fl[i] in mem && mem[fl[i]].next == fl[Succ(i, |fl|)] && mem[fl[i]].prev == fl[Pred(i, |fl|)]
  }

  /** The nodes of fl, in this order, form a circular doubly linked list. */
  ghost predicate Linked(mem: Memory, fl: seq<int>) {
    forall i :: 0 <= i < |fl| ==> LinkedAt(mem, fl, i)
  }

  ghost predicate SameSizes(a: Memory, b: Memory) {
    forall x :: x in a ==> x in b && a[x].size == b[x].size
  }

  /** Takes x out: its neighbours point at each other. */
  function Unlink(mem: Memory, x: int): Memory
    requires x in mem && mem[x].prev in mem && mem[x].next in mem
  {
    SetPrev(SetNext(mem, mem[x].prev, mem[x].next), mem[x].next, mem[x].prev)
  }

  lemma UnlinkFields(mem: Memory, x: int, y: int)
    requires x in mem && mem[x].prev in mem && mem[x].next in mem && y in mem
    ensures y in Unlink(mem, x) && Unlink(mem, x)[y].size == mem[y].size
    ensures Unlink(mem, x)[y].next == if y == mem[x].prev then mem[x].next else mem[y].next
    ensures Unlink(mem, x)[y].prev == if y == mem[x].next then mem[x].prev else mem[y].prev
  {
  }

  lemma DistinctAt(fl: seq<int>, i: nat, j: nat)
    requires Distinct(fl) && i < |fl| && j < |fl|
    ensures fl[i] == fl[j] <==> i == j
  {
  }

  /** Neighbours in the shorter list are neighbours in the longer one, or were parted by entry j. */
  lemma WithoutNeighbours(fl: seq<int>, j: nat, i: nat)
    requires j < |fl| && |fl| >= 2 && i < |fl| - 1
    ensures var n, r, o := |fl|, Without(fl, j), if i < j then i else i + 1;
      && |r| == n - 1 && r[i] == fl[o] && o != j
      && r[Succ(i, n - 1)] == fl[if o == Pred(j, n) then Succ(j, n) else Succ(o, n)]
      && r[Pred(i, n - 1)] == fl[if o == Succ(j, n) then Pred(j, n) else Pred(o, n)]
  {
  }

  lemma UnlinkLinked(mem: Memory, fl: seq<int>, j: nat)
    requires Linked(mem, fl) && Distinct(fl) && j < |fl| && |fl| >= 2
    ensures fl[j] in mem && mem[fl[j]].prev in mem && mem[fl[j]].next in mem
    ensures Linked(Unlink(mem, fl[j]), Without(fl, j)) && SameSizes(mem, Unlink(mem, fl[j]))
  {
    var n, r := |fl|, Without(fl, j);
    assert LinkedAt(mem, fl, j) && LinkedAt(mem, fl, Pred(j, n)) && LinkedAt(mem, fl, Succ(j, n));
    var mem' := Unlink(mem, fl[j]);
    forall y | y in mem ensures y in mem' && mem'[y].size == mem[y].size {
      UnlinkFields(mem, fl[j], y);
    }
    forall i | 0 <= i < n - 1 ensures LinkedAt(mem', r, i) {
      UnlinkedAt(mem, fl, j, i);
    }
  }

  lemma UnlinkedAt(mem: Memory, fl: seq<int>, j: nat, i: nat)
    requires Linked(mem, fl) && Distinct(fl) && j < |fl| && |fl| >= 2 && i < |fl| - 1
    requires fl[j] in mem && mem[fl[j]].prev in mem && mem[fl[j]].next in mem
    ensures LinkedAt(Unlink(mem, fl[j]), Without(fl, j), i)
  {
    hide Unlink, Without, Distinct, SetNext, SetPrev;
    var n, o := |fl|, if i < j then i else i + 1;
    assert LinkedAt(mem, fl, j) && LinkedAt(mem, fl, o);
    WithoutNeighbours(fl, j, i);
    UnlinkFields(mem, fl[j], fl[o]);
    DistinctAt(fl, o, Pred(j, n));
    DistinctAt(fl, o, Succ(j, n));
  }

  /** Puts r in front of cur. */
  function InsertBefore(mem: Memory, cur: int, r: int): Memory
    requires cur in mem && r in mem && mem[cur].prev in mem
  {
    var a := SetPrev(SetNext(mem, r, cur), r, mem[cur].prev);
    SetPrev(SetNext(a, a[cur].prev, r), cur, r)
  }

  lemma InsertFields(mem: Memory, cur: int, r: int, y: int)
    requires cur in mem && r in mem && mem[cur].prev in mem && y in mem && r != cur && r != mem[cur].prev
    ensures var m := InsertBefore(mem, cur, r);
      && y in m && m[y].size == mem[y].size
      && m[y].next == (if y == r then cur else if y == mem[cur].prev then r else mem[y].next)
      && m[y].prev == (if y == r then mem[cur].prev else if y == cur then r else mem[y].prev)
  {
  }

  /** Neighbours in the longer list are neighbours in the shorter one, or the new entry stands between them. */
  lemma WithNeighbours(fl: seq<int>, j: nat, a: int, i: nat)
    requires fl != [] && j <= |fl| && i <= |fl|
    ensures var n, w := |fl|, With(fl, j, a);
      var c := if j < n then j else 0;
      && |w| == n + 1
      && (i == j ==> w[i] == a && w[Succ(i, n + 1)] == fl[c] && w[Pred(i, n + 1)] == fl[Pred(c, n)])
      && (i != j ==>
            var o := if i < j then i else i - 1;
            && w[i] == fl[o]
            && w[Succ(i, n + 1)] == (if o == Pred(c, n) then a else fl[Succ(o, n)])
            && w[Pred(i, n + 1)] == (if o == c then a else fl[Pred(o, n)]))
  {
  }

  lemma InsertLinked(mem: Memory, fl: seq<int>, j: nat, r: int)
    requires Linked(mem, fl) && Distinct(fl) && fl != [] && j <= |fl| && r !in fl && r in mem
    ensures var cur := fl[if j < |fl| then j else 0];
      && cur in mem && mem[cur].prev in mem
      && Linked(InsertBefore(mem, cur, r), With(fl, j, r)) && SameSizes(mem, InsertBefore(mem, cur, r))
  {
    var n, w, c := |fl|, With(fl, j, r), if j < |fl| then j else 0;
    var cur := fl[c];
    assert LinkedAt(mem, fl, c) && LinkedAt(mem, fl, Pred(c, n));
    var mem' := InsertBefore(mem, cur, r);
    forall y | y in mem ensures y in mem' && mem'[y].size == mem[y].size {
      InsertFields(mem, cur, r, y);
    }
    forall i | 0 <= i < n + 1 ensures LinkedAt(mem', w, i) {
      InsertedAt(mem, fl, j, r, c, i);
    }
  }

  lemma InsertedAt(mem: Memory, fl: seq<int>, j: nat, r: int, c: nat, i: nat)
    requires Linked(mem, fl) && Distinct(fl) && fl != [] && j <= |fl| && r !in fl && r in mem && i <= |fl|
    requires c == (if j < |fl| then j else 0) && fl[c] in mem && mem[fl[c]].prev in mem
    ensures |With(fl, j, r)| == |fl| + 1 && LinkedAt(InsertBefore(mem, fl[c], r), With(fl, j, r), i)
  {
    hide InsertBefore, With, Distinct, SetNext, SetPrev;
    var n := |fl|;
    assert LinkedAt(mem, fl, c) && mem[fl[c]].prev == fl[Pred(c, n)];
    WithNeighbours(fl, j, r, i);
    if i == j {
      InsertFields(mem, fl[c], r, r);
    } else {
      var o := if i < j then i else i - 1;
      assert LinkedAt(mem, fl, o);
      InsertFields(mem, fl[c], r, fl[o]);
      DistinctAt(fl, o, Pred(c, n));
      DistinctAt(fl, o, c);
    }
  }

  ghost predicate SameLinks(a: Memory, b: Memory, x: int) {
    x in a ==> x in b && b[x].next == a[x].next && b[x].prev == a[x].prev
  }

  lemma LinkedFrame(a: Memory, b: Memory, fl: seq<int>)
    requires Linked(a, fl)
    requires forall i :: 0 <= i < |fl| ==> SameLinks(a, b, fl[i])
    ensures Linked(b, fl)
  {
    forall i | 0 <= i < |fl| ensures LinkedAt(b, fl, i) {
      assert LinkedAt(a, fl, i) && SameLinks(a, b, fl[i]);
    }
  }
}
