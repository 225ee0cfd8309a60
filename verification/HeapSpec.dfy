/** The heap as a row of physical blocks, and what allocating and freeing do to it. */
module HeapSpec {
  import opened Bytes

  /** sizeof(Node_t) on the 16-bit targets: a size and two pointers. */
  const HEADER := 6

  /** A header at addr followed by size payload bytes. */
  datatype Block = Block(addr: int, size: int, free: bool)
  {
    function End(): int {
      addr + HEADER + size
    }
  }

  /** The blocks fill [lo, hi) without gap or overlap. */
  ghost predicate Tiles(bs: seq<Block>, lo: int, hi: int) {
    && bs != []
    && bs[0].addr == lo
    && (forall i :: 0 <= i < |bs| ==> bs[i].size >= 0)
    && (forall i :: 0 <= i < |bs| - 1 ==> bs[i].End() == bs[i + 1].addr)
    && bs[|bs| - 1].End() == hi
  }

  /** What memoryInit makes of a region. */
  function Initial(lo: int, hi: int): seq<Block> {
    [Block(lo, hi - lo - HEADER, true)]
  }

  ghost predicate Coalesced(bs: seq<Block>) {
    forall i :: 0 <= i < |bs| - 1 ==> !(bs[i].free && bs[i + 1].free)
  }

  ghost predicate WellFormed(bs: seq<Block>, lo: int, hi: int) {
    Tiles(bs, lo, hi) && Coalesced(bs)
  }

  /** Blocks lie in address order, each wholly before the next. */
  lemma {:induction false} TilesSorted(bs: seq<Block>, lo: int, hi: int, i: nat, j: nat)
    requires Tiles(bs, lo, hi) && i < j < |bs|
    ensures bs[i].End() <= bs[j].addr
    decreases j - i
  {
    if i < j - 1 {
      TilesSorted(bs, lo, hi, i, j - 1);
    }
  }

  lemma TilesInRegion(bs: seq<Block>, lo: int, hi: int, i: nat)
    requires Tiles(bs, lo, hi) && i < |bs|
    ensures lo <= bs[i].addr && bs[i].End() <= hi
  {
    if i > 0 {
      TilesSorted(bs, lo, hi, 0, i);
    }
    if i < |bs| - 1 {
      TilesSorted(bs, lo, hi, i, |bs| - 1);
    }
  }

  lemma TilesUnique(bs: seq<Block>, lo: int, hi: int, i: nat, j: nat)
    requires Tiles(bs, lo, hi) && i < |bs| && j < |bs|
    ensures bs[i].addr == bs[j].addr <==> i == j
  {
    if i < j {
      TilesSorted(bs, lo, hi, i, j);
    } else if j < i {
      TilesSorted(bs, lo, hi, j, i);
    }
  }

  /** Header and payload bytes of all blocks together. */
  function Total(bs: seq<Block>): int {
    if bs == [] then 0 else HEADER + bs[0].size + Total(bs[1..])
  }

  /** Nothing is ever lost: the blocks always add up to the region. */
  lemma {:induction false} Conservation(bs: seq<Block>, lo: int, hi: int)
    requires Tiles(bs, lo, hi)
    ensures Total(bs) == hi - lo
  {
    if |bs| > 1 {
      Conservation(bs[1..], bs[1].addr, hi);
    }
  }

  // ---------------------------------------------------------------- the free list

  /** Addresses of the free blocks, in address order: what the free list should hold. */
  function Frees(bs: seq<Block>): (fl: seq<int>) {
    if bs == [] then [] else (if bs[0].free then [bs[0].addr] else []) + Frees(bs[1..])
  }

  lemma {:induction false} FreesConcat(a: seq<Block>, b: seq<Block>)
    ensures Frees(a + b) == Frees(a) + Frees(b)
  {
    if a == [] {
      assert a + b == b;
    } else {
      FreesConcat(a[1..], b);
      var c, head := a + b, if a[0].free then [a[0].addr] else [];
      assert c[0] == a[0] && c[1..] == a[1..] + b;
      assert Frees(c) == head + (Frees(a[1..]) + Frees(b));
      assert Frees(a) == head + Frees(a[1..]);
    }
  }

  /** Splitting the row at block k splits the list. */
  lemma FreesSplit(bs: seq<Block>, k: nat)
    requires k < |bs|
    ensures Frees(bs) == Frees(bs[..k]) + (if bs[k].free then [bs[k].addr] else []) + Frees(bs[k + 1..])
  {
    assert bs == bs[..k] + bs[k..];
    assert bs[k..][1..] == bs[k + 1..];
    FreesConcat(bs[..k], bs[k..]);
  }

  /** Every list entry is a free block. */
  lemma {:induction false} FreesSound(bs: seq<Block>, j: nat) returns (k: nat)
    requires j < |Frees(bs)|
    ensures k < |bs| && bs[k].free && bs[k].addr == Frees(bs)[j] && |Frees(bs[..k])| == j
  {
    if bs[0].free && j == 0 {
      k := 0;
    } else {
      var skip := if bs[0].free then 1 else 0;
      k := FreesSound(bs[1..], j - skip);
      k := k + 1;
      assert bs[..k][1..] == bs[1..][..k - 1];
    }
  }

  // ---------------------------------------------------------------- allocation

  /** Requests are rounded up to even sizes in uint16_t arithmetic. */
  function Rounded(request: uint16): uint16 {
    if request % 2 != 0 then (request + 1) % 0x1_0000 else request
  }

  /** Even requests stay as they are, odd ones become the next even number; only 65535 wraps, to nothing. */
  lemma RoundedServes(request: uint16)
    ensures Rounded(request) >= request <==> request != 0xFFFF
    ensures Rounded(request) % 2 == 0
    ensures request % 2 == 0 ==> Rounded(request) == request
    ensures request != 0xFFFF ==> Rounded(request) == request + request % 2
    ensures request == 0xFFFF ==> Rounded(request) == 0
  {
  }

  /** Block k is the one best-fit picks: free, large enough, no larger than any other such, and the first of them. */
  ghost predicate IsBest(bs: seq<Block>, size: int, k: int) {
    && 0 <= k < |bs| && bs[k].free && size <= bs[k].size
    && (forall j :: 0 <= j < |bs| && bs[j].free && size <= bs[j].size ==> bs[k].size <= bs[j].size)
    && (forall j :: 0 <= j < k && bs[j].free && size <= bs[j].size ==> bs[k].size < bs[j].size)
  }

  ghost predicate NoneFits(bs: seq<Block>, size: int) {
    forall j :: 0 <= j < |bs| && bs[j].free ==> bs[j].size < size
  }

  lemma BestFits(bs: seq<Block>, size: int, k: int)
    requires IsBest(bs, size, k)
    ensures !NoneFits(bs, size)
  {
  }

  function TakeAll(bs: seq<Block>, k: nat): seq<Block>
    requires k < |bs|
  {
    bs[k := bs[k].(free := false)]
  }

  /** The last size bytes of block k, under a header of their own; the rest stays free. */
  function TakeTail(bs: seq<Block>, k: nat, size: nat): seq<Block>
    requires k < |bs|
  {
    var b := bs[k];
    bs[..k] + [b.(size := b.size - size - HEADER), Block(b.addr + b.size - size, size, false)] + bs[k + 1..]
  }

  /** Taking block k: all of it if the rest could not hold another block, otherwise its tail. */
  function Take(bs: seq<Block>, k: nat, size: nat): seq<Block>
    requires k < |bs|
  {
    if bs[k].size <= size + HEADER then TakeAll(bs, k) else TakeTail(bs, k, size)
  }

  /** The header address of the block handed out. */
  function Taken(bs: seq<Block>, k: nat, size: nat): int
    requires k < |bs|
  {
    if bs[k].size <= size + HEADER then bs[k].addr else bs[k].addr + bs[k].size - size
  }

  lemma TakeKeeps(bs: seq<Block>, lo: int, hi: int, k: nat, size: nat)
    requires WellFormed(bs, lo, hi) && k < |bs| && bs[k].free && size <= bs[k].size
    ensures WellFormed(Take(bs, k, size), lo, hi)
  {
    hide Tiles, Coalesced, TakeAll, TakeTail;
    if bs[k].size <= size + HEADER {
      UseKeeps(bs, lo, hi, k);
    } else {
      SplitKeeps(bs, lo, hi, k, size);
    }
  }

  lemma PairCoalesced(bs: seq<Block>, i: nat)
    requires Coalesced(bs) && i + 1 < |bs|
    ensures !bs[i].free || !bs[i + 1].free
  {
  }

  lemma UseKeeps(bs: seq<Block>, lo: int, hi: int, k: nat)
    requires WellFormed(bs, lo, hi) && k < |bs|
    ensures WellFormed(TakeAll(bs, k), lo, hi)
  {
    var r := TakeAll(bs, k);
    forall i | 0 <= i < |r| - 1
      ensures r[i].End() == r[i + 1].addr && !(r[i].free && r[i + 1].free)
    {
      PairCoalesced(bs, i);
    }
  }

  lemma SplitKeeps(bs: seq<Block>, lo: int, hi: int, k: nat, size: nat)
    requires WellFormed(bs, lo, hi) && k < |bs| && bs[k].free && size + HEADER <= bs[k].size
    ensures WellFormed(TakeTail(bs, k, size), lo, hi)
  {
    var r := TakeTail(bs, k, size);
    forall i | 0 <= i < |r| - 1
      ensures r[i].size >= 0 && r[i].End() == r[i + 1].addr && !(r[i].free && r[i + 1].free)
    {
      if i < k - 1 {
        assert r[i] == bs[i] && r[i + 1] == bs[i + 1];
      } else if i == k - 1 {
        assert r[i] == bs[i];
        PairCoalesced(bs, i);
      } else if i > k + 1 {
        assert r[i] == bs[i - 1] && r[i + 1] == bs[i];
      } else if i == k + 1 {
        assert r[i + 1] == bs[i] && bs[k].End() == bs[k + 1].addr;
      }
    }
    assert k == |bs| - 1 || r[|r| - 1] == bs[|bs| - 1];
  }

  /** The block handed out has the rounded size and at most one header more. */
  lemma TakeSize(bs: seq<Block>, k: nat, size: nat)
    requires k < |bs| && bs[k].free && size <= bs[k].size
    ensures exists s :: Block(Taken(bs, k, size), s, false) in Take(bs, k, size) && size <= s <= size + HEADER
  {
    var r := Take(bs, k, size);
    if bs[k].size <= size + HEADER {
      assert r[k] == Block(Taken(bs, k, size), bs[k].size, false);
    } else {
      assert r[k + 1] == Block(Taken(bs, k, size), size, false);
    }
  }

  // ---------------------------------------------------------------- freeing

  function Merge(bs: seq<Block>, i: nat): seq<Block>
    requires i + 1 < |bs|
  {
    bs[..i] + [bs[i].(size := bs[i].size + bs[i + 1].size + HEADER)] + bs[i + 2..]
  }

  function Freed(bs: seq<Block>, k: nat): seq<Block>
    requires k < |bs|
  {
    bs[k := bs[k].(free := true)]
  }

  function MergedRight(bs: seq<Block>, k: nat): seq<Block>
    requires k < |bs|
  {
    if k + 1 < |bs| && bs[k + 1].free then Merge(bs, k) else bs
  }

  function MergedLeft(bs: seq<Block>, k: nat): seq<Block>
    requires k < |bs|
  {
    if 0 < k && bs[k - 1].free then Merge(bs, k - 1) else bs
  }

  /** Giving block k back: mark it free, then join it with a free right and a free left neighbour. */
  function Release(bs: seq<Block>, k: nat): seq<Block>
    requires k < |bs|
  {
    MergedLeft(MergedRight(Freed(bs, k), k), k)
  }

  lemma MergeTiles(bs: seq<Block>, lo: int, hi: int, i: nat)
    requires Tiles(bs, lo, hi) && i + 1 < |bs|
    ensures Tiles(Merge(bs, i), lo, hi)
  {
  }

  /** Coalesced, but for the pair of blocks k and k + 1, where k may be -1. */
  ghost predicate CoalescedBut(bs: seq<Block>, k: int) {
    forall i :: 0 <= i < |bs| - 1 && i != k ==> !(bs[i].free && bs[i + 1].free)
  }

  lemma MergedRightKeeps(bs: seq<Block>, lo: int, hi: int, k: nat)
    requires Tiles(bs, lo, hi) && k < |bs| && bs[k].free
    requires forall i :: 0 <= i < |bs| - 1 && i != k && i != k - 1 ==> !(bs[i].free && bs[i + 1].free)
    ensures var r := MergedRight(bs, k);
      k < |r| && r[k].free && r[..k] == bs[..k] && Tiles(r, lo, hi) && CoalescedBut(r, k - 1)
  {
    if k + 1 < |bs| && bs[k + 1].free {
      MergeTiles(bs, lo, hi, k);
      var r := Merge(bs, k);
      forall i | 0 <= i < |r| - 1 && i != k - 1 ensures !(r[i].free && r[i + 1].free) {
        assert i > k ==> r[i] == bs[i + 1] && r[i + 1] == bs[i + 2];
        assert i == k ==> r[i + 1] == bs[i + 2] && !(bs[i + 1].free && bs[i + 2].free);
      }
    }
  }

  lemma MergedLeftKeeps(bs: seq<Block>, lo: int, hi: int, k: nat)
    requires Tiles(bs, lo, hi) && k < |bs| && bs[k].free && CoalescedBut(bs, k - 1)
    ensures WellFormed(MergedLeft(bs, k), lo, hi)
  {
    if 0 < k && bs[k - 1].free {
      MergeTiles(bs, lo, hi, k - 1);
      var r := Merge(bs, k - 1);
      forall i | 0 <= i < |r| - 1 ensures !(r[i].free && r[i + 1].free) {
        assert i >= k ==> r[i] == bs[i + 1] && r[i + 1] == bs[i + 2];
        assert i == k - 1 ==> r[i + 1] == bs[i + 2] && !(bs[i + 1].free && bs[i + 2].free);
      }
    }
  }

  lemma ReleaseKeeps(bs: seq<Block>, lo: int, hi: int, k: nat)
    requires WellFormed(bs, lo, hi) && k < |bs| && !bs[k].free
    ensures WellFormed(Release(bs, k), lo, hi)
  {
    var a := Freed(bs, k);
    assert Tiles(a, lo, hi);
    MergedRightKeeps(a, lo, hi, k);
    MergedLeftKeeps(MergedRight(a, k), lo, hi, k);
  }

  // ---------------------------------------------------------------- full recovery

  /** Header addresses of the blocks in use. */
  ghost function InUse(bs: seq<Block>): set<int> {
    set i | 0 <= i < |bs| && !bs[i].free :: bs[i].addr
  }

  lemma NoneInUse(bs: seq<Block>)
    ensures InUse(bs) == {} <==> forall i :: 0 <= i < |bs| ==> bs[i].free
  {
    if i :| 0 <= i < |bs| && !bs[i].free {
      assert bs[i].addr in InUse(bs);
    }
  }

  lemma FirstPair(bs: seq<Block>)
    requires Coalesced(bs)
    ensures |bs| > 1 ==> !bs[0].free || !bs[1].free
  {
  }

  /** When nothing is in use the heap is the one block memoryInit made. */
  lemma AllFreeIsInitial(bs: seq<Block>, lo: int, hi: int)
    requires WellFormed(bs, lo, hi) && InUse(bs) == {}
    ensures bs == Initial(lo, hi)
  {
    NoneInUse(bs);
    FirstPair(bs);
  }

  // ---------------------------------------------------------------- effects on the list and on the blocks in use

  /** Block k's place in the list, were it free. */
  function Rank(bs: seq<Block>, k: nat): nat
    requires k <= |bs|
  {
    |Frees(bs[..k])|
  }

  lemma FreesAtRank(bs: seq<Block>, k: nat)
    requires k < |bs| && bs[k].free
    ensures Rank(bs, k) < |Frees(bs)| && Frees(bs)[Rank(bs, k)] == bs[k].addr
    ensures Frees(bs)[..Rank(bs, k)] == Frees(bs[..k]) && Frees(bs)[Rank(bs, k) + 1..] == Frees(bs[k + 1..])
  {
    FreesSplit(bs, k);
  }

  lemma FreesUsed(bs: seq<Block>, k: nat)
    requires k < |bs| && !bs[k].free
    ensures Rank(bs, k) <= |Frees(bs)|
    ensures Frees(bs)[..Rank(bs, k)] == Frees(bs[..k]) && Frees(bs)[Rank(bs, k)..] == Frees(bs[k + 1..])
  {
    FreesSplit(bs, k);
  }

  function Without(fl: seq<int>, j: nat): seq<int>
    requires j < |fl|
  {
    fl[..j] + fl[j + 1..]
  }

  function With(fl: seq<int>, j: nat, a: int): seq<int>
    requires j <= |fl|
  {
    fl[..j] + [a] + fl[j..]
  }

  lemma TakeAllFrees(bs: seq<Block>, k: nat)
    requires k < |bs| && bs[k].free
    ensures Rank(bs, k) < |Frees(bs)| && Frees(TakeAll(bs, k)) == Without(Frees(bs), Rank(bs, k))
  {
    FreesAtRank(bs, k);
    var r := TakeAll(bs, k);
    assert r[..k] == bs[..k] && r[k + 1..] == bs[k + 1..];
    FreesSplit(r, k);
  }

  lemma TakeTailFrees(bs: seq<Block>, k: nat, size: nat)
    requires k < |bs| && bs[k].free
    ensures Frees(TakeTail(bs, k, size)) == Frees(bs)
  {
    FreesSplit(bs, k);
    var r := TakeTail(bs, k, size);
    assert r[..k] == bs[..k];
    assert !r[k + 1..][0].free && r[k + 1..][1..] == bs[k + 1..];
    assert Frees(r[k + 1..]) == Frees(bs[k + 1..]);
    hide TakeTail;
    FreesSplit(r, k);
  }

  lemma FreedFrees(bs: seq<Block>, k: nat)
    requires k < |bs| && !bs[k].free
    ensures Rank(bs, k) <= |Frees(bs)| && Frees(Freed(bs, k)) == With(Frees(bs), Rank(bs, k), bs[k].addr)
    ensures Rank(Freed(bs, k), k) == Rank(bs, k)
  {
    FreesUsed(bs, k);
    var r := Freed(bs, k);
    assert r[..k] == bs[..k] && r[k + 1..] == bs[k + 1..];
    FreesSplit(r, k);
  }

  lemma MergeSlices(bs: seq<Block>, i: nat)
    requires i + 1 < |bs|
    ensures var r := Merge(bs, i);
      && |r| == |bs| - 1 && r[..i] == bs[..i] && r[i + 1..] == bs[i + 2..]
      && r[i].free == bs[i].free && r[i].addr == bs[i].addr
  {
  }

  /** Merging two free neighbours drops the second from the list. */
  lemma MergeFrees(bs: seq<Block>, i: nat)
    requires i + 1 < |bs| && bs[i].free && bs[i + 1].free
    ensures Rank(bs, i) + 1 < |Frees(bs)| && Frees(bs)[Rank(bs, i)] == bs[i].addr
    ensures Frees(bs)[Rank(bs, i) + 1] == bs[i + 1].addr
    ensures Frees(Merge(bs, i)) == Without(Frees(bs), Rank(bs, i) + 1)
    ensures Rank(Merge(bs, i), i) == Rank(bs, i)
  {
    hide Merge;
    MergeSlices(bs, i);
    var r, left, right := Merge(bs, i), Frees(bs[..i]), Frees(bs[i + 2..]);
    assert bs[i + 1..][1..] == bs[i + 2..];
    assert Frees(bs[i + 1..]) == [bs[i + 1].addr] + right;
    FreesSplit(bs, i);
    assert Frees(bs) == left + [bs[i].addr] + ([bs[i + 1].addr] + right);
    FreesSplit(r, i);
    assert Frees(r) == left + [bs[i].addr] + right;
  }

  lemma InUseIff(bs: seq<Block>, a: int)
    ensures a in InUse(bs) <==> exists i :: 0 <= i < |bs| && !bs[i].free && bs[i].addr == a
  {
  }

  /** Allocation adds the block handed out and nothing else. */
  lemma TakeInUse(bs: seq<Block>, lo: int, hi: int, k: nat, size: nat)
    requires Tiles(bs, lo, hi) && k < |bs| && bs[k].free && size <= bs[k].size
    ensures InUse(Take(bs, k, size)) == InUse(bs) + {Taken(bs, k, size)}
    ensures Taken(bs, k, size) !in InUse(bs)
  {
    var r, t := Take(bs, k, size), Taken(bs, k, size);
    forall i | 0 <= i < |bs| && !bs[i].free ensures bs[i].addr in InUse(r) && bs[i].addr != t {
      assert r[if i < k || |r| == |bs| then i else i + 1] == bs[i];
      if i < k {
        TilesSorted(bs, lo, hi, i, k);
      } else {
        TilesSorted(bs, lo, hi, k, i);
      }
    }
    if |r| == |bs| {
      assert r[k].addr == t;
    } else {
      assert r[k + 1].addr == t;
    }
    forall i | 0 <= i < |r| && !r[i].free ensures r[i].addr in InUse(bs) + {t} {
      if i < k || (i > k && |r| == |bs|) {
        assert r[i] == bs[i];
      } else if i > k + 1 {
        assert r[i] == bs[i - 1];
      }
    }
  }

  lemma MergeInUse(bs: seq<Block>, i: nat)
    requires i + 1 < |bs| && bs[i].free && bs[i + 1].free
    ensures InUse(Merge(bs, i)) == InUse(bs)
  {
    var r := Merge(bs, i);
    forall j | 0 <= j < |bs| && !bs[j].free ensures bs[j].addr in InUse(r) {
      assert r[if j < i then j else j - 1] == bs[j];
    }
    forall j | 0 <= j < |r| && !r[j].free ensures r[j].addr in InUse(bs) {
      assert r[j] == bs[if j < i then j else j + 1];
    }
  }

  /** Freeing removes the block given back and nothing else. */
  lemma ReleaseInUse(bs: seq<Block>, lo: int, hi: int, k: nat)
    requires Tiles(bs, lo, hi) && k < |bs| && !bs[k].free
    ensures InUse(Release(bs, k)) == InUse(bs) - {bs[k].addr}
  {
    var a := Freed(bs, k);
    forall i | 0 <= i < |bs| && i != k ensures a[i] == bs[i] && bs[i].addr != bs[k].addr {
      TilesUnique(bs, lo, hi, i, k);
    }
    assert InUse(a) == InUse(bs) - {bs[k].addr} by {
      forall i | 0 <= i < |bs| && !bs[i].free && i != k ensures bs[i].addr in InUse(a) {
        assert !a[i].free;
      }
    }
    var b := MergedRight(a, k);
    if k + 1 < |a| && a[k + 1].free {
      MergeInUse(a, k);
    }
    if 0 < k && b[k - 1].free {
      MergeInUse(b, k - 1);
    }
  }

  // ---------------------------------------------------------------- whole runs

  /** One call, as a relation on the blocks. */
  datatype Call = Alloc(request: uint16) | Free(header: int)

  ghost predicate Step(bs: seq<Block>, call: Call, bs': seq<Block>) {
    match call
    case Alloc(request) =>
      || (NoneFits(bs, Rounded(request)) && bs' == bs)
      || exists k: nat :: k < |bs| && IsBest(bs, Rounded(request), k) && bs' == Take(bs, k, Rounded(request))
    case Free(header) =>
      exists k: nat :: k < |bs| && !bs[k].free && bs[k].addr == header && bs' == Release(bs, k)
  }

  /** Every call keeps the heap well formed. */
  lemma StepKeeps(bs: seq<Block>, call: Call, bs': seq<Block>, lo: int, hi: int)
    requires WellFormed(bs, lo, hi) && Step(bs, call, bs')
    ensures WellFormed(bs', lo, hi)
    ensures call.Free? ==> call.header in InUse(bs) && InUse(bs') == InUse(bs) - {call.header}
    ensures call.Alloc? ==> InUse(bs) <= InUse(bs')
  {
    hide Tiles, Coalesced, Take, Release;
    match call
    case Alloc(request) =>
      if !(NoneFits(bs, Rounded(request)) && bs' == bs) {
        var k: nat :| k < |bs| && IsBest(bs, Rounded(request), k) && bs' == Take(bs, k, Rounded(request));
        TakeKeeps(bs, lo, hi, k, Rounded(request));
        TakeInUse(bs, lo, hi, k, Rounded(request));
      }
    case Free(header) =>
      var k: nat :| k < |bs| && !bs[k].free && bs[k].addr == header && bs' == Release(bs, k);
      ReleaseKeeps(bs, lo, hi, k);
      ReleaseInUse(bs, lo, hi, k);
      InUseIff(bs, header);
  }

  /** A block in use is neither moved nor resized by any call but the one that gives it back. */
  lemma StepKeepsUsed(bs: seq<Block>, call: Call, bs': seq<Block>, i: nat)
    requires Step(bs, call, bs') && i < |bs| && !bs[i].free
    requires call.Free? ==> bs[i].addr != call.header
    ensures bs[i] in bs'
  {
    match call
    case Alloc(request) =>
      if !(NoneFits(bs, Rounded(request)) && bs' == bs) {
        var k: nat :| k < |bs| && IsBest(bs, Rounded(request), k) && bs' == Take(bs, k, Rounded(request));
        assert bs'[if i < k || |bs'| == |bs| then i else i + 1] == bs[i];
      }
    case Free(header) =>
      var k: nat :| k < |bs| && !bs[k].free && bs[k].addr == header && bs' == Release(bs, k);
      var a := Freed(bs, k);
      var j := MergedRightKept(a, k, i);
      MergedLeftKept(MergedRight(a, k), k, j);
  }

  lemma MergedRightKept(bs: seq<Block>, k: nat, i: nat) returns (j: nat)
    requires k < |bs| && i < |bs| && !bs[i].free && bs[k].free
    ensures j < |MergedRight(bs, k)| && MergedRight(bs, k)[j] == bs[i] && k < |MergedRight(bs, k)|
  {
    j := if k + 1 < |bs| && bs[k + 1].free && i > k then i - 1 else i;
  }

  lemma MergedLeftKept(bs: seq<Block>, k: nat, i: nat)
    requires k < |bs| && i < |bs| && !bs[i].free && bs[k].free
    ensures bs[i] in MergedLeft(bs, k)
  {
    var j := if 0 < k && bs[k - 1].free && i >= k then i - 1 else i;
    assert MergedLeft(bs, k)[j] == bs[i];
  }

  /** Any run of calls: states[i] is the heap before the i-th call. */
  ghost predicate Run(states: seq<seq<Block>>, calls: seq<Call>) {
    |states| == |calls| + 1 &&
    forall i :: 0 <= i < |calls| ==> Step(states[i], calls[i], states[i + 1])
  }

  /** From memoryInit on, no run of calls loses, gains or overlaps a byte. */
  lemma {:induction false} EveryRunConserves(states: seq<seq<Block>>, calls: seq<Call>, lo: int, hi: int, n: nat)
    requires Run(states, calls) && states[0] == Initial(lo, hi) && lo + HEADER <= hi && n <= |calls|
    ensures WellFormed(states[n], lo, hi) && Total(states[n]) == hi - lo
    ensures InUse(states[n]) == {} ==> states[n] == states[0]
  {
    if n > 0 {
      EveryRunConserves(states, calls, lo, hi, n - 1);
      assert Step(states[n - 1], calls[n - 1], states[n]);
      StepKeeps(states[n - 1], calls[n - 1], states[n], lo, hi);
    }
    Conservation(states[n], lo, hi);
    if InUse(states[n]) == {} {
      AllFreeIsInitial(states[n], lo, hi);
    }
  }

  // ---------------------------------------------------------------- alignment

  /** All headers and payloads start at even addresses. */
  ghost predicate Aligned(bs: seq<Block>) {
    forall i :: 0 <= i < |bs| ==> bs[i].addr % 2 == 0 && bs[i].size % 2 == 0
  }

  /** In an even region the rounding keeps every block word aligned. */
  lemma StepKeepsAligned(bs: seq<Block>, call: Call, bs': seq<Block>)
    requires Aligned(bs) && Step(bs, call, bs')
    ensures Aligned(bs')
  {
    hide Aligned, Take, Release, Rounded;
    match call
    case Alloc(request) =>
      if !(NoneFits(bs, Rounded(request)) && bs' == bs) {
        var k: nat :| k < |bs| && IsBest(bs, Rounded(request), k) && bs' == Take(bs, k, Rounded(request));
        RoundedServes(request);
        TakeAligned(bs, k, Rounded(request));
      }
    case Free(header) =>
      var k: nat :| k < |bs| && !bs[k].free && bs[k].addr == header && bs' == Release(bs, k);
      ReleaseAligned(bs, k);
  }

  lemma ReleaseAligned(bs: seq<Block>, k: nat)
    requires Aligned(bs) && k < |bs|
    ensures Aligned(Release(bs, k))
  {
    hide Aligned;
    var a := Freed(bs, k);
    assert Aligned(a) by {
      FreedAligned(bs, k);
    }
    if k + 1 < |a| && a[k + 1].free {
      MergeAligned(a, k);
    }
    var b := MergedRight(a, k);
    if 0 < k && b[k - 1].free {
      MergeAligned(b, k - 1);
    }
  }

  lemma FreedAligned(bs: seq<Block>, k: nat)
    requires Aligned(bs) && k < |bs|
    ensures Aligned(Freed(bs, k))
  {
  }

  lemma TakeAligned(bs: seq<Block>, k: nat, size: nat)
    requires Aligned(bs) && k < |bs| && size % 2 == 0
    ensures Aligned(Take(bs, k, size))
  {
    var r := Take(bs, k, size);
    forall i | 0 <= i < |r| ensures r[i].addr % 2 == 0 && r[i].size % 2 == 0 {
      assert i > k + 1 && |r| > |bs| ==> r[i] == bs[i - 1];
    }
  }

  lemma MergeAligned(bs: seq<Block>, k: nat)
    requires Aligned(bs) && k + 1 < |bs|
    ensures Aligned(Merge(bs, k))
  {
    var r := Merge(bs, k);
    forall i | 0 <= i < |r| ensures r[i].addr % 2 == 0 && r[i].size % 2 == 0 {
      assert i > k ==> r[i] == bs[i + 1];
    }
  }

  /** In no run from memoryInit on does a block, and so its payload, lie at an odd address. */
  ghost predicate AlwaysEven(lo: int, hi: int) {
    forall states: seq<seq<Block>>, calls: seq<Call>, n: nat ::
      Run(states, calls) && states[0] == Initial(lo, hi) && n <= |calls| ==>
      forall i :: 0 <= i < |states[n]| ==> states[n][i].addr % 2 == 0
  }

  /** The rounding alone does not align: blocks of a region at an even address keep to even addresses exactly when
      the region's size is even too, or it is too small to ever be split. */
  lemma AlwaysEvenIff(lo: int, hi: int)
    requires lo % 2 == 0 && lo + HEADER <= hi
    ensures AlwaysEven(lo, hi) <==> (hi - lo) % 2 == 0 || hi - lo < 2 * HEADER
  {
    if (hi - lo) % 2 == 0 || hi - lo < 2 * HEADER {
      forall states: seq<seq<Block>>, calls: seq<Call>, n: nat |
        Run(states, calls) && states[0] == Initial(lo, hi) && n <= |calls|
        ensures forall i :: 0 <= i < |states[n]| ==> states[n][i].addr % 2 == 0
      {
        if (hi - lo) % 2 == 0 {
          RunKeepsAligned(states, calls, n);
        } else {
          RunKeepsSingle(states, calls, lo, hi, n);
        }
      }
    } else {
      OddRegionMisaligns(lo, hi);
      var states, calls := [Initial(lo, hi), Take(Initial(lo, hi), 0, 0)], [Alloc(0)];
      assert Run(states, calls) && states[1][1].addr % 2 == 1;
    }
  }

  lemma {:induction false} RunKeepsAligned(states: seq<seq<Block>>, calls: seq<Call>, n: nat)
    requires Run(states, calls) && n <= |calls| && Aligned(states[0])
    ensures Aligned(states[n])
  {
    hide Aligned, Step;
    if n > 0 {
      RunKeepsAligned(states, calls, n - 1);
      StepKeepsAligned(states[n - 1], calls[n - 1], states[n]);
    }
  }

  /** A region too small to be split is handed out whole or not at all. */
  lemma {:induction false} RunKeepsSingle(states: seq<seq<Block>>, calls: seq<Call>, lo: int, hi: int, n: nat)
    requires Run(states, calls) && n <= |calls| && states[0] == Initial(lo, hi) && hi - lo <= 2 * HEADER
    ensures |states[n]| == 1 && states[n][0].addr == lo && states[n][0].size == hi - lo - HEADER
  {
    if n > 0 {
      RunKeepsSingle(states, calls, lo, hi, n - 1);
      assert Step(states[n - 1], calls[n - 1], states[n]);
    }
  }

  /** From any larger region of odd size, the first block handed out may be at an odd address. */
  lemma OddRegionMisaligns(lo: int, hi: int)
    requires lo % 2 == 0 && (hi - lo) % 2 == 1 && hi - lo > 2 * HEADER
    ensures var bs := Initial(lo, hi);
      Step(bs, Alloc(0), Take(bs, 0, 0)) && (Taken(bs, 0, 0) + HEADER) % 2 == 1
  {
    assert IsBest(Initial(lo, hi), Rounded(0), 0);
  }

  /** A run of frees: states[i] is the heap before the i-th call. */
  ghost predicate FreeRun(states: seq<seq<Block>>, headers: seq<int>) {
    |states| == |headers| + 1 &&
    forall i :: 0 <= i < |headers| ==> Step(states[i], Free(headers[i]), states[i + 1])
  }

  /** After giving back every block in use, in any order, the heap is as memoryInit left it. */
  lemma {:induction false} FullRecovery(states: seq<seq<Block>>, headers: seq<int>, lo: int, hi: int)
    requires FreeRun(states, headers) && WellFormed(states[0], lo, hi)
    requires InUse(states[0]) == SetOf(headers)
    ensures states[|headers|] == Initial(lo, hi)
  {
    RunKeeps(states, headers, lo, hi, |headers|);
    assert headers[..|headers|] == headers;
    assert InUse(states[|headers|]) == {};
    AllFreeIsInitial(states[|headers|], lo, hi);
  }

  function SetOf(s: seq<int>): (r: set<int>)
    ensures forall x :: x in r <==> x in s
  {
    set x | x in s
  }

  lemma SetOfSnoc(a: set<int>, s: seq<int>, x: int)
    ensures a - SetOf(s + [x]) == a - SetOf(s) - {x}
  {
  }

  lemma {:induction false} RunKeeps(states: seq<seq<Block>>, headers: seq<int>, lo: int, hi: int, n: nat)
    requires FreeRun(states, headers) && WellFormed(states[0], lo, hi) && n <= |headers|
    ensures WellFormed(states[n], lo, hi)
    ensures InUse(states[n]) == InUse(states[0]) - SetOf(headers[..n])
  {
    hide Tiles, Coalesced, Step, InUse;
    if n > 0 {
      var x := headers[n - 1];
      RunKeeps(states, headers, lo, hi, n - 1);
      StepKeeps(states[n - 1], Free(x), states[n], lo, hi);
      assert headers[..n] == headers[..n - 1] + [x];
      SetOfSnoc(InUse(states[0]), headers[..n - 1], x);
    } else {
      assert headers[..0] == [];
    }
  }
}
