/** The heap allocator: best fit over a circular, address-sorted free list, with coalescing on free. */
module Heap {
  import opened Bytes
  import opened Collections
  import opened HeapSpec
  import opened FreeLinks

  const NULL := 0

  /** Every block's header is in memory with the block's size. */
  ghost predicate Sized(mem: Memory, bs: seq<Block>) {
    forall i :: 0 <= i < |bs| ==> bs[i].addr in mem && mem[bs[i].addr].size == bs[i].size
  }

  function First(fl: seq<int>): int {
    if fl == [] then NULL else fl[0]
  }

  /** Memory and list head stand for the row of blocks bs. */
  ghost predicate Represents(mem: Memory, freelist: int, bs: seq<Block>, lo: int, hi: int) {
    && 0 < lo && hi <= 0x1_0000
    && WellFormed(bs, lo, hi)
    && Sized(mem, bs)
    && Linked(mem, Frees(bs))
    && freelist == First(Frees(bs))
  }

  /** The list is sorted by address. */
  lemma FreesSorted(bs: seq<Block>, lo: int, hi: int, i: nat, j: nat)
    requires Tiles(bs, lo, hi) && i < j < |Frees(bs)|
    ensures Frees(bs)[i] < Frees(bs)[j]
  {
    var k := FreesSound(bs, i);
    var l := FreesSound(bs, j);
    if l < k {
      assert bs[..k][..l] == bs[..l];
      FreesPrefix(bs[..k], l);
    }
    TilesUnique(bs, lo, hi, k, l);
    if k < l {
      TilesSorted(bs, lo, hi, k, l);
    }
  }

  lemma FreesPrefix(bs: seq<Block>, l: nat)
    requires l <= |bs|
    ensures |Frees(bs[..l])| <= |Frees(bs)|
  {
    assert bs == bs[..l] + bs[l..];
    FreesConcat(bs[..l], bs[l..]);
  }

  lemma FreesDistinct(bs: seq<Block>, lo: int, hi: int)
    requires Tiles(bs, lo, hi)
    ensures Distinct(Frees(bs))
  {
    forall i, j | 0 <= i < j < |Frees(bs)| ensures Frees(bs)[i] != Frees(bs)[j] {
      FreesSorted(bs, lo, hi, i, j);
    }
  }

  // ---------------------------------------------------------------- allocation, on memory

  /** memoryAlloc's removal of a whole node. */
  function RemoveNode(mem: Memory, best: int): Memory
    requires best in mem && mem[best].prev in mem && mem[best].next in mem
  {
    if mem[best].prev == best then mem else Unlink(mem, best)
  }

  lemma NodeFacts(mem: Memory, freelist: int, bs: seq<Block>, lo: int, hi: int, k: nat)
    requires Represents(mem, freelist, bs, lo, hi) && k < |bs| && bs[k].free
    ensures var fl, j, b := Frees(bs), Rank(bs, k), bs[k].addr;
      && j < |fl| && fl[j] == b && b in mem
      && mem[b].size == bs[k].size
      && mem[b].next == fl[Succ(j, |fl|)] && mem[b].prev == fl[Pred(j, |fl|)]
      && mem[b].next in mem && mem[b].prev in mem
      && (mem[b].prev == b <==> |fl| == 1)
      && (freelist == b <==> j == 0)
  {
    FreesAtRank(bs, k);
    FreesDistinct(bs, lo, hi);
    var fl, j := Frees(bs), Rank(bs, k);
    assert LinkedAt(mem, fl, j) && LinkedAt(mem, fl, Succ(j, |fl|)) && LinkedAt(mem, fl, Pred(j, |fl|));
    DistinctAt(fl, j, Pred(j, |fl|));
    DistinctAt(fl, j, 0);
  }

  lemma TakeAllRepresents(mem: Memory, freelist: int, bs: seq<Block>, lo: int, hi: int, k: nat)
    requires Represents(mem, freelist, bs, lo, hi) && k < |bs| && bs[k].free
    ensures var b := bs[k].addr;
      && b in mem && mem[b].prev in mem && mem[b].next in mem
      && var fl' := if mem[b].prev == b then NULL else if freelist == b then mem[b].next else freelist;
      Represents(RemoveNode(mem, b), fl', TakeAll(bs, k), lo, hi)
  {
    NodeFacts(mem, freelist, bs, lo, hi, k);
    UseKeeps(bs, lo, hi, k);
    TakeAllFrees(bs, k);
    FreesDistinct(bs, lo, hi);
    if |Frees(bs)| >= 2 {
      UnlinkLinked(mem, Frees(bs), Rank(bs, k));
    }
    SizedAfterUse(mem, RemoveNode(mem, bs[k].addr), bs, k);
  }

  lemma SizedAfterUse(a: Memory, b: Memory, bs: seq<Block>, k: nat)
    requires Sized(a, bs) && SameSizes(a, b) && k < |bs|
    ensures Sized(b, TakeAll(bs, k))
  {
  }

  lemma TakeTailRepresents(mem: Memory, freelist: int, bs: seq<Block>, lo: int, hi: int, k: nat, size: uint16, p: int,
      n: int)
    requires Represents(mem, freelist, bs, lo, hi) && k < |bs| && bs[k].free && size + HEADER < bs[k].size
    ensures var b, t := bs[k].addr, bs[k].addr + bs[k].size - size;
      && b in mem && mem[b].size == bs[k].size
      && Represents(SetSize(mem, b, mem[b].size - (size + HEADER))[t := Node(size, p, n)], freelist,
        TakeTail(bs, k, size), lo, hi)
  {
    NodeFacts(mem, freelist, bs, lo, hi, k);
    SplitKeeps(bs, lo, hi, k, size);
    TakeTailFrees(bs, k, size);
    var b, t := bs[k].addr, bs[k].addr + bs[k].size - size;
    var mem' := SetSize(mem, b, mem[b].size - (size + HEADER))[t := Node(size, p, n)];
    forall i | 0 <= i < |bs| ensures bs[i].addr != t && (i != k ==> bs[i].addr != b) {
      TilesUnique(bs, lo, hi, i, k);
      if i < k {
        TilesSorted(bs, lo, hi, i, k);
      } else if k < i {
        TilesSorted(bs, lo, hi, k, i);
      }
    }
    SizedAfterSplit(mem, mem', bs, k, size);
    NotListed(bs, t);
    LinkedFrame(mem, mem', Frees(bs));
  }

  lemma SizedAfterSplit(a: Memory, b: Memory, bs: seq<Block>, k: nat, size: uint16)
    requires Sized(a, bs) && k < |bs| && size + HEADER < bs[k].size
    requires forall i :: 0 <= i < |bs| && i != k ==> bs[i].addr in b && b[bs[i].addr].size == a[bs[i].addr].size
    requires bs[k].addr in b && b[bs[k].addr].size == bs[k].size - size - HEADER
    requires bs[k].addr + bs[k].size - size in b && b[bs[k].addr + bs[k].size - size].size == size
    ensures Sized(b, TakeTail(bs, k, size))
  {
    var r := TakeTail(bs, k, size);
    forall i | 0 <= i < |r| ensures r[i].addr in b && b[r[i].addr].size == r[i].size {
      if i < k {
        assert r[i] == bs[i];
      } else if i > k + 1 {
        assert r[i] == bs[i - 1];
      }
    }
  }

  /** An address that is no block's is not in the list. */
  lemma NotListed(bs: seq<Block>, t: int)
    requires forall i :: 0 <= i < |bs| && bs[i].free ==> bs[i].addr != t
    ensures t !in Frees(bs)
  {
    forall j | 0 <= j < |Frees(bs)| ensures Frees(bs)[j] != t {
      var k := FreesSound(bs, j);
    }
  }

  /** Best among the list entries is best among the blocks. */
  lemma BestOfList(mem: Memory, freelist: int, bs: seq<Block>, lo: int, hi: int, size: nat, best: int, b: nat)
    returns (k: nat)
    requires Represents(mem, freelist, bs, lo, hi) && b < |Frees(bs)| && best == Frees(bs)[b]
    requires ListScanned(mem, Frees(bs), size, best, b, |Frees(bs)|)
    ensures k < |bs| && IsBest(bs, size, k) && bs[k].addr == best
  {
    k := FreesSound(bs, b);
    NodeFacts(mem, freelist, bs, lo, hi, k);
    forall j | 0 <= j < |bs| && bs[j].free && size <= bs[j].size
      ensures bs[k].size <= bs[j].size && (j < k ==> bs[k].size < bs[j].size)
    {
      NodeFacts(mem, freelist, bs, lo, hi, j);
      RankMono(bs, j, k);
    }
  }

  lemma RankMono(bs: seq<Block>, j: nat, k: nat)
    requires j < |bs| && k < |bs| && bs[j].free
    ensures j < k ==> Rank(bs, j) < Rank(bs, k)
  {
    if j < k {
      assert bs[..k][..j] == bs[..j];
      FreesAtRank(bs[..k], j);
    }
  }

  lemma NoneInList(mem: Memory, freelist: int, bs: seq<Block>, lo: int, hi: int, size: nat)
    requires Represents(mem, freelist, bs, lo, hi)
    requires forall j :: 0 <= j < |Frees(bs)| ==> Frees(bs)[j] in mem && mem[Frees(bs)[j]].size < size
    ensures NoneFits(bs, size)
  {
    forall j | 0 <= j < |bs| && bs[j].free ensures bs[j].size < size {
      NodeFacts(mem, freelist, bs, lo, hi, j);
    }
  }

  /** Of the first i list entries, entry b is the best fit, found first. */
  ghost predicate ListScanned(mem: Memory, fl: seq<int>, size: nat, best: int, b: nat, i: nat)
    requires b < i <= |fl|
  {
    && best == fl[b] && best in mem && size <= mem[best].size
    && (forall j :: 0 <= j < i && fl[j] in mem && size <= mem[fl[j]].size ==> mem[best].size <= mem[fl[j]].size)
    && (forall j :: 0 <= j < b && fl[j] in mem && size <= mem[fl[j]].size ==> mem[best].size < mem[fl[j]].size)
  }

  // ---------------------------------------------------------------- freeing, on memory

  /** combine: node b, which follows a, becomes part of a. */
  function Combined(mem: Memory, a: int, b: int): Memory
    requires a in mem && b in mem && mem[b].next in mem && mem[b].prev == a
  {
    var m := Unlink(mem, b);
    SetSize(m, a, (m[a].size + m[b].size + HEADER) % 0x1_0000)
  }

  /** The free list after the node of block k was put into it. */
  function Inserted(mem: Memory, freelist: int, region: int, current: int): Memory
    requires region in mem && (freelist != NULL ==> current in mem && mem[current].prev in mem)
  {
    if freelist == NULL then SetPrev(SetNext(mem, region, region), region, region)
    else InsertBefore(mem, current, region)
  }

  lemma FreedTiles(bs: seq<Block>, lo: int, hi: int, k: nat)
    requires Tiles(bs, lo, hi) && k < |bs|
    ensures Tiles(Freed(bs, k), lo, hi)
  {
  }

  /** Like Represents, but blocks k - 1, k and k + 1 need not be coalesced yet. */
  ghost predicate Pending(mem: Memory, freelist: int, bs: seq<Block>, lo: int, hi: int) {
    && 0 < lo && hi <= 0x1_0000
    && Tiles(bs, lo, hi)
    && Sized(mem, bs)
    && Linked(mem, Frees(bs))
    && freelist == First(Frees(bs))
  }

  lemma InsertedPending(mem: Memory, freelist: int, bs: seq<Block>, lo: int, hi: int, k: nat, current: int)
    requires Represents(mem, freelist, bs, lo, hi) && k < |bs| && !bs[k].free
    requires var fl, j := Frees(bs), Rank(bs, k); fl != [] ==> current == fl[if j < |fl| then j else 0]
    ensures var region := bs[k].addr;
      && region in mem && (freelist != NULL ==> current in mem && mem[current].prev in mem)
      && Pending(Inserted(mem, freelist, region, current),
           if freelist == NULL || region < freelist then region else freelist, Freed(bs, k), lo, hi)
  {
    var region, fl, j := bs[k].addr, Frees(bs), Rank(bs, k);
    FreedFrees(bs, k);
    FreedTiles(bs, lo, hi, k);
    FreesDistinct(bs, lo, hi);
    FirstIsLowest(bs, lo, hi, k);
    forall i | 0 <= i < |bs| && bs[i].free ensures bs[i].addr != region {
      TilesUnique(bs, lo, hi, i, k);
    }
    NotListed(bs, region);
    if fl != [] {
      InsertLinked(mem, fl, j, region);
    } else {
      assert With(fl, j, region) == [region];
    }
    SizedAfterFree(mem, Inserted(mem, freelist, region, current), bs, k);
  }

  lemma SizedAfterFree(a: Memory, b: Memory, bs: seq<Block>, k: nat)
    requires Sized(a, bs) && SameSizes(a, b) && k < |bs|
    ensures Sized(b, Freed(bs, k))
  {
  }

  /** A used block lies below the whole list exactly when its rank is 0, and NULL is no block. */
  lemma FirstIsLowest(bs: seq<Block>, lo: int, hi: int, k: nat)
    requires Tiles(bs, lo, hi) && 0 < lo && k < |bs| && !bs[k].free
    ensures Rank(bs, k) <= |Frees(bs)|
    ensures Frees(bs) != [] ==> First(Frees(bs)) != NULL && (bs[k].addr < Frees(bs)[0] <==> Rank(bs, k) == 0)
  {
    FreesUsed(bs, k);
    if Frees(bs) != [] {
      var f := FreesSound(bs, 0);
      TilesInRegion(bs, lo, hi, f);
      ListPosition(bs, lo, hi, k, 0);
    }
  }

  /** List entry i lies below used block k exactly when i is less than the block's rank. */
  lemma ListPosition(bs: seq<Block>, lo: int, hi: int, k: nat, i: nat)
    requires Tiles(bs, lo, hi) && k < |bs| && !bs[k].free && i < |Frees(bs)|
    ensures Frees(bs)[i] < bs[k].addr <==> i < Rank(bs, k)
    ensures Frees(bs)[i] != bs[k].addr
  {
    var f := FreesSound(bs, i);
    TilesUnique(bs, lo, hi, f, k);
    if f < k {
      TilesSorted(bs, lo, hi, f, k);
      assert bs[..k][..f] == bs[..f];
      FreesAtRank(bs[..k], f);
    } else {
      TilesSorted(bs, lo, hi, k, f);
      assert bs[..f][..k] == bs[..k];
      FreesPrefix(bs[..f], k);
    }
  }

  lemma PendingNode(mem: Memory, freelist: int, bs: seq<Block>, lo: int, hi: int, k: nat)
    requires Pending(mem, freelist, bs, lo, hi) && k < |bs| && bs[k].free
    ensures var fl, j, b := Frees(bs), Rank(bs, k), bs[k].addr;
      && j < |fl| && fl[j] == b && b in mem && mem[b].size == bs[k].size
      && mem[b].next == fl[Succ(j, |fl|)] && mem[b].prev == fl[Pred(j, |fl|)]
      && mem[b].next in mem && mem[b].prev in mem
  {
    FreesAtRank(bs, k);
    var fl, j := Frees(bs), Rank(bs, k);
    assert LinkedAt(mem, fl, j) && LinkedAt(mem, fl, Succ(j, |fl|)) && LinkedAt(mem, fl, Pred(j, |fl|));
  }

  /** The node behind block k in the list starts where block k ends exactly when the next block is free. */
  lemma NextAdjacent(mem: Memory, freelist: int, bs: seq<Block>, lo: int, hi: int, k: nat)
    requires Pending(mem, freelist, bs, lo, hi) && k < |bs| && bs[k].free
    ensures bs[k].addr in mem
    ensures mem[bs[k].addr].next == bs[k].End() <==> k + 1 < |bs| && bs[k + 1].free
  {
    PendingNode(mem, freelist, bs, lo, hi, k);
    var fl, j := Frees(bs), Rank(bs, k);
    if k + 1 < |bs| && bs[k + 1].free {
      FreesAtRank(bs, k + 1);
      FreesNextRank(bs, k);
    } else {
      var f := FreesSound(bs, Succ(j, |fl|));
      if f <= k {
        TilesInRegion(bs, lo, hi, k);
        if f < k {
          TilesSorted(bs, lo, hi, f, k);
        }
      } else {
        TilesSorted(bs, lo, hi, k + 1, f);
      }
    }
  }

  lemma FreesNextRank(bs: seq<Block>, k: nat)
    requires k < |bs| && bs[k].free
    ensures Rank(bs, k + 1) == Rank(bs, k) + 1
  {
    assert bs[..k + 1] == bs[..k] + [bs[k]];
    FreesConcat(bs[..k], [bs[k]]);
  }

  /** The node before block k in the list ends where block k starts exactly when the previous block is free. */
  lemma PrevAdjacent(mem: Memory, freelist: int, bs: seq<Block>, lo: int, hi: int, k: nat)
    requires Pending(mem, freelist, bs, lo, hi) && k < |bs| && bs[k].free
    ensures bs[k].addr in mem && mem[bs[k].addr].prev in mem
    ensures var p := mem[bs[k].addr].prev;
      (p == bs[k].addr - mem[p].size - HEADER <==> 0 < k && bs[k - 1].free)
      && (0 < k && bs[k - 1].free ==> p == bs[k - 1].addr)
  {
    PendingNode(mem, freelist, bs, lo, hi, k);
    var fl, j := Frees(bs), Rank(bs, k);
    if 0 < k && bs[k - 1].free {
      FreesAtRank(bs, k - 1);
      FreesNextRank(bs, k - 1);
      assert bs[k - 1].End() == bs[k].addr;
    } else {
      var f := FreesSound(bs, Pred(j, |fl|));
      if f < k - 1 {
        TilesSorted(bs, lo, hi, f, k - 1);
        assert bs[k - 1].End() == bs[k].addr;
      } else if k < f {
        TilesSorted(bs, lo, hi, k, f);
      }
    }
  }

  /** Joining two free neighbours, in memory and in the row. */
  lemma CombinedPending(mem: Memory, freelist: int, bs: seq<Block>, lo: int, hi: int, k: nat)
    requires Pending(mem, freelist, bs, lo, hi) && k + 1 < |bs| && bs[k].free && bs[k + 1].free
    ensures var a, b := bs[k].addr, bs[k + 1].addr;
      && a in mem && b in mem && mem[b].next in mem && mem[b].prev == a && mem[a].next == b
      && Pending(Combined(mem, a, b), freelist, Merge(bs, k), lo, hi)
  {
    PendingNode(mem, freelist, bs, lo, hi, k);
    PendingNode(mem, freelist, bs, lo, hi, k + 1);
    FreesNextRank(bs, k);
    MergeFrees(bs, k);
    MergeTiles(bs, lo, hi, k);
    FreesDistinct(bs, lo, hi);
    TilesInRegion(bs, lo, hi, k);
    TilesInRegion(bs, lo, hi, k + 1);
    var a, b, fl := bs[k].addr, bs[k + 1].addr, Frees(bs);
    UnlinkLinked(mem, fl, Rank(bs, k + 1));
    var mem' := Combined(mem, a, b);
    assert bs[k].End() == b;
    SizedAfterMerge(mem, mem', bs, lo, hi, k);
    var w := Without(fl, Rank(bs, k) + 1);
    forall i | 0 <= i < |w| ensures SameLinks(Unlink(mem, b), mem', w[i]) {
    }
    LinkedFrame(Unlink(mem, b), mem', w);
  }

  lemma SizedAfterMerge(a: Memory, b: Memory, bs: seq<Block>, lo: int, hi: int, k: nat)
    requires Sized(a, bs) && Tiles(bs, lo, hi) && k + 1 < |bs|
    requires forall x :: x in a && x != bs[k].addr ==> x in b && b[x].size == a[x].size
    requires bs[k].addr in b && b[bs[k].addr].size == bs[k].size + bs[k + 1].size + HEADER
    ensures Sized(b, Merge(bs, k))
  {
    var r := Merge(bs, k);
    forall i | 0 <= i < |r| ensures r[i].addr in b && b[r[i].addr].size == r[i].size {
      if i != k {
        var o := if i < k then i else i + 1;
        assert r[i] == bs[o];
        TilesUnique(bs, lo, hi, o, k);
      }
    }
  }

  // ---------------------------------------------------------------- the allocator

  class Allocator {
    var mem: Memory
    var freelist: int
    /** The address space's bytes, as far as flagBlock writes them. */
    const bytes: array<byte>
    ghost const lo: int
    ghost const hi: int
    ghost var blocks: seq<Block>

    ghost predicate Valid()
      reads this
    {
      Represents(mem, freelist, blocks, lo, hi) && bytes.Length == 0x1_0000
    }

    /** memoryInit: one free block that fills the region. */
    constructor (region: uint16, size: uint16, stale: Memory)
      requires 0 < region && HEADER <= size && region + size <= 0x1_0000
      ensures Valid() && lo == region && hi == region + size
      ensures blocks == Initial(lo, hi) && fresh(bytes)
    {
      mem := stale[region := Node(size - HEADER, region, region)];
      freelist := region;
      bytes := new byte[0x1_0000];
      lo, hi := region, region + size;
      blocks := [Block(region, size - HEADER, true)];
      new;
      assert Frees(blocks) == [region];
    }

    /** The scan of memoryAlloc for the best fitting node. */
    method FindBest(size: uint16) returns (best: int, ghost k: nat)
      requires Valid() && freelist != NULL
      ensures best == NULL ==> NoneFits(blocks, size)
      ensures best != NULL ==> IsBest(blocks, size, k) && blocks[k].addr == best
    {
      ghost var fl := Frees(blocks);
      var current := freelist;
      best, k := NULL, 0;
      ghost var i, b := 0, 0;
      while true
        invariant 0 <= i < |fl| && current == fl[i]
        invariant best == NULL ==> forall j :: 0 <= j < i ==> fl[j] in mem && mem[fl[j]].size < size
        invariant best != NULL ==> b < i && ListScanned(mem, fl, size, best, b, i)
        decreases |fl| - i
      {
        assert LinkedAt(mem, fl, i);
        ListedAddress(mem, freelist, blocks, lo, hi, i);
        if mem[current].size >= size {
          if best == NULL {
            best, b := current, i;
          } else if mem[current].size < mem[best].size {
            best, b := current, i;
          }
        }
        current := mem[current].next;
        i := i + 1;
        if current == freelist {
          break;
        }
      }
      if best == NULL {
        NoneInList(mem, freelist, blocks, lo, hi, size);
      } else {
        k := BestOfList(mem, freelist, blocks, lo, hi, size, best, b);
      }
    }

    /** flagBlock: marks the payload for later analysis. */
    method FlagBlock(n: int)
      requires bytes.Length == 0x1_0000 && n in mem && 0 <= n && n + HEADER + mem[n].size <= 0x1_0000
      modifies bytes
      ensures forall a :: 0 <= a < 0x1_0000 ==>
        bytes[a] == if n + HEADER <= a < n + HEADER + mem[n].size then 0xEF else old(bytes[a])
    {
      var ptr := n + HEADER;
      var index := 0;
      while index < mem[n].size
        invariant 0 <= index <= mem[n].size
        invariant forall a :: 0 <= a < 0x1_0000 ==>
          bytes[a] == if ptr <= a < ptr + index then 0xEF else old(bytes[a])
      {
        bytes[ptr + index] := 0xEF;
        index := index + 1;
      }
    }

    /** memoryAlloc. NULL only when no free block holds the request, rounded up to an even number; otherwise the best
        fit: all of it if the rest could not hold another block, else its end. At most one header's worth is wasted.
        Exactly the payload handed out is flagged. */
    method MemoryAlloc(request: uint16) returns (p: int, ghost k: nat)
      requires Valid()
      modifies `mem, `freelist, `blocks, bytes
      ensures Valid() && Step(old(blocks), Alloc(request), blocks)
      ensures p == NULL ==>
        NoneFits(old(blocks), Rounded(request)) && blocks == old(blocks) && bytes[..] == old(bytes[..])
      ensures p != NULL ==> IsBest(old(blocks), Rounded(request), k) && blocks == Take(old(blocks), k, Rounded(request))
      ensures p != NULL ==> p == Taken(old(blocks), k, Rounded(request)) + HEADER && p - HEADER in mem
      ensures p != NULL ==> Rounded(request) <= mem[p - HEADER].size <= Rounded(request) + HEADER
      ensures request != 0xFFFF ==>
        var n := request + request % 2;
        && (p == NULL <==> NoneFits(old(blocks), n))
        && (p != NULL ==>
              && IsBest(old(blocks), n, k)
              && var b := old(blocks)[k];
              if b.size <= n + HEADER
              then p == b.addr + HEADER && mem[p - HEADER].size == b.size
              else p == b.addr + HEADER + b.size - n && mem[p - HEADER].size == n)
      ensures p != NULL ==> forall a :: 0 <= a < 0x1_0000 ==>
        bytes[a] == if p <= a < p + mem[p - HEADER].size then 0xEF else old(bytes[a])
    {
      hide Represents, TakeAll, TakeTail, IsBest, NoneFits, Frees, WellFormed;
      k := 0;
      RoundedServes(request);
      NoneWhenEmpty(mem, freelist, blocks, lo, hi, Rounded(request));
      if freelist == NULL {
        return NULL, 0;
      }
      var size := Rounded(request);
      var best;
      best, k := FindBest(size);
      if best == NULL {
        return NULL, 0;
      }
      BestFits(blocks, size, k);
      TakeFacts(mem, freelist, blocks, lo, hi, k, size);
      if mem[best].size <= (size + HEADER) % 0x1_0000 {
        if mem[best].prev == best {
          freelist := NULL;
        } else {
          mem := Unlink(mem, best);
        }
        if best == freelist {
          freelist := mem[best].next;
        }
        blocks := TakeAll(blocks, k);
        FlagBlock(best);
        p := best + HEADER;
      } else {
        var current := best + mem[best].size - size;
        var stalePrev, staleNext := *, *;
        TakeTailRepresents(mem, freelist, blocks, lo, hi, k, size, stalePrev, staleNext);
        mem := SetSize(mem, best, mem[best].size - (size + HEADER));
        mem := mem[current := Node(size, stalePrev, staleNext)];
        blocks := TakeTail(blocks, k, size);
        FlagBlock(current);
        p := current + HEADER;
      }
    }

    /** The search of memoryFree for the node to insert the region before. */
    method FindPlace(region: int, ghost k: nat) returns (current: int)
      requires Valid() && freelist != NULL && k < |blocks| && !blocks[k].free && blocks[k].addr == region
      ensures var fl, j := Frees(blocks), Rank(blocks, k);
        fl != [] && current == fl[if j < |fl| then j else 0]
    {
      ghost var fl, j := Frees(blocks), Rank(blocks, k);
      FirstIsLowest(blocks, lo, hi, k);
      ghost var i := 0;
      current := freelist;
      while current < region
        invariant 0 <= i < |fl| && i <= j && current == fl[i]
        decreases |fl| - i
      {
        ListPosition(blocks, lo, hi, k, i);
        ListedAddress(mem, freelist, blocks, lo, hi, i);
        current := mem[current].next;
        if current == freelist {
          break;
        }
        i := i + 1;
      }
      if current >= region {
        ListPosition(blocks, lo, hi, k, i);
      }
    }

    /** combine. */
    method Combine(n1: int, n2: int)
      requires n1 in mem && n2 in mem && mem[n2].next in mem && mem[n2].prev == n1 && n1 != n2
      modifies `mem
      ensures mem == Combined(old(mem), n1, n2)
    {
      mem := SetNext(mem, n1, mem[n2].next);
      mem := SetPrev(mem, mem[n2].next, n1);
      mem := SetSize(mem, n1, (mem[n1].size + mem[n2].size + HEADER) % 0x1_0000);
    }

    /** memoryFree, of the payload of block k, which is in use. */
    method MemoryFree(p: int, ghost k: nat)
      requires Valid() && k < |blocks| && !blocks[k].free && p == blocks[k].addr + HEADER
      modifies `mem, `freelist, `blocks
      ensures Valid() && blocks == Release(old(blocks), k) && Step(old(blocks), Free(p - HEADER), blocks)
    {
      hide Represents, Pending, Frees, Freed, Inserted, Combined, Merge, WellFormed;
      var region := p - HEADER;
      ghost var bs := blocks;
      FreeFacts(mem, freelist, bs, lo, hi, k);
      if freelist == NULL {
        InsertedPending(mem, freelist, bs, lo, hi, k, NULL);
        InsertedIs(mem, freelist, region, NULL);
        freelist := region;
        mem := SetNext(mem, region, region);
        mem := SetPrev(mem, region, region);
      } else {
        var current := FindPlace(region, k);
        InsertedPending(mem, freelist, bs, lo, hi, k, current);
        InsertedIs(mem, freelist, region, current);
        mem := SetNext(mem, region, current);
        mem := SetPrev(mem, region, mem[current].prev);
        mem := SetNext(mem, mem[current].prev, region);
        mem := SetPrev(mem, current, region);
        if region < freelist {
          freelist := region;
        }
      }
      blocks := Freed(bs, k);
      RightFacts(mem, freelist, blocks, lo, hi, k);
      if mem[region].next == region + mem[region].size + HEADER {
        Combine(region, mem[region].next);
      }
      blocks := MergedRight(blocks, k);
      LeftFacts(mem, freelist, blocks, lo, hi, k);
      if mem[region].prev == region - mem[mem[region].prev].size - HEADER {
        Combine(mem[region].prev, region);
      }
      blocks := MergedLeft(blocks, k);
      ReleasedRepresents(mem, freelist, bs, lo, hi, k);
    }
  }

  lemma FreeFacts(mem: Memory, freelist: int, bs: seq<Block>, lo: int, hi: int, k: nat)
    requires Represents(mem, freelist, bs, lo, hi) && k < |bs| && !bs[k].free
    ensures bs[k].addr in mem && (freelist == NULL <==> Frees(bs) == []) && WellFormed(bs, lo, hi)
    ensures |Freed(bs, k)| == |bs| && Freed(bs, k)[k].free && Freed(bs, k)[k].addr == bs[k].addr
  {
    FirstIsLowest(bs, lo, hi, k);
  }

  /** What memoryFree writes, all at once. */
  lemma InsertedIs(mem: Memory, freelist: int, region: int, current: int)
    requires region in mem && (freelist != NULL ==> current in mem && mem[current].prev in mem)
    ensures freelist == NULL ==>
      Inserted(mem, freelist, region, current) == SetPrev(SetNext(mem, region, region), region, region)
    ensures freelist != NULL ==> Inserted(mem, freelist, region, current) == InsertBefore(mem, current, region)
  {
  }

  /** The first adjacency test of memoryFree decides whether the right neighbour is free, and combine joins it. */
  lemma RightFacts(mem: Memory, freelist: int, bs: seq<Block>, lo: int, hi: int, k: nat)
    requires Pending(mem, freelist, bs, lo, hi) && k < |bs| && bs[k].free
    ensures var r := bs[k].addr;
      && r in mem && |MergedRight(bs, k)| > k && MergedRight(bs, k)[k].free && MergedRight(bs, k)[k].addr == r
      && (if mem[r].next == r + mem[r].size + HEADER then
            var n := mem[r].next;
            && n in mem && n != r && mem[n].next in mem && mem[n].prev == r
            && Pending(Combined(mem, r, n), freelist, MergedRight(bs, k), lo, hi)
          else
            Pending(mem, freelist, MergedRight(bs, k), lo, hi))
  {
    PendingNode(mem, freelist, bs, lo, hi, k);
    NextAdjacent(mem, freelist, bs, lo, hi, k);
    if k + 1 < |bs| && bs[k + 1].free {
      CombinedPending(mem, freelist, bs, lo, hi, k);
      TilesUnique(bs, lo, hi, k, k + 1);
    }
  }

  /** The second test, for the left neighbour. */
  lemma LeftFacts(mem: Memory, freelist: int, bs: seq<Block>, lo: int, hi: int, k: nat)
    requires Pending(mem, freelist, bs, lo, hi) && k < |bs| && bs[k].free
    ensures var r := bs[k].addr;
      && r in mem && mem[r].prev in mem
      && var n := mem[r].prev;
        (if n == r - mem[n].size - HEADER then
           && n != r && mem[r].next in mem
           && Pending(Combined(mem, n, r), freelist, MergedLeft(bs, k), lo, hi)
         else
           Pending(mem, freelist, MergedLeft(bs, k), lo, hi))
  {
    PendingNode(mem, freelist, bs, lo, hi, k);
    PrevAdjacent(mem, freelist, bs, lo, hi, k);
    if 0 < k && bs[k - 1].free {
      CombinedPending(mem, freelist, bs, lo, hi, k - 1);
      TilesUnique(bs, lo, hi, k - 1, k);
    }
  }

  lemma ReleasedRepresents(mem: Memory, freelist: int, bs: seq<Block>, lo: int, hi: int, k: nat)
    requires WellFormed(bs, lo, hi) && k < |bs| && !bs[k].free
    requires Pending(mem, freelist, Release(bs, k), lo, hi)
    ensures Represents(mem, freelist, Release(bs, k), lo, hi)
  {
    ReleaseKeeps(bs, lo, hi, k);
  }

  lemma ListedAddress(mem: Memory, freelist: int, bs: seq<Block>, lo: int, hi: int, i: nat)
    requires Represents(mem, freelist, bs, lo, hi) && i < |Frees(bs)|
    ensures Frees(bs)[i] in mem && Frees(bs)[i] != NULL
    ensures mem[Frees(bs)[i]].next == Frees(bs)[Succ(i, |Frees(bs)|)]
    ensures mem[Frees(bs)[i]].next == freelist <==> i + 1 == |Frees(bs)|
  {
    var fl := Frees(bs);
    assert LinkedAt(mem, fl, i);
    var k := FreesSound(bs, i);
    TilesInRegion(bs, lo, hi, k);
    FreesDistinct(bs, lo, hi);
    DistinctAt(fl, 0, Succ(i, |fl|));
  }

  /** NULL is the head of the list only when nothing is free. */
  lemma NoneWhenEmpty(mem: Memory, freelist: int, bs: seq<Block>, lo: int, hi: int, size: nat)
    requires Represents(mem, freelist, bs, lo, hi)
    ensures freelist == NULL ==> NoneFits(bs, size)
  {
    if Frees(bs) != [] {
      ListedAddress(mem, freelist, bs, lo, hi, 0);
    } else {
      NoneInList(mem, freelist, bs, lo, hi, size);
    }
  }

  /** What memoryAlloc may rely on once it has found block k. */
  lemma TakeFacts(mem: Memory, freelist: int, bs: seq<Block>, lo: int, hi: int, k: int, size: uint16)
    requires Represents(mem, freelist, bs, lo, hi) && IsBest(bs, size, k)
    ensures 0 <= k < |bs| && bs[k].free && size <= bs[k].size
    ensures var b := bs[k].addr;
      && b in mem && mem[b].size == bs[k].size && 0 < b && b + HEADER + bs[k].size <= 0x1_0000
      && mem[b].prev in mem && mem[b].next in mem
      && (bs[k].size <= size + HEADER ==>
            Represents(RemoveNode(mem, b),
              if mem[b].prev == b then NULL else if freelist == b then mem[b].next else freelist,
              TakeAll(bs, k), lo, hi)
            && b in RemoveNode(mem, b) && RemoveNode(mem, b)[b].size == bs[k].size
            && (mem[b].prev != b ==> RemoveNode(mem, b)[b].next == mem[b].next))
  {
    NodeFacts(mem, freelist, bs, lo, hi, k);
    TilesInRegion(bs, lo, hi, k);
    if bs[k].size <= size + HEADER {
      TakeAllRepresents(mem, freelist, bs, lo, hi, k);
      UnlinkFields(mem, bs[k].addr, bs[k].addr);
    }
  }

  /** A region of 16 bytes at 0x200 has room for one block of 10, whose payload starts behind a header of 6. */
  method FirstAllocation(stale: Memory) returns (p: int)
    ensures p == 0x206
  {
    hide Represents;
    var heap := new Allocator(0x200, 16, stale);
    ghost var blocks := heap.blocks;
    assert blocks == [Block(0x200, 10, true)];
    assert !NoneFits(blocks, 10) by {
      assert blocks[0].free;
    }
    ghost var k;
    p, k := heap.MemoryAlloc(10);
  }
}
