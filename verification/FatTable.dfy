/** A FAT16 volume as blocks: the card under the cache, the mirrored tables, and the chains they hold. */
module FatTable {
  import opened Arith
  import opened Bytes
  import opened Collections

  const END := 0xFFFF
  const END_MIN := 0xFFF8

  type Block = b: seq<byte> | |b| == 512 witness ZeroBlock()
  type Image = seq<Block>

  function ZeroBlock(): (b: seq<byte>)
    ensures |b| == 512
  {
    seq(512, _ => 0)
  }

  /** The fields of FatInfo_t. Cluster sizes are powers of two, so masking and shifting by
      bytesPerClusterShift are remainder and quotient by ClusterSize(). */
  datatype Layout = Layout(
    fatStart: nat,
    sectorsPerFAT: nat,
    numFATs: nat,
    numRootEntries: nat,
    rootDirStart: nat,
    dataStart: nat,
    sectorsPerCluster: nat,
    clusterCount: nat)
  {
    /** A FAT16 volume on a card of cardBlocks blocks: boot sector, tables, root directory and clusters
        in this order, each table long enough for all clusters. Block numbers fit uint16_t and the
        cluster size fits the driver's 16-bit arithmetic. */
    ghost predicate WellFormed(cardBlocks: nat) {
      && 0 < fatStart
      && 0 < numFATs
      && 4085 <= clusterCount < 65525
      && clusterCount + 2 <= 256 * sectorsPerFAT
      && fatStart + sectorsPerFAT <= rootDirStart
      && (numFATs > 1 ==> fatStart + 2 * sectorsPerFAT <= rootDirStart)
      && rootDirStart + (32 * numRootEntries + 511) / 512 <= dataStart
      && 0 < sectorsPerCluster <= 64
      && dataStart + Blocks(clusterCount) <= cardBlocks
      && dataStart + Blocks(clusterCount) <= 0x1_0000
      && cardBlocks <= 0x80_0000
    }

    /** The number of blocks in n clusters. */
    function Blocks(n: nat): nat {
      if n == 0 then 0 else Blocks(n - 1) + sectorsPerCluster
    }

    function ClusterSize(): nat {
      512 * sectorsPerCluster
    }

    /** The index, in a file's chain, of the cluster that holds byte q. */
    function ClusterIndex(q: nat): nat
      requires sectorsPerCluster > 0
    {
      QuotientIsNat(q, ClusterSize());
      q / ClusterSize()
    }

    /** position & bytesPerClusterMask. */
    function ClusterOffset(q: nat): (o: nat)
      requires sectorsPerCluster > 0
      ensures o < ClusterSize()
    {
      q % ClusterSize()
    }

    predicate InFat1(b: int) {
      fatStart <= b < fatStart + sectorsPerFAT
    }

    predicate InFat2(b: int) {
      numFATs > 1 && fatStart + sectorsPerFAT <= b < fatStart + 2 * sectorsPerFAT
    }

    predicate IsCluster(c: int) {
      2 <= c <= clusterCount + 1
    }
  }

  // ---------------------------------------------------------------- the card under the cache

  /** The card overlaid with the cached block. The second FAT has no meaning of its own, so it reads as blank here. */
  function Overlay(L: Layout, disk: seq<Block>, cached: nat, block: Block): (img: Image)
    ensures |img| == |disk|
    ensures forall b :: 0 <= b < |disk| ==>
      img[b] == if L.InFat2(b) then ZeroBlock() else if b == cached then block else disk[b]
  {
    seq(|disk|, b requires 0 <= b < |disk| =>
      if L.InFat2(b) then ZeroBlock() else if b == cached then block else disk[b])
  }

  /** Blocks under the cached one, and blocks of the second FAT, do not show. */
  lemma OverlayUpdate(L: Layout, disk: seq<Block>, n: nat, x: Block, cached: nat, block: Block)
    requires n < |disk| && (n == cached || L.InFat2(n))
    ensures Overlay(L, disk[n := x], cached, block) == Overlay(L, disk, cached, block)
  {
  }

  /** A block that agrees with the card shows through whether it is cached or not. */
  lemma OverlayClean(L: Layout, a: seq<Block>, cached: nat, block: Block, cached': nat, block': Block)
    requires cached < |a| ==> a[cached] == block
    requires cached' < |a| ==> a[cached'] == block'
    ensures Overlay(L, a, cached, block) == Overlay(L, a, cached', block')
  {
  }

  /** Every block of the second FAT equals its original in the first, except the pending one. */
  ghost predicate FatsAgree(L: Layout, disk: seq<Block>, pending: nat)
    requires L.WellFormed(|disk|)
  {
    L.numFATs > 1 ==>
      forall b {:trigger L.InFat1(b)} :: L.InFat1(b) ==>
        pending == b + L.sectorsPerFAT || disk[b + L.sectorsPerFAT] == disk[b]
  }

  /** Writing a block keeps the tables in agreement if the block is outside them, or its copy is pending,
      or it is the pending copy. */
  lemma FatsAgreeUpdate(L: Layout, disk: seq<Block>, n: nat, x: Block, pending: nat)
    requires L.WellFormed(|disk|) && n < |disk| && FatsAgree(L, disk, pending)
    requires L.InFat1(n) ==> pending == n + L.sectorsPerFAT
    requires L.InFat2(n) ==> pending == n
    ensures FatsAgree(L, disk[n := x], pending)
  {
  }

  lemma FatsAgreePending(L: Layout, disk: seq<Block>, pending: nat, pending': nat)
    requires L.WellFormed(|disk|) && FatsAgree(L, disk, pending) && (pending == 0 || pending == pending')
    ensures FatsAgree(L, disk, pending')
  {
  }

  /** Once the pending copy is written, nothing is pending. */
  lemma FatsAgreeDone(L: Layout, disk: seq<Block>, n: nat)
    requires L.WellFormed(|disk|) && L.InFat1(n) && L.numFATs > 1
    requires FatsAgree(L, disk, n + L.sectorsPerFAT) && disk[n + L.sectorsPerFAT] == disk[n]
    ensures FatsAgree(L, disk, 0)
  {
  }

  function PutBytes(img: Image, b: nat, off: nat, data: seq<byte>): (r: Image)
    requires b < |img| && off + |data| <= 512
    ensures |r| == |img|
  {
    img[b := img[b][..off] + data + img[b][off + |data|..]]
  }

  lemma PutBytesAt(img: Image, b: nat, off: nat, data: seq<byte>)
    requires b < |img| && off + |data| <= 512
    ensures var r := PutBytes(img, b, off, data);
      && (forall i :: 0 <= i < |img| && i != b ==> r[i] == img[i])
      && (forall j :: 0 <= j < 512 ==> r[b][j] == if off <= j < off + |data| then data[j - off] else img[b][j])
  {
  }

  /** Changing bytes of the cached block changes the same bytes of the overlaid card. */
  lemma OverlayPut(L: Layout, disk: seq<Block>, n: nat, a: Block, b: Block, off: nat, data: seq<byte>)
    requires n < |disk| && off + |data| <= 512
    requires forall j :: 0 <= j < 512 ==> b[j] == if off <= j < off + |data| then data[j - off] else a[j]
    ensures Overlay(L, disk, n, b)
      == if L.InFat2(n) then Overlay(L, disk, n, a) else PutBytes(Overlay(L, disk, n, a), n, off, data)
  {
    if !L.InFat2(n) {
      var x, y := Overlay(L, disk, n, b), PutBytes(Overlay(L, disk, n, a), n, off, data);
      forall i | 0 <= i < |disk| ensures x[i] == y[i] {
        if i == n {
          assert x[n] == b;
        }
      }
    }
  }

  // ---------------------------------------------------------------- the file allocation table

  function FatEntry(L: Layout, img: Image, c: nat): uint16
    requires L.WellFormed(|img|) && c <= L.clusterCount + 1
  {
    var b := img[L.fatStart + c / 256];
    FromLe16(b[2 * (c % 256)], b[2 * (c % 256) + 1])
  }

  function PutFat(L: Layout, img: Image, c: nat, v: uint16): (r: Image)
    requires L.WellFormed(|img|) && c <= L.clusterCount + 1
    ensures |r| == |img|
  {
    PutBytes(img, L.fatStart + c / 256, 2 * (c % 256), ToLe16(v))
  }

  lemma PutFatEntry(L: Layout, img: Image, c: nat, v: uint16, c': nat)
    requires L.WellFormed(|img|) && c <= L.clusterCount + 1 && c' <= L.clusterCount + 1
    ensures FatEntry(L, PutFat(L, img, c, v), c') == if c' == c then v else FatEntry(L, img, c')
  {
  }

  /** Entry c of the table is two bytes, the low one first, 256 entries to a block. */
  ghost predicate EntryIs(L: Layout, img: Image, c: nat, v: int)
    requires L.WellFormed(|img|) && c <= L.clusterCount + 1
  {
    var block: seq<int>, o := img[L.fatStart + c / 256], 2 * (c % 256);
    v == block[o] + 0x100 * block[o + 1]
  }

  lemma FatEntryIs(L: Layout, img: Image, c: nat)
    requires L.WellFormed(|img|) && c <= L.clusterCount + 1
    ensures EntryIs(L, img, c, FatEntry(L, img, c))
  {
  }

  /** Byte j of block i is one of those two bytes. */
  predicate InTableEntry(L: Layout, c: nat, i: int, j: int) {
    i == L.fatStart + c / 256 && j / 2 == c % 256
  }

  /** Setting an entry sets those two bytes and no other byte of the card. */
  lemma PutFatBytes(L: Layout, img: Image, c: nat, v: uint16)
    requires L.WellFormed(|img|) && c <= L.clusterCount + 1
    ensures var r := PutFat(L, img, c, v);
      && EntryIs(L, r, c, v)
      && forall i, j :: 0 <= i < |img| && 0 <= j < 512 && !InTableEntry(L, c, i, j) ==> r[i][j] == img[i][j]
  {
    PutFatEntry(L, img, c, v, c);
    FatEntryIs(L, PutFat(L, img, c, v), c);
    hide FatEntry;
    PutBytesAt(img, L.fatStart + c / 256, 2 * (c % 256), ToLe16(v));
  }

  /** A chain: each cluster's entry names the next one and the last entry is an end mark. */
  ghost predicate IsChain(L: Layout, img: Image, ch: seq<int>)
    requires L.WellFormed(|img|)
  {
    && (forall i :: 0 <= i < |ch| ==> L.IsCluster(ch[i]))
    && (forall i :: 0 <= i < |ch| - 1 ==> FatEntry(L, img, ch[i]) == ch[i + 1])
    && (|ch| > 0 ==> FatEntry(L, img, ch[|ch| - 1]) >= END_MIN)
  }

  /** On the card: clusters count from 2, two bytes name the next one, and FFF8 to FFFF end the chain. */
  lemma ChainOnCard(L: Layout, img: Image, ch: seq<int>)
    requires L.WellFormed(|img|)
    ensures IsChain(L, img, ch) <==>
      && (forall i :: 0 <= i < |ch| ==> 2 <= ch[i] < L.clusterCount + 2)
      && (forall i :: 0 <= i < |ch| - 1 ==> EntryIs(L, img, ch[i], ch[i + 1]))
      && (ch != [] ==> IsEnd(L, img, ch[|ch| - 1]))
  {
    hide EntryIs, FatEntry, IsEnd, Layout.WellFormed;
    if forall i :: 0 <= i < |ch| ==> 2 <= ch[i] < L.clusterCount + 2 {
      forall i | 0 <= i < |ch|
        ensures forall v :: EntryIs(L, img, ch[i], v) <==> v == FatEntry(L, img, ch[i])
        ensures IsEnd(L, img, ch[i]) <==> FatEntry(L, img, ch[i]) >= END_MIN
      {
        OneEntry(L, img, ch[i]);
      }
    }
  }

  ghost predicate IsEnd(L: Layout, img: Image, c: nat)
    requires L.WellFormed(|img|) && c <= L.clusterCount + 1
  {
    exists v :: 0xFFF8 <= v <= 0xFFFF && EntryIs(L, img, c, v)
  }

  lemma OneEntry(L: Layout, img: Image, c: nat)
    requires L.WellFormed(|img|) && c <= L.clusterCount + 1
    ensures forall v :: EntryIs(L, img, c, v) <==> v == FatEntry(L, img, c)
    ensures IsEnd(L, img, c) <==> FatEntry(L, img, c) >= END_MIN
  {
    FatEntryIs(L, img, c);
    hide FatEntry;
  }

  /** A chain is determined by the table and ends, so it cannot come back to a cluster. */
  lemma {:induction false} NoReturn(L: Layout, img: Image, ch: seq<int>, i: nat, j: nat)
    requires L.WellFormed(|img|) && IsChain(L, img, ch)
    requires i < j < |ch|
    ensures ch[i] != ch[j]
    decreases |ch| - j
  {
    assert FatEntry(L, img, ch[i]) == ch[i + 1] && L.IsCluster(ch[i + 1]);
    if j + 1 < |ch| {
      NoReturn(L, img, ch, i + 1, j + 1);
    }
  }

  lemma ChainIsAcyclic(L: Layout, img: Image, ch: seq<int>)
    requires L.WellFormed(|img|) && IsChain(L, img, ch)
    ensures Distinct(ch)
  {
    forall i, j | 0 <= i < j < |ch| ensures ch[i] != ch[j] {
      NoReturn(L, img, ch, i, j);
    }
  }

  lemma NoChain(L: Layout, img: Image)
    requires L.WellFormed(|img|)
    ensures IsChain(L, img, [])
  {
  }

  lemma ChainStep(L: Layout, img: Image, ch: seq<int>, i: nat)
    requires L.WellFormed(|img|) && IsChain(L, img, ch) && i < |ch|
    ensures L.IsCluster(ch[i])
    ensures if i + 1 < |ch| then FatEntry(L, img, ch[i]) == ch[i + 1] else FatEntry(L, img, ch[i]) >= END_MIN
  {
  }

  ghost predicate Disjoint(a: seq<int>, b: seq<int>) {
    forall i, j :: 0 <= i < |a| && 0 <= j < |b| ==> a[i] != b[j]
  }

  /** Every file's clusters form a chain, and no two files share a cluster. */
  ghost predicate Volume(L: Layout, img: Image, files: map<nat, seq<int>>)
    requires L.WellFormed(|img|)
  {
    && (forall d :: d in files ==> d < L.numRootEntries && IsChain(L, img, files[d]))
    && (forall d, e :: d in files && e in files && d != e ==> Disjoint(files[d], files[e]))
  }
}
