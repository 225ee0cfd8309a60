/** What the blocks mean to files: the bytes of a chain, how chains grow, directory slots, and the driver's 16-bit
    sums. */
module FatFiles {
  import opened Arith
  import opened Bytes
  import opened Collections
  import opened FatTable

  // ---------------------------------------------------------------- bytes of a file

  lemma {:induction false} BlocksIsProduct(L: Layout, n: nat)
    ensures L.Blocks(n) == n * L.sectorsPerCluster
  {
    if n > 0 {
      BlocksIsProduct(L, n - 1);
      assert n * L.sectorsPerCluster == (n - 1) * L.sectorsPerCluster + L.sectorsPerCluster;
    }
  }

  lemma {:induction false} BlocksMono(L: Layout, m: nat, n: nat)
    requires m < n
    ensures L.Blocks(m) + L.sectorsPerCluster <= L.Blocks(n)
  {
    if m < n - 1 {
      BlocksMono(L, m, n - 1);
    }
  }

  /** Block i of cluster c. */
  function DataBlock(L: Layout, c: nat, i: nat): (b: nat)
    requires L.IsCluster(c) && i < L.sectorsPerCluster
    ensures L.dataStart <= b < L.dataStart + L.Blocks(L.clusterCount)
  {
    BlocksMono(L, c - 2, L.clusterCount);
    L.dataStart + L.Blocks(c - 2) + i
  }

  lemma DataBlockInjective(L: Layout, c: nat, i: nat, c': nat, i': nat)
    requires L.IsCluster(c) && i < L.sectorsPerCluster && L.IsCluster(c') && i' < L.sectorsPerCluster
    ensures DataBlock(L, c, i) == DataBlock(L, c', i') <==> c == c' && i == i'
  {
    if c < c' {
      BlocksMono(L, c - 2, c' - 2);
    } else if c' < c {
      BlocksMono(L, c' - 2, c - 2);
    }
  }

  ghost predicate InRange(L: Layout, ch: seq<int>) {
    forall i :: 0 <= i < |ch| ==> L.IsCluster(ch[i])
  }

  function Capacity(L: Layout, ch: seq<int>): nat {
    512 * L.Blocks(|ch|)
  }

  lemma CapacityMono(L: Layout, ch: seq<int>, ch': seq<int>)
    requires |ch| <= |ch'|
    ensures Capacity(L, ch) <= Capacity(L, ch')
  {
    if |ch| < |ch'| {
      BlocksMono(L, |ch|, |ch'|);
    }
  }

  /** Splitting a position at the cluster size and then at the block size, as the driver does, is
      splitting its 512-byte slot number at the number of blocks in a cluster. */
  lemma SplitPosition(s: nat, q: nat)
    requires 0 < s
    ensures q / (512 * s) == q / 512 / s && q % (512 * s) / 512 == q / 512 % s && q % (512 * s) % 512 == q % 512
  {
    var a, i, r := q / 512 / s, q / 512 % s, q % 512;
    assert q == a * (512 * s) + (512 * i + r) by {
      assert q / 512 == a * s + i;
      assert 512 * (a * s) == a * (512 * s);
    }
    QuotientUnique(512 * s, a, 512 * i + r, q);
  }

  lemma SlotBound(L: Layout, n: nat, q: nat)
    requires 0 < L.sectorsPerCluster && q < 512 * L.Blocks(n)
    ensures q / 512 / L.sectorsPerCluster < n
  {
    BlocksIsProduct(L, n);
    QuotientBound(L.sectorsPerCluster, n, q / 512);
  }

  /** The card block that holds byte q of a file with chain ch. */
  function Sector(L: Layout, ch: seq<int>, q: nat): (b: nat)
    requires L.sectorsPerCluster > 0 && InRange(L, ch) && q < Capacity(L, ch)
    ensures L.dataStart <= b < L.dataStart + L.Blocks(L.clusterCount)
  {
    SlotBound(L, |ch|, q);
    DataBlock(L, ch[q / 512 / L.sectorsPerCluster], q / 512 % L.sectorsPerCluster)
  }

  function ByteAt(L: Layout, img: Image, ch: seq<int>, q: nat): byte
    requires L.WellFormed(|img|) && InRange(L, ch) && q < Capacity(L, ch)
  {
    img[Sector(L, ch, q)][q % 512]
  }

  /** The first n bytes of the file with chain ch. */
  function Content(L: Layout, img: Image, ch: seq<int>, n: nat): (s: seq<byte>)
    requires L.WellFormed(|img|) && InRange(L, ch) && n <= Capacity(L, ch)
    ensures |s| == n
    ensures forall q :: 0 <= q < n ==> s[q] == ByteAt(L, img, ch, q)
  {
    seq(n, q requires 0 <= q < n => ByteAt(L, img, ch, q))
  }

  lemma SlotInjective(L: Layout, ch: seq<int>, a: nat, i: nat, a': nat, i': nat)
    requires InRange(L, ch) && Distinct(ch)
    requires a < |ch| && a' < |ch| && i < L.sectorsPerCluster && i' < L.sectorsPerCluster
    ensures DataBlock(L, ch[a], i) == DataBlock(L, ch[a'], i') <==> a == a' && i == i'
  {
    DataBlockInjective(L, ch[a], i, ch[a'], i');
  }

  lemma SlotFromParts(s: nat, a: nat, i: nat, a': nat, i': nat)
    requires i < s && i' < s
    ensures a * s + i == a' * s + i' <==> a == a' && i == i'
  {
    QuotientUnique(s, a, i, a * s + i);
    QuotientUnique(s, a', i', a' * s + i');
  }

  lemma SectorParts(L: Layout, ch: seq<int>, q: nat) returns (a: nat, i: nat)
    requires L.sectorsPerCluster > 0 && InRange(L, ch) && q < Capacity(L, ch)
    ensures a < |ch| && i < L.sectorsPerCluster && Sector(L, ch, q) == DataBlock(L, ch[a], i)
    ensures a * L.sectorsPerCluster + i == q / 512
  {
    SlotBound(L, |ch|, q);
    a, i := q / 512 / L.sectorsPerCluster, q / 512 % L.sectorsPerCluster;
  }

  /** Bytes of one file share a block only if they share a 512-byte slot. */
  lemma SectorInjective(L: Layout, ch: seq<int>, q: nat, q': nat)
    requires L.sectorsPerCluster > 0 && InRange(L, ch) && Distinct(ch)
    requires q < Capacity(L, ch) && q' < Capacity(L, ch)
    ensures Sector(L, ch, q) == Sector(L, ch, q') <==> q / 512 == q' / 512
  {
    var a, i := SectorParts(L, ch, q);
    var a', i' := SectorParts(L, ch, q');
    SlotInjective(L, ch, a, i, a', i');
    SlotFromParts(L.sectorsPerCluster, a, i, a', i');
  }

  /** The driver finds a byte by splitting its position at the cluster size and then at the block size. */
  lemma SectorAt(L: Layout, ch: seq<int>, q: nat, k: nat, o: nat)
    requires L.sectorsPerCluster > 0 && InRange(L, ch) && q < Capacity(L, ch)
    requires k == L.ClusterIndex(q) && o == L.ClusterOffset(q)
    ensures k < |ch| && o / 512 < L.sectorsPerCluster
    ensures Sector(L, ch, q) == DataBlock(L, ch[k], o / 512) && o % 512 == q % 512
  {
    assert k < |ch| && o / 512 < L.sectorsPerCluster && o % 512 == q % 512 &&
      k == q / 512 / L.sectorsPerCluster && o / 512 == q / 512 % L.sectorsPerCluster by {
      SplitPosition(L.sectorsPerCluster, q);
      SlotBound(L, |ch|, q);
    }
  }

  /** Where byte q of a file is: in which cluster of its chain, in which of the cluster's blocks, and at which byte. */
  lemma SectorIs(L: Layout, ch: seq<int>, q: nat)
    requires 0 < L.sectorsPerCluster && InRange(L, ch) && q < Capacity(L, ch)
    ensures var s := L.sectorsPerCluster;
      && q / (512 * s) < |ch|
      && Sector(L, ch, q) == L.dataStart + (ch[q / (512 * s)] - 2) * s + q % (512 * s) / 512
  {
    SectorAt(L, ch, q, L.ClusterIndex(q), L.ClusterOffset(q));
    BlocksIsProduct(L, ch[L.ClusterIndex(q)] - 2);
  }

  lemma SectorDisjoint(L: Layout, ch: seq<int>, ch': seq<int>, q: nat, q': nat)
    requires L.sectorsPerCluster > 0 && InRange(L, ch) && InRange(L, ch') && Disjoint(ch, ch')
    requires q < Capacity(L, ch) && q' < Capacity(L, ch')
    ensures Sector(L, ch, q) != Sector(L, ch', q')
  {
    var a, i := SectorParts(L, ch, q);
    var a', i' := SectorParts(L, ch', q');
    DataBlockInjective(L, ch[a], i, ch'[a'], i');
  }

  lemma IndexBound(L: Layout, ch: seq<int>, q: nat)
    requires L.sectorsPerCluster > 0 && q < Capacity(L, ch)
    ensures L.ClusterIndex(q) < |ch|
  {
    SplitPosition(L.sectorsPerCluster, q);
    SlotBound(L, |ch|, q);
  }

  // ---------------------------------------------------------------- what changes leave alone

  /** Both images hold the same first FAT. */
  ghost predicate SameFat(L: Layout, a: Image, b: Image) {
    |a| == |b| && forall i :: 0 <= i < |a| && L.InFat1(i) ==> a[i] == b[i]
  }

  lemma ChainFrame(L: Layout, a: Image, b: Image, ch: seq<int>)
    requires L.WellFormed(|a|) && |a| == |b| && IsChain(L, a, ch)
    requires forall i :: 0 <= i < |ch| ==> FatEntry(L, a, ch[i]) == FatEntry(L, b, ch[i])
    ensures IsChain(L, b, ch)
  {
  }

  lemma VolumeFrame(L: Layout, a: Image, b: Image, files: map<nat, seq<int>>)
    requires L.WellFormed(|a|) && SameFat(L, a, b) && Volume(L, a, files)
    ensures Volume(L, b, files)
    ensures forall c :: 0 <= c <= L.clusterCount + 1 ==> FatEntry(L, a, c) == FatEntry(L, b, c)
  {
    forall c | 0 <= c <= L.clusterCount + 1 ensures FatEntry(L, a, c) == FatEntry(L, b, c) {
      assert L.InFat1(L.fatStart + c / 256);
    }
  }

  /** Writing part of one 512-byte slot of a file changes exactly those bytes of that file. */
  lemma PutBytesContent(L: Layout, img: Image, ch: seq<int>, p: nat, data: seq<byte>, q: nat)
    requires L.WellFormed(|img|) && InRange(L, ch) && Distinct(ch)
    requires p < Capacity(L, ch) && p % 512 + |data| <= 512 && q < Capacity(L, ch)
    ensures ByteAt(L, PutBytes(img, Sector(L, ch, p), p % 512, data), ch, q)
         == if p <= q < p + |data| then data[q - p] else ByteAt(L, img, ch, q)
  {
    hide Sector, Layout.Blocks;
    SectorInjective(L, ch, p, q);
  }

  // ---------------------------------------------------------------- chain growth

  /** The table after fatFsAllocateCluster linked cluster f behind cur (0: the file had no cluster). */
  function Linked(L: Layout, img: Image, cur: nat, f: nat): (r: Image)
    requires L.WellFormed(|img|) && f <= L.clusterCount + 1 && cur <= L.clusterCount + 1
    ensures |r| == |img|
  {
    if cur == 0 then PutFat(L, img, f, END) else PutFat(L, PutFat(L, img, f, END), cur, f)
  }

  /** A free cluster is in no chain. */
  lemma FreeNotInChain(L: Layout, img: Image, ch: seq<int>, f: nat)
    requires L.WellFormed(|img|) && IsChain(L, img, ch) && L.IsCluster(f) && FatEntry(L, img, f) == 0
    ensures f !in ch
  {
    forall i | 0 <= i < |ch| ensures ch[i] != f {
      if i < |ch| - 1 {
        assert FatEntry(L, img, ch[i]) == ch[i + 1] && L.IsCluster(ch[i + 1]);
      }
    }
  }

  function LastOrZero(ch: seq<int>): int {
    if ch == [] then 0 else ch[|ch| - 1]
  }

  /** The table after linking, entry by entry. */
  ghost predicate IsLinked(L: Layout, a: Image, b: Image, cur: nat, f: nat)
    requires L.WellFormed(|a|) && |b| == |a|
  {
    forall c: nat :: c <= L.clusterCount + 1 ==>
      FatEntry(L, b, c) == if c == f then END else if cur != 0 && c == cur then f else FatEntry(L, a, c)
  }

  lemma LinkedEntries(L: Layout, img: Image, cur: nat, f: nat)
    requires L.WellFormed(|img|) && f <= L.clusterCount + 1 && cur <= L.clusterCount + 1 && cur != f
    ensures IsLinked(L, img, Linked(L, img, cur, f), cur, f)
  {
    forall c: nat | c <= L.clusterCount + 1
      ensures FatEntry(L, Linked(L, img, cur, f), c)
           == if c == f then END else if cur != 0 && c == cur then f else FatEntry(L, img, c)
    {
      PutFatEntry(L, img, f, END, c);
      if cur != 0 {
        PutFatEntry(L, PutFat(L, img, f, END), cur, f, c);
      }
    }
  }

  /** Linking a free cluster behind a file's last one extends that file's chain by it ... */
  /** ... and byte by byte: the new cluster's entry is FF FF, the old one's is the new cluster. */
  lemma LinkedBytes(L: Layout, img: Image, cur: nat, f: nat)
    requires L.WellFormed(|img|) && f <= L.clusterCount + 1 && cur <= L.clusterCount + 1
    ensures var r := Linked(L, img, cur, f);
      (cur != f ==> EntryIs(L, r, f, 0xFFFF)) && (cur != 0 ==> EntryIs(L, r, cur, f))
  {
    hide FatEntry, EntryIs;
    var r := Linked(L, img, cur, f);
    if cur != f {
      LinkedEntries(L, img, cur, f);
    } else if cur != 0 {
      PutFatEntry(L, PutFat(L, img, f, END), cur, f, cur);
    }
    FatEntryIs(L, r, f);
    FatEntryIs(L, r, cur);
  }

  lemma LinkedChain(L: Layout, a: Image, b: Image, ch: seq<int>, f: nat)
    requires L.WellFormed(|a|) && |b| == |a| && IsChain(L, a, ch)
    requires L.IsCluster(f) && f !in ch && IsLinked(L, a, b, LastOrZero(ch), f)
    ensures IsChain(L, b, ch + [f])
  {
    ChainIsAcyclic(L, a, ch);
    var r := ch + [f];
    forall i | 0 <= i < |r| - 1 ensures FatEntry(L, b, r[i]) == r[i + 1] {
      assert L.IsCluster(ch[i]);
      if i < |ch| - 1 {
        assert FatEntry(L, a, ch[i]) == ch[i + 1];
      }
    }
  }

  /** The chains after file d grew by cluster f. */
  function Grown(files: map<nat, seq<int>>, d: nat, f: int): map<nat, seq<int>> {
    if d in files then files[d := files[d] + [f]] else files
  }

  /** ... and keeps every other chain, so the volume stays a set of disjoint chains. */
  lemma AllocationVolume(L: Layout, img: Image, files: map<nat, seq<int>>, d: nat, f: nat)
    requires L.WellFormed(|img|) && Volume(L, img, files) && d in files
    requires L.IsCluster(f) && FatEntry(L, img, f) == 0
    ensures 0 <= LastOrZero(files[d]) <= L.clusterCount + 1
    ensures Volume(L, Linked(L, img, LastOrZero(files[d]), f), Grown(files, d, f))
  {
    FreeNotInChain(L, img, files[d], f);
    LinkedEntries(L, img, LastOrZero(files[d]), f);
    LinkedVolume(L, img, Linked(L, img, LastOrZero(files[d]), f), files, d, f);
  }

  lemma LinkedVolume(L: Layout, a: Image, b: Image, files: map<nat, seq<int>>, d: nat, f: nat)
    requires L.WellFormed(|a|) && |b| == |a| && Volume(L, a, files) && d in files
    requires L.IsCluster(f) && FatEntry(L, a, f) == 0 && IsLinked(L, a, b, LastOrZero(files[d]), f)
    ensures Volume(L, b, Grown(files, d, f))
  {
    hide FatEntry, Layout.WellFormed;
    var ch := files[d];
    var files' := Grown(files, d, f);
    forall e | e in files ensures f !in files[e] {
      FreeNotInChain(L, a, files[e], f);
    }
    LinkedChain(L, a, b, ch, f);
    forall e | e in files && e != d ensures IsChain(L, b, files[e]) {
      assert Disjoint(ch, files[e]);
      ChainFrame(L, a, b, files[e]);
    }
    forall e, g | e in files' && g in files' && e != g ensures Disjoint(files'[e], files'[g]) {
      assert Disjoint(files[e], files[g]);
    }
  }

  /** No cluster is free. */
  ghost predicate VolumeFull(L: Layout, img: Image)
    requires L.WellFormed(|img|)
  {
    forall c: nat :: L.IsCluster(c) ==> FatEntry(L, img, c) != 0
  }

  /** Marking a free cluster touches no chain. */
  lemma PutFreeVolume(L: Layout, img: Image, files: map<nat, seq<int>>, f: nat, v: uint16)
    requires L.WellFormed(|img|) && Volume(L, img, files) && L.IsCluster(f) && FatEntry(L, img, f) == 0
    ensures Volume(L, PutFat(L, img, f, v), files)
  {
    var img' := PutFat(L, img, f, v);
    forall d | d in files ensures IsChain(L, img', files[d]) {
      FreeNotInChain(L, img, files[d], f);
      forall i | 0 <= i < |files[d]| ensures FatEntry(L, img, files[d][i]) == FatEntry(L, img', files[d][i]) {
        PutFatEntry(L, img, f, v, files[d][i]);
      }
      ChainFrame(L, img, img', files[d]);
    }
  }

  /** Where the allocation scan starts: behind the file's current cluster, or behind cluster 1 for a new file. */
  function ScanStart(L: Layout, cur: nat): nat {
    if cur == 0 then 1 else if cur <= L.clusterCount then cur else L.clusterCount + 1
  }

  /** The k-th cluster the allocation scan looks at. */
  function Probe(L: Layout, start: nat, k: nat): (c: nat)
    requires 1 <= start <= L.clusterCount + 1 && k < L.clusterCount
    ensures L.IsCluster(c)
  {
    if start - 1 + k < L.clusterCount then 2 + (start - 1 + k) else 2 + (start - 1 + k) - L.clusterCount
  }

  /** One round of the scan looks at every cluster exactly once. */
  lemma ProbeBijective(L: Layout, start: nat)
    requires 1 <= start <= L.clusterCount + 1
    ensures forall j, k :: 0 <= j < k < L.clusterCount ==> Probe(L, start, j) != Probe(L, start, k)
    ensures forall c: nat :: L.IsCluster(c) ==>
      exists k :: 0 <= k < L.clusterCount && Probe(L, start, k) == c
  {
    forall c: nat | L.IsCluster(c)
      ensures exists k :: 0 <= k < L.clusterCount && Probe(L, start, k) == c
    {
      var k := if c > start then c - start - 1 else c - start - 1 + L.clusterCount;
      assert Probe(L, start, k) == c;
    }
  }

  /** How far the scan goes from cluster s, around the end of the volume, until it looks at cluster c. */
  function Distance(L: Layout, s: nat, c: nat): int {
    if s < c then c - s else c - s + L.clusterCount
  }

  /** f is the free cluster that comes next behind cluster cur, or behind cluster 1 for a new file. */
  ghost predicate NextFree(L: Layout, img: Image, cur: nat, f: nat)
    requires L.WellFormed(|img|)
  {
    var s := if 0 < cur <= L.clusterCount + 1 then cur else 1;
    && L.IsCluster(f) && FatEntry(L, img, f) == 0
    && forall c: nat :: L.IsCluster(c) && FatEntry(L, img, c) == 0 ==> Distance(L, s, f) <= Distance(L, s, c)
  }

  /** The first free cluster the scan meets is the next one. */
  lemma FirstProbedIsNext(L: Layout, img: Image, cur: nat, n: nat)
    requires L.WellFormed(|img|) && n < L.clusterCount
    requires FatEntry(L, img, Probe(L, ScanStart(L, cur), n)) == 0
    requires forall k: nat :: k < n ==> FatEntry(L, img, Probe(L, ScanStart(L, cur), k)) != 0
    ensures NextFree(L, img, cur, Probe(L, ScanStart(L, cur), n))
  {
    hide FatEntry, Layout.WellFormed;
    var start := ScanStart(L, cur);
    ClustersExist(L, img);
    ProbeBijective(L, start);
    forall c: nat | L.IsCluster(c) && FatEntry(L, img, c) == 0
      ensures exists k: nat :: k < L.clusterCount && Probe(L, start, k) == c && n <= k
    {
      var k :| 0 <= k < L.clusterCount && Probe(L, start, k) == c;
    }
  }

  lemma ClustersExist(L: Layout, img: Image)
    requires L.WellFormed(|img|)
    ensures 4085 <= L.clusterCount
  {
  }

  // ---------------------------------------------------------------- the root directory

  /** Byte offset, inside its block, of the start-cluster field of directory slot d; the size field follows it. */
  function SlotOffset(d: nat): nat {
    32 * (d % 16) + 26
  }

  function SlotBlock(L: Layout, d: nat): nat {
    L.rootDirStart + d / 16
  }

  function DirStart(L: Layout, img: Image, d: nat): uint16
    requires L.WellFormed(|img|) && d < L.numRootEntries
  {
    var b, o := img[SlotBlock(L, d)], SlotOffset(d);
    FromLe16(b[o], b[o + 1])
  }

  function DirSize(L: Layout, img: Image, d: nat): uint32
    requires L.WellFormed(|img|) && d < L.numRootEntries
  {
    var b, o := img[SlotBlock(L, d)], SlotOffset(d);
    FromLe32(b[o + 2], b[o + 3], b[o + 4], b[o + 5])
  }

  function PutDir(L: Layout, img: Image, d: nat, start: uint16, size: uint32): (r: Image)
    requires L.WellFormed(|img|) && d < L.numRootEntries
    ensures |r| == |img|
  {
    PutBytes(img, SlotBlock(L, d), SlotOffset(d), ToLe16(start) + ToLe32(size))
  }

  /** Entry d of the root directory, 32 bytes long, holds a start cluster at bytes 26 and 27 and a size at bytes 28
      to 31, low bytes first. */
  ghost predicate EntryHolds(L: Layout, img: Image, d: nat, start: uint16, size: uint32)
    requires L.WellFormed(|img|) && d < L.numRootEntries
  {
    var block: seq<int>, e := img[L.rootDirStart + d / 16], 32 * (d % 16);
    && start == block[e + 26] + 0x100 * block[e + 27]
    && size == block[e + 28] + 0x100 * block[e + 29] + 0x1_0000 * block[e + 30] + 0x100_0000 * block[e + 31]
  }

  /** Byte j of block i is one of those six bytes of entry d. */
  predicate InEntry(L: Layout, d: nat, i: int, j: int) {
    i == L.rootDirStart + d / 16 && 26 <= j - 32 * (d % 16) < 32
  }

  /** Updating a slot sets those six bytes and no other byte of the card. */
  lemma PutDirBytes(L: Layout, img: Image, d: nat, start: uint16, size: uint32)
    requires L.WellFormed(|img|) && d < L.numRootEntries
    ensures var r := PutDir(L, img, d, start, size);
      && EntryHolds(L, r, d, start, size)
      && forall i, j :: 0 <= i < |img| && 0 <= j < 512 && !InEntry(L, d, i, j) ==> r[i][j] == img[i][j]
  {
    hide Layout.WellFormed;
    SlotInDirectory(L, img, d);
    var o, data := SlotOffset(d), ToLe16(start) + ToLe32(size);
    PutBytesAt(img, SlotBlock(L, d), o, data);
    var r := PutDir(L, img, d, start, size);
    assert r == PutBytes(img, SlotBlock(L, d), o, data);
    hide PutBytes;
    var b := r[SlotBlock(L, d)];
    assert b[o] == data[0] && b[o + 1] == data[1] && b[o + 2] == data[2];
    assert b[o + 3] == data[3] && b[o + 4] == data[4] && b[o + 5] == data[5];
    LowFirst(start, size, data);
  }

  lemma LowFirst(start: uint16, size: uint32, s: seq<int>)
    requires s == ToLe16(start) + ToLe32(size)
    ensures |s| == 6 && start == s[0] + 0x100 * s[1]
    ensures size == s[2] + 0x100 * s[3] + 0x1_0000 * s[4] + 0x100_0000 * s[5]
  {
    hide ToLe16, ToLe32;
    var x, y := ToLe16(start), ToLe32(size);
    assert FromLe16(x[0], x[1]) == start && FromLe32(y[0], y[1], y[2], y[3]) == size;
  }

  lemma SlotInDirectory(L: Layout, img: Image, d: nat)
    requires L.WellFormed(|img|) && d < L.numRootEntries
    ensures L.rootDirStart <= L.rootDirStart + d / 16 < L.dataStart <= |img|
  {
  }

  /** Updating a slot sets its two fields, keeps every other slot, and touches neither table nor data. */
  lemma PutDirFrame(L: Layout, img: Image, d: nat, start: uint16, size: uint32)
    requires L.WellFormed(|img|) && d < L.numRootEntries
    ensures var r := PutDir(L, img, d, start, size);
      && DirStart(L, r, d) == start && DirSize(L, r, d) == size
      && (forall e :: 0 <= e < L.numRootEntries && e != d ==>
            DirStart(L, r, e) == DirStart(L, img, e) && DirSize(L, r, e) == DirSize(L, img, e))
      && (forall b :: 0 <= b < |img| && b != SlotBlock(L, d) ==> r[b] == img[b])
      && SameFat(L, img, r)
  {
    PutBytesAt(img, SlotBlock(L, d), SlotOffset(d), ToLe16(start) + ToLe32(size));
    hide PutBytes;
  }

  // ---------------------------------------------------------------- 16-bit arithmetic of the driver

  /** The block number fatFsRead and fatFsWrite compute, in uint16_t steps. */
  function BlockNumber16(L: Layout, cluster: uint16, offsetInCluster: nat): uint16 {
    (L.dataStart + (cluster - 2) % 0x1_0000 * L.sectorsPerCluster % 0x1_0000 + offsetInCluster / 512) % 0x1_0000
  }

  /** It is the right block exactly when that block's number fits 16 bits. */
  lemma BlockNumberExact(L: Layout, cluster: uint16, offsetInCluster: nat)
    requires L.IsCluster(cluster)
    ensures BlockNumber16(L, cluster, offsetInCluster) == L.dataStart + L.Blocks(cluster - 2) + offsetInCluster / 512
      <==> L.dataStart + L.Blocks(cluster - 2) + offsetInCluster / 512 < 0x1_0000
  {
    BlocksIsProduct(L, cluster - 2);
  }

  /** A size the driver computes for a file of `size` bytes after writing n bytes at position p. */
  function GrownSize(size: nat, p: nat, n: nat): nat
    requires p <= size
  {
    var beforeEnd := (size - p) % 0x1_0000;
    if beforeEnd < n then size + n - beforeEnd else size
  }

  function Max(a: nat, b: nat): nat {
    if a < b then b else a
  }

  /** The distance to the end of the file survives truncation to uint16_t, or does not matter. */
  predicate SizeTracks(size: nat, p: nat, n: nat)
    requires p <= size
  {
    size - p < 0x1_0000 || n <= (size - p) % 0x1_0000
  }

  lemma GrownSizeExact(size: nat, p: nat, n: nat)
    requires p <= size && n <= 512
    ensures GrownSize(size, p, n) == Max(size, p + n) <==> SizeTracks(size, p, n)
  {
  }

  /** Writing 10 bytes at the start of a 64 KiB file makes the driver record 10 bytes too many. */
  lemma GrownSizeWrong()
    ensures GrownSize(0x1_0000, 0, 10) == 0x1_000A
  {
  }
}
