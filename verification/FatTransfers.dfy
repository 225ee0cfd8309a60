/** What one write or read of the driver does, as relations between images, chains and handles. */
module FatTransfers {
  import opened Arith
  import opened Bytes
  import opened Collections
  import opened FatTable
  import opened FatFiles

  // ---------------------------------------------------------------- writing, as seen in the file

  /** Directory and data blocks are the same. */
  ghost predicate SameData(L: Layout, a: Image, b: Image) {
    |a| == |b| && forall i :: L.rootDirStart <= i < |a| ==> a[i] == b[i]
  }

  ghost predicate FileKept(L: Layout, a: Image, b: Image, ch: seq<int>)
    requires L.WellFormed(|a|) && |a| == |b| && InRange(L, ch)
  {
    forall q :: 0 <= q < Capacity(L, ch) ==> ByteAt(L, b, ch, q) == ByteAt(L, a, ch, q)
  }

  /** b holds data at position p of the file with chain ch and is like a in the rest of that file. */
  ghost predicate Written(L: Layout, a: Image, b: Image, ch: seq<int>, p: nat, data: seq<byte>)
    requires L.WellFormed(|a|) && |a| == |b| && InRange(L, ch)
  {
    forall q :: 0 <= q < Capacity(L, ch) ==>
      ByteAt(L, b, ch, q) == if p <= q < p + |data| then data[q - p] else ByteAt(L, a, ch, q)
  }

  ghost predicate SameSlot(L: Layout, a: Image, b: Image, e: nat)
    requires L.WellFormed(|a|) && |a| == |b| && e < L.numRootEntries
  {
    DirStart(L, a, e) == DirStart(L, b, e) && DirSize(L, a, e) == DirSize(L, b, e)
  }

  /** Every byte of the root directory is the same, but for the start cluster and the size in slot d. */
  ghost predicate SlotsKept(L: Layout, a: Image, b: Image, d: nat)
    requires L.WellFormed(|a|) && |a| == |b|
  {
    forall i, j :: L.rootDirStart <= i < L.dataStart && 0 <= j < 512 && !InEntry(L, d, i, j) ==> a[i][j] == b[i][j]
  }

  /** So every other slot is the same. */
  lemma OtherSlot(L: Layout, a: Image, b: Image, d: nat, e: nat)
    requires L.WellFormed(|a|) && |a| == |b| && SlotsKept(L, a, b, d) && e < L.numRootEntries && e != d
    ensures SameSlot(L, a, b, e)
  {
    SlotInDirectory(L, a, e);
    hide Layout.WellFormed;
    var i, o := SlotBlock(L, e), SlotOffset(e);
    forall j | o <= j < o + 6 ensures a[i][j] == b[i][j] {
      assert !InEntry(L, d, i, j);
    }
  }

  /** Every file but d keeps its chain, its bytes and its directory slot. */
  ghost predicate OthersKept(L: Layout, a: Image, fa: map<nat, seq<int>>, b: Image, fb: map<nat, seq<int>>, d: nat)
    requires L.WellFormed(|a|) && |a| == |b|
  {
    && fa.Keys == fb.Keys
    && SlotsKept(L, a, b, d)
    && forall e :: e in fa && e != d ==> fb[e] == fa[e] && InRange(L, fa[e]) && FileKept(L, a, b, fa[e])
  }

  lemma SameDataRefl(L: Layout, a: Image)
    ensures SameData(L, a, a)
  {
  }

  lemma SameDataKept(L: Layout, a: Image, b: Image, ch: seq<int>)
    requires L.WellFormed(|a|) && SameData(L, a, b) && InRange(L, ch)
    ensures FileKept(L, a, b, ch)
  {
  }

  lemma SlotsKeptIf(L: Layout, a: Image, b: Image, d: nat)
    requires L.WellFormed(|a|) && |a| == |b|
    requires forall i :: L.rootDirStart <= i < L.dataStart ==> a[i] == b[i]
    ensures SlotsKept(L, a, b, d)
  {
  }

  lemma SameDataSlots(L: Layout, a: Image, b: Image, d: nat)
    requires L.WellFormed(|a|) && SameData(L, a, b)
    ensures SlotsKept(L, a, b, d)
  {
    SlotsKeptIf(L, a, b, d);
  }

  lemma LinkedSameData(L: Layout, img: Image, cur: nat, f: nat)
    requires L.WellFormed(|img|) && f <= L.clusterCount + 1 && cur <= L.clusterCount + 1
    ensures SameData(L, img, Linked(L, img, cur, f))
  {
  }

  /** Storing data inside one 512-byte slot of a file changes those bytes ... */
  lemma StoreWritten(L: Layout, a: Image, ch: seq<int>, p: nat, data: seq<byte>)
    requires L.WellFormed(|a|) && InRange(L, ch) && Distinct(ch)
    requires p < Capacity(L, ch) && p % 512 + |data| <= 512
    ensures Written(L, a, PutBytes(a, Sector(L, ch, p), p % 512, data), ch, p, data)
  {
    hide Sector, ByteAt, PutBytes, Distinct, InRange;
    var b := PutBytes(a, Sector(L, ch, p), p % 512, data);
    forall q | 0 <= q < Capacity(L, ch)
      ensures ByteAt(L, b, ch, q) == if p <= q < p + |data| then data[q - p] else ByteAt(L, a, ch, q)
    {
      PutBytesContent(L, a, ch, p, data, q);
    }
  }

  /** ... and neither the table nor any other file. */
  lemma StoreSlot(L: Layout, a: Image, files: map<nat, seq<int>>, d: nat, p: nat, data: seq<byte>)
    requires L.WellFormed(|a|) && Volume(L, a, files) && d in files
    requires p < Capacity(L, files[d]) && p % 512 + |data| <= 512
    ensures var b := PutBytes(a, Sector(L, files[d], p), p % 512, data);
      OthersKept(L, a, files, b, files, d) && Volume(L, b, files)
  {
    var b := PutBytes(a, Sector(L, files[d], p), p % 512, data);
    forall e | e in files && e != d ensures FileKept(L, a, b, files[e]) {
      StoreOther(L, a, files[d], p, data, files[e]);
    }
    VolumeFrame(L, a, b, files);
    SlotsKeptIf(L, a, b, d);
  }

  lemma StoreOther(L: Layout, a: Image, ch: seq<int>, p: nat, data: seq<byte>, other: seq<int>)
    requires L.WellFormed(|a|) && InRange(L, ch) && InRange(L, other) && Disjoint(ch, other)
    requires p < Capacity(L, ch) && p % 512 + |data| <= 512
    ensures FileKept(L, a, PutBytes(a, Sector(L, ch, p), p % 512, data), other)
  {
    forall q | 0 <= q < Capacity(L, other)
      ensures Sector(L, ch, p) != Sector(L, other, q)
    {
      SectorDisjoint(L, ch, other, p, q);
    }
  }

  /** Two stores with only table changes between them are one store. */
  lemma WrittenCompose(L: Layout, a: Image, b: Image, c: Image, e: Image, ch: seq<int>, p: nat, x: seq<byte>,
      y: seq<byte>)
    requires L.WellFormed(|a|) && |a| == |b| == |c| == |e| && InRange(L, ch)
    requires Written(L, a, b, ch, p, x) && SameData(L, b, c) && Written(L, c, e, ch, p + |x|, y)
    ensures Written(L, a, e, ch, p, x + y)
  {
    SameDataKept(L, b, c, ch);
  }

  lemma OthersKeptCompose(L: Layout, a: Image, fa: map<nat, seq<int>>, b: Image, fb: map<nat, seq<int>>,
      c: Image, fc: map<nat, seq<int>>, d: nat)
    requires L.WellFormed(|a|) && |a| == |b| == |c|
    requires OthersKept(L, a, fa, b, fb, d) && OthersKept(L, b, fb, c, fc, d)
    ensures OthersKept(L, a, fa, c, fc, d)
  {
    hide SlotsKept;
    forall e | e in fa && e != d ensures FileKept(L, a, c, fa[e]) {
      assert FileKept(L, a, b, fa[e]) && FileKept(L, b, c, fb[e]);
    }
    SlotsKeptTrans(L, a, b, c, d);
  }

  lemma SlotsKeptTrans(L: Layout, a: Image, b: Image, c: Image, d: nat)
    requires L.WellFormed(|a|) && |a| == |b| == |c| && SlotsKept(L, a, b, d) && SlotsKept(L, b, c, d)
    ensures SlotsKept(L, a, c, d)
  {
  }

  /** The bytes of a file after overwriting from position p on, extending it if needed. */
  function Overwrite(s: seq<byte>, p: nat, data: seq<byte>): (r: seq<byte>)
    requires p <= |s|
    ensures |r| == Max(|s|, p + |data|)
  {
    if p + |data| <= |s| then s[..p] + data + s[p + |data|..] else s[..p] + data
  }

  /** Written, read as file contents. */
  lemma WrittenIsOverwrite(L: Layout, a: Image, b: Image, ch: seq<int>, ch': seq<int>, size: nat, p: nat,
      data: seq<byte>)
    requires L.WellFormed(|a|) && |a| == |b| && InRange(L, ch') && ch <= ch'
    requires p <= size <= Capacity(L, ch) && Max(size, p + |data|) <= Capacity(L, ch')
    requires Written(L, a, b, ch', p, data)
    ensures Content(L, b, ch', Max(size, p + |data|)) == Overwrite(Content(L, a, ch, size), p, data)
  {
    PrefixContent(L, a, ch, ch', size);
    hide ByteAt, Layout.WellFormed, Capacity, Layout.Blocks;
    var r, s := Content(L, b, ch', Max(size, p + |data|)), Overwrite(Content(L, a, ch, size), p, data);
    forall q | 0 <= q < |r| ensures r[q] == s[q] {
      assert r[q] == ByteAt(L, b, ch', q);
    }
  }

  lemma PrefixSector(L: Layout, ch: seq<int>, ch': seq<int>, q: nat)
    requires L.sectorsPerCluster > 0 && InRange(L, ch) && InRange(L, ch') && ch <= ch'
    requires q < Capacity(L, ch)
    ensures q < Capacity(L, ch') && Sector(L, ch, q) == Sector(L, ch', q)
  {
    if |ch| < |ch'| {
      BlocksMono(L, |ch|, |ch'|);
    }
    var a, i := SectorParts(L, ch, q);
    var a', i' := SectorParts(L, ch', q);
    SlotFromParts(L.sectorsPerCluster, a, i, a', i');
    hide Sector, Layout.Blocks, DataBlock;
    assert ch[a] == ch'[a];
  }

  lemma PrefixByte(L: Layout, img: Image, ch: seq<int>, ch': seq<int>, q: nat)
    requires L.WellFormed(|img|) && InRange(L, ch) && InRange(L, ch') && ch <= ch' && q < Capacity(L, ch)
    ensures q < Capacity(L, ch') && ByteAt(L, img, ch, q) == ByteAt(L, img, ch', q)
  {
    hide Sector, Layout.Blocks;
    PrefixSector(L, ch, ch', q);
  }

  lemma PrefixContent(L: Layout, img: Image, ch: seq<int>, ch': seq<int>, n: nat)
    requires L.WellFormed(|img|) && InRange(L, ch) && InRange(L, ch') && ch <= ch' && n <= Capacity(L, ch)
    ensures n <= Capacity(L, ch') && Content(L, img, ch, n) == Content(L, img, ch', n)
  {
    if |ch| < |ch'| {
      BlocksMono(L, |ch|, |ch'|);
    }
    hide ByteAt, Layout.WellFormed, Layout.Blocks;
    forall q | 0 <= q < n ensures ByteAt(L, img, ch, q) == ByteAt(L, img, ch', q) {
      PrefixByte(L, img, ch, ch', q);
    }
  }

  // ---------------------------------------------------------------- bounds

  lemma {:induction false} DistinctBound(s: seq<int>, n: nat)
    requires forall i :: 0 <= i < |s| ==> 0 <= s[i] < n
    requires forall i, j :: 0 <= i < j < |s| ==> s[i] != s[j]
    ensures |s| <= n
  {
    if |s| > 0 {
      assert 0 <= s[0] < n;
      if n - 1 in s {
        var k :| 0 <= k < |s| && s[k] == n - 1;
        var rest := s[..k] + s[k + 1..];
        forall i | 0 <= i < |rest| ensures 0 <= rest[i] < n - 1 {
          assert rest[i] == s[if i < k then i else i + 1];
        }
        DistinctBound(rest, n - 1);
      } else {
        DistinctBound(s, n - 1);
      }
    }
  }

  /** A chain is no longer than the volume, so positions inside a file stay below 2^25. */
  lemma ChainBound(L: Layout, img: Image, ch: seq<int>)
    requires L.WellFormed(|img|) && IsChain(L, img, ch)
    ensures |ch| <= L.clusterCount && Capacity(L, ch) <= 0x200_0000
  {
    ChainIsAcyclic(L, img, ch);
    var s := seq(|ch|, i requires 0 <= i < |ch| => ch[i] - 2);
    DistinctBound(s, L.clusterCount);
    if |ch| < L.clusterCount {
      BlocksMono(L, |ch|, L.clusterCount);
    }
  }

  // ---------------------------------------------------------------- handles

  /** A handle describes its file: first cluster, and a chain that reaches beyond the file's last byte. */
  ghost predicate Describes(L: Layout, files: map<nat, seq<int>>, d: nat, first: nat, size: nat, p: nat) {
    && d in files
    && p <= size
    && if files[d] == [] then first == 0 && size == 0 else first == files[d][0] && size < Capacity(L, files[d])
  }

  /** A handle is in step: its cluster holds its position. */
  ghost predicate Tracks(L: Layout, files: map<nat, seq<int>>, d: nat, p: nat, cur: nat)
    requires L.sectorsPerCluster > 0
  {
    && d in files
    && if files[d] == [] then cur == 0 && p == 0
       else p < Capacity(L, files[d]) && L.ClusterIndex(p) < |files[d]| && cur == files[d][L.ClusterIndex(p)]
  }

  /** A position inside a file is in a cluster of its chain, whose index fits 16 bits, and that cluster
      is the one a handle at this position needs. */
  lemma GoToBound(L: Layout, img: Image, files: map<nat, seq<int>>, d: nat, first: nat, size: nat, p: nat, q: nat)
    requires L.WellFormed(|img|) && Volume(L, img, files) && Describes(L, files, d, first, size, p) && q <= size
    ensures L.sectorsPerCluster > 0
    ensures Describes(L, files, d, first, size, q)
    ensures L.ClusterIndex(q) < 0x1_0000
    ensures files[d] == [] ==> L.ClusterIndex(q) == 0 && Tracks(L, files, d, q, first)
    ensures files[d] != [] ==> L.ClusterIndex(q) < |files[d]| && first == files[d][0]
    ensures files[d] != [] ==>
      files[d][L.ClusterIndex(q)] >= 0 && Tracks(L, files, d, q, files[d][L.ClusterIndex(q)])
  {
    ChainBound(L, img, files[d]);
    if files[d] != [] {
      IndexBound(L, files[d], q);
    }
  }

  /** Outcome of moving from cluster k of file d to the next one: the next cluster of the chain, or a fresh
      one appended to it, or nothing because the chain ends here and no cluster is free. */
  ghost predicate Advanced(L: Layout, a: Image, fa: map<nat, seq<int>>, b: Image, fb: map<nat, seq<int>>,
      d: nat, k: nat, ok: bool, cur: int)
    requires L.WellFormed(|a|) && |a| == |b| && d in fa && k < |fa[d]|
  {
    if k + 1 < |fa[d]| then
      ok && a == b && fa == fb && cur == fa[d][k + 1]
    else if ok then
      && L.IsCluster(cur) && FatEntry(L, a, cur) == 0
      && fb == Grown(fa, d, cur)
      && L.IsCluster(fa[d][k]) && b == Linked(L, a, fa[d][k], cur)
    else
      a == b && fa == fb && cur == fa[d][k] && VolumeFull(L, a)
  }

  /** Exactly one cluster is free. */
  ghost predicate OneFree(L: Layout, img: Image)
    requires L.WellFormed(|img|)
  {
    exists f: nat :: L.IsCluster(f) && FatEntry(L, img, f) == 0 && OnlyFree(L, img, f)
  }

  ghost predicate OnlyFree(L: Layout, img: Image, f: nat)
    requires L.WellFormed(|img|)
  {
    forall c: nat :: L.IsCluster(c) && c != f ==> FatEntry(L, img, c) != 0
  }

  /** What a transfer does to the free clusters: file d has its old chain and as much is free as before,
      or it took one cluster, and the volume is full now exactly if that was the only free one. */
  ghost predicate Growth(L: Layout, a: Image, fa: map<nat, seq<int>>, b: Image, fb: map<nat, seq<int>>, d: nat)
    requires L.WellFormed(|a|)
  {
    && |b| == |a| && d in fa && d in fb
    && if fb[d] == fa[d]
       then VolumeFull(L, b) == VolumeFull(L, a) && OneFree(L, b) == OneFree(L, a)
       else |fb[d]| == |fa[d]| + 1 && !VolumeFull(L, a) && VolumeFull(L, b) == OneFree(L, a)
  }

  lemma SameFatEntry(L: Layout, a: Image, b: Image, c: nat)
    requires L.WellFormed(|a|) && SameFat(L, a, b) && c <= L.clusterCount + 1
    ensures FatEntry(L, a, c) == FatEntry(L, b, c)
  {
    assert L.InFat1(L.fatStart + c / 256);
  }

  /** The same table has the same free clusters. */
  lemma SameFatFree(L: Layout, a: Image, b: Image)
    requires L.WellFormed(|a|) && SameFat(L, a, b)
    ensures VolumeFull(L, a) == VolumeFull(L, b) && OneFree(L, a) == OneFree(L, b)
  {
    hide FatEntry, Layout.WellFormed, SameFat;
    SameFatSize(L, a, b);
    forall c: nat | L.IsCluster(c) ensures FatEntry(L, a, c) == FatEntry(L, b, c) {
      SameFatEntry(L, a, b, c);
    }
    forall f: nat | L.IsCluster(f) ensures OnlyFree(L, a, f) == OnlyFree(L, b, f) {
    }
  }

  lemma GrowthRefl(L: Layout, a: Image, fa: map<nat, seq<int>>, d: nat)
    requires L.WellFormed(|a|) && d in fa
    ensures Growth(L, a, fa, a, fa, d)
  {
  }

  /** Growth does not see what happens outside the table. */
  lemma GrowthAround(L: Layout, a: Image, b: Image, fa: map<nat, seq<int>>, c: Image, e: Image,
      fc: map<nat, seq<int>>, d: nat)
    requires L.WellFormed(|a|) && SameFat(L, a, b) && Growth(L, b, fa, c, fc, d) && SameFat(L, c, e)
    ensures Growth(L, a, fa, e, fc, d)
  {
    hide VolumeFull, OneFree, SameFat, Layout.WellFormed;
    SameFatSize(L, a, b);
    SameFatSize(L, c, e);
    SameFatFree(L, a, b);
    SameFatFree(L, c, e);
  }

  lemma SameFatSize(L: Layout, a: Image, b: Image)
    requires SameFat(L, a, b)
    ensures |a| == |b|
  {
  }

  /** Storing into a file's data leaves the table alone. */
  lemma DataSameFat(L: Layout, a: Image, ch: seq<int>, q: nat, off: nat, data: seq<byte>)
    requires L.WellFormed(|a|) && InRange(L, ch) && q < Capacity(L, ch) && off + |data| <= 512
    ensures Sector(L, ch, q) < |a| && SameFat(L, a, PutBytes(a, Sector(L, ch, q), off, data))
  {
  }

  lemma SameFatRefl(L: Layout, a: Image)
    ensures SameFat(L, a, a)
  {
  }

  /** Taking free cluster f fills the volume exactly when it was the only free one. */
  lemma LinkedFree(L: Layout, a: Image, b: Image, cur: nat, f: nat)
    requires L.WellFormed(|a|) && |b| == |a| && L.IsCluster(f) && FatEntry(L, a, f) == 0 && IsLinked(L, a, b, cur, f)
    requires cur != 0 ==> L.IsCluster(cur) && FatEntry(L, a, cur) != 0
    ensures !VolumeFull(L, a) && VolumeFull(L, b) == OneFree(L, a)
  {
    hide FatEntry, Layout.WellFormed;
    if VolumeFull(L, b) {
      forall c: nat | L.IsCluster(c) && c != f ensures FatEntry(L, a, c) != 0 {
      }
      assert OnlyFree(L, a, f);
    }
  }

  /** Growing file d by a free cluster, as a change of the free clusters. */
  lemma GrowthLinked(L: Layout, a: Image, fa: map<nat, seq<int>>, d: nat, f: nat)
    requires L.WellFormed(|a|) && Volume(L, a, fa) && d in fa && L.IsCluster(f) && FatEntry(L, a, f) == 0
    ensures 0 <= LastOrZero(fa[d]) <= L.clusterCount + 1
    ensures Growth(L, a, fa, Linked(L, a, LastOrZero(fa[d]), f), Grown(fa, d, f), d)
  {
    hide FatEntry, OneFree, VolumeFull, Linked, Layout.WellFormed;
    AllocationVolume(L, a, fa, d, f);
    if fa[d] != [] {
      ChainStep(L, a, fa[d], |fa[d]| - 1);
    }
    LinkedEntries(L, a, LastOrZero(fa[d]), f);
    LinkedFree(L, a, Linked(L, a, LastOrZero(fa[d]), f), LastOrZero(fa[d]), f);
  }

  lemma AdvancedGrowth(L: Layout, a: Image, fa: map<nat, seq<int>>, b: Image, fb: map<nat, seq<int>>,
      d: nat, k: nat, ok: bool, cur: nat)
    requires L.WellFormed(|a|) && |a| == |b| && Volume(L, a, fa) && d in fa && k < |fa[d]|
    requires Advanced(L, a, fa, b, fb, d, k, ok, cur)
    ensures Growth(L, a, fa, b, fb, d)
  {
    hide FatEntry, OneFree, VolumeFull, Linked, Layout.WellFormed, Volume, Growth;
    GrowthRefl(L, a, fa, d);
    if k + 1 == |fa[d]| && ok {
      GrowthLinked(L, a, fa, d, cur);
    }
  }

  // ---------------------------------------------------------------- steps of one write

  /** The block the driver addresses from a cluster that holds position q is the one that holds byte q. */
  lemma BlockOfPosition(L: Layout, img: Image, ch: seq<int>, q: nat, cur: uint16)
    requires L.WellFormed(|img|) && InRange(L, ch) && q < Capacity(L, ch)
    requires L.ClusterIndex(q) < |ch| && cur == ch[L.ClusterIndex(q)]
    ensures BlockNumber16(L, cur, L.ClusterOffset(q)) == Sector(L, ch, q) < |img|
    ensures L.ClusterOffset(q) % 512 == q % 512
    ensures !L.InFat1(Sector(L, ch, q)) && !L.InFat2(Sector(L, ch, q))
  {
    SectorAt(L, ch, q, L.ClusterIndex(q), L.ClusterOffset(q));
    BlockNumberExact(L, cur, L.ClusterOffset(q));
  }

  /** Moving on by at most 512 bytes stays in the cluster or enters the next one. */
  lemma MoveOn(L: Layout, p: nat, n: nat)
    requires L.sectorsPerCluster > 0 && n <= 512
    ensures var o := L.ClusterOffset(p) + n;
      if o < L.ClusterSize()
      then L.ClusterIndex(p + n) == L.ClusterIndex(p) && L.ClusterOffset(p + n) == o
      else L.ClusterIndex(p + n) == L.ClusterIndex(p) + 1 && L.ClusterOffset(p + n) == o - L.ClusterSize()
  {
    var k, o, c := L.ClusterIndex(p), L.ClusterOffset(p), L.ClusterSize();
    assert p == k * c + o;
    if o + n < c {
      QuotientUnique(c, k, o + n, p + n);
    } else {
      assert (k + 1) * c == k * c + c;
      QuotientUnique(c, k + 1, o + n - c, p + n);
    }
  }

  /** Positions of the clusters of a chain are exactly those below its capacity. */
  lemma IndexIffCapacity(L: Layout, ch: seq<int>, q: nat)
    requires L.sectorsPerCluster > 0
    ensures q < Capacity(L, ch) <==> L.ClusterIndex(q) < |ch|
    ensures L.ClusterIndex(q) == |ch| && L.ClusterOffset(q) == 0 ==> q == Capacity(L, ch)
  {
    var k, o, c := L.ClusterIndex(q), L.ClusterOffset(q), L.ClusterSize();
    assert q == k * c + o;
    BlocksIsProduct(L, |ch|);
    assert Capacity(L, ch) == |ch| * c;
    if k < |ch| {
      MulMono(k + 1, |ch|, c);
      assert (k + 1) * c == k * c + c;
    } else {
      MulMono(|ch|, k, c);
    }
  }

  // ---------------------------------------------------------------- whole-call relations

  /** From (a, fa) to (b, fb): file d may have grown by clusters, tables and chains are sound, the other files are
      untouched. */
  ghost predicate Evolved(L: Layout, a: Image, fa: map<nat, seq<int>>, b: Image, fb: map<nat, seq<int>>, d: nat)
    requires L.WellFormed(|a|)
  {
    && |b| == |a|
    && Volume(L, b, fb)
    && d in fa && d in fb && fa[d] <= fb[d]
    && OthersKept(L, a, fa, b, fb, d)
  }

  lemma EvolvedRefl(L: Layout, a: Image, fa: map<nat, seq<int>>, d: nat)
    requires L.WellFormed(|a|) && Volume(L, a, fa) && d in fa
    ensures Evolved(L, a, fa, a, fa, d)
  {
  }

  lemma EvolvedTrans(L: Layout, a: Image, fa: map<nat, seq<int>>, b: Image, fb: map<nat, seq<int>>,
      c: Image, fc: map<nat, seq<int>>, d: nat)
    requires L.WellFormed(|a|) && Evolved(L, a, fa, b, fb, d) && Evolved(L, b, fb, c, fc, d)
    ensures Evolved(L, a, fa, c, fc, d)
  {
    hide FileKept, Volume, InRange, Layout.WellFormed;
    OthersKeptCompose(L, a, fa, b, fb, c, fc, d);
  }

  lemma EvolvedVolume(L: Layout, a: Image, fa: map<nat, seq<int>>, b: Image, fb: map<nat, seq<int>>, d: nat)
    requires L.WellFormed(|a|) && Evolved(L, a, fa, b, fb, d)
    ensures |b| == |a| && Volume(L, b, fb) && d in fb && InRange(L, fb[d])
  {
  }

  lemma EvolvedFacts(L: Layout, a: Image, fa: map<nat, seq<int>>, b: Image, fb: map<nat, seq<int>>, d: nat, k: nat)
    requires L.WellFormed(|a|) && Evolved(L, a, fa, b, fb, d) && k < |fa[d]|
    ensures |b| == |a| && Volume(L, b, fb) && d in fb && InRange(L, fb[d]) && k < |fb[d]| && fb[d][k] == fa[d][k]
    ensures fa[d] <= fb[d]
  {
  }

  /** Growing file d by a free cluster. */
  lemma EvolvedGrow(L: Layout, a: Image, fa: map<nat, seq<int>>, d: nat, f: nat)
    requires L.WellFormed(|a|) && Volume(L, a, fa) && d in fa && L.IsCluster(f) && FatEntry(L, a, f) == 0
    ensures 0 <= LastOrZero(fa[d]) <= L.clusterCount + 1
    ensures var b := Linked(L, a, LastOrZero(fa[d]), f);
      Evolved(L, a, fa, b, Grown(fa, d, f), d) && SameData(L, a, b)
  {
    hide FatEntry, Linked, Layout.WellFormed, SameData, FileKept, SlotsKept;
    AllocationVolume(L, a, fa, d, f);
    var b := Linked(L, a, LastOrZero(fa[d]), f);
    LinkedSameData(L, a, LastOrZero(fa[d]), f);
    forall e | e in fa && e != d ensures FileKept(L, a, b, fa[e]) {
      SameDataKept(L, a, b, fa[e]);
    }
    SameDataSlots(L, a, b, d);
  }

  /** A fresh file's only cluster holds position 0. */
  lemma FreshTracks(L: Layout, files: map<nat, seq<int>>, d: nat, f: nat)
    requires 0 < L.sectorsPerCluster && d in files && files[d] == [f]
    ensures Tracks(L, files, d, 0, f) && Describes(L, files, d, f, 0, 0)
  {
    IndexIffCapacity(L, files[d], 0);
    assert L.ClusterIndex(0) == 0;
    BlocksMono(L, 0, 1);
  }

  /** Moving on to the next cluster puts the handle in step with the first position of that cluster,
      or the chain ends here and the volume is full. */
  lemma AdvancedTracks(L: Layout, a: Image, fa: map<nat, seq<int>>, b: Image, fb: map<nat, seq<int>>,
      d: nat, k: nat, ok: bool, cur: nat, q: nat)
    requires L.WellFormed(|a|) && |a| == |b| && Volume(L, a, fa) && d in fa && k < |fa[d]|
    requires Advanced(L, a, fa, b, fb, d, k, ok, cur)
    requires L.ClusterIndex(q) == k + 1 && L.ClusterOffset(q) == 0
    ensures Evolved(L, a, fa, b, fb, d) && SameData(L, a, b)
    ensures ok ==> Tracks(L, fb, d, q, cur)
    ensures !ok ==> a == b && fa == fb && cur == fa[d][k] && VolumeFull(L, a) && q == Capacity(L, fa[d])
  {
    hide FatEntry, Linked, VolumeFull, Evolved, SameData, Volume, Layout.WellFormed, Layout.Blocks;
    IndexIffCapacity(L, fa[d], q);
    if k + 1 < |fa[d]| || !ok {
      EvolvedRefl(L, a, fa, d);
      SameDataRefl(L, a);
    } else {
      EvolvedGrow(L, a, fa, d, cur);
      IndexIffCapacity(L, fb[d], q);
    }
  }

  /** Where the second store of a call goes: position q opens the cluster after the k-th, or the next block of
      the k-th, which follows block blockNumber. */
  ghost predicate RestFits(L: Layout, ch: seq<int>, blockNumber: nat, useTwoClusters: bool, k: nat, q: nat)
    requires L.sectorsPerCluster > 0 && InRange(L, ch)
  {
    if useTwoClusters then
      L.ClusterIndex(q) == k + 1 && L.ClusterOffset(q) == 0
    else
      && q < Capacity(L, ch) && L.ClusterIndex(q) == k && q % 512 == 0
      && Sector(L, ch, q) == blockNumber + 1
  }

  lemma NextBlockFits(L: Layout, img: Image, ch: seq<int>, blockNumber: nat, k: nat, q: nat)
    requires L.WellFormed(|img|) && InRange(L, ch) && RestFits(L, ch, blockNumber, false, k, q) && k < |ch|
    ensures Sector(L, ch, q) == (blockNumber + 1) % 0x1_0000 < |img|
    ensures !L.InFat1(Sector(L, ch, q)) && !L.InFat2(Sector(L, ch, q))
  {
    hide Sector, Layout.Blocks, Layout.ClusterIndex, InRange, Capacity;
  }

  lemma ClusterStartFits(L: Layout, img: Image, files: map<nat, seq<int>>, d: nat, cur: uint16, q: nat)
    requires L.WellFormed(|img|) && d in files && InRange(L, files[d]) && files[d] != []
    requires Tracks(L, files, d, q, cur) && L.ClusterOffset(q) == 0
    ensures q % 512 == 0
    ensures Sector(L, files[d], q) == BlockNumber16(L, cur, 0) < |img|
    ensures !L.InFat1(Sector(L, files[d], q)) && !L.InFat2(Sector(L, files[d], q))
  {
    hide Layout.Blocks, Sector, BlockNumber16;
    BlockOfPosition(L, img, files[d], q, cur);
  }

  /** The first store of a call, as seen by the file and by everyone else. */
  lemma FirstStore(L: Layout, a: Image, files: map<nat, seq<int>>, d: nat, p: nat, cur: uint16, x: seq<byte>)
    requires L.WellFormed(|a|) && Volume(L, a, files) && d in files && files[d] != []
    requires Tracks(L, files, d, p, cur) && p % 512 + |x| <= 512
    ensures InRange(L, files[d]) && p < Capacity(L, files[d])
    ensures BlockNumber16(L, cur, L.ClusterOffset(p)) == Sector(L, files[d], p) < |a|
    ensures L.ClusterOffset(p) % 512 == p % 512
    ensures !L.InFat1(Sector(L, files[d], p)) && !L.InFat2(Sector(L, files[d], p))
    ensures var b := PutBytes(a, Sector(L, files[d], p), p % 512, x);
      Evolved(L, a, files, b, files, d)
  {
    BlockOfPosition(L, a, files[d], p, cur);
    StoreSlot(L, a, files, d, p, x);
  }

  /** The same store, read along the file's chain as it is after it grew. */
  lemma WrittenOnLonger(L: Layout, a: Image, b: Image, ch: seq<int>, ch': seq<int>, p: nat, x: seq<byte>)
    requires L.WellFormed(|a|) && InRange(L, ch) && InRange(L, ch') && Distinct(ch') && ch <= ch'
    requires p < Capacity(L, ch) && p % 512 + |x| <= 512
    requires b == PutBytes(a, Sector(L, ch, p), p % 512, x)
    ensures Written(L, a, b, ch', p, x)
  {
    hide Sector, Written, PutBytes, Layout.Blocks;
    PrefixSector(L, ch, ch', p);
    StoreWritten(L, a, ch', p, x);
  }

  /** How fatFsWrite splits a call: the part up to the next block boundary goes first. */
  function FirstLength(offsetInBlock: nat, n: nat): nat
    requires offsetInBlock < 512
  {
    if offsetInBlock + n > 512 then 512 - offsetInBlock else n
  }

  /** Where the rest goes, and where the handle ends up when there is none. */
  lemma RestPlace(L: Layout, img: Image, ch: seq<int>, p: nat, cur: uint16, n: nat)
    requires L.WellFormed(|img|) && InRange(L, ch) && p < Capacity(L, ch)
    requires L.ClusterIndex(p) < |ch| && cur == ch[L.ClusterIndex(p)] && n <= 512
    ensures var o := L.ClusterOffset(p);
      var m, two := FirstLength(o % 512, n), o + n >= L.ClusterSize();
      && m <= n && o % 512 + m <= 512
      && (two || m < n ==> RestFits(L, ch, BlockNumber16(L, cur, o), two, L.ClusterIndex(p), p + m))
      && (!two ==> L.ClusterIndex(p + n) == L.ClusterIndex(p) && p + n < Capacity(L, ch))
  {
    hide Layout.ClusterIndex, Layout.ClusterOffset, Layout.Blocks, Sector, BlockNumber16;
    var o := L.ClusterOffset(p);
    var m, two := FirstLength(o % 512, n), o + n >= L.ClusterSize();
    SplitPoint(L, o, n);
    BlockOfPosition(L, img, ch, p, cur);
    MoveOn(L, p, m);
    MoveOn(L, p, n);
    IndexIffCapacity(L, ch, p + n);
    if !two && m < n {
      IndexIffCapacity(L, ch, p + m);
      NextSector(L, ch, p, m);
    }
  }

  lemma SplitPoint(L: Layout, o: nat, n: nat)
    requires o < L.ClusterSize() && n <= 512
    ensures var m := FirstLength(o % 512, n);
      && m <= n && o % 512 + m <= 512 && n - m < 512
      && (o + n >= L.ClusterSize() ==> o + m == L.ClusterSize())
      && (o + n < L.ClusterSize() && m < n ==> o + m < L.ClusterSize() && (o + m) % 512 == 0)
  {
  }

  lemma NextSector(L: Layout, ch: seq<int>, p: nat, m: nat)
    requires L.sectorsPerCluster > 0 && InRange(L, ch) && p + m < Capacity(L, ch) && 0 < m && p % 512 + m == 512
    requires L.ClusterIndex(p + m) == L.ClusterIndex(p) && L.ClusterOffset(p + m) == L.ClusterOffset(p) + m
    ensures Sector(L, ch, p + m) == Sector(L, ch, p) + 1 && (p + m) % 512 == 0
  {
    SectorAt(L, ch, p, L.ClusterIndex(p), L.ClusterOffset(p));
    SectorAt(L, ch, p + m, L.ClusterIndex(p + m), L.ClusterOffset(p + m));
  }

  /** The volume has no room to continue file d at position q. */
  ghost predicate FullAt(L: Layout, img: Image, files: map<nat, seq<int>>, d: nat, q: nat)
    requires L.WellFormed(|img|)
  {
    d in files && q == Capacity(L, files[d]) && VolumeFull(L, img)
  }

  lemma FullIntro(L: Layout, img: Image, files: map<nat, seq<int>>, d: nat, q: nat)
    requires L.WellFormed(|img|) && d in files && q == Capacity(L, files[d]) && VolumeFull(L, img)
    ensures FullAt(L, img, files, d, q)
  {
  }

  /** data is in file d at position p and the handle's cluster is in step with the position behind it,
      unless that position would need a cluster and there is none. */
  ghost predicate Stored(L: Layout, a: Image, fa: map<nat, seq<int>>, b: Image, fb: map<nat, seq<int>>,
      d: nat, p: nat, data: seq<byte>, cur: nat)
    requires L.WellFormed(|a|)
  {
    && Evolved(L, a, fa, b, fb, d) && InRange(L, fb[d])
    && p + |data| <= Capacity(L, fb[d])
    && Written(L, a, b, fb[d], p, data)
    && (Tracks(L, fb, d, p + |data|, cur) || FullAt(L, b, fb, d, p + |data|))
  }

  /** Only the first m bytes fitted: they end the last cluster of the file and no cluster is free. */
  ghost predicate StoredShort(L: Layout, a: Image, fa: map<nat, seq<int>>, b: Image, fb: map<nat, seq<int>>,
      d: nat, p: nat, data: seq<byte>, m: nat)
    requires L.WellFormed(|a|)
  {
    && m < |data|
    && Evolved(L, a, fa, b, fb, d) && InRange(L, fb[d])
    && Written(L, a, b, fb[d], p, data[..m])
    && FullAt(L, b, fb, d, p + m)
  }

  lemma TracksWithin(L: Layout, files: map<nat, seq<int>>, d: nat, q: nat, cur: nat, r: nat)
    requires L.sectorsPerCluster > 0 && Tracks(L, files, d, q, cur) && q % 512 == 0 && r < 512 && files[d] != []
    ensures Tracks(L, files, d, q + r, cur)
  {
    hide Layout.Blocks;
    OffsetIsAligned(L, q);
    MoveOn(L, q, r);
    IndexIffCapacity(L, files[d], q + r);
  }

  lemma OffsetIsAligned(L: Layout, q: nat)
    requires L.sectorsPerCluster > 0 && q % 512 == 0
    ensures L.ClusterOffset(q) % 512 == 0
  {
    SplitPosition(L.sectorsPerCluster, q);
  }

  /** The end of a call whose rest went into a block found by NextBlock: b is the image then, c the one after the
      store. */
  lemma RestIsStored(L: Layout, a: Image, fa: map<nat, seq<int>>, b: Image, fb: map<nat, seq<int>>, c: Image,
      d: nat, q: nat, rest: seq<byte>, cur: nat)
    requires L.WellFormed(|a|) && Evolved(L, a, fa, b, fb, d) && SameData(L, a, b)
    requires Tracks(L, fb, d, q, cur) && q % 512 == 0 && |rest| < 512 && fa[d] != []
    requires InRange(L, fb[d]) && q < Capacity(L, fb[d])
    requires c == PutBytes(b, Sector(L, fb[d], q), 0, rest)
    ensures Stored(L, a, fa, c, fb, d, q, rest, cur)
  {
    hide Sector, PutBytes, Layout.Blocks;
    StoreSlot(L, b, fb, d, q, rest);
    EvolvedRefl(L, b, fb, d);
    EvolvedTrans(L, a, fa, b, fb, c, fb, d);
    ChainIsAcyclic(L, b, fb[d]);
    StoreWritten(L, b, fb[d], q, rest);
    SameDataKept(L, a, b, fb[d]);
    TracksWithin(L, fb, d, q, cur, |rest|);
    IndexIffCapacity(L, fb[d], q + |rest|);
  }

  /** The end of a call without rest. */
  lemma NothingLeft(L: Layout, a: Image, fa: map<nat, seq<int>>, b: Image, fb: map<nat, seq<int>>, d: nat, q: nat,
      cur: nat)
    requires L.WellFormed(|a|) && Evolved(L, a, fa, b, fb, d) && SameData(L, a, b)
    requires Tracks(L, fb, d, q, cur) || FullAt(L, b, fb, d, q)
    requires fa[d] != []
    ensures Stored(L, a, fa, b, fb, d, q, [], cur)
  {
    SameDataKept(L, a, b, fb[d]);
  }

  /** Joining the two stores of a call. */
  lemma StoredCompose(L: Layout, a: Image, fa: map<nat, seq<int>>, b: Image, c: Image, fc: map<nat, seq<int>>,
      d: nat, p: nat, x: seq<byte>, y: seq<byte>, cur: nat)
    requires L.WellFormed(|a|) && Evolved(L, a, fa, b, fa, d) && InRange(L, fa[d])
    requires p < Capacity(L, fa[d]) && p % 512 + |x| <= 512
    requires b == PutBytes(a, Sector(L, fa[d], p), p % 512, x)
    requires Stored(L, b, fa, c, fc, d, p + |x|, y, cur)
    ensures Stored(L, a, fa, c, fc, d, p, x + y, cur)
  {
    hide Sector, PutBytes, Layout.Blocks, Written, Tracks, FullAt;
    EvolvedTrans(L, a, fa, b, fa, c, fc, d);
    ChainIsAcyclic(L, c, fc[d]);
    WrittenOnLonger(L, a, b, fa[d], fc[d], p, x);
    SameDataRefl(L, b);
    WrittenCompose(L, a, b, b, c, fc[d], p, x, y);
  }

  /** Splitting a call's data at the first block boundary, when the rest does not fit. */
  lemma ShortIntro(L: Layout, a: Image, files: map<nat, seq<int>>, b: Image, d: nat, p: nat, data: seq<byte>, m: nat)
    requires L.WellFormed(|a|) && Evolved(L, a, files, b, files, d) && InRange(L, files[d])
    requires p < Capacity(L, files[d]) && m < |data| && p % 512 + m <= 512
    requires b == PutBytes(a, Sector(L, files[d], p), p % 512, data[..m])
    requires FullAt(L, b, files, d, p + m)
    ensures StoredShort(L, a, files, b, files, d, p, data, m)
  {
    hide Sector, PutBytes, Layout.Blocks, FullAt;
    ChainIsAcyclic(L, b, files[d]);
    StoreWritten(L, a, files[d], p, data[..m]);
  }

  /** What a file's first cluster changed before the store does not show. */
  lemma StoredAfter(L: Layout, a: Image, fa: map<nat, seq<int>>, b: Image, fb: map<nat, seq<int>>,
      c: Image, fc: map<nat, seq<int>>, d: nat, p: nat, data: seq<byte>, cur: nat, m: nat)
    requires L.WellFormed(|a|) && Evolved(L, a, fa, b, fb, d) && SameData(L, a, b)
    ensures Stored(L, b, fb, c, fc, d, p, data, cur) ==> Stored(L, a, fa, c, fc, d, p, data, cur)
    ensures StoredShort(L, b, fb, c, fc, d, p, data, m) ==> StoredShort(L, a, fa, c, fc, d, p, data, m)
  {
    hide FullAt, Tracks, Layout.Blocks;
    if Evolved(L, b, fb, c, fc, d) && InRange(L, fc[d]) {
      EvolvedTrans(L, a, fa, b, fb, c, fc, d);
      SameDataKept(L, a, b, fc[d]);
    }
  }

  /** The call would need a cluster behind the file's last one, and none is free. */
  ghost predicate NoRoom(L: Layout, img: Image, ch: seq<int>, p: nat, n: nat)
    requires L.WellFormed(|img|)
  {
    ch != [] && p + n > Capacity(L, ch) && VolumeFull(L, img)
  }

  lemma EmptyHasRoom(L: Layout, img: Image, p: nat, n: nat)
    requires L.WellFormed(|img|)
    ensures !NoRoom(L, img, [], p, n)
  {
  }

  /** The call ends at the end of the file's last cluster, and the next position cannot get one. For an empty file
      that is a whole cluster of data in the volume's only free one. */
  ghost predicate EndsFull(L: Layout, img: Image, ch: seq<int>, p: nat, n: nat)
    requires L.WellFormed(|img|)
  {
    if ch == [] then n == L.ClusterSize() && OneFree(L, img)
    else p + n == Capacity(L, ch) && VolumeFull(L, img)
  }

  /** How a call on a file with clusters ends is decided before it: it is cut short exactly when there is no room. */
  lemma EndingExact(L: Layout, a: Image, fa: map<nat, seq<int>>, b: Image, fb: map<nat, seq<int>>,
      d: nat, p: nat, data: seq<byte>, cur: nat, m: nat, short: bool)
    requires L.WellFormed(|a|) && d in fa && fa[d] != [] && p < Capacity(L, fa[d]) && |data| <= 512
    requires Growth(L, a, fa, b, fb, d)
    requires if short then StoredShort(L, a, fa, b, fb, d, p, data, m) else Stored(L, a, fa, b, fb, d, p, data, cur)
    ensures short <==> NoRoom(L, a, fa[d], p, |data|)
    ensures short ==> fb[d] == fa[d] && p + m == Capacity(L, fa[d])
    ensures !short ==> (FullAt(L, b, fb, d, p + |data|) <==> EndsFull(L, a, fa[d], p, |data|))
  {
    hide VolumeFull, OneFree, Evolved, Written, Layout.Blocks, Tracks;
    if fb[d] != fa[d] {
      BlocksIsProduct(L, |fa[d]|);
      OneMoreCluster(L, fa[d], fb[d]);
    }
  }

  lemma OneMoreCluster(L: Layout, ch: seq<int>, ch': seq<int>)
    requires 0 < L.sectorsPerCluster && |ch'| == |ch| + 1
    ensures Capacity(L, ch') == Capacity(L, ch) + L.ClusterSize() && L.ClusterSize() >= 512
  {
  }

  /** The same for a file that was empty and got its first cluster: one cluster always has room for the call. */
  lemma FirstEndingExact(L: Layout, a: Image, fa: map<nat, seq<int>>, b: Image, fb: map<nat, seq<int>>, d: nat, n: nat)
    requires L.WellFormed(|a|) && d in fa && fa[d] == [] && Growth(L, a, fa, b, fb, d) && fb[d] != [] && n <= 512
    ensures !VolumeFull(L, a) && !NoRoom(L, b, fb[d], 0, n)
    ensures EndsFull(L, b, fb[d], 0, n) <==> EndsFull(L, a, fa[d], 0, n)
  {
    hide VolumeFull, OneFree, Layout.Blocks;
    OneMoreCluster(L, fa[d], fb[d]);
    NoCapacity(L);
  }

  /** Both together: a call on any file, whose first cluster may have come just before (img and files were a and fa,
      then a1 and f1), ends as could be told at its start. */
  lemma WriteEnding(L: Layout, a: Image, fa: map<nat, seq<int>>, a1: Image, f1: map<nat, seq<int>>,
      b: Image, fb: map<nat, seq<int>>, d: nat, p: nat, data: seq<byte>, cur: nat, m: nat, short: bool)
    requires L.WellFormed(|a|) && Growth(L, a, fa, a1, f1, d) && Growth(L, a1, f1, b, fb, d)
    requires if fa[d] == [] then p == 0 else a1 == a && f1 == fa
    requires f1[d] != [] && p < Capacity(L, f1[d]) && |data| <= 512
    requires if short then StoredShort(L, a1, f1, b, fb, d, p, data, m) else Stored(L, a1, f1, b, fb, d, p, data, cur)
    ensures !(fa[d] == [] && VolumeFull(L, a))
    ensures short <==> NoRoom(L, a, fa[d], p, |data|)
    ensures short ==> d in fb && fb[d] == fa[d] && p + m == Capacity(L, fa[d])
    ensures !short ==> (FullAt(L, b, fb, d, p + |data|) <==> EndsFull(L, a, fa[d], p, |data|))
  {
    hide VolumeFull, OneFree, Stored, StoredShort, Layout.WellFormed, Layout.Blocks, Growth, EndsFull, FullAt;
    GrowthFiles(L, a, fa, a1, f1, d);
    GrowthFiles(L, a1, f1, b, fb, d);
    EndingExact(L, a1, f1, b, fb, d, p, data, cur, m, short);
    if fa[d] == [] {
      FirstEndingExact(L, a, fa, a1, f1, d, |data|);
    }
  }

  lemma GrowthFiles(L: Layout, a: Image, fa: map<nat, seq<int>>, b: Image, fb: map<nat, seq<int>>, d: nat)
    requires L.WellFormed(|a|) && Growth(L, a, fa, b, fb, d)
    ensures |b| == |a| && d in fa && d in fb
  {
  }

  lemma NoCapacity(L: Layout)
    ensures Capacity(L, []) == 0
  {
  }

  /** The directory is no part of any file or table. */
  lemma StoredThenDir(L: Layout, a: Image, fa: map<nat, seq<int>>, b: Image, fb: map<nat, seq<int>>,
      d: nat, p: nat, data: seq<byte>, cur: nat, start: uint16, size: uint32)
    requires L.WellFormed(|a|) && Stored(L, a, fa, b, fb, d, p, data, cur)
    ensures d < L.numRootEntries
    ensures var c := PutDir(L, b, d, start, size);
      && Stored(L, a, fa, c, fb, d, p, data, cur)
      && DirStart(L, c, d) == start && DirSize(L, c, d) == size && EntryHolds(L, c, d, start, size)
  {
    var c := PutDir(L, b, d, start, size);
    PutDirFrame(L, b, d, start, size);
    PutDirBytes(L, b, d, start, size);
    hide EntryHolds, InEntry, SlotsKept;
    DirSlots(L, b, c, d);
    hide PutDir, DirStart, DirSize, Tracks, Written, Layout.Blocks;
    DirEvolved(L, b, fb, c, d);
    EvolvedTrans(L, a, fa, b, fb, c, fb, d);
    DirWritten(L, a, b, c, fb[d], p, data);
    VolumeFrame(L, b, c, fb);
  }

  lemma DirSlots(L: Layout, b: Image, c: Image, d: nat)
    requires L.WellFormed(|b|) && |b| == |c|
    requires forall i, j :: 0 <= i < |b| && 0 <= j < 512 && !InEntry(L, d, i, j) ==> c[i][j] == b[i][j]
    ensures SlotsKept(L, b, c, d)
  {
  }

  lemma DirEvolved(L: Layout, b: Image, fb: map<nat, seq<int>>, c: Image, d: nat)
    requires L.WellFormed(|b|) && Volume(L, b, fb) && |b| == |c| && SameFat(L, b, c) && d in fb
    requires forall i :: L.dataStart <= i < |b| ==> b[i] == c[i]
    requires SlotsKept(L, b, c, d)
    ensures Evolved(L, b, fb, c, fb, d)
  {
    VolumeFrame(L, b, c, fb);
  }

  lemma DirWritten(L: Layout, a: Image, b: Image, c: Image, ch: seq<int>, p: nat, data: seq<byte>)
    requires L.WellFormed(|a|) && |a| == |b| == |c| && InRange(L, ch) && Written(L, a, b, ch, p, data)
    requires forall i :: L.dataStart <= i < |b| ==> b[i] == c[i]
    ensures Written(L, a, c, ch, p, data)
  {
    DataKept(L, b, c, ch);
    hide ByteAt, Layout.WellFormed, Capacity;
  }

  lemma DataKept(L: Layout, a: Image, b: Image, ch: seq<int>)
    requires L.WellFormed(|a|) && |a| == |b| && InRange(L, ch)
    requires forall i :: L.dataStart <= i < |a| ==> a[i] == b[i]
    ensures FileKept(L, a, b, ch)
  {
  }

  /** The same call, read as contents: overwrite or extend this file, and nothing happens to any other. */
  lemma StoredIsOverwrite(L: Layout, a: Image, fa: map<nat, seq<int>>, b: Image, fb: map<nat, seq<int>>,
      d: nat, size: nat, p: nat, data: seq<byte>, cur: nat)
    requires L.WellFormed(|a|) && Volume(L, a, fa) && Stored(L, a, fa, b, fb, d, p, data, cur)
    requires p <= size <= Capacity(L, fa[d])
    ensures InRange(L, fa[d]) && Max(size, p + |data|) <= Capacity(L, fb[d])
    ensures Content(L, b, fb[d], Max(size, p + |data|)) == Overwrite(Content(L, a, fa[d], size), p, data)
  {
    hide ByteAt, FullAt, Tracks, Written, OthersKept, Content, Overwrite, Layout.Blocks;
    if |fa[d]| < |fb[d]| {
      BlocksMono(L, |fa[d]|, |fb[d]|);
    }
    WrittenIsOverwrite(L, a, b, fa[d], fb[d], size, p, data);
  }

  lemma OthersContent(L: Layout, a: Image, fa: map<nat, seq<int>>, b: Image, fb: map<nat, seq<int>>, d: nat, e: nat,
      n: nat)
    requires L.WellFormed(|a|) && Evolved(L, a, fa, b, fb, d) && e in fa && e != d && n <= Capacity(L, fa[e])
    ensures fb[e] == fa[e] && InRange(L, fa[e]) && Content(L, b, fb[e], n) == Content(L, a, fa[e], n)
  {
    assert FileKept(L, a, b, fa[e]);
  }

  lemma StoredFirst(L: Layout, a: Image, fa: map<nat, seq<int>>, b: Image, fb: map<nat, seq<int>>,
      d: nat, p: nat, data: seq<byte>, cur: nat)
    requires L.WellFormed(|a|) && Stored(L, a, fa, b, fb, d, p, data, cur) && fa[d] != []
    ensures d in fb && fb[d] != [] && fb[d][0] == fa[d][0]
  {
  }

  /** A completed write: the data is stored, the file's contents are the old ones overwritten or extended,
      and by Evolved (inside Stored) every other file is as before. */
  ghost predicate Overwrites(L: Layout, a: Image, fa: map<nat, seq<int>>, b: Image, fb: map<nat, seq<int>>,
      d: nat, size: nat, p: nat, data: seq<byte>, cur: nat)
    requires L.WellFormed(|a|)
  {
    && Stored(L, a, fa, b, fb, d, p, data, cur)
    && InRange(L, fa[d])
    && p <= size <= Capacity(L, fa[d]) && Max(size, p + |data|) <= Capacity(L, fb[d])
    && Content(L, b, fb[d], Max(size, p + |data|)) == Overwrite(Content(L, a, fa[d], size), p, data)
  }

  // ---------------------------------------------------------------- steps of one read

  /** s is what the file with chain ch holds from position e on. */
  ghost predicate HasBytes(L: Layout, img: Image, ch: seq<int>, e: nat, s: seq<byte>)
    requires L.WellFormed(|img|)
  {
    && InRange(L, ch) && e + |s| <= Capacity(L, ch)
    && forall q :: e <= q < e + |s| ==> ByteAt(L, img, ch, q) == s[q - e]
  }

  /** Bytes of a file inside one 512-byte slot lie side by side in one block. */
  lemma SlotBytes(L: Layout, img: Image, ch: seq<int>, e: nat, n: nat)
    requires L.WellFormed(|img|) && InRange(L, ch) && Distinct(ch)
    requires e < Capacity(L, ch) && e % 512 + n <= 512
    ensures HasBytes(L, img, ch, e, img[Sector(L, ch, e)][e % 512..e % 512 + n])
  {
    hide Sector, Layout.Blocks, Distinct, Capacity;
    SlotInside(L, ch, e, n);
    forall q | e <= q < e + n ensures ByteAt(L, img, ch, q) == img[Sector(L, ch, e)][q % 512] {
      SectorInjective(L, ch, e, q);
    }
  }

  lemma SlotInside(L: Layout, ch: seq<int>, e: nat, n: nat)
    requires e < Capacity(L, ch) && e % 512 + n <= 512
    ensures e + n <= Capacity(L, ch)
  {
    hide Layout.Blocks;
  }

  lemma HasBytesJoin(L: Layout, img: Image, ch: seq<int>, e: nat, x: seq<byte>, y: seq<byte>)
    requires L.WellFormed(|img|) && HasBytes(L, img, ch, e, x) && HasBytes(L, img, ch, e + |x|, y)
    ensures HasBytes(L, img, ch, e, x + y)
  {
    hide ByteAt, Capacity;
  }

  /** Reading is a slice of the contents. */
  lemma HasBytesIsSlice(L: Layout, img: Image, ch: seq<int>, e: nat, s: seq<byte>, size: nat)
    requires L.WellFormed(|img|) && HasBytes(L, img, ch, e, s) && e + |s| <= size <= Capacity(L, ch)
    ensures s == Content(L, img, ch, size)[e..e + |s|]
  {
    hide ByteAt, Capacity;
    var t := Content(L, img, ch, size)[e..e + |s|];
    forall i | 0 <= i < |s| ensures s[i] == t[i] {
      assert ByteAt(L, img, ch, e + i) == s[e + i - e];
    }
  }

  /** After n bytes from e the handle has moved on, except that it stays behind when they end a cluster. */
  ghost predicate AfterRead(L: Layout, files: map<nat, seq<int>>, d: nat, e: nat, n: nat, cur: nat)
    requires L.sectorsPerCluster > 0
  {
    if 0 < n && L.ClusterOffset(e + n) == 0
    then Behind(L, files, d, e + n, cur)
    else Tracks(L, files, d, e + n, cur)
  }

  /** The handle's cluster is the one before the position it should hold. */
  ghost predicate Behind(L: Layout, files: map<nat, seq<int>>, d: nat, q: nat, cur: nat)
    requires L.sectorsPerCluster > 0
  {
    && d in files
    && L.ClusterOffset(q) == 0
    && 0 < L.ClusterIndex(q) <= |files[d]|
    && cur == files[d][L.ClusterIndex(q) - 1]
  }

  /** Where a read of n bytes from position e finds its one or two pieces, and where it leaves the handle. */
  lemma ReadPlan(L: Layout, img: Image, files: map<nat, seq<int>>, d: nat, e: nat, cur: uint16, n: nat)
    requires L.WellFormed(|img|) && Volume(L, img, files) && d in files && files[d] != []
    requires Tracks(L, files, d, e, cur) && n <= 512 && e + n < Capacity(L, files[d])
    ensures InRange(L, files[d]) && Distinct(files[d])
    ensures var ch, o, k := files[d], L.ClusterOffset(e), L.ClusterIndex(e);
      var m, two, b := FirstLength(o % 512, n), o + n >= L.ClusterSize(), BlockNumber16(L, cur, o);
      && o % 512 == e % 512 && m <= n && o % 512 + m <= 512
      && b == Sector(L, ch, e) < |img| && !L.InFat2(b)
      && (m == n ==> AfterRead(L, files, d, e, n, cur))
      && (m < n ==>
            && (e + m) % 512 == 0 && e + m < Capacity(L, ch)
            && Sector(L, ch, e + m) < |img| && !L.InFat2(Sector(L, ch, e + m))
            && (!two ==> Sector(L, ch, e + m) == (b + 1) % 0x1_0000 && AfterRead(L, files, d, e, n, cur))
            && (two ==>
                  && L.IsCluster(cur) && k + 1 < |ch| && FatEntry(L, img, cur) == ch[k + 1]
                  && Sector(L, ch, e + m) == BlockNumber16(L, FatEntry(L, img, cur), 0)
                  && AfterRead(L, files, d, e, n, FatEntry(L, img, cur))))
  {
    hide Layout.ClusterIndex, Layout.ClusterOffset, Layout.Blocks, Sector, BlockNumber16, FatEntry;
    var ch, o, k := files[d], L.ClusterOffset(e), L.ClusterIndex(e);
    var m, two := FirstLength(o % 512, n), o + n >= L.ClusterSize();
    ChainIsAcyclic(L, img, ch);
    BlockOfPosition(L, img, ch, e, cur);
    SplitPoint(L, o, n);
    MoveOn(L, e, m);
    MoveOn(L, e, n);
    IndexIffCapacity(L, ch, e + n);
    IndexIffCapacity(L, ch, e + m);
    if m < n {
      if two {
        ChainStep(L, img, ch, k);
        BlockOfPosition(L, img, ch, e + m, ch[k + 1]);
      } else {
        NextSector(L, ch, e, m);
      }
    }
  }

  /** Two adjacent pieces make up the bytes read. */
  lemma TwoPieces(L: Layout, img: Image, ch: seq<int>, e: nat, x: seq<byte>, y: seq<byte>)
    requires L.WellFormed(|img|) && InRange(L, ch) && Distinct(ch)
    requires e < Capacity(L, ch) && e % 512 + |x| <= 512
    requires Sector(L, ch, e) < |img| && x == img[Sector(L, ch, e)][e % 512..e % 512 + |x|]
    requires y != [] ==> (e + |x|) % 512 == 0 && |y| <= 512 && e + |x| < Capacity(L, ch)
    requires y != [] ==> Sector(L, ch, e + |x|) < |img| && y == img[Sector(L, ch, e + |x|)][0..|y|]
    ensures HasBytes(L, img, ch, e, x + y)
  {
    hide Sector, Capacity, Layout.Blocks, HasBytes, Distinct;
    SlotBytes(L, img, ch, e, |x|);
    if y != [] {
      SlotBytes(L, img, ch, e + |x|, |y|);
      HasBytesJoin(L, img, ch, e, x, y);
    } else {
      assert x + y == x;
    }
  }

  lemma BehindIsNotInStep(L: Layout, img: Image, files: map<nat, seq<int>>, d: nat, q: nat, cur: nat)
    requires L.WellFormed(|img|) && Volume(L, img, files) && Behind(L, files, d, q, cur)
    ensures !Tracks(L, files, d, q, cur)
  {
    ChainIsAcyclic(L, img, files[d]);
  }

  /** A handle one cluster behind position q stands at the byte one cluster size earlier. */
  lemma BehindStandsEarlier(L: Layout, img: Image, files: map<nat, seq<int>>, d: nat, q: nat, cur: nat)
    requires L.WellFormed(|img|) && Behind(L, files, d, q, cur)
    ensures q >= L.ClusterSize()
    ensures Tracks(L, files, d, q - L.ClusterSize(), cur) && L.ClusterOffset(q - L.ClusterSize()) == L.ClusterOffset(q)
  {
    OneClusterBack(L, q);
    hide Layout.ClusterIndex, Layout.ClusterOffset, Layout.Blocks;
    IndexIffCapacity(L, files[d], q - L.ClusterSize());
  }

  lemma OneClusterBack(L: Layout, q: nat)
    requires 0 < L.sectorsPerCluster && L.ClusterOffset(q) == 0 && 0 < L.ClusterIndex(q)
    ensures q >= L.ClusterSize() && L.ClusterOffset(q - L.ClusterSize()) == 0
    ensures L.ClusterIndex(q - L.ClusterSize()) == L.ClusterIndex(q) - 1
  {
    var c, k := L.ClusterSize(), L.ClusterIndex(q);
    assert q == k * c;
    MulMono(1, k, c);
    assert q - c == (k - 1) * c;
    QuotientUnique(c, k - 1, 0, q - c);
  }

  /** Bytes stored from a handle one cluster behind its position p go to e, inside the old file, and the handle
      is still behind afterwards. */
  lemma StoredBehind(L: Layout, a: Image, fa: map<nat, seq<int>>, b: Image, fb: map<nat, seq<int>>,
      d: nat, p: nat, e: nat, data: seq<byte>, cur: nat)
    requires L.WellFormed(|a|) && d in fa && p == e + L.ClusterSize() && p < Capacity(L, fa[d]) && |data| <= 512
    requires Stored(L, a, fa, b, fb, d, e, data, cur)
    ensures e + |data| <= p && !Tracks(L, fb, d, p + |data|, cur)
  {
    hide VolumeFull, Written, Layout.Blocks, OthersKept;
    CapacityMono(L, fa[d], fb[d]);
    if Tracks(L, fb, d, p + |data|, cur) {
      ChainIsAcyclic(L, b, fb[d]);
      OneClusterOn(L, e + |data|);
    }
  }

  lemma OneClusterOn(L: Layout, q: nat)
    requires 0 < L.sectorsPerCluster
    ensures L.ClusterIndex(q + L.ClusterSize()) == L.ClusterIndex(q) + 1
  {
    var c, k, o := L.ClusterSize(), L.ClusterIndex(q), L.ClusterOffset(q);
    assert q + c == (k + 1) * c + o;
    QuotientUnique(c, k + 1, o, q + c);
  }

  function Min(a: nat, b: nat): nat {
    if a < b then a else b
  }

  /** A handle of another file is as good after the write as before. */
  lemma OtherHandleKept(L: Layout, a: Image, fa: map<nat, seq<int>>, b: Image, fb: map<nat, seq<int>>, d: nat,
      e: nat, first: nat, size: nat, p: nat, cur: nat)
    requires L.WellFormed(|a|) && Evolved(L, a, fa, b, fb, d) && e != d
    ensures Describes(L, fa, e, first, size, p) ==> Describes(L, fb, e, first, size, p)
    ensures Tracks(L, fa, e, p, cur) ==> Tracks(L, fb, e, p, cur)
  {
  }
}
