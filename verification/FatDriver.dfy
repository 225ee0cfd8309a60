/** The FAT16 driver: a one-block write-back cache, the mirrored table, cluster allocation, and file reads and
    writes. */
module FatDriver {
  import opened Bytes
  import opened Collections
  import opened FatFiles
  import opened FatTable
  import opened FatTransfers

  const O_RDWR: uint16 := 2
  const NO_BLOCK := 0xFFFF_FFFF

  /** FILE_s, without the isOpened and state fields, which the driver never looks at. */
  class FileHandle {
    var firstCluster: uint16
    var currentCluster: uint16
    var directoryEntry: uint16
    var fileSize: uint32
    var position: uint32
    var flags: uint16
    var dirEntryDirty: bool
  }

  /** flags & O_WRITE and flags & O_APPEND. */
  predicate CanWrite(flags: uint16) {
    flags % 4 != 0
  }

  predicate Appends(flags: uint16) {
    flags / 0x400 % 2 == 1
  }

  /** The mode is the two lowest bits, O_APPEND bit 10. */
  lemma FlagBits(flags: uint16, high: nat, append: nat, middle: nat, mode: nat)
    requires append < 2 && middle < 0x100 && mode < 4
    requires flags == 0x800 * high + 0x400 * append + 4 * middle + mode
    ensures CanWrite(flags) <==> mode != 0
    ensures Appends(flags) <==> append == 1
  {
  }

  /** How a write ended: all stored; only what fits the last cluster of a full volume stored; no cluster for an
      empty file; a card operation failed; the handle is read-only. */
  datatype Outcome = Completed | OutOfSpace | NoCluster | Failed | Refused

  class Driver {
    const info: Layout
    const cache: array<byte>
    var cacheBlockNumber: nat
    var cacheDirty: bool
    var cacheMirrorBlock: nat
    /** The card. */
    var disk: seq<Block>
    /** What a reader of the card would see if the cache were written back. */
    ghost var img: Image
    /** How many card operations have failed so far. */
    ghost var faults: nat
    /** The chain of every file, by directory slot. */
    ghost var files: map<nat, seq<int>>

    ghost predicate Valid()
      reads cache, `disk, `cacheBlockNumber, `cacheDirty, `cacheMirrorBlock, `img
    {
      && cache.Length == 512
      && info.WellFormed(|disk|)
      && (cacheBlockNumber < |disk| || cacheBlockNumber == NO_BLOCK)
      && (cacheDirty ==> cacheBlockNumber < |disk|)
      && (!cacheDirty && cacheBlockNumber < |disk| ==> disk[cacheBlockNumber] == cache[..])
      && (cacheMirrorBlock != 0 ==>
            && info.numFATs > 1
            && cacheDirty && info.InFat1(cacheBlockNumber)
            && cacheMirrorBlock == cacheBlockNumber + info.sectorsPerFAT)
      && img == Overlay(info, disk, cacheBlockNumber, cache[..])
    }

    /** The second FAT equals the first, except for the one block whose mirror write is pending. */
    ghost predicate Mirrored()
      requires Valid()
      reads cache, `disk, `cacheBlockNumber, `cacheDirty, `cacheMirrorBlock, `img
    {
      && FatsAgree(info, disk, cacheMirrorBlock)
      && (info.numFATs > 1 && cacheDirty && (info.InFat1(cacheBlockNumber) || info.InFat2(cacheBlockNumber)) ==>
            cacheMirrorBlock == cacheBlockNumber + info.sectorsPerFAT)
    }

    /** The ghost map names the chains that are really on the volume. */
    ghost predicate Consistent()
      requires info.WellFormed(|img|)
      reads `img, `files
    {
      Volume(info, img, files)
    }

    lemma ValidFacts()
      requires Valid()
      ensures info.WellFormed(|img|) && |img| == |disk| && info.sectorsPerCluster > 0
    {
    }

    lemma GoToFacts(handle: FileHandle, q: nat)
      requires Valid() && info.sectorsPerCluster > 0
      requires Consistent() && HandleOk(handle) && q <= handle.fileSize
      ensures handle.directoryEntry in files && IsChain(info, img, files[handle.directoryEntry])
      ensures Describes(info, files, handle.directoryEntry, handle.firstCluster, handle.fileSize, q)
      ensures info.ClusterIndex(q) < 0x1_0000
      ensures var ch := files[handle.directoryEntry];
        if ch == [] then
          info.ClusterIndex(q) == 0 && Tracks(info, files, handle.directoryEntry, q, handle.firstCluster)
        else
          && info.ClusterIndex(q) < |ch| && handle.firstCluster == ch[0] && ch[info.ClusterIndex(q)] >= 0
          && Tracks(info, files, handle.directoryEntry, q, ch[info.ClusterIndex(q)])
    {
      GoToBound(info, img, files, handle.directoryEntry, handle.firstCluster, handle.fileSize, handle.position, q);
    }

    constructor (layout: Layout, blocks: seq<Block>, ghost chains: map<nat, seq<int>>)
      requires layout.WellFormed(|blocks|)
      ensures Valid() && fresh(cache) && info == layout && disk == blocks && files == chains && faults == 0
      ensures !cacheDirty
      ensures img == Overlay(layout, blocks, NO_BLOCK, ZeroBlock())
    {
      info := layout;
      cache := new byte[512];
      cacheBlockNumber, cacheDirty, cacheMirrorBlock := NO_BLOCK, false, 0;
      disk, faults, files := blocks, 0, chains;
      new;
      img := Overlay(info, disk, NO_BLOCK, ZeroBlock());
      OverlayClean(info, disk, NO_BLOCK, ZeroBlock(), NO_BLOCK, cache[..]);
    }

    // -------------------------------------------------------------- the card

    /** A failed write may leave anything in the addressed block. */
    method SdcardWriteBlock(n: nat) returns (ok: bool)
      requires cache.Length == 512
      modifies this`disk, this`faults
      ensures if n < |old(disk)| then |disk| == |old(disk)| && disk == old(disk)[n := disk[n]] else disk == old(disk)
      ensures ok ==> n < |disk| && disk[n] == cache[..] && faults == old(faults)
      ensures !ok ==> faults > old(faults)
    {
      ok := *;
      if n >= |disk| {
        ok := false;
      } else if ok {
        disk := disk[n := cache[..]];
      } else {
        var junk: Block := *;
        disk := disk[n := junk];
      }
      if !ok {
        faults := faults + 1;
      }
    }

    /** A failed read leaves the buffer alone. */
    method SdcardReadBlock(n: nat) returns (ok: bool)
      requires cache.Length == 512
      modifies cache, this`faults
      ensures ok ==> n < |disk| && cache[..] == disk[n] && faults == old(faults)
      ensures !ok ==> cache[..] == old(cache[..]) && faults > old(faults)
    {
      ok := *;
      ok := ok && n < |disk|;
      if ok {
        var block: seq<byte> := disk[n];
        forall i | 0 <= i < 512 {
          cache[i] := block[i];
        }
      } else {
        faults := faults + 1;
      }
    }

    // -------------------------------------------------------------- the cache

    /** Writes the cached block to its place or to its place in the second FAT. */
    method WriteCached(n: nat) returns (ok: bool)
      requires Valid() && cacheDirty && (n == cacheBlockNumber || (cacheMirrorBlock != 0 && n == cacheMirrorBlock))
      modifies this`disk, this`faults
      ensures Valid() && |disk| == |old(disk)|
      ensures old(Mirrored()) ==> Mirrored()
      ensures ok ==> n < |disk| && disk == old(disk)[n := cache[..]] && faults == old(faults)
      ensures !ok ==> faults > old(faults)
    {
      hide Overlay, Layout.Blocks;
      ok := SdcardWriteBlock(n);
      OverlayUpdate(info, old(disk), n, disk[n], cacheBlockNumber, cache[..]);
      if old(Mirrored()) && info.numFATs > 1 {
        FatsAgreeUpdate(info, old(disk), n, disk[n], cacheMirrorBlock);
      }
    }

    method CacheFlush() returns (ok: bool)
      requires Valid()
      modifies this`disk, this`cacheDirty, this`cacheMirrorBlock, this`faults
      ensures Valid() && |disk| == |old(disk)|
      ensures old(Mirrored()) ==> Mirrored()
      ensures ok ==> !cacheDirty && faults == old(faults)
      ensures !ok ==> faults > old(faults)
    {
      if cacheDirty {
        ok := WriteCached(cacheBlockNumber);
        if !ok {
          return false;
        }
        if cacheMirrorBlock != 0 {
          ok := WriteCached(cacheMirrorBlock);
          if !ok {
            return false;
          }
          if old(Mirrored()) {
            FatsAgreeDone(info, disk, cacheBlockNumber);
          }
          cacheMirrorBlock := 0;
        }
        cacheDirty := false;
      }
      return true;
    }

    method CacheRawBlock(blockNumber: nat, makeDirty: bool) returns (ok: bool)
      requires Valid() && blockNumber < NO_BLOCK
      modifies cache, this`disk, this`cacheBlockNumber, this`cacheDirty, this`cacheMirrorBlock, this`faults
      ensures Valid() && |disk| == |old(disk)|
      ensures old(Mirrored()) && !(makeDirty && (info.InFat1(blockNumber) || info.InFat2(blockNumber))) ==> Mirrored()
      ensures ok ==> cacheBlockNumber == blockNumber < |disk| && (makeDirty ==> cacheDirty)
      ensures ok ==> faults == old(faults)
      ensures !ok ==> faults > old(faults)
    {
      hide FatsAgree, Layout.WellFormed;
      if cacheBlockNumber != blockNumber {
        ok := CacheFlush();
        if !ok {
          return false;
        }
        ghost var was := cache[..];
        ok := SdcardReadBlock(blockNumber);
        if !ok {
          return false;
        }
        OverlayClean(info, disk, cacheBlockNumber, was, blockNumber, cache[..]);
        cacheBlockNumber := blockNumber;
      }
      if makeDirty {
        cacheDirty := true;
      }
      return true;
    }

    /** Overwrites bytes of the cached block: memcpy into cache.data, or assignments through its
        fat and entries views. */
    method PutCached(off: nat, data: seq<byte>)
      requires Valid() && cacheBlockNumber < |disk| && off + |data| <= 512
      modifies cache, this`cacheDirty, this`img
      ensures Valid() && cacheDirty
      ensures img == if info.InFat2(cacheBlockNumber) then old(img) else PutBytes(old(img), cacheBlockNumber, off, data)
      ensures old(Mirrored()) && !info.InFat1(cacheBlockNumber) && !info.InFat2(cacheBlockNumber) ==> Mirrored()
      ensures old(FatsAgree(info, disk, cacheMirrorBlock)) ==> FatsAgree(info, disk, cacheMirrorBlock)
    {
      ghost var was := cache[..];
      forall i | 0 <= i < |data| {
        cache[off + i] := data[i];
      }
      cacheDirty := true;
      if !info.InFat2(cacheBlockNumber) {
        img := PutBytes(img, cacheBlockNumber, off, data);
      }
      OverlayPut(info, disk, cacheBlockNumber, was, cache[..], off, data);
    }

    /** Requests the copy of the cached block of the first FAT. */
    method ScheduleMirror()
      requires Valid() && cacheDirty && info.InFat1(cacheBlockNumber)
      modifies this`cacheMirrorBlock
      ensures Valid()
      ensures FatsAgree(info, disk, old(cacheMirrorBlock)) ==> Mirrored()
    {
      if info.numFATs > 1 {
        if FatsAgree(info, disk, cacheMirrorBlock) {
          FatsAgreePending(info, disk, cacheMirrorBlock, cacheBlockNumber + info.sectorsPerFAT);
        }
        cacheMirrorBlock := cacheBlockNumber + info.sectorsPerFAT;
      }
    }

    // -------------------------------------------------------------- the table

    /** The shared start of fatGet and fatPut. */
    method CacheFatBlock(cluster: uint16) returns (ok: bool)
      requires Valid() && cluster <= info.clusterCount + 1
      modifies cache, this`disk, this`cacheBlockNumber, this`cacheDirty, this`cacheMirrorBlock, this`faults
      ensures Valid() && |disk| == |old(disk)|
      ensures old(Mirrored()) ==> Mirrored()
      ensures ok ==> faults == old(faults) && cacheBlockNumber == info.fatStart + cluster / 256
      ensures !ok ==> faults > old(faults)
    {
      var lba := info.fatStart + cluster / 256;
      if lba != cacheBlockNumber {
        ok := CacheRawBlock(lba, false);
        if !ok {
          return false;
        }
      }
      return true;
    }

    /** On failure the caller's variable keeps its value; here the result is then meaningless. */
    method FatGet(cluster: uint16) returns (ok: bool, value: uint16)
      requires Valid()
      modifies cache, this`disk, this`cacheBlockNumber, this`cacheDirty, this`cacheMirrorBlock, this`faults
      ensures Valid() && |disk| == |old(disk)|
      ensures old(Mirrored()) ==> Mirrored()
      ensures ok ==> faults == old(faults) && cluster <= info.clusterCount + 1 && value == FatEntry(info, img, cluster)
      ensures ok ==> EntryIs(info, img, cluster, value)
      ensures !ok ==> cluster > info.clusterCount + 1 || faults > old(faults)
      ensures faults >= old(faults)
    {
      if cluster > info.clusterCount + 1 {
        return false, 0;
      }
      ok := CacheFatBlock(cluster);
      if !ok {
        return false, 0;
      }
      FatEntryIs(info, img, cluster);
      return true, FromLe16(cache[2 * (cluster % 256)], cache[2 * (cluster % 256) + 1]);
    }

    lemma FatBlockFacts(cluster: uint16)
      requires Valid()
      ensures info.WellFormed(|img|) && |img| == |disk|
      ensures cluster <= info.clusterCount + 1 ==>
        info.fatStart + cluster / 256 < |disk| < NO_BLOCK && info.InFat1(info.fatStart + cluster / 256)
    {
    }

    method FatPut(cluster: uint16, value: uint16) returns (ok: bool)
      requires Valid()
      modifies cache, this`disk, this`cacheBlockNumber, this`cacheDirty, this`cacheMirrorBlock, this`faults, this`img
      ensures Valid() && |disk| == |old(disk)|
      ensures old(Mirrored()) ==> Mirrored()
      ensures ok ==> faults == old(faults) && info.IsCluster(cluster)
      ensures ok ==> img == PutFat(info, old(img), cluster, value)
      ensures ok ==>
        && EntryIs(info, img, cluster, value)
        && forall i, j :: 0 <= i < |img| && 0 <= j < 512 && !InTableEntry(info, cluster, i, j) ==>
          img[i][j] == old(img)[i][j]
      ensures !ok ==> img == old(img) && (!info.IsCluster(cluster) || faults > old(faults))
      ensures faults >= old(faults)
    {
      hide Overlay, PutBytes, FatEntry, ZeroBlock, Layout.WellFormed, FatsAgree, Driver.Valid, EntryIs, InTableEntry;
      FatBlockFacts(cluster);
      if cluster <= info.clusterCount + 1 {
        PutFatBytes(info, img, cluster, value);
      }
      if cluster < 2 || cluster > info.clusterCount + 1 {
        return false;
      }
      ok := CacheFatBlock(cluster);
      if !ok {
        return false;
      }
      PutCached(2 * (cluster % 256), ToLe16(value));
      ScheduleMirror();
      return true;
    }

    // -------------------------------------------------------------- growing a file

    /** The handle's cluster is the last of its file (0 for a file without clusters). */
    ghost predicate AtEnd(handle: FileHandle)
      reads `files, handle`directoryEntry, handle`currentCluster
    {
      handle.directoryEntry in files && handle.currentCluster == LastOrZero(files[handle.directoryEntry])
    }

    /** The scan for a free cluster: the first free one in scan order, or every cluster is taken. */
    method FindFree(cur: uint16) returns (ok: bool, f: uint16)
      requires Valid()
      modifies cache, this`disk, this`cacheBlockNumber, this`cacheDirty, this`cacheMirrorBlock, this`faults
      ensures Valid() && |disk| == |old(disk)|
      ensures old(Mirrored()) ==> Mirrored()
      ensures ok ==> faults == old(faults) && info.IsCluster(f) && FatEntry(info, img, f) == 0
      ensures ok ==> exists n: nat ::
        && n < info.clusterCount && f == Probe(info, ScanStart(info, cur), n)
        && forall k: nat :: k < n ==> FatEntry(info, img, Probe(info, ScanStart(info, cur), k)) != 0
      ensures ok ==> NextFree(info, img, cur, f)
      ensures !ok && faults == old(faults) ==> VolumeFull(info, img)
      ensures faults >= old(faults)
    {
      hide NextFree, EntryIs, FatEntry, Driver.Mirrored, Overlay;
      ghost var start := ScanStart(info, cur);
      f := if cur != 0 then cur else 1;
      var i := 0;
      while true
        invariant Valid() && |disk| == |old(disk)| && faults == old(faults)
        invariant old(Mirrored()) ==> Mirrored()
        invariant i <= info.clusterCount
        invariant if i == 0 then f == (if cur != 0 then cur else 1) else f == Probe(info, start, i - 1)
        invariant forall k: nat :: k < i ==> FatEntry(info, img, Probe(info, start, k)) != 0
        decreases info.clusterCount - i
      {
        if i >= info.clusterCount {
          ProbeBijective(info, start);
          return false, 0;
        }
        if f > info.clusterCount {
          f := 1;
        }
        f := f + 1;
        assert f == Probe(info, start, i);
        var got, value := FatGet(f);
        if !got {
          return false, 0;
        }
        if value == 0 {
          FirstProbedIsNext(info, img, cur, i);
          return true, f;
        }
        i := i + 1;
      }
    }

    /** Writes the two table entries and moves the handle. A failure leaves the table as it was or one
        cluster marked and unused. */
    method LinkCluster(handle: FileHandle, freeCluster: uint16) returns (ok: bool)
      requires Valid() && info.IsCluster(freeCluster)
      modifies cache, this`disk, this`cacheBlockNumber, this`cacheDirty, this`cacheMirrorBlock, this`faults, this`img
      modifies handle`currentCluster, handle`firstCluster, handle`dirEntryDirty
      ensures Valid() && |disk| == |old(disk)|
      ensures old(Mirrored()) ==> Mirrored()
      ensures ok ==> faults == old(faults) && handle.currentCluster == freeCluster
      ensures ok ==> old(handle.currentCluster) == 0 || info.IsCluster(old(handle.currentCluster))
      ensures ok ==> img == Linked(info, old(img), old(handle.currentCluster), freeCluster)
      ensures if ok && old(handle.currentCluster) == 0
        then handle.firstCluster == freeCluster && handle.dirEntryDirty
        else handle.firstCluster == old(handle.firstCluster) && handle.dirEntryDirty == old(handle.dirEntryDirty)
      ensures !ok ==> handle.currentCluster == old(handle.currentCluster)
      ensures !ok ==> img == old(img) || img == PutFat(info, old(img), freeCluster, END)
      ensures !ok && (old(handle.currentCluster) == 0 || info.IsCluster(old(handle.currentCluster))) ==>
        faults > old(faults)
      ensures faults >= old(faults)
    {
      hide Driver.Mirrored, FatEntry, PutFat, Driver.Valid, EntryIs, InTableEntry, Overlay, Layout.WellFormed;
      ValidFacts();
      ok := FatPut(freeCluster, END);
      if !ok {
        return false;
      }
      if handle.currentCluster != 0 {
        ok := FatPut(handle.currentCluster, freeCluster);
        if !ok {
          return false;
        }
      } else {
        handle.dirEntryDirty := true;
        handle.firstCluster := freeCluster;
      }
      handle.currentCluster := freeCluster;
      return true;
    }

    /** Links a free cluster behind the handle's one. Whatever fails on the way, every chain survives. */
    method AllocateCluster(handle: FileHandle) returns (ok: bool)
      requires Valid()
      modifies cache, this`disk, this`cacheBlockNumber, this`cacheDirty, this`cacheMirrorBlock, this`faults, this`img
      modifies this`files, handle`currentCluster, handle`firstCluster, handle`dirEntryDirty
      ensures Valid() && |disk| == |old(disk)|
      ensures old(Mirrored()) ==> Mirrored()
      ensures old(Consistent() && AtEnd(handle)) ==> Consistent()
      ensures ok ==> faults == old(faults)
      ensures ok ==> info.IsCluster(handle.currentCluster) && FatEntry(info, old(img), handle.currentCluster) == 0
      ensures ok ==> NextFree(info, old(img), old(handle.currentCluster), handle.currentCluster)
      ensures ok ==> old(handle.currentCluster) == 0 || info.IsCluster(old(handle.currentCluster))
      ensures ok ==> img == Linked(info, old(img), old(handle.currentCluster), handle.currentCluster)
      ensures ok ==>
        var was, now := old(handle.currentCluster), handle.currentCluster;
        (was != now ==> EntryIs(info, img, now, 0xFFFF)) && (was != 0 ==> EntryIs(info, img, was, now))
      ensures files == if ok then Grown(old(files), handle.directoryEntry, handle.currentCluster) else old(files)
      ensures if ok && old(handle.currentCluster) == 0
        then handle.firstCluster == handle.currentCluster && handle.dirEntryDirty
        else handle.firstCluster == old(handle.firstCluster) && handle.dirEntryDirty == old(handle.dirEntryDirty)
      ensures !ok ==> handle.currentCluster == old(handle.currentCluster)
      ensures !ok && (old(handle.currentCluster) == 0 || info.IsCluster(old(handle.currentCluster))) ==>
        faults > old(faults) || (img == old(img) && VolumeFull(info, img))
      ensures faults >= old(faults)
    {
      hide Driver.Valid, Driver.Mirrored, FatEntry, PutFat, Volume, VolumeFull, ScanStart, Probe, Linked, Grown;
      hide NextFree, EntryIs;
      hide Layout.WellFormed;
      ValidFacts();
      var found, freeCluster := FindFree(handle.currentCluster);
      if !found {
        return false;
      }
      ok := LinkCluster(handle, freeCluster);
      ghost var chains := files;
      if ok {
        LinkedBytes(info, old(img), old(handle.currentCluster), freeCluster);
        files := Grown(files, handle.directoryEntry, freeCluster);
      }
      assert old(Consistent() && AtEnd(handle)) ==> Volume(info, img, files) by {
        if old(Consistent() && AtEnd(handle)) {
          PutFreeVolume(info, old(img), chains, freeCluster, END);
          AllocationVolume(info, old(img), chains, handle.directoryEntry, freeCluster);
        }
      }
    }

    // -------------------------------------------------------------- handles

    ghost predicate HandleOk(handle: FileHandle)
      reads `files, handle`directoryEntry, handle`firstCluster, handle`fileSize, handle`position
    {
      Describes(info, files, handle.directoryEntry, handle.firstCluster, handle.fileSize, handle.position)
    }

    ghost predicate InStep(handle: FileHandle)
      requires info.sectorsPerCluster > 0
      reads `files, handle`directoryEntry, handle`position, handle`currentCluster
    {
      Tracks(info, files, handle.directoryEntry, handle.position, handle.currentCluster)
    }

    /** Follows the table for a number of steps. */
    method WalkChain(first: uint16, steps: uint16, ghost ch: seq<int>) returns (ok: bool, cluster: uint16)
      requires Valid() && IsChain(info, img, ch)
      modifies cache, this`disk, this`cacheBlockNumber, this`cacheDirty, this`cacheMirrorBlock, this`faults
      ensures Valid() && |disk| == |old(disk)|
      ensures old(Mirrored()) ==> Mirrored()
      ensures faults >= old(faults)
      ensures steps == 0 ==> ok && cluster == first
      ensures steps < |ch| && first == ch[0] && faults == old(faults) ==> ok && cluster == ch[steps]
    {
      hide Driver.Mirrored, FatEntry, Overlay, IsChain;
      var clusterIndex: uint16 := steps;
      cluster := first;
      while clusterIndex != 0
        invariant Valid() && |disk| == |old(disk)|
        invariant old(Mirrored()) ==> Mirrored()
        invariant faults >= old(faults)
        invariant clusterIndex <= steps
        invariant steps == 0 ==> cluster == first
        invariant steps < |ch| && first == ch[0] && faults == old(faults) ==> cluster == ch[steps - clusterIndex]
        decreases clusterIndex
      {
        if steps < |ch| {
          ChainStep(info, img, ch, steps - clusterIndex);
        }
        ok, cluster := FatGet(cluster);
        if !ok {
          return;
        }
        clusterIndex := clusterIndex - 1;
      }
      ok := true;
    }

    /** Moves the handle to a position inside its file. */
    method GoToPosition(handle: FileHandle, newPosition: uint32) returns (ok: bool)
      requires Valid()
      modifies cache, this`disk, this`cacheBlockNumber, this`cacheDirty, this`cacheMirrorBlock, this`faults
      modifies handle`currentCluster, handle`position
      ensures Valid() && |disk| == |old(disk)|
      ensures old(Mirrored()) ==> Mirrored()
      ensures faults >= old(faults)
      ensures ok ==> handle.position == newPosition
      ensures !ok ==> handle.position == old(handle.position) && handle.currentCluster == old(handle.currentCluster)
      ensures old(Consistent() && HandleOk(handle)) && newPosition <= handle.fileSize && faults == old(faults) ==>
        ok && HandleOk(handle) && InStep(handle)
    {
      hide Driver.Valid, Driver.Mirrored, Driver.Consistent, Layout.WellFormed, Layout.ClusterIndex;
      hide IsChain, Describes, Tracks;
      ValidFacts();
      NoChain(info, img);
      ghost var ch := [];
      if Consistent() && HandleOk(handle) && newPosition <= handle.fileSize {
        GoToFacts(handle, newPosition);
        ch := files[handle.directoryEntry];
      }
      var clusterIndex: uint16 := info.ClusterIndex(newPosition) % 0x1_0000;
      var nextCluster;
      ok, nextCluster := WalkChain(handle.firstCluster, clusterIndex, ch);
      if !ok {
        return false;
      }
      handle.currentCluster := nextCluster;
      handle.position := newPosition;
      return true;
    }

    // -------------------------------------------------------------- flushing

    /** Loads the block of a directory slot for writing. */
    method CacheDirEntry(index: uint16) returns (ok: bool)
      requires Valid()
      modifies cache, this`disk, this`cacheBlockNumber, this`cacheDirty, this`cacheMirrorBlock, this`faults
      ensures Valid() && |disk| == |old(disk)|
      ensures old(Mirrored()) ==> Mirrored()
      ensures ok ==> index < info.numRootEntries && cacheBlockNumber == SlotBlock(info, index) < |disk| && cacheDirty
      ensures ok ==> faults == old(faults)
      ensures !ok ==> faults > old(faults) || (index >= info.numRootEntries && faults == old(faults))
    {
      hide FatEntry, Overlay, FatsAgree;
      if index >= info.numRootEntries {
        return false;
      }
      ok := CacheRawBlock(info.rootDirStart + index / 16, true);
    }

    lemma DirFacts(d: nat)
      requires Valid() && d < info.numRootEntries
      ensures !info.InFat2(SlotBlock(info, d)) && SlotOffset(d) + 6 <= 512
    {
    }

    /** Brings the directory slot up to date and empties the cache. */
    method FileFlush(handle: FileHandle)
      requires Valid()
      modifies cache, this`disk, this`cacheBlockNumber, this`cacheDirty, this`cacheMirrorBlock, this`faults, this`img
      modifies handle`dirEntryDirty
      ensures Valid() && |disk| == |old(disk)|
      ensures old(Mirrored()) ==> Mirrored()
      ensures faults >= old(faults)
      ensures faults == old(faults) && handle.directoryEntry < info.numRootEntries ==>
        && !cacheDirty && !handle.dirEntryDirty
        && img == if old(handle.dirEntryDirty)
            then PutDir(info, old(img), handle.directoryEntry, handle.firstCluster, handle.fileSize)
            else old(img)
      ensures faults == old(faults) && handle.directoryEntry < info.numRootEntries && old(handle.dirEntryDirty) ==>
        && EntryHolds(info, img, handle.directoryEntry, handle.firstCluster, handle.fileSize)
        && forall i, j :: 0 <= i < |img| && 0 <= j < 512 && !InEntry(info, handle.directoryEntry, i, j) ==>
          img[i][j] == old(img)[i][j]
    {
      hide Driver.Valid, Driver.Mirrored, PutBytes, FatsAgree, Layout.WellFormed, EntryHolds, InEntry;
      ValidFacts();
      if handle.directoryEntry < info.numRootEntries {
        PutDirBytes(info, img, handle.directoryEntry, handle.firstCluster, handle.fileSize);
      }
      if handle.dirEntryDirty {
        var ok := CacheDirEntry(handle.directoryEntry);
        if !ok {
          return;
        }
        DirFacts(handle.directoryEntry);
        PutCached(SlotOffset(handle.directoryEntry), ToLe16(handle.firstCluster) + ToLe32(handle.fileSize));
        handle.dirEntryDirty := false;
      }
      var flushed := CacheFlush();
    }

    // -------------------------------------------------------------- writing

    /** cacheRawBlock(blockNumber, true) and the memcpy into it. */
    method StoreBytes(blockNumber: uint16, off: nat, data: seq<byte>) returns (ok: bool)
      requires Valid() && off + |data| <= 512
      modifies cache, this`disk, this`cacheBlockNumber, this`cacheDirty, this`cacheMirrorBlock, this`faults, this`img
      ensures Valid() && |disk| == |old(disk)|
      ensures old(Mirrored()) && !info.InFat1(blockNumber) && !info.InFat2(blockNumber) ==> Mirrored()
      ensures ok ==> faults == old(faults) && blockNumber < |disk|
      ensures ok && !info.InFat2(blockNumber) ==> img == PutBytes(old(img), blockNumber, off, data)
      ensures !ok ==> faults > old(faults) && img == old(img)
    {
      hide Driver.Valid, Driver.Mirrored, PutBytes;
      ok := CacheRawBlock(blockNumber, true);
      if !ok {
        return false;
      }
      PutCached(off, data);
    }

    /** The handle's cluster is number k of its file. */
    ghost predicate At(handle: FileHandle, k: nat)
      reads `files, handle`directoryEntry, handle`currentCluster
    {
      && handle.directoryEntry in files
      && k < |files[handle.directoryEntry]|
      && files[handle.directoryEntry][k] == handle.currentCluster
    }

    lemma AtFacts(handle: FileHandle, k: nat)
      requires Valid() && Consistent() && At(handle, k)
      ensures var ch := files[handle.directoryEntry];
        && info.IsCluster(handle.currentCluster)
        && if k + 1 < |ch| then FatEntry(info, img, handle.currentCluster) == ch[k + 1] && ch[k + 1] < END_MIN
           else FatEntry(info, img, handle.currentCluster) >= END_MIN && AtEnd(handle)
    {
    }

    /** Moves the handle to the next cluster of its file, adding one when the chain ends here. */
    method AdvanceCluster(handle: FileHandle, ghost k: nat) returns (ok: bool)
      requires Valid()
      modifies cache, this`disk, this`cacheBlockNumber, this`cacheDirty, this`cacheMirrorBlock, this`faults, this`img
      modifies this`files, handle`currentCluster, handle`firstCluster, handle`dirEntryDirty
      ensures Valid() && |disk| == |old(disk)|
      ensures faults >= old(faults)
      ensures faults == old(faults) && old(Mirrored()) ==> Mirrored()
      ensures faults == old(faults) && old(Consistent() && At(handle, k)) ==>
        && Consistent()
        && Advanced(info, old(img), old(files), img, files, handle.directoryEntry, k, ok, handle.currentCluster)
        && handle.firstCluster == old(handle.firstCluster) && handle.dirEntryDirty == old(handle.dirEntryDirty)
    {
      hide Driver.Valid, Driver.Mirrored, Driver.Consistent, Layout.WellFormed, Linked, Grown, VolumeFull, FatEntry;
      ValidFacts();
      if Consistent() && At(handle, k) {
        AtFacts(handle, k);
      }
      var got: bool, nextCluster: uint16;
      got, nextCluster := FatGet(handle.currentCluster);
      if !got {
        nextCluster := *;
      }
      if nextCluster >= END_MIN {
        ok := AllocateCluster(handle);
      } else {
        handle.currentCluster := nextCluster;
        ok := true;
      }
    }

    /** The position a write starts from. */
    ghost function WritePosition(handle: FileHandle): nat
      reads handle
    {
      if Appends(handle.flags) then handle.fileSize else handle.position
    }

    /** The write seeks the end of the file first. */
    ghost predicate Seeks(handle: FileHandle)
      reads handle
    {
      Appends(handle.flags) && handle.position != handle.fileSize
    }

    /** With O_APPEND, writing starts at the end of the file, which also brings the handle back in step. */
    method HonourAppend(handle: FileHandle) returns (ok: bool)
      requires Valid()
      modifies cache, this`disk, this`cacheBlockNumber, this`cacheDirty, this`cacheMirrorBlock, this`faults
      modifies handle`currentCluster, handle`position
      ensures Valid() && |disk| == |old(disk)|
      ensures faults >= old(faults)
      ensures old(Mirrored()) ==> Mirrored()
      ensures !old(Seeks(handle)) ==>
        ok && handle.position == old(handle.position) && handle.currentCluster == old(handle.currentCluster)
      ensures faults == old(faults) && old(Consistent() && HandleOk(handle) && (InStep(handle) || Seeks(handle))) ==>
        ok && HandleOk(handle) && InStep(handle) && handle.position == old(WritePosition(handle))
    {
      hide Driver.Valid, Driver.Mirrored, Driver.Consistent, Describes, Tracks;
      if Appends(handle.flags) && handle.position != handle.fileSize {
        ok := GoToPosition(handle, handle.fileSize);
      } else {
        ok := true;
      }
    }

    /** An empty file gets its first cluster. */
    method EnsureCluster(handle: FileHandle) returns (ok: bool)
      requires Valid()
      modifies cache, this`disk, this`cacheBlockNumber, this`cacheDirty, this`cacheMirrorBlock, this`faults, this`img
      modifies this`files, handle`currentCluster, handle`firstCluster, handle`dirEntryDirty
      ensures Valid() && |disk| == |old(disk)|
      ensures faults >= old(faults)
      ensures old(Mirrored()) ==> Mirrored()
      ensures faults == old(faults) && old(Consistent() && HandleOk(handle) && InStep(handle)) ==>
        && Evolved(info, old(img), old(files), img, files, handle.directoryEntry) && SameData(info, old(img), img)
        && Growth(info, old(img), old(files), img, files, handle.directoryEntry)
        && HandleOk(handle) && InStep(handle)
        && (ok ==> files[handle.directoryEntry] != [])
        && (!ok ==> VolumeFull(info, img) && files[handle.directoryEntry] == [])
        && (!ok || old(files[handle.directoryEntry]) != [] ==> img == old(img) && files == old(files))
      ensures old(handle.currentCluster) != 0 ==>
        && ok && img == old(img) && files == old(files) && handle.currentCluster == old(handle.currentCluster)
        && handle.firstCluster == old(handle.firstCluster)
    {
      hide Driver.Valid, Driver.Mirrored, Layout.WellFormed, Evolved, VolumeFull, SameData, FatEntry, Linked, Growth;
      hide Volume, Describes, Tracks;
      ValidFacts();
      ghost var good := Consistent() && HandleOk(handle) && InStep(handle);
      if good {
        StepFacts(handle);
        EvolvedRefl(info, img, files, handle.directoryEntry);
        GrowthRefl(info, img, files, handle.directoryEntry);
        SameDataRefl(info, img);
      }
      if handle.currentCluster != 0 {
        return true;
      }
      ok := AllocateCluster(handle);
      if good && ok {
        EvolvedGrow(info, old(img), old(files), handle.directoryEntry, handle.currentCluster);
        GrowthLinked(info, old(img), old(files), handle.directoryEntry, handle.currentCluster);
        FreshTracks(info, files, handle.directoryEntry, handle.currentCluster);
      }
    }

    lemma StepFacts(handle: FileHandle)
      requires Valid() && info.sectorsPerCluster > 0 && Consistent() && HandleOk(handle) && InStep(handle)
      ensures handle.directoryEntry in files
      ensures var ch := files[handle.directoryEntry];
        if ch == [] then handle.currentCluster == 0 && handle.fileSize == 0 && handle.position == 0 && AtEnd(handle)
        else info.IsCluster(handle.currentCluster)
    {
    }

    /** The handle's cluster is number k, and position q is where a second store would go. */
    ghost predicate Ready(handle: FileHandle, blockNumber: nat, useTwoClusters: bool, k: nat, q: nat)
      requires info.WellFormed(|img|)
      reads `img, `files, handle`directoryEntry, handle`currentCluster
    {
      && Consistent()
      && At(handle, k)
      && RestFits(info, files[handle.directoryEntry], blockNumber, useTwoClusters, k, q)
    }

    lemma ReadyFacts(handle: FileHandle, blockNumber: nat, useTwoClusters: bool, k: nat, q: nat)
      requires Valid() && Ready(handle, blockNumber, useTwoClusters, k, q)
      ensures Volume(info, img, files)
      ensures handle.directoryEntry in files && InRange(info, files[handle.directoryEntry])
      ensures k < |files[handle.directoryEntry]|
      ensures RestFits(info, files[handle.directoryEntry], blockNumber, useTwoClusters, k, q)
      ensures if useTwoClusters then info.ClusterIndex(q) == k + 1 && info.ClusterOffset(q) == 0
        else q % 512 == 0 && Tracks(info, files, handle.directoryEntry, q, handle.currentCluster)
    {
    }

    /** Finds the block for the rest of the data: the first one of the next cluster, or the next one. */
    method NextBlock(handle: FileHandle, blockNumber: uint16, useTwoClusters: bool, ghost k: nat, ghost q: nat)
      returns (ok: bool, target: uint16)
      requires Valid()
      modifies cache, this`disk, this`cacheBlockNumber, this`cacheDirty, this`cacheMirrorBlock, this`faults, this`img
      modifies this`files, handle`currentCluster, handle`firstCluster, handle`dirEntryDirty
      ensures Valid() && |disk| == |old(disk)|
      ensures faults >= old(faults)
      ensures faults == old(faults) && old(Mirrored()) ==> Mirrored()
      ensures faults == old(faults) && old(Ready(handle, blockNumber, useTwoClusters, k, q)) ==>
        && handle.firstCluster == old(handle.firstCluster) && handle.dirEntryDirty == old(handle.dirEntryDirty)
        && Evolved(info, old(img), old(files), img, files, handle.directoryEntry) && SameData(info, old(img), img)
        && Growth(info, old(img), old(files), img, files, handle.directoryEntry)
        && (ok ==>
              && Tracks(info, files, handle.directoryEntry, q, handle.currentCluster)
              && q % 512 == 0 && q < Capacity(info, files[handle.directoryEntry])
              && InRange(info, files[handle.directoryEntry])
              && Sector(info, files[handle.directoryEntry], q) == target
              && target < |img| && !info.InFat1(target) && !info.InFat2(target))
        && (!ok ==>
              && useTwoClusters && VolumeFull(info, img)
              && img == old(img) && files == old(files) && handle.currentCluster == old(handle.currentCluster)
              && q == Capacity(info, files[handle.directoryEntry]))
    {
      hide Driver.Valid, Driver.Mirrored, Volume, VolumeFull, Evolved, SameData, Advanced, RestFits, Sector, Growth;
      hide Layout.WellFormed, Layout.Blocks, BlockNumber16, Layout.ClusterIndex, Layout.ClusterOffset;
      ValidFacts();
      ghost var ready := Ready(handle, blockNumber, useTwoClusters, k, q);
      ghost var d := handle.directoryEntry;
      if ready {
        ReadyFacts(handle, blockNumber, useTwoClusters, k, q);
      }
      if useTwoClusters {
        ok := AdvanceCluster(handle, k);
        ValidFacts();
        if ready && faults == old(faults) {
          AdvancedTracks(info, old(img), old(files), img, files, d, k, ok, handle.currentCluster, q);
          AdvancedGrowth(info, old(img), old(files), img, files, d, k, ok, handle.currentCluster);
        }
        if !ok {
          return false, 0;
        }
        target := BlockNumber16(info, handle.currentCluster, 0);
        if ready && faults == old(faults) {
          EvolvedFacts(info, old(img), old(files), img, files, d, k);
          ClusterStartFits(info, img, files, d, handle.currentCluster, q);
        }
      } else {
        target := (blockNumber + 1) % 0x1_0000;
        if ready {
          EvolvedRefl(info, img, files, d);
          GrowthRefl(info, img, files, d);
          SameDataRefl(info, img);
          NextBlockFits(info, img, files[d], blockNumber, k, q);
        }
      }
      ok := true;
    }

    /** The second half of fatFsWrite's transfer: position q takes what did not fit the first block; without a
        rest, the handle still moves on when the first part ended its cluster. */
    method StoreRest(handle: FileHandle, blockNumber: uint16, rest: seq<byte>, useTwoClusters: bool, ghost k: nat,
        ghost q: nat)
      returns (outcome: Outcome)
      requires Valid() && |rest| < 512
      modifies cache, this`disk, this`cacheBlockNumber, this`cacheDirty, this`cacheMirrorBlock, this`faults, this`img
      modifies this`files, handle`currentCluster, handle`firstCluster, handle`dirEntryDirty
      ensures Valid() && |disk| == |old(disk)|
      ensures faults >= old(faults)
      ensures outcome == Failed ==> faults > old(faults)
      ensures outcome == Completed || outcome == OutOfSpace || outcome == Failed
      ensures faults == old(faults) && old(RestReady(handle, blockNumber, rest, useTwoClusters, k, q)) ==>
        && (old(Mirrored()) ==> Mirrored())
        && handle.firstCluster == old(handle.firstCluster) && handle.dirEntryDirty == old(handle.dirEntryDirty)
        && Growth(info, old(img), old(files), img, files, handle.directoryEntry)
        && (outcome == Completed ==>
              Stored(info, old(img), old(files), img, files, handle.directoryEntry, q, rest, handle.currentCluster))
        && (outcome == OutOfSpace ==>
              && rest != [] && img == old(img) && files == old(files)
              && FullAt(info, img, files, handle.directoryEntry, q))
    {
      hide Driver.Valid, Driver.Mirrored, Driver.Ready, Evolved, SameData, Stored, Sector, PutBytes, RestFits, FullAt;
      hide Layout.WellFormed, Layout.Blocks, Layout.ClusterIndex, Layout.ClusterOffset, Tracks, Volume, Advanced;
      hide VolumeFull;
      hide Growth, SameFat;
      ValidFacts();
      ghost var d := handle.directoryEntry;
      ghost var ready := RestReady(handle, blockNumber, rest, useTwoClusters, k, q);
      if ready {
        RestFacts(handle, blockNumber, rest, useTwoClusters, k, q);
      }
      if rest != [] {
        var ok, target := NextBlock(handle, blockNumber, useTwoClusters, k, q);
        ValidFacts();
        if !ok {
          if ready && faults == old(faults) {
            FullIntro(info, img, files, d, q);
          }
          return OutOfSpace;
        }
        ghost var found := img;
        ok := StoreBytes(target, 0, rest);
        if !ok {
          return Failed;
        }
        if ready && faults == old(faults) {
          RestIsStored(info, old(img), old(files), found, files, img, d, q, rest, handle.currentCluster);
          EvolvedVolume(info, old(img), old(files), found, files, d);
          DataSameFat(info, found, files[d], q, 0, rest);
          SameFatRefl(info, old(img));
          GrowthAround(info, old(img), old(img), old(files), found, img, files, d);
        }
      } else {
        if useTwoClusters {
          var moved := AdvanceCluster(handle, k);
          ValidFacts();
          if ready && faults == old(faults) {
            AdvancedTracks(info, old(img), old(files), img, files, d, k, moved, handle.currentCluster, q);
            AdvancedGrowth(info, old(img), old(files), img, files, d, k, moved, handle.currentCluster);
            if !moved {
              FullIntro(info, img, files, d, q);
            }
          }
        } else if ready {
          EvolvedRefl(info, img, files, d);
          SameDataRefl(info, img);
          GrowthRefl(info, img, files, d);
        }
        if ready && faults == old(faults) {
          NothingLeft(info, old(img), old(files), img, files, d, q, handle.currentCluster);
        }
      }
      return Completed;
    }

    /** Ready, when there is something to do; otherwise the handle is in step with q already. */
    ghost predicate RestReady(handle: FileHandle, blockNumber: nat, rest: seq<byte>, useTwoClusters: bool, k: nat,
        q: nat)
      requires info.WellFormed(|img|)
      reads `img, `files, handle`directoryEntry, handle`currentCluster
    {
      if rest != [] || useTwoClusters then
        Ready(handle, blockNumber, useTwoClusters, k, q)
      else
        Consistent() && At(handle, k) && Tracks(info, files, handle.directoryEntry, q, handle.currentCluster)
    }

    lemma RestFacts(handle: FileHandle, blockNumber: nat, rest: seq<byte>, useTwoClusters: bool, k: nat, q: nat)
      requires Valid() && RestReady(handle, blockNumber, rest, useTwoClusters, k, q)
      ensures Consistent() && At(handle, k) && Volume(info, img, files)
      ensures handle.directoryEntry in files && k < |files[handle.directoryEntry]|
      ensures useTwoClusters ==> info.ClusterIndex(q) == k + 1 && info.ClusterOffset(q) == 0
      ensures rest == [] && !useTwoClusters ==> Tracks(info, files, handle.directoryEntry, q, handle.currentCluster)
    {
    }

    /** The handle may write at position p: its file has a cluster there and the handle is on it. */
    ghost predicate Writable(handle: FileHandle, p: nat)
      requires info.WellFormed(|img|)
      reads `img, `files, handle`directoryEntry, handle`currentCluster
    {
      && Consistent()
      && Tracks(info, files, handle.directoryEntry, p, handle.currentCluster)
      && files[handle.directoryEntry] != []
    }

    lemma WritableFacts(handle: FileHandle, p: nat, n: nat)
      requires Valid() && Writable(handle, p) && n <= 512
      ensures info.sectorsPerCluster > 0
      ensures handle.directoryEntry in files && Volume(info, img, files) && InRange(info, files[handle.directoryEntry])
      ensures files[handle.directoryEntry] != [] && p < Capacity(info, files[handle.directoryEntry])
      ensures At(handle, info.ClusterIndex(p)) && info.ClusterOffset(p) % 512 == p % 512
      ensures var o := info.ClusterOffset(p);
        var m, two := FirstLength(o % 512, n), o + n >= info.ClusterSize();
        && (two || m < n ==>
              RestFits(info, files[handle.directoryEntry], BlockNumber16(info, handle.currentCluster, o), two,
                info.ClusterIndex(p), p + m))
        && (!two && m == n ==> Tracks(info, files, handle.directoryEntry, p + n, handle.currentCluster))
    {
      RestPlace(info, img, files[handle.directoryEntry], p, handle.currentCluster, n);
      BlockOfPosition(info, img, files[handle.directoryEntry], p, handle.currentCluster);
    }

    lemma RestReadyIf(handle: FileHandle, blockNumber: nat, rest: seq<byte>, useTwoClusters: bool, k: nat, q: nat)
      requires Valid() && handle.directoryEntry in files && Volume(info, img, files) && At(handle, k)
      requires InRange(info, files[handle.directoryEntry]) && info.sectorsPerCluster > 0
      requires rest != [] || useTwoClusters ==>
        RestFits(info, files[handle.directoryEntry], blockNumber, useTwoClusters, k, q)
      requires rest == [] && !useTwoClusters ==> Tracks(info, files, handle.directoryEntry, q, handle.currentCluster)
      ensures RestReady(handle, blockNumber, rest, useTwoClusters, k, q)
    {
    }

    /** The transfer of fatFsWrite: at most two blocks, the second one possibly in the next cluster. The bytes go to
        position e, the one the handle's cluster stands for, which shares its offset with the handle's position p. */
    method StoreData(handle: FileHandle, p: uint32, buffer: seq<byte>, ghost e: nat)
      returns (outcome: Outcome, stored: nat)
      requires Valid() && |buffer| <= 512
      modifies cache, this`disk, this`cacheBlockNumber, this`cacheDirty, this`cacheMirrorBlock, this`faults, this`img
      modifies this`files, handle`currentCluster, handle`firstCluster, handle`dirEntryDirty
      ensures Valid() && |disk| == |old(disk)|
      ensures faults >= old(faults)
      ensures outcome == Failed ==> faults > old(faults) && stored == 0
      ensures outcome == Completed || outcome == OutOfSpace || outcome == Failed
      ensures stored <= |buffer|
      ensures outcome == Completed ==> stored == |buffer|
      ensures info.ClusterOffset(e) == info.ClusterOffset(p) ==>
        faults == old(faults) && old(Mirrored() && Writable(handle, e)) ==>
        && Mirrored()
        && handle.firstCluster == old(handle.firstCluster) && handle.dirEntryDirty == old(handle.dirEntryDirty)
        && Growth(info, old(img), old(files), img, files, handle.directoryEntry)
        && (outcome == Completed ==>
              Stored(info, old(img), old(files), img, files, handle.directoryEntry, e, buffer, handle.currentCluster))
        && (outcome == OutOfSpace ==>
              StoredShort(info, old(img), old(files), img, files, handle.directoryEntry, e, buffer, stored))
    {
      hide *;
      ValidFacts();
      ghost var d, good := handle.directoryEntry,
        Mirrored() && Writable(handle, e) && info.ClusterOffset(e) == info.ClusterOffset(p);
      if good {
        WritableFacts(handle, e, |buffer|);
      }
      var offsetInCluster := info.ClusterOffset(p);
      SplitPoint(info, offsetInCluster, |buffer|);
      var blockNumber := BlockNumber16(info, handle.currentCluster, offsetInCluster);
      var useTwoClusters := offsetInCluster + |buffer| >= info.ClusterSize();
      var m := FirstLength(offsetInCluster % 512, |buffer|);
      var x, y := buffer[..m], buffer[m..];
      if good {
        FirstStore(info, img, files, d, e, handle.currentCluster, x);
        DataSameFat(info, img, files[d], e, e % 512, x);
      }
      var ok := StoreBytes(blockNumber, offsetInCluster % 512, x);
      if !ok {
        return Failed, 0;
      }
      ghost var half := img;
      if good {
        ValidFacts();
        EvolvedVolume(info, old(img), files, img, files, d);
        RestReadyIf(handle, blockNumber, y, useTwoClusters, info.ClusterIndex(e), e + m);
      }
      outcome := StoreRest(handle, blockNumber, y, useTwoClusters, info.ClusterIndex(e), e + m);
      stored := if outcome == Completed then |buffer| else if outcome == OutOfSpace then m else 0;
      if good && faults == old(faults) {
        SameFatRefl(info, img);
        GrowthAround(info, old(img), half, old(files), img, img, files, d);
        if outcome == Completed {
          StoredCompose(info, old(img), old(files), half, img, files, d, e, x, y, handle.currentCluster);
          assert x + y == buffer;
        } else {
          ShortIntro(info, old(img), files, half, d, e, buffer, m);
        }
      }
    }

    /** The bookkeeping of fatFsWrite, done before anything is stored. The distance to the end of the file
        is truncated to 16 bits. */
    method AdvancePosition(handle: FileHandle, length: uint16)
      modifies handle`position, handle`fileSize, handle`dirEntryDirty
      ensures handle.position == (old(handle.position) + length) % 0x1_0000_0000
      ensures old(handle.position) <= old(handle.fileSize) ==>
        handle.fileSize == GrownSize(old(handle.fileSize), old(handle.position), length) % 0x1_0000_0000
      ensures handle.dirEntryDirty
    {
      var beforeEnd: uint16 := (handle.fileSize - handle.position) % 0x1_0000;
      if beforeEnd < length {
        handle.fileSize := (handle.fileSize + (length - beforeEnd)) % 0x1_0000_0000;
      }
      handle.position := (handle.position + length) % 0x1_0000_0000;
      handle.dirEntryDirty := true;
    }

    lemma GrowthFacts(handle: FileHandle, n: nat)
      requires Valid() && Consistent() && HandleOk(handle) && n <= 512
      ensures handle.position <= handle.fileSize
      ensures (handle.position + n) % 0x1_0000_0000 == handle.position + n
      ensures var size := GrownSize(handle.fileSize, handle.position, n); size % 0x1_0000_0000 == size
    {
      hide Layout.WellFormed, Layout.Blocks, FatEntry, IsChain, Disjoint;
      ChainBound(info, img, files[handle.directoryEntry]);
    }

    lemma WritableIf(handle: FileHandle)
      requires Valid() && Consistent() && HandleOk(handle) && InStep(handle)
      requires handle.directoryEntry in files && files[handle.directoryEntry] != []
      ensures Writable(handle, handle.position) && handle.position < Capacity(info, files[handle.directoryEntry])
    {
    }

    /** What a completed write means for the handle and the file's contents. */
    lemma WriteMeans(handle: FileHandle, a: Image, fa: map<nat, seq<int>>, size: nat, p: nat, data: seq<byte>)
      requires Valid() && |a| == |img| && Volume(info, a, fa) && handle.directoryEntry in fa
      requires p <= size <= Capacity(info, fa[handle.directoryEntry])
      requires Stored(info, a, fa, img, files, handle.directoryEntry, p, data, handle.currentCluster)
      requires handle.position == p + |data| && handle.fileSize == GrownSize(size, p, |data|) && |data| <= 512
      requires size == 0 || size < Capacity(info, fa[handle.directoryEntry])
      requires files[handle.directoryEntry] != [] && handle.firstCluster == files[handle.directoryEntry][0]
      ensures var d := handle.directoryEntry;
        && Consistent()
        && Overwrites(info, a, fa, img, files, d, size, p, data, handle.currentCluster)
        && (InStep(handle) <==> !FullAt(info, img, files, d, p + |data|))
        && (InStep(handle) && SizeTracks(size, p, |data|) ==> HandleOk(handle))
    {
      hide ByteAt, Written, OthersKept, Content, Overwrite, Layout.Blocks, IsChain, Disjoint;
      var d := handle.directoryEntry;
      StoredIsOverwrite(info, a, fa, img, files, d, size, p, data, handle.currentCluster);
      GrownSizeExact(size, p, |data|);
      CapacityMono(info, fa[d], files[d]);
    }

    lemma DescribesFacts(handle: FileHandle)
      requires Valid() && Consistent() && HandleOk(handle)
      ensures handle.directoryEntry in files && handle.position <= handle.fileSize
      ensures Volume(info, img, files) && handle.directoryEntry < info.numRootEntries
      ensures var ch := files[handle.directoryEntry];
        && handle.fileSize <= Capacity(info, ch)
        && ch == Chain(handle)
        && (ch == [] ==> handle.fileSize == 0 && WritePosition(handle) == 0)
        && WritePosition(handle) <= handle.fileSize
        && (handle.fileSize == 0 || handle.fileSize < Capacity(info, ch))
        && (ch != [] ==> handle.firstCluster == ch[0])
    {
    }

    /** The handle's cluster holds position e of its file, whose offset the handle's position shares. */
    ghost predicate TransferReady(handle: FileHandle, e: nat)
      requires Valid()
      reads cache, `disk, `cacheBlockNumber, `cacheDirty, `cacheMirrorBlock, `img, `files, handle
    {
      ValidFacts();
      && Mirrored() && Consistent() && HandleOk(handle) && Writable(handle, e)
      && info.ClusterOffset(e) == info.ClusterOffset(handle.position)
    }

    lemma TransferReadyIf(handle: FileHandle, e: nat)
      requires Valid() && info.sectorsPerCluster > 0
      requires Mirrored() && Consistent() && HandleOk(handle) && Writable(handle, e)
      requires info.ClusterOffset(e) == info.ClusterOffset(handle.position)
      ensures TransferReady(handle, e)
    {
    }

    /** The rest of fatFsWrite, once the handle is on a cluster: bookkeeping, transfer, flush. The bytes go to
        position e. */
    method Transfer(handle: FileHandle, buffer: seq<byte>, ghost e: nat) returns (outcome: Outcome, written: nat)
      requires Valid() && |buffer| <= 512
      modifies cache, this`disk, this`cacheBlockNumber, this`cacheDirty, this`cacheMirrorBlock, this`faults, this`img
      modifies this`files, handle`currentCluster, handle`firstCluster, handle`dirEntryDirty, handle`position,
        handle`fileSize
      ensures Valid() && |disk| == |old(disk)|
      ensures faults >= old(faults)
      ensures outcome == Completed || outcome == OutOfSpace || outcome == Failed
      ensures outcome == Failed ==> faults > old(faults)
      ensures faults == old(faults) && old(TransferReady(handle, e)) ==>
        && Mirrored()
        && Growth(info, old(img), old(files), img, files, handle.directoryEntry)
        && handle.position == old(handle.position) + |buffer|
        && handle.fileSize == GrownSize(old(handle.fileSize), old(handle.position), |buffer|)
        && (outcome == Completed ==>
              && written == |buffer|
              && Stored(info, old(img), old(files), img, files, handle.directoryEntry, e, buffer, handle.currentCluster)
              && Chain(handle) != [] && handle.firstCluster == Chain(handle)[0]
              && Recorded(handle, old(handle.fileSize), old(handle.position), |buffer|))
        && (outcome == OutOfSpace ==>
              StoredShort(info, old(img), old(files), img, files, handle.directoryEntry, e, buffer, written))
    {
      hide Driver.Valid, Driver.Mirrored, Driver.Consistent, Driver.Writable, Driver.HandleOk, Evolved, Stored;
      hide StoredShort;
      hide Layout.WellFormed, Layout.Blocks, Tracks, Capacity, GrownSize, DirSize, DirStart, PutDir, Volume, Growth;
      hide EntryHolds, InEntry;
      hide SameFat;
      hide Layout.ClusterOffset;
      ValidFacts();
      ghost var d, good := handle.directoryEntry, TransferReady(handle, e);
      if good {
        DescribesFacts(handle);
        WritableFacts(handle, e, 0);
        GrowthFacts(handle, |buffer|);
      }
      var p := handle.position;
      AdvancePosition(handle, |buffer|);
      outcome, written := StoreData(handle, p, buffer, e);
      ValidFacts();
      if outcome == Completed {
        ghost var half := img;
        FileFlush(handle);
        if good && faults == old(faults) {
          StoredThenDir(info, old(img), old(files), half, files, d, e, buffer, handle.currentCluster,
            handle.firstCluster, handle.fileSize);
          StoredFirst(info, old(img), old(files), img, files, d, e, buffer, handle.currentCluster);
          PutDirFrame(info, half, d, handle.firstCluster, handle.fileSize);
          SameFatRefl(info, old(img));
          GrowthAround(info, old(img), old(img), old(files), half, img, files, d);
        }
      }
    }

    /** The tables are sound, and the handle describes its file and is in step with it, or will be once the write
        has sought the end of the file. */
    ghost predicate WriteReady(handle: FileHandle)
      requires Valid()
      reads cache, `disk, `cacheBlockNumber, `cacheDirty, `cacheMirrorBlock, `img, `files, handle
    {
      ValidFacts();
      Mirrored() && Consistent() && HandleOk(handle) && (InStep(handle) || Seeks(handle))
    }

    /** The same, but a read has left the handle one cluster behind, and the write starts right there. */
    ghost predicate WriteBehind(handle: FileHandle)
      requires Valid()
      reads cache, `disk, `cacheBlockNumber, `cacheDirty, `cacheMirrorBlock, `img, `files, handle
    {
      ValidFacts();
      && Mirrored() && Consistent() && HandleOk(handle) && !Seeks(handle)
      && Behind(info, files, handle.directoryEntry, handle.position, handle.currentCluster)
    }

    lemma WriteStart(handle: FileHandle)
      requires Valid() && (WriteReady(handle) || WriteBehind(handle))
      ensures Mirrored() && Consistent() && HandleOk(handle) && info.sectorsPerCluster > 0
      ensures WriteReady(handle) ==> InStep(handle) || Seeks(handle)
      ensures WriteBehind(handle) ==>
        !Seeks(handle) && Behind(info, files, handle.directoryEntry, handle.position, handle.currentCluster)
      ensures handle.directoryEntry in files && handle.position <= handle.fileSize
      ensures Volume(info, img, files) && handle.directoryEntry < info.numRootEntries
      ensures var ch := files[handle.directoryEntry];
        && ch == Chain(handle)
        && (ch == [] ==> handle.fileSize == 0 && WritePosition(handle) == 0)
        && WritePosition(handle) <= handle.fileSize <= Capacity(info, ch)
        && (handle.fileSize == 0 || handle.fileSize < Capacity(info, ch))
        && (ch != [] ==> handle.firstCluster == ch[0])
    {
      hide Driver.Mirrored, Layout.WellFormed, Layout.Blocks, Behind, Driver.InStep, Driver.Seeks, Volume;
      ValidFacts();
      DescribesFacts(handle);
    }

    /** The chain of the handle's file. */
    ghost function Chain(handle: FileHandle): seq<int>
      reads `files, handle`directoryEntry
    {
      if handle.directoryEntry in files then files[handle.directoryEntry] else []
    }

    /** A completed write, for the handle: position, size, directory slot, and nothing left to be written back. */
    ghost predicate Recorded(handle: FileHandle, size: nat, p: nat, n: nat)
      requires info.WellFormed(|img|) && p <= size
      reads handle, `img, `cacheDirty
    {
      && handle.position == p + n
      && handle.fileSize == GrownSize(size, p, n)
      && handle.directoryEntry < info.numRootEntries
      && DirSize(info, img, handle.directoryEntry) == handle.fileSize
      && DirStart(info, img, handle.directoryEntry) == handle.firstCluster
      && EntryHolds(info, img, handle.directoryEntry, handle.firstCluster, handle.fileSize)
      && !cacheDirty && !handle.dirEntryDirty
    }

    /** fwrite: at most one block's worth of bytes at the handle's position, or at the end with O_APPEND.
        Unless a card operation fails, how the call ends can be told before it: without a first cluster for an empty
        file nothing happens; with no cluster behind the file's last one only the bytes that fit are stored, though
        position and size move as if all were; otherwise the call does to the file what Overwrite says, keeps every
        other file, and leaves the card itself, not only the cache, up to date. The handle ends out of step exactly
        when the call ends the file's last cluster with no free cluster left.
        From a handle one cluster behind, the bytes go one cluster size too early and the handle stays behind, while
        position and size move as for the right place. */
    method FatFsWrite(handle: FileHandle, buffer: seq<byte>) returns (written: nat, ghost how: Outcome)
      requires Valid() && |buffer| <= 512
      modifies cache, this`disk, this`cacheBlockNumber, this`cacheDirty, this`cacheMirrorBlock, this`faults, this`img
      modifies this`files, handle`currentCluster, handle`firstCluster, handle`dirEntryDirty, handle`position,
        handle`fileSize
      ensures Valid() && |disk| == |old(disk)|
      ensures faults >= old(faults)
      ensures how == Refused <==> !CanWrite(old(handle.flags))
      ensures how == Refused ==> written == 0 && img == old(img) && files == old(files) && faults == old(faults)
      ensures how != Refused && faults == old(faults) && old(WriteReady(handle)) ==>
        var d, p, size, ch := handle.directoryEntry, old(WritePosition(handle)), old(handle.fileSize),
          old(Chain(handle));
        && Mirrored()
        && (how == NoCluster <==> ch == [] && VolumeFull(info, old(img)))
        && (how == OutOfSpace <==> NoRoom(info, old(img), ch, p, |buffer|))
        && how != Failed
        && (how == NoCluster ==>
              written == 0 && img == old(img) && files == old(files) && handle.position == p && handle.fileSize == size)
        && (how == OutOfSpace ==>
              && StoredShort(info, old(img), old(files), img, files, d, p, buffer, written)
              && Chain(handle) == ch && p + written == Capacity(info, ch)
              && handle.position == p + |buffer| && handle.fileSize == GrownSize(size, p, |buffer|)
              && !InStep(handle))
        && (how == Completed ==>
              && written == |buffer|
              && Overwrites(info, old(img), old(files), img, files, d, size, p, buffer, handle.currentCluster)
              && Recorded(handle, size, p, written)
              && (InStep(handle) <==> !EndsFull(info, old(img), ch, p, written))
              && (InStep(handle) && SizeTracks(size, p, written) ==> HandleOk(handle)))
      ensures how != Refused && faults == old(faults) && old(WriteBehind(handle)) ==>
        var d, p, e, size := handle.directoryEntry, old(handle.position), old(Origin(handle)), old(handle.fileSize);
        && Mirrored()
        && how == Completed && written == |buffer|
        && e == p - info.ClusterSize() && e + written <= size
        && Overwrites(info, old(img), old(files), img, files, d, size, e, buffer, handle.currentCluster)
        && Recorded(handle, size, p, written)
        && !InStep(handle)
    {
      hide *;
      ValidFacts();
      ghost var good, behind := WriteReady(handle), WriteBehind(handle);
      ghost var e := if behind then Origin(handle) else WritePosition(handle);
      if good || behind {
        WriteStart(handle);
      }
      if behind {
        BehindFacts(handle);
      }
      how := Refused;
      if !CanWrite(handle.flags) {
        return 0, Refused;
      }
      var ok := HonourAppend(handle);
      if !ok {
        return 0, Failed;
      }
      ok := EnsureCluster(handle);
      if !ok {
        EmptyHasRoom(info, old(img), e, |buffer|);
        return 0, if faults > old(faults) then Failed else NoCluster;
      }
      ghost var img1, files1 := img, files;
      ValidFacts();
      if good && faults == old(faults) {
        EvolvedVolume(info, old(img), old(files), img, files, handle.directoryEntry);
        WritableIf(handle);
      }
      var outcome;
      if (good || behind) && faults == old(faults) {
        TransferReadyIf(handle, e);
      }
      outcome, written := Transfer(handle, buffer, e);
      how := outcome;
      ValidFacts();
      if good && faults == old(faults) {
        WriteEnds(handle, old(img), old(files), img1, files1, old(handle.fileSize), e, buffer, written,
          how == OutOfSpace);
      }
      if behind && faults == old(faults) {
        BehindEnds(handle, old(img), old(files), old(handle.fileSize), old(handle.position), e, buffer, written,
          how == OutOfSpace);
      }
    }

    /** How a write in step ends, for the handle and the file's contents. */
    lemma WriteEnds(handle: FileHandle, a: Image, fa: map<nat, seq<int>>, a1: Image, f1: map<nat, seq<int>>,
        size: nat, p: nat, data: seq<byte>, m: nat, short: bool)
      requires Valid() && |a| == |img| && |a1| == |img| && Volume(info, a, fa)
      requires handle.directoryEntry in fa && p <= size <= Capacity(info, fa[handle.directoryEntry]) && |data| <= 512
      requires size == 0 || size < Capacity(info, fa[handle.directoryEntry])
      requires Evolved(info, a, fa, a1, f1, handle.directoryEntry) && SameData(info, a, a1)
      requires Growth(info, a, fa, a1, f1, handle.directoryEntry)
      requires Growth(info, a1, f1, img, files, handle.directoryEntry)
      requires if fa[handle.directoryEntry] == [] then p == 0 else a1 == a && f1 == fa
      requires handle.directoryEntry in f1 && f1[handle.directoryEntry] != []
      requires p < Capacity(info, f1[handle.directoryEntry])
      requires if short then StoredShort(info, a1, f1, img, files, handle.directoryEntry, p, data, m)
        else Stored(info, a1, f1, img, files, handle.directoryEntry, p, data, handle.currentCluster)
      requires handle.position == p + |data| && handle.fileSize == GrownSize(size, p, |data|)
      requires !short ==> Chain(handle) != [] && handle.firstCluster == Chain(handle)[0]
      ensures info.sectorsPerCluster > 0
      ensures var d, ch := handle.directoryEntry, fa[handle.directoryEntry];
        && !(ch == [] && VolumeFull(info, a))
        && (short <==> NoRoom(info, a, ch, p, |data|))
        && (short ==>
              && StoredShort(info, a, fa, img, files, d, p, data, m)
              && Chain(handle) == ch && p + m == Capacity(info, ch) && !InStep(handle))
        && (!short ==>
              && Overwrites(info, a, fa, img, files, d, size, p, data, handle.currentCluster)
              && (InStep(handle) <==> !EndsFull(info, a, ch, p, |data|))
              && (InStep(handle) && SizeTracks(size, p, |data|) ==> HandleOk(handle)))
    {
      hide Driver.Valid, Evolved, Stored, StoredShort, SameData, VolumeFull, EndsFull, Growth, NoRoom, Overwrites;
      hide Layout.WellFormed, Layout.Blocks, Capacity, GrownSize, Volume, FullAt, Tracks, Describes, SizeTracks;
      ValidFacts();
      var d := handle.directoryEntry;
      StoredAfter(info, a, fa, a1, f1, img, files, d, p, data, handle.currentCluster, m);
      WriteEnding(info, a, fa, a1, f1, img, files, d, p, data, handle.currentCluster, m, short);
      if short {
        BeyondIsOut(handle, a, p, |data|);
      } else {
        WriteMeans(handle, a, fa, size, p, data);
      }
    }

    lemma BeyondIsOut(handle: FileHandle, a: Image, p: nat, n: nat)
      requires info.WellFormed(|a|) && NoRoom(info, a, Chain(handle), p, n) && handle.position == p + n
      ensures info.sectorsPerCluster > 0 && !InStep(handle)
    {
      hide Layout.Blocks, VolumeFull;
    }

    /** Where a handle that is behind really stands. */
    lemma BehindFacts(handle: FileHandle)
      requires Valid() && info.sectorsPerCluster > 0 && Consistent() && HandleOk(handle)
      requires Behind(info, files, handle.directoryEntry, handle.position, handle.currentCluster)
      ensures var d := handle.directoryEntry;
        && d in files && files[d] != [] && handle.fileSize < Capacity(info, files[d])
        && Origin(handle) == handle.position - info.ClusterSize()
        && Writable(handle, Origin(handle))
        && info.ClusterOffset(Origin(handle)) == info.ClusterOffset(handle.position)
        && !InStep(handle) && handle.currentCluster != 0
    {
      hide Layout.WellFormed, Layout.Blocks, Layout.ClusterOffset, Layout.ClusterIndex, Disjoint;
      BehindIsNotInStep(info, img, files, handle.directoryEntry, handle.position, handle.currentCluster);
      BehindStandsEarlier(info, img, files, handle.directoryEntry, handle.position, handle.currentCluster);
    }

    /** What a write from behind means for the handle and the file's contents. */
    lemma BehindEnds(handle: FileHandle, a: Image, fa: map<nat, seq<int>>, size: nat, p: nat, e: nat, data: seq<byte>,
        m: nat, short: bool)
      requires Valid() && |a| == |img| && Volume(info, a, fa) && handle.directoryEntry in fa
      requires p <= size < Capacity(info, fa[handle.directoryEntry]) && p == e + info.ClusterSize() && |data| <= 512
      requires fa[handle.directoryEntry] != [] && Growth(info, a, fa, img, files, handle.directoryEntry)
      requires if short then StoredShort(info, a, fa, img, files, handle.directoryEntry, e, data, m)
        else Stored(info, a, fa, img, files, handle.directoryEntry, e, data, handle.currentCluster)
      requires handle.position == p + |data|
      ensures !short && e + |data| <= size
      ensures Overwrites(info, a, fa, img, files, handle.directoryEntry, size, e, data, handle.currentCluster)
      ensures info.sectorsPerCluster > 0 && !InStep(handle)
    {
      hide ByteAt, Written, OthersKept, Content, Overwrite, Layout.Blocks, Evolved, VolumeFull, OneFree, Growth;
      hide Stored, StoredShort, Tracks;
      ValidFacts();
      var d := handle.directoryEntry;
      assert info.ClusterSize() >= 512;
      EndingExact(info, a, fa, img, files, d, e, data, handle.currentCluster, m, short);
      StoredBehind(info, a, fa, img, files, d, p, e, data, handle.currentCluster);
      StoredIsOverwrite(info, a, fa, img, files, d, size, e, data, handle.currentCluster);
    }

    // -------------------------------------------------------------- reading

    /** cacheRawBlock and a memcpy out of it. */
    method LoadBytes(blockNumber: uint16, off: nat, buffer: array<byte>, start: nat, n: nat) returns (ok: bool)
      requires Valid() && off + n <= 512 && start + n <= buffer.Length && buffer != cache
      modifies cache, this`disk, this`cacheBlockNumber, this`cacheDirty, this`cacheMirrorBlock, this`faults, buffer
      ensures Valid() && |disk| == |old(disk)|
      ensures old(Mirrored()) ==> Mirrored()
      ensures ok ==> faults == old(faults) && blockNumber < |img|
      ensures ok && !info.InFat2(blockNumber) ==> buffer[start..start + n] == img[blockNumber][off..off + n]
      ensures forall i :: 0 <= i < start || start + n <= i < buffer.Length ==> buffer[i] == old(buffer[i])
      ensures !ok ==> faults > old(faults)
    {
      ok := CacheRawBlock(blockNumber, false);
      if !ok {
        return false;
      }
      forall i | 0 <= i < n {
        buffer[start + i] := cache[off + i];
      }
    }

    /** One piece of a read: the bytes, and the handle's position behind them. */
    method LoadPiece(handle: FileHandle, blockNumber: uint16, off: nat, buffer: array<byte>, start: nat, n: nat)
      returns (ok: bool)
      requires Valid() && off + n <= 512 && start + n <= buffer.Length && buffer != cache
      modifies cache, this`disk, this`cacheBlockNumber, this`cacheDirty, this`cacheMirrorBlock, this`faults, buffer
      modifies handle`position
      ensures Valid() && |disk| == |old(disk)|
      ensures old(Mirrored()) ==> Mirrored()
      ensures ok ==> faults == old(faults) && blockNumber < |img|
      ensures ok && !info.InFat2(blockNumber) ==> buffer[start..start + n] == img[blockNumber][off..off + n]
      ensures forall i :: 0 <= i < start || start + n <= i < buffer.Length ==> buffer[i] == old(buffer[i])
      ensures !ok ==> faults > old(faults) && handle.position == old(handle.position)
      ensures ok && old(handle.position) + n < 0x1_0000_0000 ==> handle.position == old(handle.position) + n
    {
      hide *;
      ok := LoadBytes(blockNumber, off, buffer, start, n);
      if !ok {
        return false;
      }
      handle.position := (handle.position + n) % 0x1_0000_0000;
    }

    /** The handle's cluster holds position e of its file, whose offset the handle shares, and n bytes follow. */
    ghost predicate Fetchable(handle: FileHandle, e: nat, n: nat)
      requires info.WellFormed(|img|)
      reads `img, `files, handle`directoryEntry, handle`currentCluster, handle`position
    {
      && Consistent()
      && handle.directoryEntry in files && files[handle.directoryEntry] != []
      && Tracks(info, files, handle.directoryEntry, e, handle.currentCluster)
      && e + n < Capacity(info, files[handle.directoryEntry])
      && info.ClusterOffset(e) == info.ClusterOffset(handle.position)
    }

    /** The rest of a read comes from block source: the first one of the next cluster, or the next one. */
    ghost predicate RestFrom(cur: uint16, blockNumber: uint16, useTwoClusters: bool, source: nat)
      requires info.WellFormed(|img|)
      reads `img
    {
      if useTwoClusters then
        cur <= info.clusterCount + 1 && source == BlockNumber16(info, FatEntry(info, img, cur), 0)
      else
        source == (blockNumber + 1) % 0x1_0000
    }

    /** The second half of fatFsRead's transfer. */
    method FetchRest(handle: FileHandle, blockNumber: uint16, useTwoClusters: bool, buffer: array<byte>, m: nat, n: nat,
        ghost source: nat)
      returns (ok: bool)
      requires Valid() && n <= 512 && m + n <= buffer.Length && buffer != cache
      modifies cache, this`disk, this`cacheBlockNumber, this`cacheDirty, this`cacheMirrorBlock, this`faults, buffer
      modifies handle`currentCluster, handle`position
      ensures Valid() && |disk| == |old(disk)|
      ensures old(Mirrored()) ==> Mirrored()
      ensures faults >= old(faults)
      ensures forall i :: 0 <= i < m || m + n <= i < buffer.Length ==> buffer[i] == old(buffer[i])
      ensures old(handle.position) + n < 0x1_0000_0000 ==> handle.position <= old(handle.position) + n
      ensures faults == old(faults) && RestFrom(old(handle.currentCluster), blockNumber, useTwoClusters, source) ==>
        && ok && source < |img|
        && (!info.InFat2(source) ==> buffer[m..m + n] == img[source][0..n])
        && (old(handle.position) + n < 0x1_0000_0000 ==> handle.position == old(handle.position) + n)
        && handle.currentCluster ==
             if useTwoClusters then FatEntry(info, img, old(handle.currentCluster)) else old(handle.currentCluster)
    {
      hide Driver.Valid, Driver.Mirrored, Layout.WellFormed, Layout.Blocks, BlockNumber16, FatEntry;
      var target;
      if useTwoClusters {
        var found, next := FatGet(handle.currentCluster);
        if found {
          handle.currentCluster := next;
        }
        target := BlockNumber16(info, handle.currentCluster, 0);
      } else {
        target := (blockNumber as int + 1) % 0x1_0000;
      }
      ok := LoadPiece(handle, target, 0, buffer, m, n);
    }

    /** What a transfer from position e will find. */
    lemma FetchPlan(handle: FileHandle, e: nat, n: nat)
      requires Valid() && Fetchable(handle, e, n) && n <= 512
      ensures info.sectorsPerCluster > 0 && handle.directoryEntry in files
      ensures var d, cur := handle.directoryEntry, handle.currentCluster;
        var ch, o := files[d], info.ClusterOffset(handle.position);
        var m, two, b := FirstLength(o % 512, n), o + n >= info.ClusterSize(), BlockNumber16(info, cur, o);
        && InRange(info, ch) && Distinct(ch) && e < Capacity(info, ch)
        && o % 512 == e % 512 && m <= n && o % 512 + m <= 512
        && b == Sector(info, ch, e) < |img| && !info.InFat2(b)
        && (m == n ==> AfterRead(info, files, d, e, n, cur))
        && (m < n ==>
              && (e + m) % 512 == 0 && e + m < Capacity(info, ch)
              && Sector(info, ch, e + m) < |img| && !info.InFat2(Sector(info, ch, e + m))
              && RestFrom(cur, b, two, Sector(info, ch, e + m))
              && (!two ==> AfterRead(info, files, d, e, n, cur))
              && (two ==> cur <= info.clusterCount + 1 && AfterRead(info, files, d, e, n, FatEntry(info, img, cur))))
    {
      hide Driver.Valid, Layout.Blocks, Layout.ClusterIndex, Layout.ClusterOffset, Sector, BlockNumber16, FatEntry;
      hide AfterRead, Volume, InRange, Distinct, Layout.WellFormed, FirstLength, Layout.InFat2;
      ValidFacts();
      ReadPlan(info, img, files, handle.directoryEntry, e, handle.currentCluster, n);
    }

    /** The transfer of fatFsRead: one or two blocks, the second one possibly in the next cluster. */
    method Fetch(handle: FileHandle, buffer: array<byte>, length: uint16, ghost e: nat)
      returns (got: nat)
      requires Valid() && length <= 512 && length <= buffer.Length && buffer != cache
      modifies cache, this`disk, this`cacheBlockNumber, this`cacheDirty, this`cacheMirrorBlock, this`faults, buffer
      modifies handle`currentCluster, handle`position
      ensures Valid() && |disk| == |old(disk)|
      ensures old(Mirrored()) ==> Mirrored()
      ensures faults >= old(faults)
      ensures forall i :: length <= i < buffer.Length ==> buffer[i] == old(buffer[i])
      ensures old(handle.position) + length < 0x1_0000_0000 ==> handle.position <= old(handle.position) + length
      ensures faults == old(faults) && old(Fetchable(handle, e, length)) ==>
        && got == length
        && HasBytes(info, img, files[handle.directoryEntry], e, buffer[..length])
        && (old(handle.position) + length < 0x1_0000_0000 ==> handle.position == old(handle.position) + length)
        && AfterRead(info, files, handle.directoryEntry, e, length, handle.currentCluster)
    {
      hide *;
      ValidFacts();
      ghost var d, good := handle.directoryEntry, Fetchable(handle, e, length);
      if good {
        FetchPlan(handle, e, length);
      }
      var offsetInCluster := info.ClusterOffset(handle.position);
      var blockNumber := BlockNumber16(info, handle.currentCluster, offsetInCluster);
      SplitPoint(info, offsetInCluster, length);
      var useTwoClusters := offsetInCluster + length >= info.ClusterSize();
      var m := FirstLength(offsetInCluster % 512, length);
      var ok := LoadPiece(handle, blockNumber, offsetInCluster % 512, buffer, 0, m);
      if !ok {
        return 0;
      }
      ghost var x := buffer[0..m];
      if m < length {
        ok := FetchRest(handle, blockNumber, useTwoClusters, buffer, m, length - m,
          if good then Sector(info, files[d], e + m) else 0);
        if !ok {
          return 0;
        }
      }
      got := length;
      if good && faults == old(faults) {
        ghost var y := buffer[m..m + (length - m)];
        assert buffer[..length] == x + y;
        ValidFacts();
        TwoPieces(info, img, files[d], e, x, y);
      }
    }

    /** The handle is one cluster behind its position, which is inside the file. */
    ghost predicate Lagging(handle: FileHandle)
      requires info.sectorsPerCluster > 0
      reads `files, handle`directoryEntry, handle`position, handle`currentCluster, handle`fileSize
    {
      && handle.position < handle.fileSize
      && Behind(info, files, handle.directoryEntry, handle.position, handle.currentCluster)
    }

    /** The position whose byte the driver really takes first. */
    ghost function Origin(handle: FileHandle): nat
      requires info.sectorsPerCluster > 0
      reads `files, handle`directoryEntry, handle`position, handle`currentCluster
    {
      if !InStep(handle) && handle.position >= info.ClusterSize() then handle.position - info.ClusterSize()
      else handle.position
    }

    lemma OriginFacts(handle: FileHandle, n: nat)
      requires Valid() && Consistent() && HandleOk(handle) && (InStep(handle) || Lagging(handle))
      requires handle.position + n <= handle.fileSize && files[handle.directoryEntry] != []
      ensures Fetchable(handle, Origin(handle), n)
      ensures handle.fileSize < Capacity(info, files[handle.directoryEntry])
      ensures Origin(handle) == if InStep(handle) then handle.position else handle.position - info.ClusterSize()
    {
      if !InStep(handle) {
        BehindStandsEarlier(info, img, files, handle.directoryEntry, handle.position, handle.currentCluster);
      }
    }

    lemma ReadFacts(handle: FileHandle)
      requires Valid() && Consistent() && HandleOk(handle) && (InStep(handle) || Lagging(handle))
      ensures handle.directoryEntry in files
      ensures handle.currentCluster == 0 <==> files[handle.directoryEntry] == []
      ensures files[handle.directoryEntry] == [] ==> handle.fileSize == 0
      ensures Origin(handle) == if InStep(handle) then handle.position else handle.position - info.ClusterSize()
    {
      if handle.directoryEntry in files && files[handle.directoryEntry] != [] {
        OriginFacts(handle, 0);
      }
    }

    lemma AfterReadFacts(handle: FileHandle, n: nat)
      requires Valid() && Consistent() && handle.directoryEntry in files && n <= handle.position
      requires AfterRead(info, files, handle.directoryEntry, handle.position - n, n, handle.currentCluster)
      ensures InStep(handle) <==> n == 0 || info.ClusterOffset(handle.position) != 0
      ensures !InStep(handle) ==> Behind(info, files, handle.directoryEntry, handle.position, handle.currentCluster)
    {
      hide Layout.WellFormed, Layout.Blocks, Layout.ClusterOffset, Layout.ClusterIndex, Tracks, Behind, Volume;
      if 0 < n && info.ClusterOffset(handle.position) == 0 {
        BehindIsNotInStep(info, img, files, handle.directoryEntry, handle.position, handle.currentCluster);
      }
    }

    lemma SliceFacts(handle: FileHandle, e: nat, data: seq<byte>)
      requires Valid() && Consistent() && HandleOk(handle) && e + |data| <= handle.fileSize
      requires handle.directoryEntry in files && HasBytes(info, img, files[handle.directoryEntry], e, data)
      ensures data == FileContent(handle)[e..e + |data|]
    {
      hide HasBytes, Layout.WellFormed, Layout.Blocks, IsChain;
      HasBytesIsSlice(info, img, files[handle.directoryEntry], e, data, handle.fileSize);
    }

    /** What the handle's file holds. */
    ghost function FileContent(handle: FileHandle): (content: seq<byte>)
      requires info.WellFormed(|img|) && Consistent() && HandleOk(handle)
      reads `img, `files, handle`directoryEntry, handle`firstCluster, handle`fileSize, handle`position
      ensures |content| == handle.fileSize
    {
      Content(info, img, files[handle.directoryEntry], handle.fileSize)
    }

    /** fread: at most one block's worth of bytes. A handle in step gets the bytes at its position, and falls
        behind exactly when they end a cluster; a handle that is behind gets bytes one cluster size too early. */
    method FatFsRead(handle: FileHandle, buffer: array<byte>, maxLength: uint16) returns (got: nat)
      requires Valid() && maxLength <= 512 && maxLength <= buffer.Length && buffer != cache
      requires handle.position <= handle.fileSize
      modifies cache, this`disk, this`cacheBlockNumber, this`cacheDirty, this`cacheMirrorBlock, this`faults, buffer
      modifies handle`currentCluster, handle`position, handle`flags
      ensures Valid() && |disk| == |old(disk)|
      ensures old(Mirrored()) ==> Mirrored()
      ensures faults >= old(faults)
      ensures handle.flags == O_RDWR && handle.position <= handle.fileSize
      ensures forall i :: maxLength <= i < buffer.Length ==> buffer[i] == old(buffer[i])
      ensures faults == old(faults) && old(Consistent() && HandleOk(handle) && (InStep(handle) || Lagging(handle))) ==>
        var d, p := handle.directoryEntry, old(handle.position);
        && got == Min(maxLength, handle.fileSize - p)
        && handle.position == p + got
        && HandleOk(handle)
        && old(Origin(handle)) + got <= handle.fileSize
        && buffer[..got] == FileContent(handle)[old(Origin(handle))..old(Origin(handle)) + got]
        && (old(InStep(handle)) ==>
              && old(Origin(handle)) == p
              && (InStep(handle) <==> got == 0 || info.ClusterOffset(handle.position) != 0)
              && (!InStep(handle) ==> Behind(info, files, d, handle.position, handle.currentCluster)))
        && (!old(InStep(handle)) ==> old(Origin(handle)) == p - info.ClusterSize())
    {
      hide Driver.FileContent, Behind, Layout.ClusterOffset, Layout.ClusterIndex, Layout.ClusterSize, Volume, Tracks;
      hide Driver.Valid, Driver.Mirrored, Driver.Fetchable, Driver.Consistent, Driver.InStep, Driver.Lagging;
      hide Driver.Origin;
      hide Layout.WellFormed, Layout.Blocks, AfterRead, HasBytes, InRange, Capacity, FatEntry, Layout.IsCluster;
      ValidFacts();
      handle.flags := O_RDWR;
      ghost var good := Consistent() && HandleOk(handle) && (InStep(handle) || Lagging(handle));
      if good {
        ReadFacts(handle);
      }
      assert buffer[..0] == [];
      if handle.currentCluster == 0 {
        return 0;
      }
      if handle.position == handle.fileSize {
        return 0;
      }
      var length := maxLength;
      if handle.position + maxLength > handle.fileSize {
        length := (handle.fileSize - handle.position) % 0x1_0000;
      }
      if good {
        OriginFacts(handle, length);
      }
      got := Fetch(handle, buffer, length, Origin(handle));
      if good && faults == old(faults) {
        SliceFacts(handle, old(Origin(handle)), buffer[..got]);
        if old(InStep(handle)) {
          AfterReadFacts(handle, got);
        }
      }
    }

    // -------------------------------------------------------------- seeking

    /** fseek. The result of the chain walk is not looked at. */
    method Fseek(handle: FileHandle, offset: int, whence: Whence) returns (r: int)
      requires Valid() && -0x8000_0000 <= offset < 0x8000_0000
      modifies cache, this`disk, this`cacheBlockNumber, this`cacheDirty, this`cacheMirrorBlock, this`faults
      modifies handle`currentCluster, handle`position
      ensures Valid() && |disk| == |old(disk)|
      ensures old(Mirrored()) ==> Mirrored()
      ensures r == 0 || r == -1
      ensures r == -1 ==> handle.position == old(handle.position) && handle.currentCluster == old(handle.currentCluster)
      ensures old(Consistent() && HandleOk(handle)) && whence == SeekSet ==>
        && (r == 0 <==> 0 <= offset <= handle.fileSize)
        && (r == 0 && faults == old(faults) ==> handle.position == offset)
      ensures old(Consistent() && HandleOk(handle)) && whence == SeekCur ==>
        && (r == 0 <==> 0 <= old(handle.position) + offset <= handle.fileSize)
        && (r == 0 && faults == old(faults) ==> handle.position == old(handle.position) + offset)
      ensures old(Consistent() && HandleOk(handle)) && whence == SeekEnd ==>
        && (r == 0 <==> 0 <= handle.fileSize + offset <= handle.fileSize)
        && (r == 0 && faults == old(faults) ==> handle.position == handle.fileSize + offset)
      ensures old(Consistent() && HandleOk(handle)) && r == 0 && faults == old(faults) ==>
        HandleOk(handle) && InStep(handle)
    {
      hide *;
      ValidFacts();
      if Consistent() && HandleOk(handle) {
        SizeFacts(handle);
      }
      var newPos: uint32 := match whence
        case SeekSet => 0
        case SeekCur => handle.position
        case SeekEnd => handle.fileSize;
      if offset < 0 && newPos < -offset {
        return -1;
      }
      if offset > 0 && (newPos + offset) % 0x1_0000_0000 > handle.fileSize {
        return -1;
      }
      newPos := (newPos + offset) % 0x1_0000_0000;
      var moved := GoToPosition(handle, newPos);
      return 0;
    }

    lemma SizeFacts(handle: FileHandle)
      requires Valid() && Consistent() && HandleOk(handle)
      ensures handle.position <= handle.fileSize <= 0x200_0000
    {
      hide Layout.WellFormed, Layout.Blocks, IsChain;
      ChainBound(info, img, files[handle.directoryEntry]);
    }

    /** With one table there is nothing to keep equal. */
    lemma CleanIsMirrored()
      requires Valid() && info.numFATs == 1
      ensures Mirrored()
    {
    }

    // -------------------------------------------------------------- the card after a flush

    /** With a clean cache the card itself holds the image, and its two tables are equal. */
    lemma CleanCard()
      requires Valid() && !cacheDirty
      ensures var copy, n := info.fatStart + info.sectorsPerFAT, info.sectorsPerFAT;
        forall b :: 0 <= b < |disk| && !(info.numFATs > 1 && copy <= b < copy + n) ==> disk[b] == img[b]
      ensures Mirrored() && info.numFATs > 1 ==>
        forall b :: info.fatStart <= b < info.fatStart + info.sectorsPerFAT ==> disk[b + info.sectorsPerFAT] == disk[b]
    {
      if Mirrored() && info.numFATs > 1 {
        forall b | info.fatStart <= b < info.fatStart + info.sectorsPerFAT
          ensures disk[b + info.sectorsPerFAT] == disk[b]
        {
          assert info.InFat1(b);
        }
      }
    }
  }

  datatype Whence = SeekSet | SeekCur | SeekEnd

  /** Reading a file cluster by cluster on a volume with one-block clusters: the second read returns the
      first cluster again. */
  method SecondReadRepeatsFirst(driver: Driver, handle: FileHandle, x: array<byte>, y: array<byte>)
    requires driver.Valid() && driver.Consistent() && driver.info.sectorsPerCluster == 1
    requires driver.HandleOk(handle) && driver.InStep(handle) && handle.position == 0 && handle.fileSize >= 1024
    requires x.Length == 512 && y.Length == 512 && x != y && x != driver.cache && y != driver.cache
    modifies driver, driver.cache, handle, x, y
    ensures driver.faults == old(driver.faults) ==> y[..] == old(driver.FileContent(handle))[0..512]
  {
    hide Driver.Valid, Layout.WellFormed, Volume, Describes, Tracks, Content;
    driver.ValidFacts();
    FirstClusterEnds(driver.info);
    ghost var content := driver.FileContent(handle);
    var got := driver.FatFsRead(handle, x, 512);
    driver.ValidFacts();
    got := driver.FatFsRead(handle, y, 512);
    assert y[..512] == y[..];
  }

  /** The smallest FAT16 volume with one-block clusters, every table entry of which is an end mark. */
  function SmallVolume(): Layout {
    Layout(1, 16, 1, 16, 17, 18, 1, 4085)
  }

  function AllTaken(): (blocks: seq<Block>)
    ensures |blocks| == 4103
  {
    seq(4103, _ => seq(512, _ => 0xFF))
  }

  lemma SmallVolumeIsFull()
    ensures var L, img, files := SmallVolume(), AllTaken(), map[0 := [2]];
      && L.WellFormed(|img|) && VolumeFull(L, img) && Volume(L, img, files) && Capacity(L, [2]) == 512
      && L.ClusterIndex(502) == 0 && Overlay(L, img, NO_BLOCK, ZeroBlock()) == img
  {
    var L, img := SmallVolume(), AllTaken();
    BlocksIsProduct(L, 4085);
    BlocksIsProduct(L, 1);
    forall c: nat | L.IsCluster(c) ensures FatEntry(L, img, c) == END {
    }
  }

  lemma OverflowReady(driver: Driver, handle: FileHandle)
    requires driver.Valid() && driver.info == SmallVolume() && driver.img == AllTaken() && driver.files == map[0 := [2]]
    requires handle.firstCluster == 2 && handle.currentCluster == 2 && handle.directoryEntry == 0
    requires handle.fileSize == 502 && handle.position == 502 && handle.flags == O_RDWR
    ensures driver.WriteReady(handle) && CanWrite(handle.flags)
    ensures driver.WritePosition(handle) == 502 && driver.Chain(handle) == [2]
    ensures NoRoom(driver.info, driver.img, [2], 502, 20) && Capacity(driver.info, [2]) == 512
    ensures GrownSize(502, 502, 20) == 522
  {
    hide Driver.Valid, Layout.WellFormed, Volume, VolumeFull, AllTaken, Overlay, Capacity, Layout.ClusterIndex;
    driver.ValidFacts();
    driver.CleanIsMirrored();
    SmallVolumeIsFull();
  }

  /** On a full volume, a file of 502 bytes in its only cluster: writing 20 bytes at its end stores 10 of them, yet
      the file's recorded size becomes 522 and the handle stands there, on no cluster. */
  method FullVolumeExample() returns (written: nat, position: nat, size: nat, ghost inStep: bool, ghost faults: nat)
    ensures faults == 0 ==> written == 10 && position == 522 && size == 522 && !inStep
  {
    hide *;
    SmallVolumeIsFull();
    var driver := new Driver(SmallVolume(), AllTaken(), map[0 := [2]]);
    var handle := new FileHandle;
    handle.firstCluster, handle.currentCluster, handle.directoryEntry := 2, 2, 0;
    handle.fileSize, handle.position, handle.flags, handle.dirEntryDirty := 502, 502, O_RDWR, false;
    OverflowReady(driver, handle);
    ghost var how;
    written, how := driver.FatFsWrite(handle, seq(20, _ => 0));
    position, size := handle.position, handle.fileSize;
    driver.ValidFacts();
    inStep, faults := driver.InStep(handle), driver.faults;
  }

  lemma FirstClusterEnds(L: Layout)
    requires L.sectorsPerCluster == 1
    ensures L.ClusterOffset(512) == 0
  {
  }
}