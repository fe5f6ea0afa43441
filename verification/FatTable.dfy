/**
 The file allocation table (loader/filesystem/fat/fat.c): entry decoding through a cached view,
 entry classes, and the cluster chain a table defines.
 */
module FatTable {
  import opened Arith
  import opened Buffers

  datatype FatType = Fat12 | Fat16 | Fat32

  const FAT_VIEW_BYTES: nat := 131072
  const FAT_VIEW_CAPACITY_FAT32: nat := 32768
  const FAT_VIEW_OFF_INVALID: nat := 0xFFFF_FFFF
  /** One more than the mask of the 28 significant bits of a FAT32 entry. */
  const FAT32_CLUSTER_SPAN: nat := 0x1000_0000

  function EocValue(t: FatType): nat {
    match t
    case Fat12 => 0xFF8
    case Fat16 => 0xFFF8
    case Fat32 => 0xFFF_FFF8
  }

  function BadValue(t: FatType): nat {
    EocValue(t) - 1
  }

  datatype EntryClass = FreeEntry | ReservedEntry | BadEntry | EndOfChain | Link

  /** `entry_type_of_fat_value`. */
  function ClassOf(t: FatType, raw: nat): EntryClass {
    var value := raw % FAT32_CLUSTER_SPAN;
    if value == 0 then FreeEntry
    else if value == 1 then ReservedEntry
    else if value == BadValue(t) then BadEntry
    else if value >= EocValue(t) then EndOfChain
    else Link
  }

  // ----- Entries as bytes -----

  function Word16(b: Bytes, off: nat): nat
    requires off + 2 <= |b|
  {
    b[off] + 256 * b[off + 1]
  }

  /** First byte of entry `index` within the table. */
  function EntryOffset(t: FatType, index: nat): nat {
    match t
    case Fat12 => index + index / 2
    case Fat16 => 2 * index
    case Fat32 => 4 * index
  }

  function EntryBytes(t: FatType): nat {
    if t.Fat32? then 4 else 2
  }

  /** The entry whose first byte is at `off`; FAT12 packs two entries into three bytes. */
  function Decode(t: FatType, b: Bytes, off: nat, index: nat): nat
    requires off + EntryBytes(t) <= |b|
  {
    match t
    case Fat12 => if index % 2 == 1 then Word16(b, off) / 16 else Word16(b, off) % 4096
    case Fat16 => Word16(b, off)
    case Fat32 => (Word16(b, off) + 65536 * Word16(b, off + 2)) % FAT32_CLUSTER_SPAN
  }

  // ----- Volumes -----

  /** The part of a volume the table reader depends on; the table occupies whole disk blocks. */
  datatype Volume = Volume(kind: FatType, disk: Bytes, blockBytes: nat, fatFirstBlock: nat, fatBlocks: nat) {
    ghost predicate Valid() {
      && blockBytes >= 4 && blockBytes % 4 == 0 && FAT_VIEW_BYTES % blockBytes == 0
      && fatBlocks > 0
      && (fatFirstBlock + fatBlocks) * blockBytes <= |disk|
      && (!kind.Fat32? ==> fatBlocks * blockBytes <= FAT_VIEW_BYTES)
      && (forall i :: 0 <= i < |disk| ==> disk[i] < 256)
    }

    /** Entry `index` lies inside the table. */
    predicate InTable(index: nat) {
      EntryOffset(kind, index) + EntryBytes(kind) <= fatBlocks * blockBytes
    }

    /** Where the table starts on the disk. */
    function TableAt(): nat {
      fatFirstBlock * blockBytes
    }

    function TableBytes(): nat {
      fatBlocks * blockBytes
    }

    /** The table entry, read directly from the disk. */
    function Entry(index: nat): nat
      requires fatFirstBlock * blockBytes + EntryOffset(kind, index) + EntryBytes(kind) <= |disk|
    {
      Decode(kind, disk, fatFirstBlock * blockBytes + EntryOffset(kind, index), index)
    }
  }

  lemma TableInDisk(v: Volume, index: nat)
    requires v.Valid() && v.InTable(index)
    ensures v.fatFirstBlock * v.blockBytes + EntryOffset(v.kind, index) + EntryBytes(v.kind) <= |v.disk|
  {
    MulDistribute(v.fatFirstBlock, v.fatBlocks, v.blockBytes);
  }

  lemma WholeTableInDisk(v: Volume)
    requires v.Valid()
    ensures v.TableAt() + v.TableBytes() <= |v.disk|
  {
    MulDistribute(v.fatFirstBlock, v.fatBlocks, v.blockBytes);
  }

  // ----- Entries on disk -----

  /** The bytes of entry `index` lie in a table of `bytes` bytes. */
  predicate Inside(t: FatType, bytes: nat, index: nat) {
    && (t.Fat32? ==> 4 * index + 4 <= bytes)
    && (t.Fat16? ==> 2 * index + 2 <= bytes)
    && (t.Fat12? ==> 3 * (index / 2) + 2 + index % 2 <= bytes)
  }

  /**
   Entry `index` of the table of `bytes` bytes at byte `at` of the disk: the low 28 bits of four bytes, two bytes,
   or one of the two halves of three bytes, lowest byte first.
   */
  function DiskEntry(t: FatType, disk: Bytes, at: nat, bytes: nat, index: nat): nat
    requires at + bytes <= |disk| && Inside(t, bytes, index)
  {
    match t
    case Fat32 =>
      var i := at + 4 * index;
      (disk[i] + 256 * disk[i + 1] + 65536 * disk[i + 2] + 16777216 * disk[i + 3]) % 0x1000_0000
    case Fat16 =>
      var i := at + 2 * index;
      disk[i] + 256 * disk[i + 1]
    case Fat12 =>
      var i := at + 3 * (index / 2);
      if index % 2 == 0 then disk[i] + 256 * (disk[i + 1] % 16) else disk[i + 1] / 16 + 16 * disk[i + 2]
  }

  /** The entry decoded is the one these bytes hold. */
  lemma EntryOnDisk(v: Volume, index: nat)
    requires v.Valid() && v.InTable(index)
    ensures Inside(v.kind, v.TableBytes(), index) && v.TableAt() + v.TableBytes() <= |v.disk|
    ensures v.TableAt() + EntryOffset(v.kind, index) + EntryBytes(v.kind) <= |v.disk|
    ensures v.Entry(index) == DiskEntry(v.kind, v.disk, v.TableAt(), v.TableBytes(), index)
  {
    TableInDisk(v, index);
    WholeTableInDisk(v);
    var k, at := index / 2, v.TableAt();
    if v.kind.Fat12? && index % 2 == 0 {
      assert EntryOffset(v.kind, index) == 3 * k;
      LowHalf(v.disk[at + 3 * k], v.disk[at + 3 * k + 1]);
    } else if v.kind.Fat12? {
      assert EntryOffset(v.kind, index) == 3 * k + 1;
      HighHalf(v.disk[at + 3 * k + 1], v.disk[at + 3 * k + 2]);
    }
  }

  lemma LowHalf(a: nat, b: nat)
    requires a < 256
    ensures (a + 256 * b) % 4096 == a + 256 * (b % 16)
  {
    DivModUnique(a + 256 * b, 4096, b / 16, a + 256 * (b % 16));
  }

  lemma HighHalf(a: nat, b: nat)
    ensures (a + 256 * b) / 16 == a / 16 + 16 * b
  {
    DivModUnique(a + 256 * b, 16, a / 16 + 16 * b, a % 16);
  }

  lemma InsideIsInTable(v: Volume, index: nat)
    ensures v.InTable(index) <==> Inside(v.kind, v.TableBytes(), index)
  {
  }

  /** Two FAT12 entries share three bytes: together they are their number, and each is below 4096. */
  lemma PackedPair(v: Volume, k: nat)
    requires v.Valid() && v.kind.Fat12? && v.InTable(2 * k) && v.InTable(2 * k + 1)
    ensures var at := v.fatFirstBlock * v.blockBytes + 3 * k;
            && at + 3 <= |v.disk|
            && (TableInDisk(v, 2 * k); v.Entry(2 * k) < 4096)
            && (TableInDisk(v, 2 * k + 1); v.Entry(2 * k + 1) < 4096)
            && v.Entry(2 * k) + 4096 * v.Entry(2 * k + 1)
            == v.disk[at] + 256 * v.disk[at + 1] + 65536 * v.disk[at + 2]
  {
    EntryOnDisk(v, 2 * k);
    EntryOnDisk(v, 2 * k + 1);
    assert (2 * k) / 2 == k && (2 * k + 1) / 2 == k;
    var at := v.fatFirstBlock * v.blockBytes + 3 * k;
    DivModRebuild(v.disk[at + 1], 16);
  }

  // ----- Chains -----

  /** `chain` is the cluster chain from `first`: links inside the table, ended by an end-of-chain mark. */
  ghost predicate IsChain(v: Volume, first: nat, chain: seq<nat>)
    requires v.Valid()
  {
    && IsPath(v, first, chain)
    && (TableInDisk(v, chain[|chain| - 1]); ClassOf(v.kind, v.Entry(chain[|chain| - 1])) == EndOfChain)
  }

  /** The first value that is no cluster number any more: the mark of a bad cluster. Marks above it end a chain. */
  function FirstMark(t: FatType): nat {
    match t
    case Fat12 => 0xFF7
    case Fat16 => 0xFFF7
    case Fat32 => 0x0FFF_FFF7
  }

  /** The entry of cluster `a` on disk holds the number of cluster `b`. */
  ghost predicate LeadsTo(t: FatType, disk: Bytes, at: nat, bytes: nat, a: nat, b: nat)
    requires at + bytes <= |disk|
  {
    Inside(t, bytes, a) && b == DiskEntry(t, disk, at, bytes, a) && 2 <= b < FirstMark(t)
  }

  /** A chain by the bytes of the disk: each entry holds the next cluster, the last one a mark of the end. */
  ghost predicate ChainOnDisk(t: FatType, disk: Bytes, at: nat, bytes: nat, first: nat, chain: seq<nat>)
    requires at + bytes <= |disk|
  {
    && chain != [] && chain[0] == first
    && (forall i :: 0 <= i < |chain| ==> Inside(t, bytes, chain[i]))
    && (forall i :: 0 <= i < |chain| - 1 ==> LeadsTo(t, disk, at, bytes, chain[i], chain[i + 1]))
    && DiskEntry(t, disk, at, bytes, chain[|chain| - 1]) > FirstMark(t)
  }

  /** Chains are chains of the bytes on disk. */
  lemma ChainIsOnDisk(v: Volume, first: nat, chain: seq<nat>)
    requires v.Valid()
    ensures v.TableAt() + v.TableBytes() <= |v.disk|
    ensures IsChain(v, first, chain) <==> ChainOnDisk(v.kind, v.disk, v.TableAt(), v.TableBytes(), first, chain)
  {
    hide ClassOf, DiskEntry, Volume.Entry, Volume.InTable, Inside, FirstMark, Volume.Valid;
    WholeTableInDisk(v);
    forall i | 0 <= i < |chain| ensures v.InTable(chain[i]) <==> Inside(v.kind, v.TableBytes(), chain[i]) {
      InsideIsInTable(v, chain[i]);
    }
    if chain != [] && forall i :: 0 <= i < |chain| ==> v.InTable(chain[i]) {
      forall i | 0 <= i < |chain| - 1
        ensures LinksTo(v, chain[i], chain[i + 1])
           <==> LeadsTo(v.kind, v.disk, v.TableAt(), v.TableBytes(), chain[i], chain[i + 1])
      {
        LinkIsOnDisk(v, chain[i], chain[i + 1]);
      }
      EntryOnDisk(v, chain[|chain| - 1]);
      MarkIsClass(v, chain[|chain| - 1]);
    }
  }

  /** An entry is a link exactly below the marks, and ends a chain exactly above the first one. */
  lemma MarkIsClass(v: Volume, index: nat)
    requires v.Valid() && v.InTable(index)
    ensures v.TableAt() + EntryOffset(v.kind, index) + EntryBytes(v.kind) <= |v.disk|
    ensures ClassOf(v.kind, v.Entry(index)) == Link <==> 2 <= v.Entry(index) < FirstMark(v.kind)
    ensures ClassOf(v.kind, v.Entry(index)) == EndOfChain <==> v.Entry(index) > FirstMark(v.kind)
  {
    EntryOnDisk(v, index);
  }

  lemma LinkIsOnDisk(v: Volume, a: nat, b: nat)
    requires v.Valid() && v.InTable(a)
    ensures v.TableAt() + v.TableBytes() <= |v.disk|
    ensures LinksTo(v, a, b) <==> LeadsTo(v.kind, v.disk, v.TableAt(), v.TableBytes(), a, b)
  {
    EntryOnDisk(v, a);
    MarkIsClass(v, a);
  }

  /** A non-empty walk along links inside the table. */
  ghost predicate IsPath(v: Volume, first: nat, path: seq<nat>)
    requires v.Valid()
  {
    && path != [] && path[0] == first
    && (forall i :: 0 <= i < |path| ==> v.InTable(path[i]))
    && (forall i :: 0 <= i < |path| - 1 ==> LinksTo(v, path[i], path[i + 1]))
  }

  ghost predicate LinksTo(v: Volume, a: nat, b: nat)
    requires v.Valid()
  {
    v.InTable(a) && (TableInDisk(v, a); ClassOf(v.kind, v.Entry(a)) == Link && b == v.Entry(a))
  }

  /** Every cluster of a chain is in the table, links to the next one, and the last one ends it. */
  lemma ChainAt(v: Volume, first: nat, chain: seq<nat>, i: nat)
    requires v.Valid() && IsChain(v, first, chain) && i < |chain|
    ensures v.InTable(chain[i])
    ensures i + 1 < |chain| ==> LinksTo(v, chain[i], chain[i + 1])
    ensures i + 1 == |chain| ==> (TableInDisk(v, chain[i]); ClassOf(v.kind, v.Entry(chain[i])) == EndOfChain)
  {
  }

  /** A walk is determined by where it starts. */
  lemma {:induction false} PathIsPrefix(v: Volume, first: nat, path: seq<nat>, chain: seq<nat>, n: nat)
    requires v.Valid() && IsPath(v, first, path) && IsChain(v, first, chain) && n < |path|
    ensures n < |chain| && path[n] == chain[n]
  {
    if n > 0 {
      PathIsPrefix(v, first, path, chain, n - 1);
      assert LinksTo(v, path[n - 1], path[n]);
      if n == |chain| {
        assert false;
      }
      assert LinksTo(v, chain[n - 1], chain[n]);
    }
  }

  lemma ChainUnique(v: Volume, first: nat, c: seq<nat>, d: seq<nat>)
    requires v.Valid() && IsChain(v, first, c) && IsChain(v, first, d)
    ensures c == d
  {
    PathIsPrefix(v, first, c, d, |c| - 1);
    PathIsPrefix(v, first, d, c, |d| - 1);
    forall n | 0 <= n < |c|
      ensures c[n] == d[n]
    {
      PathIsPrefix(v, first, c, d, n);
    }
  }

  /** A walk from a later cluster of a chain is the rest of the chain. */
  lemma ChainSuffix(v: Volume, first: nat, chain: seq<nat>, k: nat)
    requires v.Valid() && IsChain(v, first, chain) && k < |chain|
    ensures IsChain(v, chain[k], chain[k..])
  {
    var rest := chain[k..];
    forall i | 0 <= i < |rest| - 1
      ensures LinksTo(v, rest[i], rest[i + 1])
    {
      assert LinksTo(v, chain[k + i], chain[k + i + 1]);
    }
  }

  /** A walk that reaches the end of its chain repeats no cluster. */
  lemma ChainHasNoRepeats(v: Volume, first: nat, chain: seq<nat>)
    requires v.Valid() && IsChain(v, first, chain)
    ensures forall i, j :: 0 <= i < j < |chain| ==> chain[i] != chain[j]
  {
    forall i, j | 0 <= i < j < |chain|
      ensures chain[i] != chain[j]
    {
      if chain[i] == chain[j] {
        ChainSuffix(v, first, chain, i);
        ChainSuffix(v, first, chain, j);
        ChainUnique(v, chain[i], chain[i..], chain[j..]);
      }
    }
  }

  /** Distinct numbers below a bound are at most that many. */
  lemma {:induction false} DistinctBelow(s: seq<nat>, bound: nat)
    requires forall i :: 0 <= i < |s| ==> s[i] < bound
    requires forall i, j :: 0 <= i < j < |s| ==> s[i] != s[j]
    ensures |s| <= bound
    decreases bound
  {
    if |s| > 0 && s[0] >= bound {
      assert false;
    }
    if bound == 0 {
    } else if i :| 0 <= i < |s| && s[i] == bound - 1 {
      DistinctBelow(s[..i] + s[i + 1..], bound - 1);
    } else {
      DistinctBelow(s, bound - 1);
    }
  }

  /** Cluster numbers of FAT12 and FAT16 fit 16 bits, and so does every offset into a chain. */
  lemma ChainFitsSixteenBits(v: Volume, first: nat, chain: seq<nat>)
    requires v.Valid() && IsChain(v, first, chain) && !v.kind.Fat32? && first < 65536
    ensures |chain| <= 65536
    ensures forall i :: 0 <= i < |chain| ==> chain[i] < 65536
  {
    forall i | 0 <= i < |chain|
      ensures chain[i] < 65536
    {
      if i > 0 {
        assert LinksTo(v, chain[i - 1], chain[i]);
        TableInDisk(v, chain[i - 1]);
      }
    }
    ChainHasNoRepeats(v, first, chain);
    DistinctBelow(chain, 65536);
  }

  // ----- The cached view -----

  /** `fat_view`: a window of table bytes, the whole table for FAT12 and FAT16. */
  class TableReader {
    const volume: Volume
    var viewOffset: nat
    var view: Bytes
    /** The pages of the view have been allocated. */
    var hasView: bool
    /** Disk reads that failed and view allocations that were refused so far. */
    ghost var failures: nat

    ghost predicate Valid()
      reads this
    {
      && volume.Valid()
      && (viewOffset != FAT_VIEW_OFF_INVALID ==> ViewMatches(volume, viewOffset, view))
    }

    constructor (v: Volume)
      requires v.Valid()
      ensures Valid() && volume == v && viewOffset == FAT_VIEW_OFF_INVALID
    {
      volume := v;
      viewOffset := FAT_VIEW_OFF_INVALID;
      view := [];
      hasView := false;
      failures := 0;
    }

    /** A disk read; it may fail, and does past the end of the disk. */
    method ReadBlocks(first: nat, count: nat) returns (ok: bool, data: Bytes)
      modifies this`failures
      ensures failures == old(failures) + if ok then 0 else 1
      ensures ok ==> (first + count) * volume.blockBytes <= |volume.disk|
                     && data == volume.disk[first * volume.blockBytes..(first + count) * volume.blockBytes]
    {
      MulMonotone(first, first + count, volume.blockBytes);
      ok := *;
      data := [];
      if ok && (first + count) * volume.blockBytes <= |volume.disk| {
        data := volume.disk[first * volume.blockBytes..(first + count) * volume.blockBytes];
      } else {
        ok := false;
        failures := failures + 1;
      }
    }

    /** Reads the window that starts at entry `want`. */
    method ReadWindow(want: nat) returns (ok: bool, data: Bytes)
      requires volume.Valid()
      requires if volume.kind.Fat32? then want % FAT_VIEW_CAPACITY_FAT32 == 0 else want == 0
      modifies this`failures
      ensures failures == old(failures) + if ok then 0 else 1
      ensures ok ==> ViewMatches(volume, want, data)
    {
      var firstBlock := volume.fatFirstBlock + want / (volume.blockBytes / 4);
      var blocks := Min(volume.fatBlocks, FAT_VIEW_BYTES / volume.blockBytes);
      ok, data := ReadBlocks(firstBlock, blocks);
      if ok {
        MulMonotone(firstBlock, firstBlock + blocks, volume.blockBytes);
        ReadFillsView(volume, want, data);
      }
    }

    /** `ensure_fat_view`: the allocation may be refused. */
    method EnsureView() returns (ok: bool)
      modifies this`hasView, this`failures
      ensures failures == old(failures) + if ok then 0 else 1
      ensures ok == hasView && (old(hasView) ==> ok)
    {
      if hasView {
        return true;
      }
      ok := *;
      hasView := ok;
      if !ok {
        failures := failures + 1;
      }
    }

    /** `ensure_fat_entry_cached_fat32` and `ensure_fat_cached_fat12_or_16`. */
    method EnsureCached(index: nat) returns (ok: bool)
      requires Valid() && volume.InTable(index)
      modifies this
      ensures Valid() && failures == old(failures) + if ok then 0 else 1
      ensures ok ==> viewOffset != FAT_VIEW_OFF_INVALID && ViewHolds(volume, viewOffset, view, index)
    {
      hide Volume.Valid, ViewMatches, ViewHolds, Volume.InTable;
      var want := if volume.kind.Fat32? then AlignDown(index, FAT_VIEW_CAPACITY_FAT32) else 0;
      ok := EnsureView();
      if !ok {
        return;
      }
      if if volume.kind.Fat32? then viewOffset == want else viewOffset != FAT_VIEW_OFF_INVALID {
        ViewStart(volume, viewOffset, view);
        ViewHoldsIndex(volume, want, view, index);
        return true;
      }
      var data;
      ok, data := ReadWindow(want);
      if !ok {
        viewOffset := FAT_VIEW_OFF_INVALID;
        return;
      }
      view := data;
      viewOffset := want;
      ViewHoldsIndex(volume, want, view, index);
    }

    /**
     `fat_entry_at`: the table entry as it is on disk, or the bad-cluster value when the table
     could not be read. Nothing is promised for an index beyond the table.
     */
    method EntryAt(index: nat) returns (value: nat, ghost cached: bool)
      requires Valid()
      modifies this
      ensures Valid() && failures == old(failures) + if cached then 0 else 1
      ensures cached ==> Holds(volume, index, value)
      ensures volume.TableAt() + volume.TableBytes() <= |volume.disk|
      ensures cached && Inside(volume.kind, volume.TableBytes(), index) ==>
                value == DiskEntry(volume.kind, volume.disk, volume.TableAt(), volume.TableBytes(), index)
      ensures !cached ==> value == BadValue(volume.kind)
    {
      InsideIsInTable(volume, index);
      WholeTableInDisk(volume);
      if !volume.InTable(index) {
        value, cached := *, true;
        return;
      }
      TableInDisk(volume, index);
      var ok := EnsureCached(index);
      cached := ok;
      if !ok {
        return BadValue(volume.kind), false;
      }
      value := Decode(volume.kind, view, EntryOffset(volume.kind, index - viewOffset), index);
      EntryOnDisk(volume, index);
    }
  }

  /** `value` is what the table holds for `index`, when the table has such an entry. */
  ghost predicate Holds(v: Volume, index: nat, value: nat)
    requires v.Valid()
  {
    v.InTable(index) ==> (TableInDisk(v, index); value == v.Entry(index))
  }

  /** The window holds the table bytes from entry `offset` on, up to the view size. */
  ghost predicate ViewMatches(v: Volume, offset: nat, view: Bytes)
    requires v.Valid()
  {
    && |view| == Min(v.fatBlocks * v.blockBytes, FAT_VIEW_BYTES)
    && (if v.kind.Fat32? then offset % FAT_VIEW_CAPACITY_FAT32 == 0 else offset == 0)
    && v.fatFirstBlock * v.blockBytes + 4 * offset + |view| <= |v.disk|
    && view == v.disk[v.fatFirstBlock * v.blockBytes + 4 * offset..v.fatFirstBlock * v.blockBytes + 4 * offset + |view|]
  }

  lemma ViewStart(v: Volume, offset: nat, view: Bytes)
    requires v.Valid() && ViewMatches(v, offset, view)
    ensures !v.kind.Fat32? ==> offset == 0
  {
  }

  /** Decoding entry `index` in the window gives the entry on disk. */
  ghost predicate ViewHolds(v: Volume, offset: nat, view: Bytes, index: nat)
    requires v.Valid()
  {
    && offset <= index
    && EntryOffset(v.kind, index - offset) + EntryBytes(v.kind) <= |view|
    && v.fatFirstBlock * v.blockBytes + EntryOffset(v.kind, index) + EntryBytes(v.kind) <= |v.disk|
    && Decode(v.kind, view, EntryOffset(v.kind, index - offset), index) == v.Entry(index)
  }

  lemma ViewHoldsIndex(v: Volume, offset: nat, view: Bytes, index: nat)
    requires v.Valid() && v.InTable(index) && ViewMatches(v, offset, view)
    requires offset == if v.kind.Fat32? then AlignDown(index, FAT_VIEW_CAPACITY_FAT32) else 0
    ensures ViewHolds(v, offset, view, index)
  {
    TableInDisk(v, index);
    WindowOffsets(v.kind, offset, index, v.fatBlocks * v.blockBytes);
    DecodeSlice(v.kind, v.disk, v.fatFirstBlock * v.blockBytes + 4 * offset, view, EntryOffset(v.kind, index - offset),
                index);
  }

  lemma WindowOffsets(t: FatType, offset: nat, index: nat, tableBytes: nat)
    requires EntryOffset(t, index) + EntryBytes(t) <= tableBytes
    requires !t.Fat32? ==> tableBytes <= FAT_VIEW_BYTES
    requires offset == if t.Fat32? then AlignDown(index, FAT_VIEW_CAPACITY_FAT32) else 0
    ensures offset <= index
    ensures EntryOffset(t, index - offset) + EntryBytes(t) <= Min(tableBytes, FAT_VIEW_BYTES)
    ensures EntryOffset(t, index) == 4 * offset + EntryOffset(t, index - offset)
  {
  }

  lemma DecodeSlice(t: FatType, disk: Bytes, start: nat, view: Bytes, off: nat, index: nat)
    requires start + |view| <= |disk| && view == disk[start..start + |view|]
    requires off + EntryBytes(t) <= |view|
    ensures Decode(t, view, off, index) == Decode(t, disk, start + off, index)
  {
  }

  /** The block read for a window starts at its first entry and covers the view. */
  lemma ReadFillsView(v: Volume, want: nat, data: Bytes)
    requires v.Valid()
    requires if v.kind.Fat32? then want % FAT_VIEW_CAPACITY_FAT32 == 0 else want == 0
    requires var first := v.fatFirstBlock + want / (v.blockBytes / 4);
             var count := Min(v.fatBlocks, FAT_VIEW_BYTES / v.blockBytes);
             && (first + count) * v.blockBytes <= |v.disk|
             && first * v.blockBytes <= (first + count) * v.blockBytes
             && data == v.disk[first * v.blockBytes..(first + count) * v.blockBytes]
    ensures ViewMatches(v, want, data)
  {
    var bb, q := v.blockBytes, v.blockBytes / 4;
    var first, count := v.fatFirstBlock + want / q, Min(v.fatBlocks, FAT_VIEW_BYTES / bb);
    BlockOfEntry(want, bb);
    MulDistribute(v.fatFirstBlock, want / q, bb);
    MulDistribute(first, count, bb);
    assert count * bb == Min(v.fatBlocks * bb, FAT_VIEW_BYTES) by {
      DivModRebuild(FAT_VIEW_BYTES, bb);
      MulMonotone(count, v.fatBlocks, bb);
      MulMonotone(count, FAT_VIEW_BYTES / bb, bb);
    }
  }

  lemma BlockOfEntry(index: nat, blockBytes: nat)
    requires blockBytes >= 4 && blockBytes % 4 == 0 && FAT_VIEW_BYTES % blockBytes == 0
    requires index % FAT_VIEW_CAPACITY_FAT32 == 0
    ensures (index / (blockBytes / 4)) * blockBytes == 4 * index
  {
    var q, n, m := blockBytes / 4, FAT_VIEW_BYTES / blockBytes, index / FAT_VIEW_CAPACITY_FAT32;
    DivModRebuild(FAT_VIEW_BYTES, blockBytes);
    assert n * (4 * q) == 4 * (n * q) by { MulAssoc(n, 4, q); MulCommute(n, 4); MulAssoc(4, n, q); }
    assert n * q == FAT_VIEW_CAPACITY_FAT32;
    MulAssoc(m, n, q);
    DivModUnique(index, q, m * n, 0);
    assert (m * n) * (4 * q) == 4 * index by { MulAssoc(m * n, 4, q); MulCommute(m * n, 4); MulAssoc(4, m * n, q); }
  }
}
