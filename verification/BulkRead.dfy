/**
 `bulk_read_file` (loader/filesystem/bulk_read.c): reads a byte range of a file through the block ranges a
 filesystem reports and the block cache of its disk, with unaligned edges split off.
 */
module BulkRead {
  import opened Arith
  import opened Buffers
  import opened BlockCache
  import opened FatTable
  import opened FatIndex
  import opened ReadProgress

  // ----- What a file contains -----

  /** `BLOCK_RANGE_OFF_HOLE`. */
  const HOLE: nat := 0xFFFF_FFFF_FFFF_FFFF

  /**
   A file as the reader sees it: filesystem and disk block sizes, the partition's first disk
   block, and for each file block its byte offset in the partition, `None` for a hole.
   */
  datatype File = File(disk: Bytes, fsBytes: Pos, diskBytes: Pos, firstLba: nat, size: nat,
                       ghost loc: nat -> Option<nat>) {
    function Base(): nat {
      Times(firstLba, diskBytes)
    }

    function DiskByte(x: nat): nat {
      if x < |disk| then disk[x] else 0
    }

    /** Byte `i` of the file, read on its own. */
    ghost function ByteAt(i: nat): nat {
      match loc(Quot(i, fsBytes))
      case None => 0
      case Some(off) => DiskByte(Base() + off + Rem(i, fsBytes))
    }
  }

  /** A range describes the file's blocks from `block` on, at least one of them. */
  ghost predicate LawfulAnswer(f: File, block: nat, r: BlockRange) {
    && 0 < r.blocks
    && (forall k: nat :: k < r.blocks && Times(block + k, f.fsBytes) < f.size ==>
          f.loc(block + k) == if r.partOff == HOLE then None else Some(r.partOff + Times(k, f.fsBytes)))
  }

  /** Blocks the reader asks for are blocks of the file. */
  predicate Asked(f: File, block: nat, want: nat) {
    want > 0 && Times(block, f.fsBytes) < f.size
  }

  type Callback = (nat, nat) -> Option<BlockRange>

  /** The get-range callback answers lawfully, or fails. */
  ghost predicate Lawful(f: File, get: Callback) {
    forall block: nat, want: nat :: Asked(f, block, want) && get(block, want).Some? ==>
      LawfulAnswer(f, block, get(block, want).value)
  }

  /** The callback never fails. */
  ghost predicate AlwaysAnswers(f: File, get: Callback) {
    forall block: nat, want: nat :: Asked(f, block, want) ==> get(block, want).Some?
  }

  /** An answer of no more blocks than wanted, or of less than 4 GiB. */
  predicate ModerateAnswer(f: File, want: nat, r: BlockRange) {
    r.blocks <= want || Times(r.blocks, f.fsBytes) < TWO_32
  }

  ghost predicate Moderate(f: File, get: Callback) {
    forall block: nat, want: nat :: Asked(f, block, want) && get(block, want).Some? ==>
      ModerateAnswer(f, want, get(block, want).value)
  }

  /** Every answer is of exactly as many blocks as wanted. */
  ghost predicate Full(f: File, get: Callback) {
    forall block: nat, want: nat :: Asked(f, block, want) && get(block, want).Some? ==>
      get(block, want).value.blocks == want
  }

  /** The disk holds every block of the file, with room for one window of `cap` disk blocks behind it. */
  ghost predicate Readable(f: File, cap: nat) {
    forall b: nat :: Times(b, f.fsBytes) < f.size && f.loc(b).Some? ==>
      f.Base() + f.loc(b).value + f.fsBytes + f.diskBytes + Times(cap, f.diskBytes) <= |f.disk|
  }

  /** The cache reads the disk the file is on. */
  ghost predicate OnDisk(f: File, c: Cache)
    reads c, c.buf, c.scratch
  {
    c.Valid() && c.cap > 0 && c.refs == 0 && c.disk == f.disk && c.blockBytes == f.diskBytes
  }

  // ----- One range -----

  lemma SplitOffset(off: nat, j: nat, b: Pos)
    ensures Quot(off + j, b) == Quot(off, b) + Quot(Rem(off, b) + j, b)
    ensures Rem(off, b) + j == Times(Quot(Rem(off, b) + j, b), b) + Rem(off + j, b)
    ensures Times(Quot(off + j, b), b) <= off + j
  {
    var k := (off % b + j) / b;
    DivModRebuild(off, b);
    DivModRebuild(off % b + j, b);
    MulDistribute(off / b, k, b);
    DivModUnique(off + j, b, off / b + k, (off % b + j) % b);
    DivModRebuild(off + j, b);
  }

  lemma QuotientBelow(x: nat, n: nat, b: Pos)
    requires x < Times(n, b)
    ensures Quot(x, b) < n
  {
    DivModRebuild(x, b);
    if x / b >= n { MulMonotone(n, x / b, b); }
  }

  /** Bytes of the file inside a lawful range are zeros of a hole or consecutive disk bytes. */
  lemma RangeBytes(f: File, off: nat, r: BlockRange, j: nat)
    requires LawfulAnswer(f, Quot(off, f.fsBytes), r)
    requires Rem(off, f.fsBytes) + j < Times(r.blocks, f.fsBytes) && off + j < f.size
    ensures f.ByteAt(off + j)
         == if r.partOff == HOLE then 0 else f.DiskByte(f.Base() + (r.partOff + Rem(off, f.fsBytes)) + j)
  {
    hide Quot, Rem, Times;
    var k := Quot(Rem(off, f.fsBytes) + j, f.fsBytes);
    SplitOffset(off, j, f.fsBytes);
    QuotientBelow(Rem(off, f.fsBytes) + j, r.blocks, f.fsBytes);
    assert f.loc(Quot(off, f.fsBytes) + k) == if r.partOff == HOLE then None else Some(r.partOff + Times(k, f.fsBytes));
  }

  lemma WholeBlocks(f: File, partOff: nat, n: nat)
    requires Rem(partOff, f.diskBytes) == 0 && Rem(n, f.diskBytes) == 0
    ensures Times(f.firstLba + Quot(partOff, f.diskBytes), f.diskBytes) == f.Base() + partOff
    ensures Times(Quot(n, f.diskBytes), f.diskBytes) == n
    ensures Times(f.firstLba + Quot(partOff, f.diskBytes) + Quot(n, f.diskBytes), f.diskBytes) == f.Base() + partOff + n
  {
    DivModRebuild(partOff, f.diskBytes);
    DivModRebuild(n, f.diskBytes);
    MulDistribute(f.firstLba, partOff / f.diskBytes, f.diskBytes);
    MulDistribute(f.firstLba + partOff / f.diskBytes, n / f.diskBytes, f.diskBytes);
  }

  /** Where a byte range starts within its disk block, and where its blocks end. */
  lemma BytesOnDisk(f: File, partOff: nat, n: nat)
    ensures Rem(f.Base() + partOff, f.diskBytes) == Rem(partOff, f.diskBytes)
    ensures var at := f.Base() + partOff;
            Times(Quot(at, f.diskBytes) + BlockCount(at, n, f.diskBytes), f.diskBytes) < at + n + f.diskBytes
  {
    var b, at := f.diskBytes, f.Base() + partOff;
    RemTimes(f.firstLba, b);
    RemAdd(f.Base(), partOff, b);
    var x := Rem(at, b) + n;
    AlignFacts(x, b);
    DivModRebuild(AlignUp(x, b), b);
    DivModRebuild(at, b);
    MulDistribute(Quot(at, b), BlockCount(at, n, b), b);
  }

  /** The blocks left in the window that will serve a read at this partition offset. */
  ghost function RoomAt(f: File, c: Cache, partOff: nat): nat
    reads c
  {
    c.Room(Quot(f.Base() + partOff, f.diskBytes))
  }

  /** A read at this partition offset stays inside the window that serves it. */
  ghost predicate Clean(f: File, c: Cache, partOff: nat, n: nat)
    reads c
  {
    FitsWindow(Rem(partOff, f.diskBytes), n, RoomAt(f, c, partOff), f.diskBytes)
  }

  /**
   `n` bytes at partition offset `partOff`: `ds_read_blocks` when both are aligned to disk blocks, `ds_read` otherwise.
   Both are reads through the cache.
   */
  method ReadPiece(f: File, c: Cache, buf: array<nat>, pos: nat, partOff: nat, n: nat) returns (ok: bool)
    requires OnDisk(f, c) && buf != c.buf && n > 0 && pos + n <= buf.Length
    modifies c`empty, c`base, c`failures, c.buf, c.scratch, buf
    ensures OnDisk(f, c) && c.cap == old(c.cap)
    ensures ok && old(Clean(f, c, partOff, n)) ==> Copied(f.disk, buf[..], pos, f.Base() + partOff, n)
    ensures !ok && c.reliable ==> f.Base() + partOff + n + f.diskBytes + Times(c.cap, f.diskBytes) > |f.disk|
    ensures OnlyChanged(old(buf[..]), buf[..], pos, n)
  {
    hide Times, Quot, Rem, Copied, OnlyChanged, File.Base, Matches;
    var r;
    if Rem(partOff, f.diskBytes) != 0 || Rem(n, f.diskBytes) != 0 {
      BytesOnDisk(f, partOff, n);
      r := c.ReadBytes(buf, pos, f.Base() + partOff, n);
    } else {
      WholeBlocks(f, partOff, n);
      r := c.ReadBlocks(buf, pos, f.firstLba + Quot(partOff, f.diskBytes), Quot(n, f.diskBytes));
    }
    ok := r.Done?;
  }

  // ----- The loop -----

  /** `buf[pos..pos + n]` holds the file's bytes from `off` on, each as a read of its own would give it. */
  ghost predicate HoldsFile(f: File, buf: seq<nat>, pos: nat, off: nat, n: nat) {
    && pos + n <= |buf|
    && (forall i: nat :: pos <= i < pos + n ==> buf[i] == f.ByteAt(off + (i - pos)))
  }

  lemma RangeSize(f: File, off: nat, r: BlockRange)
    requires LawfulAnswer(f, Quot(off, f.fsBytes), r)
    ensures Rem(off, f.fsBytes) < f.fsBytes <= Times(r.blocks, f.fsBytes)
    ensures Rem(Times(r.blocks, f.fsBytes), f.fsBytes) == 0
  {
    OneBlockAtLeast(r.blocks, f.fsBytes);
    RemTimes(r.blocks, f.fsBytes);
  }

  lemma PieceHolds(f: File, buf: seq<nat>, pos: nat, off: nat, n: nat, r: BlockRange)
    requires LawfulAnswer(f, Quot(off, f.fsBytes), r) && r.partOff != HOLE
    requires Rem(off, f.fsBytes) + n <= Times(r.blocks, f.fsBytes) && off + n <= f.size
    requires Copied(f.disk, buf, pos, f.Base() + (r.partOff + Rem(off, f.fsBytes)), n)
    ensures HoldsFile(f, buf, pos, off, n)
  {
    hide Quot, Rem, Times, File.Base, File.ByteAt, LawfulAnswer;
    var at := f.Base() + (r.partOff + Rem(off, f.fsBytes));
    forall i: nat | pos <= i < pos + n
      ensures buf[i] == f.ByteAt(off + (i - pos))
    {
      RangeBytes(f, off, r, i - pos);
      assert buf[i] == buf[pos..pos + n][i - pos] == f.disk[at..at + n][i - pos];
    }
  }

  /** A piece of a readable file is followed by a window on the disk. */
  lemma PieceInside(f: File, cap: nat, off: nat, n: nat, r: BlockRange)
    requires LawfulAnswer(f, Quot(off, f.fsBytes), r) && r.partOff != HOLE && n > 0
    requires Rem(off, f.fsBytes) + n <= Times(r.blocks, f.fsBytes) && off + n <= f.size
    ensures Readable(f, cap) ==>
              f.Base() + (r.partOff + Rem(off, f.fsBytes)) + n + f.diskBytes + Times(cap, f.diskBytes) <= |f.disk|
  {
    hide Quot, Times, File.Base;
    var block, k := Quot(off, f.fsBytes), Quot(Rem(off, f.fsBytes) + (n - 1), f.fsBytes);
    SplitOffset(off, n - 1, f.fsBytes);
    QuotientBelow(Rem(off, f.fsBytes) + (n - 1), r.blocks, f.fsBytes);
    assert Rem(off + (n - 1), f.fsBytes) < f.fsBytes;
    assert f.loc(block + k) == Some(r.partOff + Times(k, f.fsBytes));
  }

  lemma HoleHolds(f: File, buf: seq<nat>, pos: nat, off: nat, n: nat, r: BlockRange)
    requires LawfulAnswer(f, Quot(off, f.fsBytes), r) && r.partOff == HOLE
    requires Rem(off, f.fsBytes) + n <= Times(r.blocks, f.fsBytes) && off + n <= f.size
    requires pos + n <= |buf| && forall i :: pos <= i < pos + n ==> buf[i] == 0
    ensures HoldsFile(f, buf, pos, off, n)
  {
    hide Quot, Rem, Times, File.Base, File.ByteAt, LawfulAnswer;
    forall i: nat | pos <= i < pos + n
      ensures buf[i] == f.ByteAt(off + (i - pos))
    {
      RangeBytes(f, off, r, i - pos);
    }
  }

  /** The read of a round is clean: from a hole, or inside its window. */
  ghost predicate CleanRound(f: File, c: Cache, off: nat, n: nat, r: BlockRange)
    reads c
  {
    r.partOff == HOLE || Clean(f, c, r.partOff + Rem(off, f.fsBytes), n)
  }

  /** The bytes of one round. */
  method ReadRange(f: File, c: Cache, buf: array<nat>, pos: nat, off: nat, n: nat, r: BlockRange) returns (ok: bool)
    requires OnDisk(f, c) && buf != c.buf && LawfulAnswer(f, Quot(off, f.fsBytes), r)
    requires n > 0 && Rem(off, f.fsBytes) + n <= Times(r.blocks, f.fsBytes) && off + n <= f.size
    requires pos + n <= buf.Length
    modifies c`empty, c`base, c`failures, c.buf, c.scratch, buf
    ensures OnDisk(f, c) && c.cap == old(c.cap)
    ensures ok && old(CleanRound(f, c, off, n, r)) ==> HoldsFile(f, buf[..], pos, off, n)
    ensures !ok ==> !(c.reliable && Readable(f, c.cap))
    ensures OnlyChanged(old(buf[..]), buf[..], pos, n)
  {
    hide Quot, Rem, Times, File.Base, File.ByteAt, LawfulAnswer, Copied, HoldsFile, Readable, Matches, FitsWindow;
    if r.partOff == HOLE {
      forall i | pos <= i < pos + n {
        buf[i] := 0;
      }
      HoleHolds(f, buf[..], pos, off, n, r);
      ok := true;
    } else {
      ghost var clean := Clean(f, c, r.partOff + Rem(off, f.fsBytes), n);
      ok := ReadPiece(f, c, buf, pos, r.partOff + Rem(off, f.fsBytes), n);
      if ok && clean {
        PieceHolds(f, buf[..], pos, off, n, r);
      } else if !ok {
        PieceInside(f, c.cap, off, n, r);
      }
    }
  }

  // ----- Who answers -----

  /** A stateless callback, or an open FAT file. */
  datatype Source = Callback(get: Callback) | Fat(file: FatFile) {
    ghost function Repr(): set<object>
      reads if Fat? then {file} else {}
    {
      if Fat? then {file, file.reader, file.inPlace, file.extra} else {}
    }
  }

  /** The cluster of a block: that of the chain, and past its end the one reached by counting on. */
  function ClusterOf(chain: seq<nat>, b: nat): nat
    requires chain != []
  {
    Onward(chain, b + 1)[b]
  }

  /** The reader's view of a FAT file with this chain. */
  ghost predicate IsFat(f: File, chain: seq<nat>, dataPartOff: nat) {
    && chain != [] && Rem(f.fsBytes, 2) == 0 && Rem(dataPartOff, 2) == 0
    && (forall b: nat {:trigger f.loc(b)} ::
          ClusterOf(chain, b) >= 2
          && f.loc(b) == Some(ClusterPartOff(ClusterOf(chain, b), f.fsBytes, dataPartOff)))
  }

  /** Answers of this source describe the file. */
  ghost predicate Describes(f: File, src: Source, chain: seq<nat>)
    reads if src.Fat? then {src.file, src.file.reader, src.file.inPlace, src.file.extra} else {}
  {
    match src
    case Callback(get) => Lawful(f, get)
    case Fat(file) =>
      && file.Valid() && file.first >= 2 && IsChain(file.reader.volume, file.first, chain)
      && file.clusterBytes == f.fsBytes && IsFat(f, chain, file.dataPartOff)
  }

  lemma OnwardSame(chain: seq<nat>, n: nat, b: nat)
    requires chain != [] && b < |Onward(chain, n)|
    ensures Onward(chain, n)[b] == ClusterOf(chain, b)
  {
    hide Onward;
    OnwardAt(chain, n, b);
    OnwardAt(chain, b + 1, b);
  }

  lemma PartOffAdds(cluster: nat, k: nat, b: nat, dataPartOff: nat)
    requires cluster >= 2
    ensures ClusterPartOff(cluster + k, b, dataPartOff) == ClusterPartOff(cluster, b, dataPartOff) + Times(k, b)
  {
    MulDistribute(cluster - 2, k, b);
  }

  /** No cluster lies at the odd offset that stands for a hole. */
  lemma NotTheHole(cluster: nat, b: nat, dataPartOff: nat)
    requires cluster >= 2 && Rem(b, 2) == 0 && Rem(dataPartOff, 2) == 0
    ensures ClusterPartOff(cluster, b, dataPartOff) != HOLE
  {
    var n: nat, h := cluster - 2, b / 2;
    DivModRebuild(b, 2);
    MulAssoc(n, h, 2);
    assert n * b == 2 * (n * h);
  }

  /** Answers of a FAT file are lawful for the file its chain describes. */
  lemma FatAnswersLawfully(f: File, chain: seq<nat>, block: nat, want: nat, out: BlockRange, dataPartOff: nat)
    requires IsFat(f, chain, dataPartOff)
    requires block < |Onward(chain, block + want)|
    requires Located(Onward(chain, block + want), block, want, out, f.fsBytes, dataPartOff)
    ensures LawfulAnswer(f, block, out) && ModerateAnswer(f, want, out)
  {
    hide ClusterPartOff, Onward, Times, Rem;
    var cluster := ClusterOf(chain, block);
    OnwardSame(chain, block + want, block);
    assert f.loc(block) == Some(ClusterPartOff(cluster, f.fsBytes, dataPartOff));
    NotTheHole(cluster, f.fsBytes, dataPartOff);
    forall k: nat | k < out.blocks && Times(block + k, f.fsBytes) < f.size
      ensures f.loc(block + k) == Some(out.partOff + Times(k, f.fsBytes))
    {
      OnwardSame(chain, block + want, block + k);
      assert Onward(chain, block + want)[block + k] == cluster + (block + k - block);
      PartOffAdds(cluster, k, f.fsBytes, dataPartOff);
    }
  }

  /** `iso9660_file_get_range`: a file is one extent. */
  function IsoRange(f: File, firstBlock: nat): Callback {
    (block: nat, want: nat) => Some(BlockRange(Times(firstBlock + block, f.fsBytes), want))
  }

  ghost predicate IsIso(f: File, firstBlock: nat) {
    Rem(f.fsBytes, 2) == 0 && forall b: nat :: f.loc(b) == Some(Times(firstBlock + b, f.fsBytes))
  }

  lemma EvenIsNoHole(n: nat, b: nat)
    requires Rem(b, 2) == 0
    ensures Times(n, b) != HOLE
  {
    ZeroRem(2);
    NotTheHole(n + 2, b, 0);
  }

  lemma IsoAnswer(f: File, firstBlock: nat, block: nat, want: nat)
    requires IsIso(f, firstBlock) && want > 0
    ensures LawfulAnswer(f, block, BlockRange(Times(firstBlock + block, f.fsBytes), want))
  {
    hide Times, Rem;
    var at := Times(firstBlock + block, f.fsBytes);
    EvenIsNoHole(firstBlock + block, f.fsBytes);
    forall k: nat | k < want ensures f.loc(block + k) == Some(at + Times(k, f.fsBytes)) {
      TimesAdds(firstBlock + block, k, f.fsBytes);
      assert f.loc(block + k) == Some(Times(firstBlock + (block + k), f.fsBytes));
    }
  }

  /** Its answers are lawful, moderate and full, and it never fails. */
  lemma IsoAnswersLawfully(f: File, firstBlock: nat)
    requires IsIso(f, firstBlock)
    ensures var get := IsoRange(f, firstBlock);
            Lawful(f, get) && AlwaysAnswers(f, get) && Moderate(f, get) && Full(f, get)
  {
    hide Times, LawfulAnswer, IsIso;
    var get := IsoRange(f, firstBlock);
    forall block: nat, want: nat | Asked(f, block, want)
      ensures LawfulAnswer(f, block, get(block, want).value)
    {
      IsoAnswer(f, firstBlock, block, want);
    }
  }

  lemma TimesIs(n: nat, b: nat)
    ensures Times(n, b) == n * b
  {
  }

  lemma TimesAdds(m: nat, n: nat, b: nat)
    ensures Times(m + n, b) == Times(m, b) + Times(n, b)
  {
    MulDistribute(m, n, b);
  }

  /** The source could have failed: a failing callback, an interrupted table walk, a chain too long for the size. */
  twostate predicate MayFail(f: File, src: Source, chain: seq<nat>)
    reads if src.Fat? then {src.file, src.file.reader} else {}
  {
    match src
    case Callback(get) => !AlwaysAnswers(f, get)
    case Fat(file) =>
      || file.reader.failures != old(file.reader.failures) || file.refusals != old(file.refusals)
      || file.clusterBytes == 0 || |chain| > file.MaxClusters(old(file.size)) + 1
  }

  /** What a FAT file keeps from one question to the next. */
  twostate predicate Undisturbed(src: Source)
    reads if src.Fat? then {src.file, src.file.reader} else {}
  {
    src.Fat? ==>
      && src.file.reader.failures == old(src.file.reader.failures) && src.file.refusals == old(src.file.refusals)
      && (src.file.extra == old(src.file.extra) || fresh(src.file.extra))
      && (src.file.count == 0 ==> src.file.size == old(src.file.size))
  }

  /** One question. The table reads behind it go through the same cache and can leave its window anywhere. */
  method Ask(f: File, src: Source, c: Cache, block: nat, want: nat, ghost chain: seq<nat>)
    returns (r: Option<BlockRange>)
    requires Describes(f, src, chain) && OnDisk(f, c) && Asked(f, block, want)
    modifies src.Repr(), c`empty, c`base, c`failures, c.buf, c.scratch
    ensures Describes(f, src, chain) && OnDisk(f, c) && c.cap == old(c.cap)
    ensures r.Some? ==> LawfulAnswer(f, block, r.value) && Undisturbed(src)
    ensures r.Some? ==> match src
                        case Callback(get) => r == get(block, want)
                        case Fat(file) => file.count > 0 && ModerateAnswer(f, want, r.value)
    ensures r.None? ==> MayFail(f, src, chain) && (src.Fat? ==> old(src.file.count) == 0)
    ensures src.Fat? ==> src.file.extra == old(src.file.extra) || fresh(src.file.extra)
  {
    hide LawfulAnswer, Matches, IsFat, IsChain, Located, Onward, Indexes, Times;
    var elsewhere: nat := *;
    var q := c.Refill(elsewhere);
    match src {
      case Callback(get) =>
        r := get(block, want);
      case Fat(file) =>
        var ok, out := file.GetRange(block, want, chain);
        if ok {
          FatAnswersLawfully(f, chain, block, want, out, file.dataPartOff);
        }
        r := if ok then Some(out) else None;
    }
  }

  // ----- The loop -----

  lemma HoldsMore(f: File, before: seq<nat>, buf: seq<nat>, pos: nat, off: nat, m: nat, n: nat)
    requires HoldsFile(f, before, pos, off, m)
    requires OnlyChanged(before, buf, pos + m, n)
    requires HoldsFile(f, buf, pos + m, off + m, n)
    ensures HoldsFile(f, buf, pos, off, m + n)
  {
    hide File.ByteAt;
    forall i: nat | pos <= i < pos + m + n
      ensures buf[i] == f.ByteAt(off + (i - pos))
    {
      if i < pos + m {
        assert buf[i] == buf[..pos + m][i] == before[..pos + m][i];
      } else {
        assert off + m + (i - (pos + m)) == off + (i - pos);
      }
    }
  }

  lemma StartsUnchanged(f: File, buf: seq<nat>, pos: nat, off: nat, bytes: nat)
    requires pos + bytes <= |buf|
    ensures OnlyChanged(buf, buf, pos, bytes) && HoldsFile(f, buf, pos, off, 0)
  {
  }

  /** Block sizes a 16-bit mask can express. */
  ghost predicate Sized(f: File) {
    BlockSize(f.fsBytes) && BlockSize(f.diskBytes)
  }

  /** Every block of the file starts at a disk block. */
  ghost predicate Aligned(f: File) {
    && Rem(f.fsBytes, f.diskBytes) == 0
    && forall b: nat :: Times(b, f.fsBytes) < f.size && f.loc(b).Some? ==> Rem(f.loc(b).value, f.diskBytes) == 0
  }

  /** A read that starts at a disk block, or stays inside one, fits whatever window serves it. */
  predicate Snug(f: File, off: nat, bytes: nat) {
    Rem(off, f.diskBytes) == 0 || Rem(off, f.diskBytes) + bytes <= f.diskBytes
  }

  /** Snug reads are exactly those that fit every window. */
  lemma SnugFitsAll(f: File, off: nat, bytes: nat)
    ensures Snug(f, off, bytes) <==> forall room: nat :: room > 0 ==>
              FitsWindow(Rem(off, f.diskBytes), bytes, room, f.diskBytes)
  {
    hide Rem;
    forall room: nat | room > 0 ensures f.diskBytes <= Times(room, f.diskBytes) { OneBlockAtLeast(room, f.diskBytes); }
    TimesIs(1, f.diskBytes);
    if !Snug(f, off, bytes) {
      assert !FitsWindow(Rem(off, f.diskBytes), bytes, 1, f.diskBytes);
    }
  }

  /** 20000 bytes at offset 100 of a 32 KiB cluster are all head, and leave any window of eight 512-byte blocks. */
  lemma HeadLeavesWindowExample(room: nat)
    requires room <= 8
    ensures Parts(100, 20000, 32768)[0] == 20000 && Rem(100, 512) == 100
    ensures !FitsWindow(Rem(100, 512), Parts(100, 20000, 32768)[0], room, 512)
  {
    assert Rem(100, 32768) == 100;
  }

  /** On an aligned file a snug round is clean. */
  lemma SnugIsClean(f: File, c: Cache, off: nat, bytes: nat, n: nat, r: BlockRange)
    requires Aligned(f) && Snug(f, off, bytes) && n <= bytes && OnDisk(f, c)
    requires LawfulAnswer(f, Quot(off, f.fsBytes), r) && off < f.size
    ensures CleanRound(f, c, off, n, r)
  {
    hide Rem, Quot, Times, File.Base;
    if r.partOff != HOLE {
      var block := Quot(off, f.fsBytes);
      BlockOf(off, f.fsBytes);
      TimesIs(0, f.fsBytes);
      assert f.loc(block + 0) == Some(r.partOff + Times(0, f.fsBytes));
      RemAdd(r.partOff, Rem(off, f.fsBytes), f.diskBytes);
      RemOfRem(off, f.diskBytes, f.fsBytes);
      OneBlockAtLeast(RoomAt(f, c, r.partOff + Rem(off, f.fsBytes)), f.diskBytes);
    }
  }

  lemma BlockOf(off: nat, b: Pos)
    ensures Times(Quot(off, b), b) <= off
  {
    DivModRebuild(off, b);
  }

  datatype ReadOutcome = Died | Failed | Stuck | Complete

  /** The rounds so far: not wrapped if it was not at the start, and with full answers wrapped if it was. */
  ghost predicate Kept(f: File, src: Source, word: nat, off: nat, bytes: nat, done: nat)
    requires done <= bytes
  {
    var was := NoWrap(word, Rem(off, f.fsBytes), bytes, f.fsBytes);
    var is_ := NoWrap(word, Rem(off + done, f.fsBytes), bytes - done, f.fsBytes);
    && (was && (src.Callback? ==> Moderate(f, src.get)) ==> is_)
    && (!was && src.Callback? && Full(f, src.get) ==> !is_)
  }

  /** One more round keeps that, and gets nowhere only from where it wraps or after an immoderate answer. */
  lemma KeptRound(f: File, src: Source, word: Pos, off: nat, bytes: nat, done: nat, r: BlockRange)
    requires Sized(f) && Word(word) && done < bytes < TWO_32 && Kept(f, src, word, off, bytes, done)
    requires var rem := Rem(off + done, f.fsBytes);
             var want := Wanted(word, rem, bytes - done, f.fsBytes);
             && want > 0 && LawfulAnswer(f, Quot(off + done, f.fsBytes), r)
             && (src.Fat? || Moderate(f, src.get) ==> ModerateAnswer(f, want, r))
             && (src.Callback? && Full(f, src.get) ==> r.blocks == want)
    ensures var rem := Rem(off + done, f.fsBytes);
            && rem <= Times(r.blocks, f.fsBytes)
            && var n := Taken(Times(r.blocks, f.fsBytes), rem, bytes - done);
               && (n == 0 ==>
                     !(NoWrap(word, Rem(off, f.fsBytes), bytes, f.fsBytes) && (src.Callback? ==> Moderate(f, src.get))))
               && (n > 0 ==> Kept(f, src, word, off, bytes, done + n))
               && (n < bytes - done ==> Rem(off + done + n, f.fsBytes) == 0)
  {
    hide Rem, Quot, Times, Wanted, NoWrap, BlockSize, LawfulAnswer, Moderate, Full, Taken;
    var fs, rem, left := f.fsBytes, Rem(off + done, f.fsBytes), bytes - done;
    var size := Times(r.blocks, fs);
    RangeSize(f, off + done, r);
    var n := Taken(size, rem, left);
    TakenAligned(size, rem, left, fs);
    RemAdd(off + done, n, fs);
    assert off + done + n == off + (done + n);
    if n == left { NothingLeft(word, Rem(off + (done + n), fs), fs); }
    if NoWrap(word, rem, left, fs) {
      if src.Fat? || Moderate(f, src.get) {
        MoreBlocks(r.blocks, Wanted(word, rem, left, fs), fs);
        RoundKeeps(word, rem, left, fs, size);
      }
    } else {
      if src.Callback? && Full(f, src.get) { RoundStays(word, rem, left, fs); }
    }
  }

  lemma MoreBlocks(m: nat, n: nat, b: Pos)
    ensures m <= n ==> Times(m, b) <= Times(n, b)
  {
    if m <= n { MulMonotone(m, n, b); }
  }

  /** One round of `do_bulk_read`, after `done` bytes. `Stuck` is a round that asks for no blocks or takes no bytes. */
  method ReadRound(f: File, src: Source, c: Cache, word: Pos, buf: array<nat>, pos: nat, off: nat, bytes: nat,
                   done: nat, ghost chain: seq<nat>)
    returns (r: ReadOutcome, n: nat, ghost clean: bool)
    requires Sized(f) && Word(word) && Describes(f, src, chain) && OnDisk(f, c) && buf != c.buf
    requires done < bytes < TWO_32 && off + bytes <= f.size && pos + bytes <= buf.Length
    requires Kept(f, src, word, off, bytes, done)
    modifies src.Repr(), c`empty, c`base, c`failures, c.buf, c.scratch, buf
    ensures Describes(f, src, chain) && OnDisk(f, c) && c.cap == old(c.cap) && !r.Died? && done + n <= bytes
    ensures src.Fat? ==> src.file.extra == old(src.file.extra) || fresh(src.file.extra)
    ensures r.Complete? ==>
              && n > 0 && Kept(f, src, word, off, bytes, done + n) && Undisturbed(src)
              && (src.Fat? ==> src.file.count > 0)
              && (clean ==> HoldsFile(f, buf[..], pos + done, off + done, n))
    ensures Aligned(f) && Snug(f, off, bytes) && (0 < done ==> Rem(off + done, f.diskBytes) == 0) ==>
              clean && (r.Complete? && done + n < bytes ==> Rem(off + (done + n), f.diskBytes) == 0)
    ensures r.Failed? ==>
              || !(c.reliable && Readable(f, c.cap))
              || (MayFail(f, src, chain) && (src.Fat? ==> old(src.file.count) == 0))
    ensures r.Stuck? ==>
              !(NoWrap(word, Rem(off, f.fsBytes), bytes, f.fsBytes) && (src.Callback? ==> Moderate(f, src.get)))
    ensures Wanted(word, Rem(off + done, f.fsBytes), bytes - done, f.fsBytes) == 0 ==> r.Stuck?
    ensures OnlyChanged(old(buf[..]), buf[..], pos + done, n)
  {
    hide Quot, Rem, File.ByteAt, LawfulAnswer, OnlyChanged, HoldsFile, Readable, NoWrap, Wanted, Taken, BlockSize,
         Times, Matches, Aligned, CleanRound, Describes, OnDisk, AlwaysAnswers, Moderate, Full, ModerateAnswer, Kept,
         Undisturbed, MayFail, Snug;
    clean, n := true, 0;
    NoneChanged(buf[..], pos + done, 0);
    var left, rem := bytes - done, Rem(off + done, f.fsBytes);
    var block, want := Quot(off + done, f.fsBytes), Wanted(word, rem, left, f.fsBytes);
    if want == 0 {
      NoneWanted(f, src, word, off, bytes, done);
      return Stuck, n, clean;
    }
    BlockOf(off + done, f.fsBytes);
    var range := Ask(f, src, c, block, want, chain);
    if range.None? {
      return ReadOutcome.Failed, n, clean;
    }
    AnswerKinds(f, src, block, want, range.value);
    KeptRound(f, src, word, off, bytes, done, range.value);
    n := Taken(Times(range.value.blocks, f.fsBytes), rem, left);
    if n == 0 {
      return Stuck, n, clean;
    }
    clean := CleanRound(f, c, off + done, n, range.value);
    if Aligned(f) && Snug(f, off, bytes) && (0 < done ==> Rem(off + done, f.diskBytes) == 0) {
      SnugRound(f, c, off, bytes, done, n, range.value);
    }
    var ok := ReadRange(f, c, buf, pos + done, off + done, n, range.value);
    r := if ok then Complete else ReadOutcome.Failed;
  }

  /** `do_bulk_read`. */
  method DoBulkRead(f: File, src: Source, c: Cache, word: Pos, buf: array<nat>, pos: nat, off: nat, bytes: nat,
                    ghost chain: seq<nat>)
    returns (r: ReadOutcome, ghost clean: bool)
    requires Sized(f) && Word(word) && Describes(f, src, chain) && OnDisk(f, c) && buf != c.buf
    requires bytes < TWO_32 && off + bytes <= f.size && pos + bytes <= buf.Length
    modifies src.Repr(), c`empty, c`base, c`failures, c.buf, c.scratch, buf
    ensures Describes(f, src, chain) && OnDisk(f, c) && c.cap == old(c.cap) && !r.Died?
    ensures src.Fat? ==> src.file.extra == old(src.file.extra) || fresh(src.file.extra)
    ensures r.Complete? && clean ==> HoldsFile(f, buf[..], pos, off, bytes)
    ensures Aligned(f) && Snug(f, off, bytes) ==> clean
    ensures r.Failed? ==>
              !(c.reliable && Readable(f, c.cap)) || (MayFail(f, src, chain) && (src.Fat? ==> old(src.file.count) == 0))
    ensures r.Stuck? ==>
              !(NoWrap(word, Rem(off, f.fsBytes), bytes, f.fsBytes) && (src.Callback? ==> Moderate(f, src.get)))
    ensures bytes > 0 && Wanted(word, Rem(off, f.fsBytes), bytes, f.fsBytes) == 0 ==> r.Stuck?
    ensures r.Complete? && src.Callback? && Full(f, src.get) ==> NoWrap(word, Rem(off, f.fsBytes), bytes, f.fsBytes)
    ensures r.Complete? ==> Undisturbed(src) && (bytes > 0 && src.Fat? ==> src.file.count > 0)
    ensures OnlyChanged(old(buf[..]), buf[..], pos, bytes)
  {
    hide Quot, Rem, File.ByteAt, OnlyChanged, HoldsFile, Readable, NoWrap, Taken, BlockSize, Times, Matches, Aligned,
         Snug, Describes, OnDisk, AlwaysAnswers, Moderate, Full, Kept, Wanted;
    StartsUnchanged(f, buf[..], pos, off, bytes);
    KeptStart(f, src, word, off, bytes);
    clean := true;
    var done := 0;
    while done < bytes
      invariant 0 <= done <= bytes
      invariant Describes(f, src, chain) && OnDisk(f, c) && c.cap == old(c.cap) && Undisturbed(src)
      invariant clean ==> HoldsFile(f, buf[..], pos, off, done)
      invariant OnlyChanged(old(buf[..]), buf[..], pos, bytes)
      invariant Kept(f, src, word, off, bytes, done)
      invariant Aligned(f) && Snug(f, off, bytes) ==> clean && (0 < done < bytes ==> Rem(off + done, f.diskBytes) == 0)
      invariant src.Fat? && old(src.file.count) > 0 ==> src.file.count > 0
      invariant src.Fat? && done > 0 ==> src.file.count > 0
      invariant Wanted(word, Rem(off, f.fsBytes), bytes, f.fsBytes) == 0 ==> done == 0
    {
      ghost var before := buf[..];
      var n;
      ghost var cleanRound;
      r, n, cleanRound := ReadRound(f, src, c, word, buf, pos, off, bytes, done, chain);
      ChangedMore(old(buf[..]), before, buf[..], pos, done, n, bytes);
      clean := clean && cleanRound;
      if !r.Complete? {
        return;
      }
      if clean {
        HoldsMore(f, before, buf[..], pos, off, done, n);
      }
      done := done + n;
    }
    KeptEnd(f, src, word, off, bytes);
    r := Complete;
  }

  lemma KeptStart(f: File, src: Source, word: nat, off: nat, bytes: nat)
    ensures Kept(f, src, word, off, bytes, 0)
  {
    assert off + 0 == off;
  }

  lemma KeptEnd(f: File, src: Source, word: nat, off: nat, bytes: nat)
    requires Sized(f) && Kept(f, src, word, off, bytes, bytes)
    ensures src.Callback? && Full(f, src.get) ==> NoWrap(word, Rem(off, f.fsBytes), bytes, f.fsBytes)
  {
    hide NoWrap, Full, BlockSize;
    NothingLeft(word, Rem(off + bytes, f.fsBytes), f.fsBytes);
  }

  lemma NoneWanted(f: File, src: Source, word: Pos, off: nat, bytes: nat, done: nat)
    requires Sized(f) && Word(word) && done < bytes < TWO_32 && Kept(f, src, word, off, bytes, done)
    requires Wanted(word, Rem(off + done, f.fsBytes), bytes - done, f.fsBytes) == 0
    ensures !(NoWrap(word, Rem(off, f.fsBytes), bytes, f.fsBytes) && (src.Callback? ==> Moderate(f, src.get)))
  {
    hide NoWrap, Wanted, BlockSize, Moderate, Full;
    if NoWrap(word, Rem(off + done, f.fsBytes), bytes - done, f.fsBytes) {
      NonzeroWanted(word, Rem(off + done, f.fsBytes), bytes - done, f.fsBytes);
    }
  }

  lemma AnswerKinds(f: File, src: Source, block: nat, want: nat, r: BlockRange)
    requires Asked(f, block, want)
    requires match src case Callback(get) => get(block, want) == Some(r) case Fat(_) => ModerateAnswer(f, want, r)
    ensures src.Fat? || Moderate(f, src.get) ==> ModerateAnswer(f, want, r)
    ensures src.Callback? && Full(f, src.get) ==> r.blocks == want
  {
    hide ModerateAnswer, Asked;
  }

  /** After a first snug round that does not finish, every round starts at a disk block. */
  lemma SnugRound(f: File, c: Cache, off: nat, bytes: nat, done: nat, n: nat, r: BlockRange)
    requires Aligned(f) && Snug(f, off, bytes) && OnDisk(f, c) && done + n <= bytes && off + bytes <= f.size && n > 0
    requires 0 < done < bytes ==> Rem(off + done, f.diskBytes) == 0
    requires LawfulAnswer(f, Quot(off + done, f.fsBytes), r)
    requires n < bytes - done ==> Rem(off + done + n, f.fsBytes) == 0
    ensures CleanRound(f, c, off + done, n, r)
    ensures done + n < bytes ==> Rem(off + (done + n), f.diskBytes) == 0
  {
    hide Rem, Quot, LawfulAnswer, CleanRound;
    SnugIsClean(f, c, off + done, bytes - done, n, r);
    if done + n < bytes {
      assert off + done + n == off + (done + n);
      RemOfRem(off + (done + n), f.diskBytes, f.fsBytes);
      ZeroRem(f.diskBytes);
    }
  }

  // ----- The whole request -----

  function LargerBlock(f: File): Pos {
    if f.fsBytes < f.diskBytes then f.diskBytes else f.fsBytes
  }

  lemma LargerFacts(f: File)
    requires Sized(f)
    ensures BlockSize(LargerBlock(f)) && f.fsBytes <= LargerBlock(f) <= 65536 && f.diskBytes <= LargerBlock(f)
    ensures Rem(LargerBlock(f), f.diskBytes) == 0
  {
    hide BlockSize, Rem;
    BlockSizeFacts(LargerBlock(f));
    SmallerDivides(f.diskBytes, LargerBlock(f));
  }

  /** The caller can tell that every read stays inside its window: only the head can start inside a disk block. */
  ghost predicate Safe(f: File, offset: nat, bytes: nat)
    requires LargerBlock(f) <= 65536
  {
    Aligned(f) && Snug(f, offset, Parts(offset, bytes, LargerBlock(f))[0])
  }

  lemma SafeParts(f: File, offset: nat, bytes: nat, i: nat)
    requires Sized(f) && bytes < TWO_32 && i < 3 && LargerBlock(f) <= 65536 && Safe(f, offset, bytes)
    ensures var p := Parts(offset, bytes, LargerBlock(f));
            p[i] > 0 ==> Snug(f, offset + PartStart(p, i), p[i])
  {
    hide BlockSize, Rem, Aligned, Parts;
    var b := LargerBlock(f);
    var p := Parts(offset, bytes, b);
    PartsCover(offset, bytes, b);
    LargerFacts(f);
    if i > 0 && p[i] > 0 {
      RemAdd(offset + p[0], p[1], b);
      RemOfRem(offset + PartStart(p, i), f.diskBytes, b);
      ZeroRem(f.diskBytes);
    }
  }

  lemma PartFits(parts: seq<nat>, i: nat)
    requires i < |parts| == 3
    ensures PartStart(parts, i) + parts[i] == PartStart(parts, i + 1) <= PartStart(parts, 3)
  {
  }

  /** One of the three parts. */
  method ReadPart(f: File, src: Source, c: Cache, word: Pos, buf: array<nat>, offset: nat, bytes: nat, i: nat,
                  ghost chain: seq<nat>)
    returns (r: ReadOutcome, ghost clean: bool)
    requires Sized(f) && Word(word) && Describes(f, src, chain) && OnDisk(f, c) && buf != c.buf
    requires LargerBlock(f) <= 65536
    requires 0 < bytes < TWO_32 && offset + bytes <= f.size && bytes <= buf.Length && i < 3
    modifies src.Repr(), c`empty, c`base, c`failures, c.buf, c.scratch, buf
    ensures Describes(f, src, chain) && OnDisk(f, c) && c.cap == old(c.cap) && !r.Died?
    ensures src.Fat? ==> src.file.extra == old(src.file.extra) || fresh(src.file.extra)
    ensures var p := Parts(offset, bytes, LargerBlock(f));
            && PartStart(p, i) + p[i] == PartStart(p, i + 1) <= bytes
            && OnlyChanged(old(buf[..]), buf[..], PartStart(p, i), p[i])
            && (r.Complete? && clean ==> HoldsFile(f, buf[..], PartStart(p, i), offset + PartStart(p, i), p[i]))
            && (r.Complete? && src.Fat? && (p[i] > 0 || old(src.file.count) > 0) ==> src.file.count > 0)
    ensures Safe(f, offset, bytes) ==> clean
    ensures r.Failed? ==>
              !(c.reliable && Readable(f, c.cap)) || (MayFail(f, src, chain) && (src.Fat? ==> old(src.file.count) == 0))
    ensures r.Stuck? ==>
              !(Steady(word, offset, bytes, LargerBlock(f), f.fsBytes) && (src.Callback? ==> Moderate(f, src.get)))
    ensures i == 0 && Wanted(word, Rem(offset, f.fsBytes), bytes, f.fsBytes) == 0 ==>
              Steady(word, offset, bytes, LargerBlock(f), f.fsBytes) || r.Stuck?
    ensures i == 0 && r.Complete? && src.Callback? && Full(f, src.get) ==>
              Steady(word, offset, bytes, LargerBlock(f), f.fsBytes)
    ensures r.Complete? ==> Undisturbed(src)
  {
    hide File.ByteAt, OnlyChanged, HoldsFile, Parts, Readable, BlockSize, Times, Rem, Quot, Matches, Aligned, Snug,
         Describes, OnDisk, AlwaysAnswers, Moderate, Full, Steady, NoWrap, Wanted;
    LargerFacts(f);
    var parts := Parts(offset, bytes, LargerBlock(f));
    PartsCover(offset, bytes, LargerBlock(f));
    PartFits(parts, i);
    PartsSteady(word, offset, bytes, LargerBlock(f), f.fsBytes, i);
    var start := PartStart(parts, i);
    if parts[i] == 0 {
      StartsUnchanged(f, buf[..], start, offset + start, 0);
      return Complete, true;
    }
    if Safe(f, offset, bytes) {
      SafeParts(f, offset, bytes, i);
    }
    r, clean := DoBulkRead(f, src, c, word, buf, start, offset + start, parts[i], chain);
  }

  /**
   `bulk_read_file`: the head up to a block boundary, the whole blocks, then the tail. The outcome
   is `Died` when the bounds check refuses the request.
   */
  method BulkReadFile(f: File, src: Source, c: Cache, word: Pos, buf: array<nat>, offset: nat, bytes: nat,
                      ghost chain: seq<nat>)
    returns (r: ReadOutcome, ghost clean: bool)
    requires Sized(f) && Word(word) && Describes(f, src, chain) && OnDisk(f, c) && buf != c.buf
    requires bytes < TWO_32 && offset < TWO_64 && f.size < TWO_64 && bytes <= buf.Length
    modifies src.Repr(), c`empty, c`base, c`failures, c.buf, c.scratch, buf
    ensures LargerBlock(f) <= 65536 && Describes(f, src, chain) && OnDisk(f, c) && c.cap == old(c.cap)
    ensures src.Fat? ==> src.file.extra == old(src.file.extra) || fresh(src.file.extra)
    ensures r.Died? <==> bytes == 0 || offset + bytes > f.size
    ensures r.Complete? && clean ==> HoldsFile(f, buf[..], 0, offset, bytes)
    ensures Safe(f, offset, bytes) ==> clean
    ensures r.Failed? ==> !(c.reliable && Readable(f, c.cap)) || MayFail(f, src, chain)
    ensures r.Stuck? ==>
              !(Steady(word, offset, bytes, LargerBlock(f), f.fsBytes) && (src.Callback? ==> Moderate(f, src.get)))
    ensures !r.Died? && Wanted(word, Rem(offset, f.fsBytes), bytes, f.fsBytes) == 0 ==>
              Steady(word, offset, bytes, LargerBlock(f), f.fsBytes) || r.Stuck?
    ensures r.Complete? && src.Callback? && Full(f, src.get) ==> Steady(word, offset, bytes, LargerBlock(f), f.fsBytes)
    ensures r.Complete? ==> Undisturbed(src) && (src.Fat? ==> src.file.count > 0)
    ensures OnlyChanged(old(buf[..]), buf[..], 0, bytes)
  {
    hide File.ByteAt, OnlyChanged, HoldsFile, Parts, Readable, BlockSize, Times, Rem, Quot, Matches, Safe, Describes,
         OnDisk, AlwaysAnswers, Moderate, Full, Steady, Wanted;
    StartsUnchanged(f, buf[..], 0, offset, bytes);
    LargerFacts(f);
    clean := true;
    if bytes == 0 || (offset + bytes) % TWO_64 < offset || (offset + bytes) % TWO_64 > f.size {
      return Died, clean;
    }
    ghost var parts := Parts(offset, bytes, LargerBlock(f));
    PartsCover(offset, bytes, LargerBlock(f));
    var i := 0;
    while i < 3
      invariant 0 <= i <= 3
      invariant Describes(f, src, chain) && OnDisk(f, c) && c.cap == old(c.cap) && Undisturbed(src)
      invariant clean ==> HoldsFile(f, buf[..], 0, offset, PartStart(parts, i))
      invariant Safe(f, offset, bytes) ==> clean
      invariant i > 0 && src.Callback? && Full(f, src.get) ==> Steady(word, offset, bytes, LargerBlock(f), f.fsBytes)
      invariant i > 0 ==> Steady(word, offset, bytes, LargerBlock(f), f.fsBytes)
                          || Wanted(word, Rem(offset, f.fsBytes), bytes, f.fsBytes) > 0
      invariant src.Fat? && (PartStart(parts, i) > 0 || old(src.file.count) > 0) ==> src.file.count > 0
      invariant OnlyChanged(old(buf[..]), buf[..], 0, bytes)
    {
      ghost var before, start := buf[..], PartStart(parts, i);
      ghost var cleanPart;
      r, cleanPart := ReadPart(f, src, c, word, buf, offset, bytes, i, chain);
      ChangedMore(old(buf[..]), before, buf[..], 0, start, parts[i], bytes);
      clean := clean && cleanPart;
      if !r.Complete? {
        return;
      }
      if clean {
        HoldsMore(f, before, buf[..], 0, offset, start, parts[i]);
      }
      i := i + 1;
    }
    r := Complete;
  }

  // ----- An ISO9660 file -----

  /** A file in one extent is the disk from its first block on. */
  lemma IsoByte(f: File, firstBlock: nat, i: nat)
    requires IsIso(f, firstBlock)
    ensures f.ByteAt(i) == f.DiskByte(f.Base() + Times(firstBlock, f.fsBytes) + i)
  {
    var b := Quot(i, f.fsBytes);
    assert f.loc(b) == Some(Times(firstBlock + b, f.fsBytes));
    TimesAdds(firstBlock, b, f.fsBytes);
    DivModRebuild(i, f.fsBytes);
  }

  /**
   `iso9660_read_file`: the buffer holds the bytes of the extent. A read gets stuck or not by its size and block sizes
   alone, and never on a disk with blocks below 64 KiB.
   */
  method ReadIsoFile(f: File, firstBlock: nat, c: Cache, word: Pos, buf: array<nat>, offset: nat, bytes: nat)
    returns (r: ReadOutcome, ghost clean: bool)
    requires Sized(f) && Word(word) && IsIso(f, firstBlock) && OnDisk(f, c) && buf != c.buf
    requires bytes < TWO_32 && offset < TWO_64 && f.size < TWO_64 && bytes <= buf.Length
    modifies c`empty, c`base, c`failures, c.buf, c.scratch, buf
    ensures LargerBlock(f) <= 65536 && OnDisk(f, c)
    ensures r.Died? <==> bytes == 0 || offset + bytes > f.size
    ensures r.Complete? && clean ==>
              forall i: nat :: i < bytes ==>
                buf[i] == f.DiskByte(f.Base() + Times(firstBlock, f.fsBytes) + (offset + i))
    ensures Safe(f, offset, bytes) ==> clean
    ensures r.Failed? ==> !(c.reliable && Readable(f, c.cap))
    ensures r.Stuck? ==> !Steady(word, offset, bytes, LargerBlock(f), f.fsBytes)
    ensures r.Complete? ==> Steady(word, offset, bytes, LargerBlock(f), f.fsBytes)
    ensures f.fsBytes < 65536 && f.diskBytes < 65536 ==> !r.Stuck?
    ensures OnlyChanged(old(buf[..]), buf[..], 0, bytes)
  {
    hide File.ByteAt, OnlyChanged, Readable, BlockSize, Times, Rem, Quot, Matches, Safe, Lawful, AlwaysAnswers,
         Moderate, Full, Steady, Wanted, IsIso, OnDisk;
    IsoAnswersLawfully(f, firstBlock);
    r, clean := BulkReadFile(f, Callback(IsoRange(f, firstBlock)), c, word, buf, offset, bytes, []);
    if LargerBlock(f) < 65536 {
      SteadyBlocks(word, offset, bytes, LargerBlock(f), f.fsBytes);
    }
    if r.Complete? && clean {
      forall i: nat | i < bytes ensures buf[i] == f.DiskByte(f.Base() + Times(firstBlock, f.fsBytes) + (offset + i)) {
        IsoByte(f, firstBlock, offset + i);
        assert buf[..][i] == f.ByteAt(offset + (i - 0));
      }
    }
  }

  // ----- A FAT file from its chain to the buffer -----

  ghost function FatLoc(chain: seq<nat>, clusterBytes: Pos, dataPartOff: nat, b: nat): Option<nat>
    requires chain != []
  {
    var cluster := ClusterOf(chain, b);
    if cluster < 2 then None else Some(ClusterPartOff(cluster, clusterBytes, dataPartOff))
  }

  lemma FatLocIsFat(f: File, dataPartOff: nat, v: Volume, first: nat, chain: seq<nat>)
    requires v.Valid() && IsChain(v, first, chain) && first >= 2 && chain != []
    requires Rem(f.fsBytes, 2) == 0 && Rem(dataPartOff, 2) == 0
    requires forall b: nat :: f.loc(b) == FatLoc(chain, f.fsBytes, dataPartOff, b)
    ensures IsFat(f, chain, dataPartOff)
  {
    hide Onward, ClusterPartOff, Rem;
    forall b: nat ensures ClusterOf(chain, b) >= 2 {
      OnwardIsData(v, first, chain, b + 1, b);
    }
  }

  /** Clusters are whole disk blocks, counted from a disk block. */
  predicate ClustersAligned(clusterBytes: Pos, diskBytes: Pos, dataPartOff: nat) {
    Rem(clusterBytes, diskBytes) == 0 && Rem(dataPartOff, diskBytes) == 0
  }

  lemma FatIsAligned(f: File, chain: seq<nat>, dataPartOff: nat)
    requires IsFat(f, chain, dataPartOff) && ClustersAligned(f.fsBytes, f.diskBytes, dataPartOff)
    ensures Aligned(f)
  {
    hide Rem, ClusterOf, ClusterPartOff;
    forall b: nat | f.loc(b).Some? ensures Rem(f.loc(b).value, f.diskBytes) == 0 {
      ClusterAligned(ClusterOf(chain, b), f.fsBytes, f.diskBytes, dataPartOff);
    }
  }

  lemma ClusterAligned(cluster: nat, clusterBytes: Pos, diskBytes: Pos, dataPartOff: nat)
    requires cluster >= 2 && ClustersAligned(clusterBytes, diskBytes, dataPartOff)
    ensures Rem(ClusterPartOff(cluster, clusterBytes, dataPartOff), diskBytes) == 0
  {
    var n: nat, k := cluster - 2, clusterBytes / diskBytes;
    DivModRebuild(clusterBytes, diskBytes);
    MulAssoc(n, k, diskBytes);
    RemTimes(n * k, diskBytes);
    RemAdd(n * clusterBytes, dataPartOff, diskBytes);
  }

  /** Byte `i` of a read over this chain: the disk byte at its place in the cluster of its block. */
  ghost predicate ChainByte(disk: Bytes, chain: seq<nat>, clusterBytes: Pos, base: nat, dataPartOff: nat, i: nat,
                            value: nat)
    requires chain != []
  {
    var cluster := ClusterOf(chain, Quot(i, clusterBytes));
    && cluster >= 2
    && var at := base + dataPartOff + Times(cluster - 2, clusterBytes) + Rem(i, clusterBytes);
       value == if at < |disk| then disk[at] else 0
  }

  lemma ByteOfChain(f: File, chain: seq<nat>, dataPartOff: nat, i: nat)
    requires IsFat(f, chain, dataPartOff)
    ensures ChainByte(f.disk, chain, f.fsBytes, f.Base(), dataPartOff, i, f.ByteAt(i))
  {
    hide Rem, Quot, ClusterOf;
    assert f.loc(Quot(i, f.fsBytes)).Some?;
  }

  /** The cluster of a block is one of the chain exactly up to its end; behind the end clusters are counted on. */
  lemma ClusterOfChain(chain: seq<nat>, b: nat)
    requires chain != []
    ensures ClusterOf(chain, b) == if b < |chain| then chain[b] else chain[|chain| - 1] + (b - (|chain| - 1))
  {
    hide Onward;
    OnwardAt(chain, b + 1, b);
  }

  /** All blocks of a read lie in the chain if and only if the read ends within the bytes of the chain. */
  lemma InsideChainIff(chain: seq<nat>, clusterBytes: Pos, offset: nat, bytes: nat)
    requires bytes > 0
    ensures (forall i: nat :: offset <= i < offset + bytes ==> Quot(i, clusterBytes) < |chain|)
       <==> offset + bytes <= ChainBytes(|chain|, clusterBytes)
  {
    hide Quot;
    TimesIs(|chain|, clusterBytes);
    if offset + bytes <= ChainBytes(|chain|, clusterBytes) {
      forall i: nat | offset <= i < offset + bytes ensures Quot(i, clusterBytes) < |chain| {
        QuotientBelow(i, |chain|, clusterBytes);
      }
    } else {
      var last := offset + bytes - 1;
      QuotientAbove(last, |chain|, clusterBytes);
    }
  }

  lemma QuotientAbove(x: nat, n: nat, b: Pos)
    ensures x >= Times(n, b) ==> Quot(x, b) >= n
  {
    if x >= Times(n, b) { DivLower(x, b, n); }
  }

  /** Every cluster the file can reach is on the disk, with room for a window of `cap` disk blocks behind it. */
  ghost predicate ClustersReadable(disk: Bytes, chain: seq<nat>, clusterBytes: Pos, diskBytes: Pos, base: nat,
                                   dataPartOff: nat, size: nat, cap: nat)
    requires chain != []
  {
    forall b: nat :: Times(b, clusterBytes) < size && ClusterOf(chain, b) >= 2 ==>
      base + ClusterPartOff(ClusterOf(chain, b), clusterBytes, dataPartOff) + clusterBytes
      + diskBytes + Times(cap, diskBytes)
      <= |disk|
  }

  lemma ReadableClusters(f: File, chain: seq<nat>, dataPartOff: nat, cap: nat)
    requires IsFat(f, chain, dataPartOff)
    requires ClustersReadable(f.disk, chain, f.fsBytes, f.diskBytes, f.Base(), dataPartOff, f.size, cap)
    ensures Readable(f, cap)
  {
    hide Times, ClusterOf, ClusterPartOff, Rem, File.Base;
  }

  /**
   `fat_read_file`: a read through the range index, the bulk reader and the cache gives the bytes of the chain. The
   size that bounds it is corrected to the chain by the first read only, so that one read can go on behind the chain.
   */
  method ReadFatFile(file: FatFile, c: Cache, firstLba: nat, word: Pos, buf: array<nat>, offset: nat, bytes: nat,
                     ghost chain: seq<nat>)
    returns (r: ReadOutcome, ghost clean: bool)
    requires file.Valid() && file.first >= 2 && IsChain(file.reader.volume, file.first, chain) && file.size < TWO_32
    requires c.Valid() && c.cap > 0 && c.refs == 0 && c.disk == file.reader.volume.disk && buf != c.buf
    requires BlockSize(file.clusterBytes) && BlockSize(c.blockBytes)
    requires Rem(file.clusterBytes, 2) == 0 && Rem(file.dataPartOff, 2) == 0
    requires Word(word) && bytes < TWO_32 && offset < TWO_64 && bytes <= buf.Length
    modifies file, file.reader, file.inPlace, file.extra, c`empty, c`base, c`failures, c.buf, c.scratch, buf
    ensures file.Valid() && c.Valid() && chain != []
    ensures r.Died? <==> bytes == 0 || offset + bytes > old(file.size)
    ensures r.Complete? && clean ==>
              forall i: nat :: i < bytes ==>
                ChainByte(c.disk, chain, file.clusterBytes, Times(firstLba, c.blockBytes), file.dataPartOff, offset + i,
                          buf[i])
    ensures !r.Died? && (old(file.count) > 0 || old(file.size) <= ChainBytes(|chain|, file.clusterBytes)) ==>
              offset + bytes <= ChainBytes(|chain|, file.clusterBytes)
    ensures r.Complete? ==> file.count > 0 && file.size <= ChainBytes(|chain|, file.clusterBytes)
    ensures r.Failed? ==>
              || !c.reliable
              || !ClustersReadable(c.disk, chain, file.clusterBytes, c.blockBytes, Times(firstLba, c.blockBytes),
                                   file.dataPartOff, old(file.size), c.cap)
              || file.reader.failures != old(file.reader.failures) || file.refusals != old(file.refusals)
              || |chain| > old(file.size) / file.clusterBytes + 1025
    ensures var b := if file.clusterBytes < c.blockBytes then c.blockBytes else file.clusterBytes;
            && b <= 65536
            && (r.Stuck? <==> !r.Died? && !Steady(word, offset, bytes, b, file.clusterBytes))
            && (ClustersAligned(file.clusterBytes, c.blockBytes, file.dataPartOff)
                && (Rem(offset, c.blockBytes) == 0
                    || Rem(offset, c.blockBytes) + Parts(offset, bytes, b)[0] <= c.blockBytes)
                ==> clean)
    ensures word == TWO_64 || bytes <= TWO_32 - 131072 ==> !r.Stuck?
    ensures OnlyChanged(old(buf[..]), buf[..], 0, bytes)
  {
    hide File.ByteAt, OnlyChanged, Parts, Readable, BlockSize, Times, Rem, Quot, Matches, Aligned, IsFat, IsChain,
         Wanted, Indexes, Lawful, AlwaysAnswers, Moderate, Full, Steady, FatLoc, ChainByte, ClustersAligned, ChainBytes,
         ClustersReadable;
    ChainNotEmpty(file.reader.volume, file.first, chain);
    var f := File(c.disk, file.clusterBytes, c.blockBytes, firstLba, file.size,
                  (b: nat) => FatLoc(chain, file.clusterBytes, file.dataPartOff, b));
    FatLocIsFat(f, file.dataPartOff, file.reader.volume, file.first, chain);
    ghost var size := file.size;
    r, clean := BulkReadFile(f, Fat(file), c, word, buf, offset, bytes, chain);
    if ClustersAligned(file.clusterBytes, c.blockBytes, file.dataPartOff) {
      FatIsAligned(f, chain, file.dataPartOff);
    }
    if r.Complete? && clean {
      forall i: nat | i < bytes
        ensures ChainByte(c.disk, chain, file.clusterBytes, Times(firstLba, c.blockBytes), file.dataPartOff, offset + i,
                          buf[i])
      {
        ByteOfChain(f, chain, file.dataPartOff, offset + i);
        assert buf[..][i] == f.ByteAt(offset + (i - 0));
      }
    }
    if ClustersReadable(f.disk, chain, f.fsBytes, f.diskBytes, f.Base(), file.dataPartOff, f.size, c.cap) {
      ReadableClusters(f, chain, file.dataPartOff, c.cap);
    }
    SteadyEnds(f, word, offset, bytes);
  }

  /** Below 4 GiB a request is steady, or no blocks are wanted and sizes have 32 bits. */
  lemma SteadyEnds(f: File, word: Pos, offset: nat, bytes: nat)
    requires Sized(f) && Word(word) && bytes < TWO_32
    ensures offset + bytes < TWO_32 ==>
              || Steady(word, offset, bytes, LargerBlock(f), f.fsBytes)
              || (word == TWO_32 && bytes > TWO_32 - 131072
                  && Wanted(word, Rem(offset, f.fsBytes), bytes, f.fsBytes) == 0)
  {
    hide BlockSize, Rem, Wanted, Steady;
    LargerFacts(f);
    if offset + bytes < TWO_32 && !Steady(word, offset, bytes, LargerBlock(f), f.fsBytes) {
      UnsteadyWantsNone(word, offset, bytes, LargerBlock(f), f.fsBytes);
      if bytes <= TWO_32 - 131072 { SteadyBytes(word, offset, bytes, LargerBlock(f), f.fsBytes); }
    }
  }

  lemma ChainNotEmpty(v: Volume, first: nat, chain: seq<nat>)
    requires v.Valid() && IsChain(v, first, chain)
    ensures chain != []
  {
  }

  // ----- A file longer than its chain -----

  /** A FAT16 table whose entry 5 ends a chain, and clusters of 512 bytes filled with their number from byte 512 on. */
  function StaleByte(i: nat): nat {
    if i == 10 || i == 11 then 0xFF else if i < 512 then 0 else i / 512 + 1
  }

  function StaleVolume(): Volume {
    Volume(Fat16, seq(0x8000, i requires i >= 0 => StaleByte(i)), 512, 0, 1)
  }

  /** The chain of cluster 5 is [5], a declared size of two clusters lets the second one pass, and that is cluster 6. */
  lemma StaleSizeExample()
    ensures StaleVolume().Valid() && IsChain(StaleVolume(), 5, [5])
    ensures 512 + 512 <= 1024 && 512 + 512 > ChainBytes(1, 512)
    ensures Quot(512, 512) == 1 && ClusterOf([5], 1) == 6
  {
    var v := StaleVolume();
    assert v.Entry(5) == 0xFFFF;
    ClusterOfChain([5], 1);
  }

  lemma StaleByteAt(i: nat, value: nat)
    requires i < 512 && ChainByte(StaleVolume().disk, [5], 512, 0, 512, 512 + i, value)
    ensures value == 6
  {
    assert Quot(512 + i, 512) == 1 && Rem(512 + i, 512) == i;
    ClusterOfChain([5], 1);
    assert StaleByte(2560 + i) == 6;
  }

  lemma StaleSizes()
    ensures BlockSize(512) && Rem(512, 2) == 0 && Rem(512, 512) == 0 && ClustersAligned(512, 512, 512)
  {
    assert Pow2(4) == 16;
    Pow2Add(4, 4);
    assert Pow2(9) == 2 * Pow2(8);
  }

  /** The first read of that file, of its second 512 bytes: it is not refused, and what it delivers is cluster 6. */
  method StaleRead() returns (r: ReadOutcome, buf: array<nat>)
    ensures fresh(buf) && buf.Length == 512 && !r.Died? && !r.Stuck?
    ensures r.Complete? ==> forall i: nat :: i < 512 ==> buf[i] == 6
  {
    hide Steady, Parts, BlockSize, IsChain, ChainByte, ClustersAligned, Times, Rem, StaleVolume, ClustersReadable,
         ClusterOf;
    StaleSizeExample();
    StaleSizes();
    TimesIs(8, 512);
    TimesIs(0, 512);
    var v := StaleVolume();
    var reader := new TableReader(v);
    var file := new FatFile(reader, 5, 1024, 512, 512, 1, 1);
    var window := new nat[4096];
    var c := new Cache(window, null, v.disk, 512, 8, true);
    buf := new nat[512];
    ghost var clean;
    r, clean := ReadFatFile(file, c, 0, TWO_64, buf, 512, 512, [5]);
    if r.Complete? {
      forall i: nat | i < 512 ensures buf[i] == 6 {
        StaleByteAt(i, buf[i]);
      }
    }
  }
}
