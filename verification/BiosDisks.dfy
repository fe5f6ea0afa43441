/**
 The BIOS disk services: one cache over the scratch buffer, retargeted from disk to disk and
 evicted by network transfers. Models loader/arch/x86/bios/bios_disk_services.c,
 loader/arch/x86/bios/scratch_buffer.c and the transfer loop of
 loader/arch/x86/bios/bios_pxe_services.c.
 */
module BiosDisks {
  import opened Arith
  import opened Buffers
  import opened BlockCache

  const SCRATCH_SHIFT := 12
  const SCRATCH_BUFFER_SIZE := 4096
  const FIRST_DRIVE_INDEX := 0x80
  const TFTP_MAX_PACKET_SIZE := 1456

  /** A detected drive; larger or odd block sizes are skipped at detection. */
  datatype Disk = Disk(contents: Bytes, shift: nat) {
    predicate Usable() {
      shift <= SCRATCH_SHIFT
    }

    function BlockBytes(): Pos
      requires Usable()
    {
      Pow2(shift)
    }

    function Capacity(): (n: nat)
      requires Usable()
      ensures n > 0 && Times(n, BlockBytes()) == SCRATCH_BUFFER_SIZE
    {
      Pow2Add(SCRATCH_SHIFT - shift, shift);
      Pow2Twelve();
      Pow2(SCRATCH_SHIFT - shift)
    }
  }

  type Disks = map<nat, Disk>

  /** Drive numbers start at 0x80, so the initial 0 names no drive. */
  ghost predicate Detected(disks: Disks) {
    forall id <- disks :: id >= FIRST_DRIVE_INDEX && disks[id].Usable()
  }

  /** What a firmware read of the next packet gives; running out of replies is a failed read. */
  type Replies = seq<Option<Bytes>>

  /** The file a server sends: packets up to and with the first short one, if none of them fails. */
  function Sent(replies: Replies, packetSize: Pos): Option<Bytes> {
    if replies == [] || replies[0].None? then None
    else if |replies[0].value| < packetSize then replies[0]
    else
      match Sent(replies[1..], packetSize)
      case None => None
      case Some(rest) => Some(replies[0].value + rest)
  }

  ghost predicate PacketsFit(replies: Replies) {
    forall r <- replies :: r.Some? ==> |r.value| <= SCRATCH_BUFFER_SIZE
  }

  datatype Request =
    | Blocks(id: nat, block: nat, count: nat)
    | ByteRange(id: nat, offset: nat, count: nat)
    | Fetch(replies: Replies, packetSize: nat, size: nat)

  ghost predicate Lawful(disks: Disks, r: Request)
    requires Detected(disks)
  {
    match r
    case Blocks(id, _, _) => id in disks
    case ByteRange(id, _, count) => id in disks && count > 0
    case Fetch(replies, _, _) => PacketsFit(replies)
  }

  /** The bytes a request is for, on the disk or server it names. */
  ghost predicate Answers(disks: Disks, r: Request, data: Bytes)
    requires Detected(disks) && Lawful(disks, r)
  {
    match r
    case Blocks(id, block, count) =>
      var b := disks[id].BlockBytes();
      |data| == Times(count, b) && Copied(disks[id].contents, data, 0, Times(block, b), Times(count, b))
    case ByteRange(id, offset, count) =>
      |data| == count && ServedBySome(disks[id], data, 0, offset, count)
    case Fetch(replies, packetSize, size) =>
      0 < packetSize <= 1456 && |data| == size && Sent(replies, packetSize) == Some(data)
  }

  /** The bytes at `offset`, as some window of the disk's cache serves them. */
  ghost predicate ServedBySome(d: Disk, data: Bytes, pos: nat, offset: nat, count: nat)
    requires d.Usable()
  {
    exists room: nat :: 0 < room <= d.Capacity() && ServedBy(d, data, pos, offset, count, room)
  }

  ghost predicate ServedBy(d: Disk, data: Bytes, pos: nat, offset: nat, count: nat, room: nat)
    requires d.Usable()
  {
    Served(d.contents, data, pos, offset, count, Rem(offset, d.BlockBytes()), Times(room, d.BlockBytes()))
  }

  /** A range that is aligned or stays inside one block is right whatever window serves it. */
  lemma SnugIsRight(d: Disk, data: Bytes, pos: nat, offset: nat, count: nat)
    requires d.Usable() && ServedBySome(d, data, pos, offset, count)
    requires Rem(offset, d.BlockBytes()) == 0 || Rem(offset, d.BlockBytes()) + count <= d.BlockBytes()
    ensures Copied(d.contents, data, pos, offset, count)
  {
    hide Times, Rem, Copied;
    var room: nat :| 0 < room <= d.Capacity() && ServedBy(d, data, pos, offset, count, room);
    OneBlock(room, d.BlockBytes());
  }

  /** A file as a server sends it: full packets, then one that is not full and may be empty. */
  function Packets(file: Bytes, packetSize: Pos): Replies
    decreases |file|
  {
    if |file| < packetSize then [Some(file)]
    else [Some(file[..packetSize])] + Packets(file[packetSize..], packetSize)
  }

  /** What is received of a file that is sent is the file, whatever follows it, and of anything less nothing. */
  lemma {:induction false} SentFile(file: Bytes, packetSize: Pos, rest: Replies, n: nat)
    requires n <= |Packets(file, packetSize)|
    ensures Sent(Packets(file, packetSize) + rest, packetSize) == Some(file)
    ensures n < |Packets(file, packetSize)| ==> Sent(Packets(file, packetSize)[..n], packetSize) == None
    decreases |file|
  {
    var all := Packets(file, packetSize);
    if |file| < packetSize {
      assert n < |all| ==> all[..n] == [];
    } else {
      SentFile(file[packetSize..], packetSize, rest, if n == 0 then 0 else n - 1);
      assert (all + rest)[1..] == Packets(file[packetSize..], packetSize) + rest;
      assert file[..packetSize] + file[packetSize..] == file;
      if n > 0 {
        assert all[..n][1..] == Packets(file[packetSize..], packetSize)[..n - 1];
      } else {
        assert all[..n] == [];
      }
    }
  }

  /** The server does not send a file of the expected size. */
  ghost predicate NotSent(r: Request) {
    && r.Fetch?
    && !(0 < r.packetSize <= 1456 && Sent(r.replies, r.packetSize).Some?
         && |Sent(r.replies, r.packetSize).value| == r.size)
  }

  class DiskServices {
    const buf: array<nat>
    const scratch: Scratch
    const cache: Cache
    const disks: Disks
    var lastDisk: nat

    ghost predicate Valid()
      reads this, buf, scratch, cache
    {
      && Detected(disks) && buf.Length == SCRATCH_BUFFER_SIZE
      && cache.buf == buf && cache.scratch == scratch
      && cache.Valid() && cache.refs == 0 && !cache.directIo
      && (lastDisk == 0 ==> cache.empty)
      && (lastDisk != 0 ==> Targets(lastDisk))
    }

    /** The cache is set up for this disk. */
    ghost predicate Targets(id: nat)
      requires Detected(disks)
      reads cache
    {
      && id in disks && cache.disk == disks[id].contents
      && cache.blockBytes == disks[id].BlockBytes() && cache.cap == disks[id].Capacity()
    }

    /** `bios_disk_services_init`. */
    constructor (disks: Disks)
      requires Detected(disks)
      ensures Valid() && fresh(buf) && fresh(scratch) && fresh(cache) && this.disks == disks && cache.empty
    {
      hide Disk.Capacity;
      var b := new nat[SCRATCH_BUFFER_SIZE];
      var s := new Scratch();
      var c := new Cache(b, s, [], 1, 0, false);
      this.buf, this.scratch, this.cache, this.disks, this.lastDisk := b, s, c, disks, 0;
      new;
      Borrow(scratch, cache, cache);
    }

    /** A non-empty cache owns the scratch buffer, and the buffer holds the current disk's blocks at its base. */
    lemma Coherent()
      requires Valid() && !cache.empty
      ensures scratch.owner == cache && lastDisk in disks
      ensures Matches(disks[lastDisk].contents, buf[..], cache.base, disks[lastDisk].Capacity(),
                      disks[lastDisk].BlockBytes())
    {
      hide Matches;
    }

    /** `set_cache_to_disk`. */
    method SetCacheToDisk(id: nat)
      requires Valid() && id in disks
      modifies this`lastDisk, cache
      ensures Valid() && lastDisk == id && Targets(id) && cache.failures == old(cache.failures)
      ensures old(lastDisk) != id ==> cache.empty
      ensures old(lastDisk) == id ==> unchanged(cache)
    {
      hide Matches;
      if lastDisk == id {
        return;
      }
      lastDisk := id;
      cache.disk, cache.blockBytes, cache.cap := disks[id].contents, disks[id].BlockBytes(), disks[id].Capacity();
      cache.empty := true;
    }

    /** The blocks left in the window that will serve a request at this block. */
    ghost function RoomFor(id: nat, block: nat): (room: nat)
      requires Detected(disks) && id in disks
      reads this, cache
    {
      if lastDisk == id then cache.Room(block) else disks[id].Capacity()
    }

    /** `ds_read_blocks`. */
    method ReadBlocks(id: nat, out: array<nat>, pos: nat, sector: nat, count: nat) returns (ok: bool)
      requires Valid() && id in disks && out != buf
      requires pos + Times(count, disks[id].BlockBytes()) <= out.Length
      modifies this`lastDisk, cache, buf, scratch, out
      ensures Valid()
      ensures cache.failures >= old(cache.failures) && (!ok ==> cache.failures > old(cache.failures))
      ensures ok ==> Copied(disks[id].contents, out[..], pos, Times(sector, disks[id].BlockBytes()),
                            Times(count, disks[id].BlockBytes()))
      ensures OnlyChanged(old(out[..]), out[..], pos, Times(count, disks[id].BlockBytes()))
    {
      hide Times, Matches, Copied, OnlyChanged;
      SetCacheToDisk(id);
      var r := cache.ReadBlocks(out, pos, sector, count);
      ok := r.Done?;
    }

    /** `ds_read`. */
    method ReadBytes(id: nat, out: array<nat>, pos: nat, offset: nat, count: nat) returns (ok: bool)
      requires Valid() && id in disks && out != buf && count > 0 && pos + count <= out.Length
      modifies this`lastDisk, cache, buf, scratch, out
      ensures Valid()
      ensures cache.failures >= old(cache.failures) && (!ok ==> cache.failures > old(cache.failures))
      ensures ok ==>
                ServedBy(disks[id], out[..], pos, offset, count, old(RoomFor(id, Quot(offset, disks[id].BlockBytes()))))
      ensures ok ==> ServedBySome(disks[id], out[..], pos, offset, count)
      ensures OnlyChanged(old(out[..]), out[..], pos, count)
    {
      hide Times, Matches, Served, OnlyChanged;
      SetCacheToDisk(id);
      var r := cache.ReadBytes(out, pos, offset, count);
      ok := r.Done?;
    }

    /** `pxe_read_file` after the connection is open: each packet goes through the scratch buffer. */
    method ReadFile(replies: Replies, packetSize: nat, size: nat, out: array<nat>, pos: nat) returns (ok: bool)
      requires Valid() && PacketsFit(replies) && out != buf && pos + size <= out.Length
      modifies cache`empty, buf, scratch, out
      ensures Valid()
      ensures ok <==> 0 < packetSize <= 1456
                      && Sent(replies, packetSize).Some? && |Sent(replies, packetSize).value| == size
      ensures ok ==> Copied(Sent(replies, packetSize).value, out[..], pos, 0, size)
      ensures OnlyChanged(old(out[..]), out[..], pos, size)
    {
      hide Matches, Disk.Capacity, Received, Sent, OnlyChanged, Times;
      NoneChanged(out[..], pos, size);
      if packetSize == 0 || packetSize > TFTP_MAX_PACKET_SIZE {
        return false;
      }
      Borrow(scratch, null, cache);
      ghost var file := Sent(replies, packetSize);
      var total := 0;
      var i := 0;
      assert replies[0..] == replies;
      StartReceiving(file, out[pos..pos + total]);
      while true
        invariant Valid() && cache.empty && scratch.owner == null
        invariant 0 <= i <= |replies| && 0 <= total <= size
        invariant Received(file, Sent(replies[i..], packetSize), out[pos..pos + total])
        invariant OnlyChanged(old(out[..]), out[..], pos, size)
        decreases |replies| - i
      {
        if i == |replies| || replies[i].None? {
          NoMore(file, replies[i..], packetSize, out[pos..pos + total]);
          return false;
        }
        var packet := replies[i].value;
        assert replies[i] in replies;
        assert replies[i..][1..] == replies[i + 1..];
        TakePacket(packet);
        if total + |packet| > size {
          TooLong(file, replies[i..], packetSize, out[pos..pos + total]);
          return false;
        }
        ghost var before := out[..];
        CopyPacket(out, pos + total, packet);
        NextPacket(file, replies[i..], packetSize, before, out[..], pos, total);
        ChangedMore(old(out[..]), before, out[..], pos, total, |packet|, size);
        total := total + |packet|;
        if |packet| < packetSize {
          FileReceived(file, out[..], pos, total);
          return total == size;
        }
        i := i + 1;
      }
    }

    /** The firmware puts a packet at the start of the scratch buffer. */
    method TakePacket(packet: Bytes)
      requires Valid() && cache.empty && |packet| <= SCRATCH_BUFFER_SIZE
      modifies buf
      ensures Valid() && buf[..|packet|] == packet
    {
      forall k | 0 <= k < |packet| {
        buf[k] := packet[k];
      }
    }

    method CopyPacket(out: array<nat>, pos: nat, packet: Bytes)
      requires out != buf && |packet| <= buf.Length && buf[..|packet|] == packet && pos + |packet| <= out.Length
      modifies out
      ensures out[pos..pos + |packet|] == packet
      ensures OnlyChanged(old(out[..]), out[..], pos, |packet|)
    {
      ghost var held := buf[..|packet|];
      forall k | pos <= k < pos + |packet| {
        out[k] := buf[k - pos];
      }
      assert forall k: nat :: k < |packet| ==> out[pos..pos + |packet|][k] == held[k];
    }

    /**
     Any interleaving of block reads, byte reads and transfers, over any disks: what a request that
     succeeds returns is what the disk or server it names holds, and without a failed disk read
     every disk request succeeds.
     */
    method Run(requests: seq<Request>) returns (results: seq<Option<Bytes>>)
      requires Valid() && forall r <- requests :: Lawful(disks, r)
      modifies this`lastDisk, cache, buf, scratch
      ensures Valid() && |results| == |requests|
      ensures forall i: nat :: i < |requests| && results[i].Some? ==> Answers(disks, requests[i], results[i].value)
      ensures cache.failures == old(cache.failures) ==> forall i: nat :: i < |requests| && results[i].None? ==>
                NotSent(requests[i])
    {
      hide Times, Matches, Copied, Answers, Lawful, NotSent;
      results := [];
      for i := 0 to |requests|
        invariant Valid() && |results| == i
        invariant forall k: nat :: k < i && results[k].Some? ==> Answers(disks, requests[k], results[k].value)
        invariant cache.failures >= old(cache.failures)
        invariant cache.failures == old(cache.failures) ==> forall k: nat :: k < i && results[k].None? ==>
                  NotSent(requests[k])
      {
        var answer := Serve(requests[i]);
        results := results + [answer];
      }
    }

    /** One request into a new buffer. */
    method Serve(r: Request) returns (answer: Option<Bytes>)
      requires Valid() && Lawful(disks, r)
      modifies this`lastDisk, cache, buf, scratch
      ensures Valid() && (answer.Some? ==> Answers(disks, r, answer.value))
      ensures cache.failures >= old(cache.failures)
      ensures answer.None? ==> cache.failures > old(cache.failures) || NotSent(r)
    {
      hide Times, Matches, OnlyChanged;
      var out: array<nat>;
      var ok: bool;
      match r {
        case Blocks(id, block, count) =>
          out := new nat[Times(count, disks[id].BlockBytes())];
          ok := ReadBlocks(id, out, 0, block, count);
        case ByteRange(id, offset, count) =>
          out := new nat[count];
          ok := ReadBytes(id, out, 0, offset, count);
        case Fetch(replies, packetSize, size) =>
          out := new nat[size];
          ok := ReadFile(replies, packetSize, size, out, 0);
          if ok {
            WholeCopy(Sent(replies, packetSize).value, out[..]);
          }
      }
      answer := if ok then Some(out[..]) else None;
    }
  }

  lemma WholeCopy(file: Bytes, out: Bytes)
    requires |out| == |file| && Copied(file, out, 0, 0, |file|)
    ensures out == file
  {
    assert out == out[0..0 + |file|] && file == file[0..0 + |file|];
  }

  /** The file is what was received followed by what is still to come. */
  ghost predicate Received(file: Option<Bytes>, rest: Option<Bytes>, got: Bytes) {
    file == match rest
    case None => None
    case Some(t) => Some(got + t)
  }

  lemma StartReceiving(file: Option<Bytes>, got: Bytes)
    requires got == []
    ensures Received(file, file, got)
  {
    if file.Some? {
      assert got + file.value == file.value;
    }
  }

  lemma NoMore(file: Option<Bytes>, replies: Replies, packetSize: Pos, got: Bytes)
    requires Received(file, Sent(replies, packetSize), got) && (replies == [] || replies[0].None?)
    ensures file.None?
  {
  }

  lemma TooLong(file: Option<Bytes>, replies: Replies, packetSize: Pos, got: Bytes)
    requires Received(file, Sent(replies, packetSize), got) && replies != [] && replies[0].Some?
    ensures file.Some? ==> |file.value| >= |got| + |replies[0].value|
  {
  }

  lemma FileReceived(file: Option<Bytes>, out: Bytes, pos: nat, total: nat)
    requires pos + total <= |out| && file == Some(out[pos..pos + total])
    ensures Copied(file.value, out, pos, 0, total)
  {
    assert file.value[0..0 + total] == file.value;
  }

  lemma NextPacket(file: Option<Bytes>, replies: Replies, packetSize: Pos, before: Bytes, out: Bytes, pos: nat,
                   total: nat)
    requires replies != [] && replies[0].Some?
    requires pos + total + |replies[0].value| <= |out| == |before|
    requires Received(file, Sent(replies, packetSize), before[pos..pos + total])
    requires OnlyChanged(before, out, pos + total, |replies[0].value|)
    requires out[pos + total..pos + total + |replies[0].value|] == replies[0].value
    ensures var got := out[pos..pos + (total + |replies[0].value|)];
            if |replies[0].value| < packetSize then file == Some(got)
            else Received(file, Sent(replies[1..], packetSize), got)
  {
    var p := replies[0].value;
    var got := out[pos..pos + (total + |p|)];
    assert out[pos..pos + total] == out[..pos + total][pos..];
    assert out[..pos + total][pos..] == before[..pos + total][pos..] == before[pos..pos + total];
    assert got == before[pos..pos + total] + p;
    if |p| >= packetSize && Sent(replies[1..], packetSize).Some? {
      var t := Sent(replies[1..], packetSize).value;
      assert before[pos..pos + total] + (p + t) == got + t;
    }
  }
}
