/**
 The window cache of loader/filesystem/block_cache.c, and the scratch buffer of
 loader/arch/x86/bios/scratch_buffer.c that a cache can keep its window in.
 */
module BlockCache {
  import opened Arith
  import opened Buffers

  /** How a request ends; `Bug` is a refused refill while references are out. */
  datatype Result = Done | Failed | Bug

  /** The owner recorded for the scratch buffer: a cache that wants to be told, or nobody. */
  class Scratch {
    var owner: Cache?

    constructor ()
      ensures owner == null
    {
      owner := null;
    }
  }

  /** The window lies inside the disk and the buffer matches it. */
  ghost predicate Matches(disk: Bytes, buf: Bytes, base: nat, cap: nat, blockBytes: nat) {
    && Times(cap, blockBytes) <= |buf|
    && Times(base, blockBytes) + Times(cap, blockBytes) <= |disk|
    && buf[..Times(cap, blockBytes)] == disk[Times(base, blockBytes)..Times(base, blockBytes) + Times(cap, blockBytes)]
  }

  class Cache {
    const buf: array<nat>
    /** The scratch buffer `buf` belongs to, if it is shared. */
    const scratch: Scratch?
    /** The contents of the disk the refill callback reads. */
    var disk: Bytes
    var blockBytes: Pos
    var cap: nat
    var base: nat
    var empty: bool
    var directIo: bool
    var refs: nat
    /** Refill reads of a reliable disk fail only past its end. */
    const reliable: bool
    /** Refill reads that failed so far. */
    ghost var failures: nat

    ghost predicate Valid()
      reads this, buf, scratch
    {
      && Times(cap, blockBytes) <= buf.Length
      && (!empty ==> Matches(disk, buf[..], base, cap, blockBytes))
      && (scratch != null ==> scratch.owner == this || (scratch.owner == null && empty))
    }

    /** `block_cache_init`. */
    constructor (buf: array<nat>, scratch: Scratch?, disk: Bytes, blockBytes: Pos, cap: nat, reliable: bool)
      requires Times(cap, blockBytes) <= buf.Length && (scratch != null ==> scratch.owner == null)
      ensures Valid() && this.buf == buf && this.scratch == scratch && this.disk == disk
      ensures this.blockBytes == blockBytes && this.cap == cap && this.reliable == reliable
      ensures empty && !directIo && refs == 0
    {
      this.reliable := reliable;
      this.buf, this.scratch, this.disk, this.blockBytes, this.cap := buf, scratch, disk, blockBytes, cap;
      base, empty, directIo, refs, failures := 0, true, false, 0, 0;
    }

    /** `cached_span_from_block`: the block lies in the window. */
    predicate Holds(block: nat)
      reads this
    {
      !empty && base <= block < base + cap
    }

    /** The window cannot move under a reference. */
    twostate predicate Kept()
      reads this, buf
    {
      && buf[..] == old(buf[..]) && base == old(base) && empty == old(empty)
    }

    twostate predicate SameSetup()
      reads this
    {
      disk == old(disk) && blockBytes == old(blockBytes) && cap == old(cap) && directIo == old(directIo)
    }

    /** The refill callback: borrows a shared buffer, then reads `cap` blocks into it or fails with garbage there. */
    method Fill(block: nat) returns (ok: bool)
      requires Valid()
      modifies this`empty, this`failures, buf, scratch
      ensures scratch != null ==> scratch.owner == this
      ensures failures == old(failures) + if ok then 0 else 1
      ensures ok ==> Matches(disk, buf[..], block, cap, blockBytes)
      ensures !ok && reliable ==> PastEnd(block)
    {
      hide Times;
      if scratch != null {
        Borrow(scratch, this, this);
      }
      ok := *;
      if !(ok || reliable) || Times(block, blockBytes) + Times(cap, blockBytes) > |disk| {
        failures := failures + 1;
        var garbage: Bytes := *;
        forall i | 0 <= i < buf.Length && i < |garbage| {
          buf[i] := garbage[i];
        }
        return false;
      }
      forall i | 0 <= i < Times(cap, blockBytes) {
        buf[i] := disk[Times(block, blockBytes) + i];
      }
      ok := true;
    }

    /** A window at this block reaches past the end of the disk. */
    predicate PastEnd(block: nat)
      reads this
    {
      Times(block, blockBytes) + Times(cap, blockBytes) > |disk|
    }

    /** `block_cache_refill`. */
    method Refill(block: nat) returns (r: Result)
      requires Valid()
      modifies this`empty, this`base, this`failures, buf, scratch
      ensures Valid() && SameSetup()
      ensures r.Done? ==> !empty && base == block
      ensures r.Failed? ==> empty
      ensures old(refs) > 0 ==> Kept() && !r.Failed?
      ensures r.Bug? ==> old(refs) > 0
      ensures failures >= old(failures) && (r.Failed? ==> failures > old(failures))
      ensures r.Failed? && reliable ==> PastEnd(block)
    {
      if base == block && !empty {
        return Done;
      }
      if refs != 0 {
        return Bug;
      }
      var ok := Fill(block);
      if !ok {
        empty := true;
        return Failed;
      }
      empty := false;
      base := block;
      r := Done;
    }

    /** Blocks of the window from `block` on, or of the window a refill there would give. */
    function Room(block: nat): nat
      reads this
    {
      if Holds(block) then base + cap - block else cap
    }

    /** The copy of a completed piece out of the window; what lies behind the window is not known. */
    method CopyOut(out: array<nat>, pos: nat, block: nat, inBlock: nat, m: nat)
      requires Valid() && Holds(block) && out != buf && inBlock < blockBytes && pos + m <= out.Length
      modifies out
      ensures Valid()
      ensures inBlock <= Times(base + cap - block, blockBytes)
      ensures Copied(disk, out[..], pos, Times(block, blockBytes) + inBlock,
                     Min(m, Times(base + cap - block, blockBytes) - inBlock))
      ensures OnlyChanged(old(out[..]), out[..], pos, m)
    {
      hide Times;
      var from := Times(block - base, blockBytes) + inBlock;
      WindowSplit(base, block, cap, blockBytes);
      OneBlock(base + cap - block, blockBytes);
      var known := Min(m, Times(base + cap - block, blockBytes) - inBlock);
      ghost var window := buf[..];
      var behind: Bytes := *;
      forall i | pos <= i < pos + m {
        out[i] := if i - pos < known then buf[from + (i - pos)] else if i < |behind| then behind[i] else 0;
      }
      assert buf[..] == window;
      assert out[pos..pos + known] == window[from..from + known];
      WindowBytes(disk, window, base, cap, blockBytes, from, known);
    }

    /**
     `req_exec`: completes from the window and refills until the request is full. A request that starts inside
     a block and does not fit the window it is served from is misread.
     */
    method Exec(out: array<nat>, pos: nat, block0: nat, inBlock0: nat, blocks0: nat, bytes: nat) returns (r: Result)
      requires Valid() && cap > 0 && out != buf && pos + bytes <= out.Length
      requires inBlock0 < blockBytes && inBlock0 + bytes <= Times(blocks0, blockBytes)
      modifies this`empty, this`base, this`failures, buf, scratch, out
      ensures Valid() && SameSetup()
      ensures r.Done? ==>
                Served(disk, out[..], pos, Times(block0, blockBytes) + inBlock0, bytes, inBlock0,
                       Times(old(Room(block0)), blockBytes))
      ensures OnlyChanged(old(out[..]), out[..], pos, bytes)
      ensures old(refs) > 0 ==> Kept()
      ensures r.Bug? ==> old(refs) > 0
      ensures failures >= old(failures) && (r.Failed? ==> failures > old(failures))
      ensures r.Failed? && reliable ==> PastEnd(block0 + blocks0)
    {
      hide Times, OnlyChanged, Matches, Served, FitsWindow, OnWay;
      var block: nat, inBlock: nat, blocks: nat, done: nat := block0, inBlock0, blocks0, 0;
      ghost var room: nat, at: nat, started := Room(block0), Times(block0, blockBytes) + inBlock0, false;
      ghost var span: nat := Times(room, blockBytes);
      ghost var late: nat := if FitsWindow(inBlock0, bytes, room, blockBytes) then 0 else inBlock0;
      NoneChanged(out[..], pos, bytes);
      while true
        invariant Valid() && SameSetup() && (refs > 0 ==> Kept()) && failures >= old(failures)
        invariant block + blocks == block0 + blocks0 && done <= bytes
        invariant inBlock + (bytes - done) <= Times(blocks, blockBytes)
        invariant if started
                  then Holds(block) && inBlock == 0
                       && OnWay(disk, out[..], pos, at, done, late, span, block, blockBytes)
                  else done == 0 && block == block0 && inBlock == inBlock0 && Room(block) == room
        invariant OnlyChanged(old(out[..]), out[..], pos, bytes)
        decreases blocks, if Holds(block) then 0 else 1
      {
        if Holds(block) {
          ghost var before := out[..];
          var n, m := FromWindow(out, pos, bytes, block, inBlock, blocks, done, at, late, span, started);
          ChangedMore(old(out[..]), before, out[..], pos, done, m, bytes);
          started := true;
          block, blocks, inBlock, done := block + n, blocks - n, 0, done + m;
          if done == bytes {
            ServedAll(disk, out[..], pos, at, bytes, inBlock0, room, blockBytes);
            return Done;
          }
        }
        PastEndMonotone(block, block0 + blocks0);
        r := Refill(block);
        if !r.Done? {
          return;
        }
      }
    }

    /** `block_cache_try_complete_req` at a block the window holds. */
    method FromWindow(out: array<nat>, pos: nat, bytes: nat, block: nat, inBlock: nat, blocks: nat, done: nat,
                      ghost at: nat, ghost late: nat, ghost span: nat, ghost started: bool) returns (n: nat, m: nat)
      requires Valid() && Holds(block) && out != buf && pos + bytes <= out.Length && inBlock < blockBytes
      requires done <= bytes && inBlock + (bytes - done) <= Times(blocks, blockBytes)
      requires if started then inBlock == 0 && OnWay(disk, out[..], pos, at, done, late, span, block, blockBytes)
               else
                 && done == 0 && at == Times(block, blockBytes) + inBlock
                 && span == Times(base + cap - block, blockBytes)
                 && late == if FitsWindow(inBlock, bytes, base + cap - block, blockBytes) then 0 else inBlock
      modifies out
      ensures Valid() && n <= blocks && done + m <= bytes
      ensures OnlyChanged(old(out[..]), out[..], pos + done, m)
      ensures Served(disk, out[..], pos, at, done + m, late, span)
      ensures done + m < bytes ==>
                && 0 < n && bytes - (done + m) <= Times(blocks - n, blockBytes)
                && OnWay(disk, out[..], pos, at, done + m, late, span, block + n, blockBytes)
    {
      hide Times, Copied, OnlyChanged, Matches, Served, FitsWindow;
      n, m := Completed(block, inBlock, blocks, bytes - done);
      ghost var before := out[..];
      CopyOut(out, pos + done, block, inBlock, m);
      AlignedFits(bytes - done, base + cap - block, blockBytes);
      if started {
        ServedMore(disk, before, out[..], pos, at, done, m, late, span);
      } else {
        ServedFirst(disk, out[..], pos, at, bytes, m, inBlock, base + cap - block, blockBytes);
      }
    }

    lemma PastEndMonotone(block: nat, last: nat)
      requires block <= last
      ensures PastEnd(block) ==> PastEnd(last)
    {
      MulMonotone(block, last, blockBytes);
    }

    /**
     How much of a request the window completes: blocks consumed and bytes copied. The in-block offset is not
     taken off the bytes of the window.
     */
    method Completed(block: nat, inBlock: nat, blocks: nat, bytes: nat) returns (n: nat, m: nat)
      requires Valid() && Holds(block)
      requires inBlock + bytes <= Times(blocks, blockBytes)
      ensures n <= blocks && m <= bytes
      ensures n == Min(blocks, base + cap - block) && m == Min(Times(n, blockBytes), bytes)
      ensures FitsWindow(inBlock, bytes, base + cap - block, blockBytes) ==>
                inBlock + m <= Times(base + cap - block, blockBytes) && (m < bytes ==> inBlock == 0)
      ensures !FitsWindow(inBlock, bytes, base + cap - block, blockBytes) ==>
                n == base + cap - block && m == Min(Times(base + cap - block, blockBytes), bytes)
      ensures m < bytes ==> 0 < n && m == Times(n, blockBytes)
                            && bytes - m <= Times(blocks - n, blockBytes)
                            && Times(block + n, blockBytes) == Times(block, blockBytes) + m
    {
      n := Min(blocks, base + cap - block);
      m := Min(Times(n, blockBytes), bytes);
      CompletionFacts(blockBytes, base + cap - block, block, inBlock, blocks, bytes);
    }

    /** `block_cache_read_blocks`: whole blocks, past the cache for a request larger than it when direct I/O works. */
    method ReadBlocks(out: array<nat>, pos: nat, block: nat, count: nat) returns (r: Result)
      requires Valid() && cap > 0 && out != buf && pos + Times(count, blockBytes) <= out.Length
      modifies this`empty, this`base, this`failures, buf, scratch, out
      ensures Valid() && SameSetup()
      ensures r.Done? ==> Copied(disk, out[..], pos, Times(block, blockBytes), Times(count, blockBytes))
      ensures OnlyChanged(old(out[..]), out[..], pos, Times(count, blockBytes))
      ensures old(refs) > 0 ==> Kept()
      ensures r.Bug? ==> old(refs) > 0
      ensures failures >= old(failures) && (r.Failed? ==> failures > old(failures))
      ensures r.Failed? && reliable ==> PastEnd(block + count)
    {
      hide Times, Matches;
      if count > cap && directIo {
        var ok := ReadDirect(out, pos, block, count);
        if ok {
          return Done;
        }
      }
      r := Exec(out, pos, block, 0, count, Times(count, blockBytes));
    }

    /** The refill callback on the caller's buffer; a failed read may leave anything there. */
    method ReadDirect(out: array<nat>, pos: nat, block: nat, count: nat) returns (ok: bool)
      requires out != buf && pos + Times(count, blockBytes) <= out.Length
      modifies out
      ensures ok ==> Copied(disk, out[..], pos, Times(block, blockBytes), Times(count, blockBytes))
      ensures OnlyChanged(old(out[..]), out[..], pos, Times(count, blockBytes))
    {
      hide Times;
      var n, at := Times(count, blockBytes), Times(block, blockBytes);
      ok := *;
      ok := ok && at + n <= |disk|;
      var garbage: Bytes := *;
      forall i | pos <= i < pos + n {
        out[i] := if ok then disk[at + (i - pos)] else if i < |garbage| then garbage[i] else 0;
      }
    }

    /** `block_cache_read`: any byte range; see `Served` for one that starts inside a block and leaves its window. */
    method ReadBytes(out: array<nat>, pos: nat, byteOff: nat, count: nat) returns (r: Result)
      requires Valid() && cap > 0 && out != buf && count > 0 && pos + count <= out.Length
      modifies this`empty, this`base, this`failures, buf, scratch, out
      ensures Valid() && SameSetup()
      ensures r.Done? ==>
                Served(disk, out[..], pos, byteOff, count, Rem(byteOff, blockBytes),
                       Times(old(Room(Quot(byteOff, blockBytes))), blockBytes))
      ensures OnlyChanged(old(out[..]), out[..], pos, count)
      ensures old(refs) > 0 ==> Kept()
      ensures r.Bug? ==> old(refs) > 0
      ensures failures >= old(failures) && (r.Failed? ==> failures > old(failures))
      ensures r.Failed? && reliable ==> PastEnd(Quot(byteOff, blockBytes) + BlockCount(byteOff, count, blockBytes))
    {
      hide Times, Matches, Copied;
      CoordFacts(byteOff, count, blockBytes);
      r := Exec(out, pos, Quot(byteOff, blockBytes), Rem(byteOff, blockBytes), BlockCount(byteOff, count, blockBytes),
                count);
    }

    /** `block_cache_take_ref`: where in the window the range is; the window stays put until it is released. */
    method TakeRef(byteOff: nat, count: nat) returns (r: Result, at: nat)
      requires Valid() && count > 0 && BlockCount(byteOff, count, blockBytes) <= cap
      modifies this`empty, this`base, this`failures, this`refs, buf, scratch
      ensures Valid() && SameSetup()
      ensures r.Done? ==> refs == old(refs) + 1 && Refers(disk, buf[..], at, byteOff, count)
      ensures !r.Done? ==> refs == old(refs)
      ensures r.Bug? ==> old(refs) > 0
      ensures failures >= old(failures) && (r.Failed? ==> failures > old(failures))
      ensures old(refs) > 0 ==> Kept()
    {
      hide Times, Matches, Rem, Quot;
      var block, n := Quot(byteOff, blockBytes), BlockCount(byteOff, count, blockBytes);
      CoordFacts(byteOff, count, blockBytes);
      at := 0;
      if !(Holds(block) && n <= base + cap - block) {
        r := Refill(block);
        if !r.Done? {
          return;
        }
      }
      RefFacts(disk, buf[..], base, cap, blockBytes, byteOff, count);
      at := Times(block - base, blockBytes) + Rem(byteOff, blockBytes);
      refs := refs + 1;
      r := Done;
    }

    /** `block_cache_release_ref`. */
    method ReleaseRef()
      requires Valid() && refs > 0
      modifies this`refs
      ensures Valid() && refs == old(refs) - 1
    {
      refs := refs - 1;
    }

    /** A borrowed pointer matches the disk through any reads, of any blocks, made while it is held. */
    method ReadUnderRef(byteOff: nat, count: nat, out: array<nat>, requests: seq<(nat, nat)>)
      returns (r: Result, at: nat)
      requires Valid() && cap > 0 && count > 0 && BlockCount(byteOff, count, blockBytes) <= cap
      requires out != buf && forall i: nat :: i < |requests| ==> Times(requests[i].1, blockBytes) <= out.Length
      modifies this`empty, this`base, this`failures, this`refs, buf, scratch, out
      ensures Valid()
      ensures !r.Failed? ==> refs == old(refs) + 1 && Refers(disk, buf[..], at, byteOff, count)
    {
      hide Times, Matches, Rem, Quot, Refers, Copied, OnlyChanged;
      r, at := TakeRef(byteOff, count);
      if !r.Done? {
        return Failed, at;
      }
      var i := 0;
      while i < |requests|
        invariant Valid() && SameSetup() && refs == old(refs) + 1 && !r.Failed?
        invariant Refers(disk, buf[..], at, byteOff, count)
      {
        var q := ReadBlocks(out, 0, requests[i].0, requests[i].1);
        if q.Bug? {
          return Bug, at;
        }
        i := i + 1;
      }
    }
  }

  /** `replace_owner`: a new owner evicts the old one and empties its window. `user` is the one cache that borrows. */
  method Borrow(s: Scratch, c: Cache?, user: Cache)
    requires s.owner == null || s.owner == user
    modifies s, user`empty
    ensures s.owner == c
    ensures user.empty == (old(user.empty) || (old(s.owner) == user && c != user))
  {
    if s.owner == c {
      return;
    }
    if s.owner != null {
      s.owner.empty := true;
    }
    s.owner := c;
  }

  lemma WindowSplit(base: nat, block: nat, cap: nat, blockBytes: Pos)
    requires base <= block < base + cap
    ensures Times(block, blockBytes) == Times(base, blockBytes) + Times(block - base, blockBytes)
    ensures Times(cap, blockBytes) == Times(block - base, blockBytes) + Times(base + cap - block, blockBytes)
  {
    MulDistribute(base, block - base, blockBytes);
    MulDistribute(block - base, base + cap - block, blockBytes);
  }

  lemma WindowBytes(disk: Bytes, buf: Bytes, base: nat, cap: nat, blockBytes: nat, from: nat, m: nat)
    requires Matches(disk, buf, base, cap, blockBytes) && from + m <= Times(cap, blockBytes)
    ensures Times(base, blockBytes) + from + m <= |disk|
    ensures buf[from..from + m] == disk[Times(base, blockBytes) + from..Times(base, blockBytes) + from + m]
  {
    hide Times;
    var b, n := Times(base, blockBytes), Times(cap, blockBytes);
    SubSlice(buf, 0, n, from, m);
    SubSlice(disk, b, n, from, m);
    assert buf[..n] == buf[0..n];
  }

  lemma OneBlock(n: nat, bs: nat)
    requires n > 0
    ensures bs <= Times(n, bs)
  {
    MulMonotone(1, n, bs);
  }

  lemma CompletionFacts(bs: Pos, room: nat, block: nat, inBlock: nat, blocks: nat, bytes: nat)
    requires room > 0 && inBlock + bytes <= Times(blocks, bs)
    ensures var n := Min(blocks, room);
            var m := Min(Times(n, bs), bytes);
            && (FitsWindow(inBlock, bytes, room, bs) ==> inBlock + m <= Times(room, bs) && (m < bytes ==> inBlock == 0))
            && (!FitsWindow(inBlock, bytes, room, bs) ==> n == room)
            && (m < bytes ==> && 0 < n && m == Times(n, bs)
                              && bytes - m <= Times(blocks - n, bs)
                              && Times(block + n, bs) == Times(block, bs) + m)
  {
    var n := Min(blocks, room);
    MulMonotone(n, room, bs);
    MulDistribute(n, blocks - n, bs);
    MulDistribute(block, n, bs);
    if n == blocks { assert Times(n, bs) >= bytes; }
  }

  lemma CopiedBefore(disk: Bytes, before: seq<nat>, buf: seq<nat>, pos: nat, at: nat, k: nat, pos': nat, m: nat)
    requires Copied(disk, before, pos, at, k) && OnlyChanged(before, buf, pos', m) && pos + k <= pos'
    ensures Copied(disk, buf, pos, at, k)
  {
    assert buf[pos..pos + k] == buf[..pos'][pos..pos + k] == before[..pos'][pos..pos + k] == before[pos..pos + k];
  }

  /** `byte_offsets_to_block_coords`. */
  function BlockCount(byteOff: nat, count: nat, bs: Pos): nat {
    Quot(AlignUp(Rem(byteOff, bs) + count, bs), bs)
  }

  lemma CoordFacts(byteOff: nat, count: nat, bs: Pos)
    ensures Times(Quot(byteOff, bs), bs) + Rem(byteOff, bs) == byteOff
    ensures Rem(byteOff, bs) + count <= Times(BlockCount(byteOff, count, bs), bs)
    ensures count > 0 ==> BlockCount(byteOff, count, bs) > 0
  {
    var x := Rem(byteOff, bs) + count;
    DivModRebuild(byteOff, bs);
    DivModRebuild(x + (bs - 1), bs);
    DivModUnique(AlignUp(x, bs), bs, (x + (bs - 1)) / bs, 0);
  }

  /** The request starts on a block boundary or ends inside the window it is served from. */
  predicate FitsWindow(inBlock: nat, count: nat, room: nat, bs: Pos) {
    inBlock == 0 || inBlock + count <= Times(room, bs)
  }

  /**
   What a completed request leaves: the bytes asked for when it fits the `span` bytes it is served from. Otherwise
   they are right up to the end of the span, then as many as the in-block offset are from behind it, and the
   rest come from that many bytes too early.
   */
  ghost predicate Served(disk: Bytes, out: seq<nat>, pos: nat, at: nat, bytes: nat, inBlock: nat, span: nat) {
    if inBlock == 0 || inBlock + bytes <= span then Copied(disk, out, pos, at, bytes)
    else
      && inBlock <= span && Copied(disk, out, pos, at, span - inBlock)
      && (bytes > span ==> Copied(disk, out, pos + span, at + span - inBlock, bytes - span))
  }

  /** After `done` bytes, before `block`: how far the request is behind the disk, and what it has delivered. */
  ghost predicate OnWay(disk: Bytes, out: seq<nat>, pos: nat, at: nat, done: nat, late: nat, span: nat, block: nat,
                        bs: Pos) {
    && Times(block, bs) + late == at + done && (late == 0 || late <= span <= done)
    && Served(disk, out, pos, at, done, late, span)
  }

  lemma AlignedFits(bytes: nat, room: nat, bs: Pos)
    ensures FitsWindow(0, bytes, room, bs)
  {
  }

  lemma ServedFirst(disk: Bytes, out: seq<nat>, pos: nat, at: nat, bytes: nat, m: nat, inBlock: nat, room: nat, bs: Pos)
    requires inBlock <= Times(room, bs) && Copied(disk, out, pos, at, Min(m, Times(room, bs) - inBlock)) && m <= bytes
    requires FitsWindow(inBlock, bytes, room, bs) ==> inBlock + m <= Times(room, bs)
    requires !FitsWindow(inBlock, bytes, room, bs) ==> m == Min(Times(room, bs), bytes)
    ensures Served(disk, out, pos, at, m, if FitsWindow(inBlock, bytes, room, bs) then 0 else inBlock, Times(room, bs))
  {
    hide Times, Copied;
  }

  lemma ServedMore(disk: Bytes, before: seq<nat>, out: seq<nat>, pos: nat, at: nat, done: nat, m: nat, late: nat,
                   span: nat)
    requires Served(disk, before, pos, at, done, late, span) && OnlyChanged(before, out, pos + done, m)
    requires late <= at + done
    requires Copied(disk, out, pos + done, at + done - late, m) && (late == 0 || late <= span <= done)
    ensures Served(disk, out, pos, at, done + m, late, span)
  {
    hide Copied, OnlyChanged;
    if late == 0 {
      CopiedMore(disk, before, out, pos, at, done, m);
    } else {
      CopiedBefore(disk, before, out, pos, at, span - late, pos + done, m);
      if done > span {
        CopiedMore(disk, before, out, pos + span, at + span - late, done - span, m);
      }
    }
  }

  lemma ServedAll(disk: Bytes, out: seq<nat>, pos: nat, at: nat, bytes: nat, inBlock: nat, room: nat, bs: Pos)
    requires Served(disk, out, pos, at, bytes, if FitsWindow(inBlock, bytes, room, bs) then 0 else inBlock,
                    Times(room, bs))
    ensures Served(disk, out, pos, at, bytes, inBlock, Times(room, bs))
  {
  }

  /**
   The first copy of a request reads within the window exactly when the request fits: the copied
   length is capped at the window's bytes without taking the in-block offset off.
   */
  lemma CopyStaysInWindow(inBlock: nat, count: nat, room: nat, bs: Pos)
    requires inBlock < bs && room > 0
    ensures inBlock + Min(Times(room, bs), count) <= Times(room, bs) <==> FitsWindow(inBlock, count, room, bs)
  {
  }

  /** A 600-byte read at offset 500 of a two-block window of 512-byte blocks copies past its end. */
  lemma CopyLeavesWindowExample()
    ensures !FitsWindow(500, 600, 2, 512)
    ensures 500 + Min(Times(2, 512), 600) > Times(2, 512)
  {
  }

  /** `buf[at..]` holds the disk bytes of the range. */
  ghost predicate Refers(disk: Bytes, buf: Bytes, at: nat, byteOff: nat, count: nat) {
    && at + count <= |buf| && byteOff + count <= |disk|
    && buf[at..at + count] == disk[byteOff..byteOff + count]
  }

  lemma RefFacts(disk: Bytes, buf: Bytes, base: nat, cap: nat, bs: Pos, byteOff: nat, count: nat)
    requires Matches(disk, buf, base, cap, bs)
    requires base <= Quot(byteOff, bs) < base + cap && BlockCount(byteOff, count, bs) <= base + cap - Quot(byteOff, bs)
    ensures Refers(disk, buf, Times(Quot(byteOff, bs) - base, bs) + Rem(byteOff, bs), byteOff, count)
  {
    var block, n := Quot(byteOff, bs), BlockCount(byteOff, count, bs);
    var from := Times(block - base, bs) + Rem(byteOff, bs);
    CoordFacts(byteOff, count, bs);
    WindowSplit(base, block, cap, bs);
    MulMonotone(n, base + cap - block, bs);
    WindowBytes(disk, buf, base, cap, bs, from, count);
  }
}
