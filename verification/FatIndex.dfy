/**
 The cluster-range index of a FAT file (loader/filesystem/fat/fat.c): a run-length form of the
 cluster chain, kept in an in-place array with a spill array behind it.
 */
module FatIndex {
  import opened Arith
  import opened FatTable

  /** `contiguous_file_range`: from cluster `off` of the file on, clusters follow `cluster`. */
  datatype Range = Range(off: nat, cluster: nat)

  // ----- What an index means -----

  function EndOf(rs: seq<Range>, i: nat, n: nat): nat
    requires i < |rs|
  {
    if i + 1 < |rs| then rs[i + 1].off else n
  }

  ghost predicate Ascending(rs: seq<Range>) {
    forall i, j :: 0 <= i < j < |rs| ==> rs[i].off < rs[j].off
  }

  /** Range `i` gives the clusters of its stretch of the chain. */
  ghost predicate RangeIs(rs: seq<Range>, chain: seq<nat>, i: nat)
    requires i < |rs|
  {
    && rs[i].off < |chain|
    && EndOf(rs, i, |chain|) <= |chain|
    && (forall k :: rs[i].off <= k < EndOf(rs, i, |chain|) ==> chain[k] == rs[i].cluster + (k - rs[i].off))
  }

  /** The chain is not consecutive at `k`. */
  ghost predicate BreakAt(chain: seq<nat>, k: nat) {
    0 < k < |chain| && chain[k] != chain[k - 1] + 1
  }

  /** The ranges decode to exactly the chain, and no two neighbours could be one range. */
  ghost predicate Indexes(rs: seq<Range>, chain: seq<nat>) {
    && rs != [] && chain != [] && rs[0].off == 0
    && Ascending(rs)
    && (forall i :: 0 <= i < |rs| ==> RangeIs(rs, chain, i))
    && (forall i :: 0 < i < |rs| ==> BreakAt(chain, rs[i].off))
  }

  lemma IndexStart(c: nat)
    ensures Indexes([Range(0, c)], [c])
  {
  }

  /** The next cluster is consecutive: the last range grows by one. */
  lemma IndexExtend(rs: seq<Range>, chain: seq<nat>, c: nat)
    requires Indexes(rs, chain) && c == chain[|chain| - 1] + 1
    ensures Indexes(rs, chain + [c])
  {
    var chain' := chain + [c];
    forall i | 0 <= i < |rs|
      ensures RangeIs(rs, chain', i)
    {
      assert RangeIs(rs, chain, i);
      if i == |rs| - 1 {
        assert chain[|chain| - 1] == rs[i].cluster + (|chain| - 1 - rs[i].off);
      }
    }
    forall i | 0 < i < |rs|
      ensures BreakAt(chain', rs[i].off)
    {
      assert BreakAt(chain, rs[i].off);
    }
  }

  /** The next cluster is somewhere else: a new range starts. */
  lemma IndexAppend(rs: seq<Range>, chain: seq<nat>, c: nat)
    requires Indexes(rs, chain) && c != chain[|chain| - 1] + 1
    ensures Indexes(rs + [Range(|chain|, c)], chain + [c])
  {
    var rs', chain' := rs + [Range(|chain|, c)], chain + [c];
    forall i | 0 <= i < |rs'|
      ensures RangeIs(rs', chain', i)
    {
      if i < |rs| { assert RangeIs(rs, chain, i); }
    }
    forall i, j | 0 <= i < j < |rs'|
      ensures rs'[i].off < rs'[j].off
    {
      assert RangeIs(rs, chain, i);
    }
    forall i | 0 < i < |rs'|
      ensures BreakAt(chain', rs'[i].off)
    {
      if i < |rs| { assert BreakAt(chain, rs[i].off); }
    }
  }

  // ----- Storage -----

  /** `CEILING_DIVIDE`. */
  function CeilDiv(x: nat, y: nat): nat
    requires y > 0
  {
    if x == 0 then 0 else 1 + (x - 1) / y
  }

  /** Ranges that fit the pages needed for `x` of them. */
  function SpillCapacity(x: nat, y: nat): nat
    requires y > 0
  {
    CeilDiv(x, y) * y
  }

  /** Room for `x` ranges is full exactly when `x` is a whole number of pages. */
  lemma CeilDivFull(x: nat, y: nat)
    requires y > 0
    ensures x <= CeilDiv(x, y) * y < x + y
    ensures CeilDiv(x, y) * y == x ==> CeilDiv(x + 1, y) == CeilDiv(x, y) + 1
    ensures CeilDiv(x, y) * y != x ==> CeilDiv(x + 1, y) == CeilDiv(x, y)
  {
    DivModRebuild(x, y);
    if x > 0 {
      DivModRebuild(x - 1, y);
      MulDistribute((x - 1) / y, 1, y);
      if CeilDiv(x, y) * y == x {
        DivModUnique(x, y, CeilDiv(x, y), 0);
      } else {
        DivModUnique(x, y, (x - 1) / y, (x - 1) % y + 1);
      }
    } else {
      DivModUnique(0, y, 0, 0);
    }
  }

  /** FAT12 and FAT16 store both fields in 16 bits. */
  function Narrowed(t: FatType, r: Range): Range {
    if t.Fat32? then r else Range(r.off % 65536, r.cluster % 65536)
  }

  class FatFile {
    const reader: TableReader
    const first: nat
    const perPage: nat
    const inPlace: array<Range>
    /** The spill array; length 0 stands for a null pointer. */
    var extra: array<Range>
    var count: nat
    var size: nat
    const clusterBytes: nat
    /** Byte offset of the first data cluster in the partition. */
    const dataPartOff: nat
    /** Pages currently held for the spill array. */
    ghost var pagesHeld: nat
    /** Page allocations refused so far. */
    ghost var refusals: nat

    ghost predicate Stored()
      reads this
    {
      && perPage > 0 && inPlace.Length > 0 && inPlace != extra
      && (if count <= inPlace.Length then extra.Length == 0 && pagesHeld == 0
          else extra.Length == SpillCapacity(count - inPlace.Length, perPage)
               && count - inPlace.Length <= extra.Length
               && pagesHeld == CeilDiv(count - inPlace.Length, perPage))
    }

    ghost function Ranges(): (r: seq<Range>)
      reads this, inPlace, extra
      requires Stored()
      ensures |r| == count
    {
      if count <= inPlace.Length then inPlace[..count] else inPlace[..] + extra[..count - inPlace.Length]
    }

    /** `fat_do_open_file`: no ranges yet. */
    constructor (reader: TableReader, first: nat, size: nat, clusterBytes: nat, dataPartOff: nat, inPlaceCapacity: nat,
                 perPage: nat)
      requires reader.Valid() && clusterBytes > 0 && inPlaceCapacity > 0 && perPage > 0
      requires reader.volume.kind.Fat32? || first < 65536
      ensures Valid() && count == 0 && fresh(inPlace) && fresh(extra)
      ensures this.reader == reader && this.first == first && this.size == size
      ensures this.clusterBytes == clusterBytes && this.dataPartOff == dataPartOff
      ensures inPlace.Length == inPlaceCapacity && this.perPage == perPage
    {
      this.reader, this.first, this.size, this.perPage := reader, first, size, perPage;
      this.clusterBytes, this.dataPartOff := clusterBytes, dataPartOff;
      inPlace := new Range[inPlaceCapacity](_ => Range(0, 0));
      extra := new Range[0];
      count, pagesHeld, refusals := 0, 0, 0;
    }

    /** `file_emplace_range`; `false` when no pages are left, with the index as it was. */
    method EmplaceRange(range: Range) returns (ok: bool)
      requires Stored()
      modifies this`extra, this`count, this`pagesHeld, this`refusals, inPlace, extra
      ensures Stored() && refusals == old(refusals) + if ok then 0 else 1
      ensures extra == old(extra) || fresh(extra)
      ensures ok ==> Ranges() == old(Ranges()) + [Narrowed(reader.volume.kind, range)]
      ensures !ok ==> Ranges() == old(Ranges())
    {
      ghost var before := Ranges();
      var stored := Narrowed(reader.volume.kind, range);
      if count < inPlace.Length {
        inPlace[count] := stored;
        count := count + 1;
        assert Ranges() == before + [stored];
        return true;
      }
      var offset := count - inPlace.Length;
      var pages := CeilDiv(offset, perPage);
      CeilDivFull(offset, perPage);
      if pages * perPage == offset {
        var got: bool := *;
        if !got {
          refusals := refusals + 1;
          return false;
        }
        MulDistribute(pages, 1, perPage);
        extra := Grow(pages + 1);
        pagesHeld := pagesHeld - pages + (pages + 1);
      }
      extra[offset] := stored;
      count := count + 1;
      assert Ranges() == before + [stored];
      ok := true;
    }

    /** A new spill array with the old contents copied to its front. */
    method Grow(pages: nat) returns (fresh_: array<Range>)
      requires extra.Length <= pages * perPage
      ensures fresh(fresh_) && fresh_.Length == pages * perPage
      ensures fresh_[..extra.Length] == extra[..]
    {
      fresh_ := new Range[pages * perPage](_ => Range(0, 0));
      var i := 0;
      while i < extra.Length
        invariant 0 <= i <= extra.Length
        invariant fresh_[..i] == extra[..i]
      {
        fresh_[i] := extra[i];
        i := i + 1;
      }
    }

    /** `file_free_chain`: frees exactly the pages held. */
    method FreeChain()
      requires Stored()
      modifies this`extra, this`count, this`pagesHeld
      ensures Stored() && count == 0 && pagesHeld == 0 && fresh(extra)
    {
      if extra.Length != 0 {
        var pages := CeilDiv(count - inPlace.Length, perPage);
        assert pages == pagesHeld;
        pagesHeld := pagesHeld - pages;
      }
      count := 0;
      extra := new Range[0];
    }

    /** The index, once computed, decodes to the chain from the first cluster. */
    ghost predicate Valid()
      reads this, inPlace, extra, reader
    {
      && Stored() && reader.Valid() && clusterBytes > 0
      && (reader.volume.kind.Fat32? || first < 65536)
      && (count > 0 ==>
            forall c :: IsChain(reader.volume, first, c) ==>
              Indexes(Ranges(), c) && size <= ChainBytes(|c|, clusterBytes))
    }

    /** The end-of-chain case: the size is corrected to what the chain holds and the last range stored. */
    method FinishWalk(range: Range, offset: nat, ghost walked: seq<nat>, current: nat, next: nat) returns (ok: bool)
      requires Stored() && reader.Valid() && clusterBytes > 0 && (reader.volume.kind.Fat32? || first < 65536)
      requires Walking(reader.volume, first, walked, offset, current, Ranges() + [range])
      requires Holds(reader.volume, current, next) && ClassOf(reader.volume.kind, next) == EndOfChain
      modifies this`extra, this`count, this`pagesHeld, this`refusals, this`size, inPlace, extra
      ensures refusals == old(refusals) + if ok then 0 else 1
      ensures Stored() && (extra == old(extra) || fresh(extra))
      ensures ok <==> count > 0
      ensures ok ==> forall c :: IsChain(reader.volume, first, c) ==>
                       |c| == offset && Indexes(Ranges(), c) && size == Min(old(size), ChainBytes(|c|, clusterBytes))
      ensures ok && Closed(reader.volume) && reader.volume.InTable(first) ==> HasChain(reader.volume, first)
    {
      hide Walking, IsChain, IsPath, Indexes, Closed, ClassOf, Volume.Valid, Volume.InTable, Holds;
      WalkEnds(reader.volume, first, walked, offset, current, Ranges() + [range], next);
      NoNarrowing(reader.volume, first, walked, offset, current, Ranges(), range);
      if ChainBytes(offset, clusterBytes) < size {
        size := ChainBytes(offset, clusterBytes);
      }
      ok := EmplaceRange(range);
      if !ok {
        FreeChain();
      }
    }

    /** The link case: a cluster that does not follow on stores the pending range and starts another. */
    method FollowLink(range: Range, offset: nat, ghost walked: seq<nat>, current: nat, next: nat)
      returns (ok: bool, range': Range)
      requires Stored() && reader.Valid() && (reader.volume.kind.Fat32? || first < 65536)
      requires Walking(reader.volume, first, walked, offset, current, Ranges() + [range])
      requires Holds(reader.volume, current, next) && ClassOf(reader.volume.kind, next) == Link
      modifies this`extra, this`count, this`pagesHeld, this`refusals, inPlace, extra
      ensures refusals == old(refusals) + if ok then 0 else 1
      ensures Stored() && (extra == old(extra) || fresh(extra))
      ensures ok ==> Walking(reader.volume, first, walked + [next], offset + 1, next, Ranges() + [range'])
      ensures ok ==> forall c :: IsChain(reader.volume, first, c) ==> offset < |c|
    {
      hide Walking, IsChain, IsPath, Indexes, Closed, ClassOf, Volume.Valid, Volume.InTable, Holds;
      WalkContinues(reader.volume, first, walked, offset, current, Ranges() + [range], next);
      if next == current + 1 {
        return true, range;
      }
      NoNarrowing(reader.volume, first, walked, offset, current, Ranges(), range);
      ghost var rs := Ranges() + [range] + [Range(offset, next)];
      range' := Range(offset, next);
      ok := EmplaceRange(range);
      if ok {
        WalkingRanges(reader.volume, first, walked + [next], offset + 1, next, rs, Ranges() + [range']);
      }
    }

    /** A table read failed or an allocation was refused. */
    twostate predicate Interrupted()
      reads this, reader
    {
      reader.failures != old(reader.failures) || refusals != old(refusals)
    }

    /**
     `file_compute_contiguous_ranges`: walks the chain once. Without a failed table read or a
     refused allocation, the index is refused only for a chain that is too long or broken.
     */
    method ComputeRanges() returns (ok: bool)
      requires Valid()
      modifies this`extra, this`count, this`pagesHeld, this`refusals, this`size, inPlace, extra, reader
      ensures Valid() && (extra == old(extra) || fresh(extra))
      ensures ok <==> count > 0
      ensures old(count) > 0 ==> ok && Ranges() == old(Ranges()) && size == old(size)
      ensures ok ==> !Interrupted()
      ensures !ok && !Interrupted() ==> NoShortChain(reader.volume, first, old(size) / clusterBytes + 1024)
      ensures old(count) == 0 && ok ==>
                forall c :: IsChain(reader.volume, first, c) ==>
                  |c| <= old(size) / clusterBytes + 1025 && size == Min(old(size), ChainBytes(|c|, clusterBytes))
      ensures old(count) == 0 && ok && Closed(reader.volume) && reader.volume.InTable(first) ==>
                HasChain(reader.volume, first)
    {
      hide Walking, IsChain, IsPath, Indexes, Closed, ClassOf, Volume.Valid, Volume.InTable, Holds, ChainBytes;
      if count != 0 {
        return true;
      }
      var range, current, offset := Range(0, first), first, 1;
      var maxClusters := MaxClusters(size);
      ghost var walked := [first];
      assert Ranges() + [range] == [range];
      StartWalk(reader.volume, first);
      while true
        invariant Stored() && reader.Valid() && (extra == old(extra) || fresh(extra))
        invariant 1 <= offset <= maxClusters + 1
        invariant Walking(reader.volume, first, walked, offset, current, Ranges() + [range])
        invariant size == old(size) && !Interrupted()
        decreases maxClusters + 2 - offset
      {
        var next;
        ghost var cached;
        next, cached := reader.EntryAt(current);
        ReadBad(reader.volume.kind);
        var class_ := ClassOf(reader.volume.kind, next);
        if class_ == EndOfChain {
          ok := FinishWalk(range, offset, walked, current, next);
          return;
        }
        if class_ != Link {
          if cached {
            WalkBreaks(reader.volume, first, walked, offset, current, Ranges() + [range], next);
          }
          FreeChain();
          return false;
        }
        ok, range := FollowLink(range, offset, walked, current, next);
        if !ok {
          FreeChain();
          return false;
        }
        if offset > maxClusters {
          FreeChain();
          return false;
        }
        offset := offset + 1;
        walked := walked + [next];
        current := next;
      }
    }

    /** `find_range_idx`: the range `offset` belongs to. The unsigned bounds never pass zero. */
    method FindRangeIdx(a: array<Range>, n: nat, offset: nat) returns (idx: nat)
      requires 0 < n <= a.Length && Ascending(a[..n]) && a[0].off <= offset
      ensures idx < n && a[idx].off <= offset
      ensures idx + 1 < n ==> offset < a[idx + 1].off
    {
      ghost var rs := a[..n];
      var left: nat, right: nat := 0, n - 1;
      while left <= right
        invariant 0 <= left <= right + 1 <= n
        invariant forall i :: 0 <= i < left ==> rs[i].off <= offset
        invariant forall i :: right < i < n ==> offset < rs[i].off
        invariant left > 0 || right >= 0
        decreases right + 1 - left
      {
        var middle := left + (right - left) / 2;
        if a[middle].off < offset {
          left := middle + 1;
        } else if offset < a[middle].off {
          assert middle > 0;
          right := middle - 1;
        } else {
          assert middle + 1 < n ==> rs[middle].off < rs[middle + 1].off;
          return middle;
        }
      }
      idx := right;
    }

    /**
     The two-array lookup of `fat_file_get_range`: the range a block belongs to and the offset of
     the range after it, on either side of the boundary between in-place and spill storage.
     */
    method LookUp(block: nat) returns (range: Range, next: Option<nat>, ghost i: nat)
      requires Stored() && count > 0 && Ascending(Ranges()) && Ranges()[0].off == 0
      ensures i < count && range == Ranges()[i] && range.off <= block
      ensures next == if i + 1 < count then Some(Ranges()[i + 1].off) else None
      ensures next.Some? ==> block < next.value
    {
      hide CeilDiv, SpillCapacity;
      ghost var rs := Ranges();
      var base, arr, n := 0, inPlace, count;
      if extra.Length != 0 && extra[0].off <= block {
        base, arr, n := inPlace.Length, extra, count - inPlace.Length;
      } else if extra.Length != 0 {
        n := inPlace.Length;
      }
      assert arr[..n] == rs[base..base + n];
      assert Ascending(arr[..n]);
      var idx := FindRangeIdx(arr, n, block);
      range := arr[idx];
      i := base + idx;
      idx := idx + 1;
      if base + idx == count {
        return range, None, i;
      }
      if base + idx == inPlace.Length {
        arr, idx := extra, 0;
      }
      next := Some(arr[idx].off);
    }

    /** The range of blocks from `block` on, from an index that decodes to the chain. */
    method Locate(block: nat, want: nat, ghost chain: seq<nat>) returns (out: BlockRange)
      requires Stored() && count > 0 && Indexes(Ranges(), chain)
      requires block < |chain| && chain[block] >= 2 && want > 0
      ensures Located(chain, block, want, out, clusterBytes, dataPartOff)
    {
      hide Indexes, Stored, RangeIs, ClusterPartOff;
      IndexShape(Ranges(), chain);
      ghost var i;
      var range, next;
      range, next, i := LookUp(block);
      LocateIn(Ranges(), chain, i, block);
      var blocks := if next.Some? then Min(want, next.value - block) else want;
      out := BlockRange(ClusterPartOff(range.cluster + (block - range.off), clusterBytes, dataPartOff), blocks);
    }

    /**
     `fat_file_get_range`: where block `block` of the file is, and how many blocks follow on from it. A block past
     the end of the chain is looked for behind the last cluster.
     */
    method GetRange(block: nat, want: nat, ghost chain: seq<nat>) returns (ok: bool, out: BlockRange)
      requires Valid() && first >= 2 && want > 0 && IsChain(reader.volume, first, chain)
      modifies this`extra, this`count, this`pagesHeld, this`refusals, this`size, inPlace, extra, reader
      ensures Valid() && (extra == old(extra) || fresh(extra))
      ensures !ok && !Interrupted() ==> |chain| > old(size) / clusterBytes + 1025
      ensures (ok ==> !Interrupted()) && (old(count) > 0 ==> ok)
      ensures ok ==> count > 0 && Located(Onward(chain, block + want), block, want, out, clusterBytes, dataPartOff)
      ensures ok ==> size == if old(count) == 0 then Min(old(size), ChainBytes(|chain|, clusterBytes)) else old(size)
    {
      hide IsChain, IsPath, ClassOf, Volume.Valid, Volume.InTable, Closed, Indexes, Stored, RangeIs, Located,
           ChainBytes, Onward;
      ok := ComputeRanges();
      out := BlockRange(0, 0);
      if !ok {
        return;
      }
      IndexNotEmpty(Ranges(), chain);
      OnwardIndexes(Ranges(), chain, block + want);
      OnwardIsData(reader.volume, first, chain, block + want, block);
      out := Locate(block, want, Onward(chain, block + want));
    }

    function MaxClusters(bytes: nat): nat
      requires clusterBytes > 0
    {
      bytes / clusterBytes + 1024
    }
  }

  function ChainBytes(clusters: nat, clusterBytes: nat): nat {
    clusters * clusterBytes
  }

  /** Every link inside the table stays inside it. */
  ghost predicate Closed(v: Volume)
    requires v.Valid()
  {
    forall a, b :: LinksTo(v, a, b) ==> v.InTable(b)
  }

  ghost predicate NoShortChain(v: Volume, first: nat, max: nat)
    requires v.Valid()
  {
    forall c :: IsChain(v, first, c) ==> |c| > max + 1
  }

  /** After `offset` clusters: the walk so far is a path, any chain runs through it, and `rs` indexes it. */
  ghost predicate Walking(v: Volume, first: nat, walked: seq<nat>, offset: nat, current: nat, rs: seq<Range>)
    requires v.Valid()
  {
    && |walked| == offset > 0 && walked[offset - 1] == current
    && (Closed(v) && v.InTable(first) ==> IsPath(v, first, walked))
    && (forall c :: IsChain(v, first, c) ==> offset <= |c| && c[..offset] == walked && Indexes(rs, walked))
  }

  ghost predicate HasChain(v: Volume, first: nat)
    requires v.Valid()
  {
    exists c :: IsChain(v, first, c)
  }

  lemma StartWalk(v: Volume, first: nat)
    requires v.Valid()
    ensures Walking(v, first, [first], 1, first, [Range(0, first)])
  {
    IndexStart(first);
  }

  lemma ReadBad(t: FatType)
    ensures ClassOf(t, BadValue(t)) == BadEntry
  {
  }

  /** The ranges matter only when there is a chain. */
  lemma WalkingRanges(v: Volume, first: nat, walked: seq<nat>, offset: nat, current: nat, rs: seq<Range>,
                      rs': seq<Range>)
    requires v.Valid() && Walking(v, first, walked, offset, current, rs)
    requires HasChain(v, first) ==> rs' == rs
    ensures Walking(v, first, walked, offset, current, rs')
  {
  }

  /** At an end-of-chain mark the walk is the chain. */
  lemma WalkEnds(v: Volume, first: nat, walked: seq<nat>, offset: nat, current: nat, rs: seq<Range>, next: nat)
    requires v.Valid() && Walking(v, first, walked, offset, current, rs)
    requires Holds(v, current, next) && ClassOf(v.kind, next) == EndOfChain
    ensures |walked| == offset
    ensures forall c :: IsChain(v, first, c) ==> c == walked && Indexes(rs, c)
    ensures Closed(v) && v.InTable(first) ==> IsChain(v, first, walked)
  {
    forall c | IsChain(v, first, c)
      ensures c == walked && Indexes(rs, c)
    {
      ChainAt(v, first, c, offset - 1);
      assert c[offset - 1] == c[..offset][offset - 1];
    }
  }

  /** Any other mark means there is no chain. */
  lemma WalkBreaks(v: Volume, first: nat, walked: seq<nat>, offset: nat, current: nat, rs: seq<Range>, next: nat)
    requires v.Valid() && Walking(v, first, walked, offset, current, rs)
    requires Holds(v, current, next) && ClassOf(v.kind, next) != EndOfChain && ClassOf(v.kind, next) != Link
    ensures forall c :: !IsChain(v, first, c)
  {
    forall c
      ensures !IsChain(v, first, c)
    {
      if IsChain(v, first, c) {
        assert c[offset - 1] == c[..offset][offset - 1];
        ChainAt(v, first, c, offset - 1);
      }
    }
  }

  /** A link carries the walk one cluster on. */
  lemma WalkContinues(v: Volume, first: nat, walked: seq<nat>, offset: nat, current: nat, rs: seq<Range>, next: nat)
    requires v.Valid() && Walking(v, first, walked, offset, current, rs)
    requires Holds(v, current, next) && ClassOf(v.kind, next) == Link
    ensures forall c :: IsChain(v, first, c) ==> offset < |c|
    ensures Walking(v, first, walked + [next], offset + 1, next,
                    if next == current + 1 then rs else rs + [Range(offset, next)])
  {
    var walked' := walked + [next];
    forall c | IsChain(v, first, c)
      ensures offset < |c| && c[..offset + 1] == walked'
      ensures Indexes(if next == current + 1 then rs else rs + [Range(offset, next)], walked')
    {
      ChainAt(v, first, c, offset - 1);
      assert c[offset - 1] == c[..offset][offset - 1];
      if next == current + 1 { IndexExtend(rs, walked, next); } else { IndexAppend(rs, walked, next); }
    }
    if Closed(v) && v.InTable(first) {
      PathExtends(v, first, walked, next);
    }
  }

  lemma PathExtends(v: Volume, first: nat, path: seq<nat>, next: nat)
    requires v.Valid() && IsPath(v, first, path) && Closed(v)
    requires Holds(v, path[|path| - 1], next) && ClassOf(v.kind, next) == Link
    ensures IsPath(v, first, path + [next])
  {
    assert LinksTo(v, path[|path| - 1], next);
    var path' := path + [next];
    forall i | 0 <= i < |path'| - 1
      ensures LinksTo(v, path'[i], path'[i + 1])
    {
      if i < |path| - 1 { assert LinksTo(v, path[i], path[i + 1]); }
    }
  }

  lemma LastRange(rs: seq<Range>, range: Range, chain: seq<nat>)
    requires Indexes(rs + [range], chain)
    ensures range.off < |chain| && chain[range.off] == range.cluster
  {
    assert RangeIs(rs + [range], chain, |rs|);
  }

  /** No field of a range of a terminating walk is cut by 16-bit storage. */
  lemma NoNarrowing(v: Volume, first: nat, walked: seq<nat>, offset: nat, current: nat, rs: seq<Range>, range: Range)
    requires v.Valid() && Walking(v, first, walked, offset, current, rs + [range])
    requires v.kind.Fat32? || first < 65536
    ensures HasChain(v, first) ==> Narrowed(v.kind, range) == range
  {
    hide IsChain, Indexes, Volume.Valid, Closed, IsPath;
    if c :| IsChain(v, first, c) {
      LastRange(rs, range, walked);
      assert c[range.off] == c[..offset][range.off];
      if !v.kind.Fat32? {
        ChainFitsSixteenBits(v, first, c);
      }
    }
  }

  /** `cluster_as_part_off`: the first two cluster numbers are reserved. */
  function ClusterPartOff(cluster: nat, clusterBytes: nat, dataPartOff: nat): nat
    requires cluster >= 2
  {
    var n: nat := cluster - 2;
    n * clusterBytes + dataPartOff
  }

  /** `struct block_range`. */
  datatype BlockRange = BlockRange(partOff: nat, blocks: nat)

  /**
   The range starts at the requested cluster of the chain, runs over consecutive clusters only,
   and stops short of the request only where the chain itself jumps.
   */
  ghost predicate Located(chain: seq<nat>, block: nat, want: nat, out: BlockRange, clusterBytes: nat, dataPartOff: nat)
    requires block < |chain|
  {
    && chain[block] >= 2
    && out.partOff == ClusterPartOff(chain[block], clusterBytes, dataPartOff)
    && 0 < out.blocks <= want
    && (forall k :: block <= k < block + out.blocks && k < |chain| ==> chain[k] == chain[block] + (k - block))
    && (out.blocks < want ==> BreakAt(chain, block + out.blocks))
  }

  lemma IndexShape(rs: seq<Range>, chain: seq<nat>)
    requires Indexes(rs, chain)
    ensures rs != [] && rs[0].off == 0 && Ascending(rs)
  {
  }

  lemma LocateIn(rs: seq<Range>, chain: seq<nat>, i: nat, block: nat)
    requires Indexes(rs, chain) && i < |rs| && rs[i].off <= block < EndOf(rs, i, |chain|)
    ensures EndOf(rs, i, |chain|) <= |chain|
    ensures forall k :: block <= k < EndOf(rs, i, |chain|) ==> chain[k] == chain[block] + (k - block)
    ensures chain[block] == rs[i].cluster + (block - rs[i].off)
    ensures i + 1 < |rs| ==> BreakAt(chain, rs[i + 1].off)
  {
    assert RangeIs(rs, chain, i);
  }

  /** The chain, drawn out to `n` clusters by counting on from its last one. */
  function Onward(chain: seq<nat>, n: nat): (s: seq<nat>)
    requires chain != []
    ensures chain <= s && n <= |s|
    decreases n
  {
    if n <= |chain| then chain
    else
      var s := Onward(chain, n - 1);
      if n <= |s| then s else s + [s[|s| - 1] + 1]
  }

  /** Counting on from the end keeps the index: a file longer than its chain reads on behind the last cluster. */
  lemma {:induction false} OnwardIndexes(rs: seq<Range>, chain: seq<nat>, n: nat)
    requires Indexes(rs, chain)
    ensures Indexes(rs, Onward(chain, n))
    decreases n
  {
    hide Indexes;
    IndexNotEmpty(rs, chain);
    if n > |chain| {
      OnwardIndexes(rs, chain, n - 1);
      var s := Onward(chain, n - 1);
      IndexExtend(rs, s, s[|s| - 1] + 1);
    }
  }

  lemma IndexNotEmpty(rs: seq<Range>, chain: seq<nat>)
    requires Indexes(rs, chain)
    ensures chain != []
  {
  }

  /** Where the drawn-out chain is at a block does not depend on how far it is drawn out. */
  lemma {:induction false} OnwardAt(chain: seq<nat>, n: nat, b: nat)
    requires chain != [] && b < |Onward(chain, n)|
    ensures Onward(chain, n)[b] == if b < |chain| then chain[b] else chain[|chain| - 1] + (b - (|chain| - 1))
    ensures |Onward(chain, n)| == if n <= |chain| then |chain| else n
    decreases n
  {
    if n > |chain| {
      OnwardAt(chain, n - 1, if b < |Onward(chain, n - 1)| then b else b - 1);
    }
  }

  lemma OnwardIsData(v: Volume, first: nat, chain: seq<nat>, n: nat, b: nat)
    requires v.Valid() && IsChain(v, first, chain) && first >= 2 && chain != [] && b < |Onward(chain, n)|
    ensures Onward(chain, n)[b] >= 2
  {
    hide Onward, IsChain;
    OnwardAt(chain, n, b);
    ClusterIsData(v, first, chain, if b < |chain| then b else |chain| - 1);
  }

  lemma ClusterIsData(v: Volume, first: nat, chain: seq<nat>, i: nat)
    requires v.Valid() && IsChain(v, first, chain) && i < |chain| && first >= 2
    ensures chain[i] >= 2
  {
    if i > 0 { ChainAt(v, first, chain, i - 1); }
  }
}
