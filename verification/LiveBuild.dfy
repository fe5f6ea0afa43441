/** `do_build_page_table` on BIOS: the direct map is built over the live map its own table pages come from. */
module LiveBuild {
  import opened Arith
  import opened MemoryMap
  import opened PageTables
  import opened AddressPaths
  import opened PageTableBuilder
  import opened RamRuns
  import opened DirectMap
  import LiveWalk
  import BiosAllocator

  /** The pages that asking for one page below the ceiling again and again will return, until there is none. */
  ghost predicate Draws(s: seq<Entry>, pages: seq<nat>, ceiling: nat)
    decreases |pages|
  {
    if pages == [] then forall a: nat :: BiosAllocator.FreeWindow(s, a, PAGE_SIZE, 0, ceiling) ==> a == 0
    else
      && pages[0] > 0 && BiosAllocator.IsHighest(s, pages[0], PAGE_SIZE, ceiling)
      && forall s': seq<Entry> ::
           BiosAllocator.TakesHighest(s, s', PAGE_SIZE, ceiling, LOADER_RECLAIMABLE, pages[0]) ==>
                                    Draws(s', pages[1..], ceiling)
  }

  lemma RamIsType(s: seq<Entry>, pa: nat)
    requires Ordered(s)
    ensures Ram(s, pa) <==> TypeAt(s, pa).Some? && IsRamType(TypeAt(s, pa).value)
  {
    if i: nat :| i < |s| && IsRam(s[i], pa) {
      TypeAtIndex(s, i, pa);
    }
    if TypeAt(s, pa).Some? {
      var i := TypeAtCovered(s, pa);
      TypeAtIndex(s, i, pa);
    }
  }

  /** A page taken for a table is RAM before and after. */
  lemma DrawKeepsRam(s: seq<Entry>, s': seq<Entry>, page: nat, ceiling: nat)
    requires Canonical(s) && BiosAllocator.FreeAligned(s) && ceiling % PAGE_SIZE == 0
    requires BiosAllocator.IsHighest(s, page, PAGE_SIZE, ceiling)
    requires BiosAllocator.TakesHighest(s, s', PAGE_SIZE, ceiling, LOADER_RECLAIMABLE, page)
    ensures BiosAllocator.FreeAligned(s') && Canonical(s') && LiveWalk.SameRam(s, s')
  {
    hide TypeAt, Ram, BiosAllocator.FreeAligned, Canonical, BiosAllocator.CarvedOut, BiosAllocator.AllOf;
    var taken := Entry(page, PAGE_SIZE, LOADER_RECLAIMABLE);
    var idx: nat :| BiosAllocator.CarvedOut(s, s', idx, taken);
    BiosAllocator.HighestAligned(s, PAGE_SIZE, ceiling, page);
    BiosAllocator.CarvingKeeps(s, s', idx, taken);
    BiosAllocator.AlignedCarving(s, s', idx, taken);
    BiosAllocator.CanonicalOrdered(s);
    BiosAllocator.CanonicalOrdered(s');
    forall pa: nat ensures Ram(s, pa) <==> Ram(s', pa) {
      RamIsType(s, pa);
      RamIsType(s', pa);
      if page <= pa < page + PAGE_SIZE { BiosAllocator.OneOf(s, page, PAGE_SIZE, FREE, pa); }
    }
  }

  // ----- Such a pool exists -----

  /** What a draw leaves is determined. */
  lemma DrawUnique(s: seq<Entry>, t: seq<Entry>, u: seq<Entry>, page: nat, ceiling: nat)
    requires Canonical(s) && BiosAllocator.FreeAligned(s) && ceiling % PAGE_SIZE == 0
    requires BiosAllocator.IsHighest(s, page, PAGE_SIZE, ceiling)
    requires BiosAllocator.TakesHighest(s, t, PAGE_SIZE, ceiling, LOADER_RECLAIMABLE, page)
    requires BiosAllocator.TakesHighest(s, u, PAGE_SIZE, ceiling, LOADER_RECLAIMABLE, page)
    ensures t == u
  {
    hide TypeAt, BiosAllocator.FreeAligned, Canonical;
    DrawRetypes(s, t, page, ceiling);
    DrawRetypes(s, u, page, ceiling);
    CanonicalUnique(t, u);
  }

  lemma DrawRetypes(s: seq<Entry>, t: seq<Entry>, page: nat, ceiling: nat)
    requires Canonical(s) && BiosAllocator.FreeAligned(s) && ceiling % PAGE_SIZE == 0
    requires BiosAllocator.IsHighest(s, page, PAGE_SIZE, ceiling)
    requires BiosAllocator.TakesHighest(s, t, PAGE_SIZE, ceiling, LOADER_RECLAIMABLE, page)
    ensures page % PAGE_SIZE == 0 && BiosAllocator.Retyped(s, t, page, page + PAGE_SIZE, LOADER_RECLAIMABLE)
    ensures BiosAllocator.FreeAligned(t)
  {
    hide TypeAt, BiosAllocator.FreeAligned, Canonical, BiosAllocator.CarvedOut, BiosAllocator.AllOf,
         BiosAllocator.Retyped;
    var taken := Entry(page, PAGE_SIZE, LOADER_RECLAIMABLE);
    var idx: nat :| BiosAllocator.CarvedOut(s, t, idx, taken);
    BiosAllocator.HighestAligned(s, PAGE_SIZE, ceiling, page);
    BiosAllocator.AlignedCarving(s, t, idx, taken);
    BiosAllocator.CarvingKeeps(s, t, idx, taken);
  }

  /** After a draw every free window lies below the page taken. */
  lemma NextIsLower(s: seq<Entry>, t: seq<Entry>, page: nat, ceiling: nat, a: nat)
    requires BiosAllocator.IsHighest(s, page, PAGE_SIZE, ceiling)
    requires BiosAllocator.Retyped(s, t, page, page + PAGE_SIZE, LOADER_RECLAIMABLE)
    requires BiosAllocator.FreeWindow(t, a, PAGE_SIZE, 0, ceiling)
    ensures a < page
  {
    hide TypeAt;
    BiosAllocator.OneOf(t, a, PAGE_SIZE, FREE, a);
    FreeBefore(s, t, page, ceiling, a);
  }

  lemma FreeBefore(s: seq<Entry>, t: seq<Entry>, page: nat, ceiling: nat, a: nat)
    requires BiosAllocator.Retyped(s, t, page, page + PAGE_SIZE, LOADER_RECLAIMABLE)
    requires BiosAllocator.FreeWindow(t, a, PAGE_SIZE, 0, ceiling)
    ensures BiosAllocator.FreeWindow(s, a, PAGE_SIZE, 0, ceiling)
  {
    hide TypeAt;
    forall x: nat | a <= x < a + PAGE_SIZE ensures TypeAt(s, x) == Some(FREE) {
      BiosAllocator.OneOf(t, a, PAGE_SIZE, FREE, x);
    }
  }

  lemma {:induction false} HighestBelow(s: seq<Entry>, ceiling: nat, n: nat) returns (page: nat)
    requires exists a: nat :: a <= n && BiosAllocator.FreeWindow(s, a, PAGE_SIZE, 0, ceiling)
    requires forall a: nat :: BiosAllocator.FreeWindow(s, a, PAGE_SIZE, 0, ceiling) ==> a <= n
    ensures BiosAllocator.IsHighest(s, page, PAGE_SIZE, ceiling)
    decreases n
  {
    hide BiosAllocator.FreeWindow;
    page := n;
    if !BiosAllocator.FreeWindow(s, n, PAGE_SIZE, 0, ceiling) {
      page := HighestBelow(s, ceiling, n - 1);
    }
  }

  /** Every map has a pool: windows go down with each draw, so the draws end. `below` bounds the windows left. */
  lemma {:induction false} DrawsEnd(s: seq<Entry>, ceiling: nat, below: nat) returns (pages: seq<nat>)
    requires Canonical(s) && BiosAllocator.FreeAligned(s) && ceiling % PAGE_SIZE == 0
    requires forall a: nat :: BiosAllocator.FreeWindow(s, a, PAGE_SIZE, 0, ceiling) ==> a < below
    ensures Draws(s, pages, ceiling)
    ensures forall i: nat :: i < |pages| ==> 0 < pages[i] < below && pages[i] % PAGE_SIZE == 0
    ensures forall i: nat, j: nat :: i < j < |pages| ==> pages[j] < pages[i]
    decreases below
  {
    hide BiosAllocator.FreeWindow, BiosAllocator.TakesHighest, BiosAllocator.FreeAligned, Canonical,
         BiosAllocator.Retyped;
    if forall a: nat :: BiosAllocator.FreeWindow(s, a, PAGE_SIZE, 0, ceiling) ==> a == 0 {
      return [];
    }
    var page := HighestBelow(s, ceiling, below - 1);
    HighestOnPage(s, ceiling, page);
    if t :| BiosAllocator.TakesHighest(s, t, PAGE_SIZE, ceiling, LOADER_RECLAIMABLE, page) {
      DrawRetypes(s, t, page, ceiling);
      assert Canonical(t) by { RetypedIsCanonical(s, t, page); }
      forall a: nat | BiosAllocator.FreeWindow(t, a, PAGE_SIZE, 0, ceiling) ensures a < page {
        NextIsLower(s, t, page, ceiling, a);
      }
      var rest := DrawsEnd(t, ceiling, page);
      pages := [page] + rest;
      assert pages[1..] == rest;
      forall u: seq<Entry> | BiosAllocator.TakesHighest(s, u, PAGE_SIZE, ceiling, LOADER_RECLAIMABLE, page)
        ensures Draws(u, pages[1..], ceiling)
      {
        DrawUnique(s, t, u, page, ceiling);
      }
    } else {
      pages := [page];
    }
  }

  lemma RetypedIsCanonical(s: seq<Entry>, t: seq<Entry>, page: nat)
    requires BiosAllocator.Retyped(s, t, page, page + PAGE_SIZE, LOADER_RECLAIMABLE)
    ensures Canonical(t)
  {
  }

  lemma HighestOnPage(s: seq<Entry>, ceiling: nat, page: nat)
    requires Canonical(s) && BiosAllocator.FreeAligned(s) && ceiling % PAGE_SIZE == 0
    requires BiosAllocator.IsHighest(s, page, PAGE_SIZE, ceiling)
    ensures page % PAGE_SIZE == 0
  {
    hide TypeAt, BiosAllocator.FreeAligned, Canonical;
    BiosAllocator.HighestAligned(s, PAGE_SIZE, ceiling, page);
  }

  /** The pool of any map is one a page table can be built from. */
  lemma PoolExists(s: seq<Entry>, f: Format, ceiling: nat) returns (pages: seq<nat>)
    requires Canonical(s) && BiosAllocator.FreeAligned(s) && ceiling % PAGE_SIZE == 0 && ceiling <= Pow2(AddressBits(f))
    ensures Draws(s, pages, ceiling) && PoolOk(f, pages, map[])
  {
    hide Pow2, TypeAt, Draws, BiosAllocator.FreeAligned, Canonical;
    pages := DrawsEnd(s, ceiling, ceiling);
  }

  lemma StillBelow(s: seq<Entry>, t: seq<Entry>, top: nat)
    requires Ordered(t) && RamBelow(s, top) && LiveWalk.SameRam(s, t)
    ensures RamBelow(t, top)
  {
    forall i: nat | i < |t| && IsRamType(t[i].kind) ensures t[i].End() <= top {
      LiveWalk.RamHere(t, i, t[i].End() - 1);
      var j := LiveWalk.RamIn(s, t[i].End() - 1);
    }
  }

  /** The map behind a table builder: canonical, with aligned free entries, and the pool is what it will hand out. */
  ghost predicate Backs(mem: BiosAllocator.BiosMemory, pool: seq<nat>, ceiling: nat)
    reads mem, mem.entries
  {
    && mem.Valid() && BiosAllocator.FreeAligned(mem.Contents()) && ceiling % PAGE_SIZE == 0
    && Draws(mem.Contents(), pool, ceiling)
  }

  /** The highest page below the ceiling cannot be carved out: the buffer lacks the slots. */
  ghost predicate NoSlots(s: seq<Entry>, capacity: nat, ceiling: nat) {
    BiosAllocator.NoRoomHighest(s, capacity, PAGE_SIZE, ceiling, LOADER_RECLAIMABLE)
  }

  /** Taking these pages in turn, one of them finds no slots. */
  ghost predicate Crowded(s: seq<Entry>, pages: seq<nat>, capacity: nat, ceiling: nat)
    decreases |pages|
  {
    if pages == [] then false
    else
      || NoSlots(s, capacity, ceiling)
      || exists t: seq<Entry> ::
           && BiosAllocator.TakesHighest(s, t, PAGE_SIZE, ceiling, LOADER_RECLAIMABLE, pages[0])
           && Crowded(t, pages[1..], capacity, ceiling)
  }

  /** After `n` pages that found slots the map is `t`, and what follows goes on from there. */
  ghost predicate Continues(s: seq<Entry>, t: seq<Entry>, pool: seq<nat>, n: nat, capacity: nat, ceiling: nat) {
    forall m: nat :: n <= m <= |pool| ==>
      (Crowded(s, pool[..m], capacity, ceiling) <==> Crowded(t, pool[n..m], capacity, ceiling))
  }

  lemma ContinuesStart(s: seq<Entry>, pool: seq<nat>, capacity: nat, ceiling: nat)
    ensures Continues(s, s, pool, 0, capacity, ceiling)
  {
    hide Crowded;
    forall m: nat | m <= |pool| ensures pool[..m] == pool[0..m] {}
  }

  lemma ContinuesStep(s: seq<Entry>, t: seq<Entry>, u: seq<Entry>, pool: seq<nat>, n: nat, capacity: nat, ceiling: nat)
    requires Continues(s, t, pool, n, capacity, ceiling) && n < |pool|
    requires Canonical(t) && BiosAllocator.FreeAligned(t) && ceiling % PAGE_SIZE == 0
    requires BiosAllocator.IsHighest(t, pool[n], PAGE_SIZE, ceiling) && !NoSlots(t, capacity, ceiling)
    requires BiosAllocator.TakesHighest(t, u, PAGE_SIZE, ceiling, LOADER_RECLAIMABLE, pool[n])
    ensures Continues(s, u, pool, n + 1, capacity, ceiling)
  {
    hide NoSlots, BiosAllocator.TakesHighest, Canonical, BiosAllocator.FreeAligned, BiosAllocator.FreeWindow;
    forall m: nat | n + 1 <= m <= |pool|
      ensures Crowded(t, pool[n..m], capacity, ceiling) <==> Crowded(u, pool[n + 1..m], capacity, ceiling)
    {
      assert pool[n..m][1..] == pool[n + 1..m] && pool[n..m][0] == pool[n];
      forall w: seq<Entry> | BiosAllocator.TakesHighest(t, w, PAGE_SIZE, ceiling, LOADER_RECLAIMABLE, pool[n])
        ensures w == u
      {
        DrawUnique(t, u, w, pool[n], ceiling);
      }
    }
  }

  lemma ContinuesThen(s: seq<Entry>, t: seq<Entry>, u: seq<Entry>, pool: seq<nat>, a: nat, b: nat, capacity: nat,
                      ceiling: nat)
    requires a + b <= |pool| && Continues(s, t, pool, a, capacity, ceiling)
    requires Continues(t, u, pool[a..], b, capacity, ceiling)
    ensures Continues(s, u, pool, a + b, capacity, ceiling)
  {
    hide Crowded;
    forall m: nat | a + b <= m <= |pool|
      ensures Crowded(s, pool[..m], capacity, ceiling) <==> Crowded(u, pool[a + b..m], capacity, ceiling)
    {
      assert pool[a..][..m - a] == pool[a..m] && pool[a..][b..m - a] == pool[a + b..m];
      assert Crowded(t, pool[a..][..m - a], capacity, ceiling) <==> Crowded(u, pool[a..][b..m - a], capacity, ceiling);
    }
  }

  lemma ContinuesAt(s: seq<Entry>, t: seq<Entry>, pool: seq<nat>, a: nat, b: nat, capacity: nat, ceiling: nat)
    requires a + b <= |pool| && Continues(s, t, pool, a, capacity, ceiling)
    ensures Crowded(s, pool[..a + b], capacity, ceiling) <==> Crowded(t, pool[a..][..b], capacity, ceiling)
  {
    hide Crowded;
    assert pool[a..][..b] == pool[a..a + b];
  }

  /** One `pt_get_table_page` as the memory map sees it. */
  method Draw(mem: BiosAllocator.BiosMemory, ceiling: nat, ghost pool: seq<nat>) returns (halted: bool)
    requires Backs(mem, pool, ceiling) && pool != []
    modifies mem`count, mem.entries
    ensures !halted ==>
              && Backs(mem, pool[1..], ceiling) && LiveWalk.SameRam(old(mem.Contents()), mem.Contents())
              && mem.count <= old(mem.count) + 2
              && BiosAllocator.TakesHighest(old(mem.Contents()), mem.Contents(), PAGE_SIZE, ceiling, LOADER_RECLAIMABLE,
                                            pool[0])
    ensures halted <==> NoSlots(old(mem.Contents()), mem.entries.Length, ceiling)
  {
    hide TypeAt, Canonical, BiosAllocator.FreeAligned, BiosAllocator.FreeWindow, AllKnown, LiveWalk.SameRam,
         BiosAllocator.NoRoomHighest, BiosAllocator.CarvedOut;
    ghost var s := mem.Contents();
    var r := mem.AllocatePages(1, ceiling, LOADER_RECLAIMABLE);
    if r.Done? {
      assert BiosAllocator.FreeWindow(s, pool[0], PAGE_SIZE, 0, ceiling);
      assert r.address == pool[0];
      DrawKeepsRam(s, mem.Contents(), pool[0], ceiling);
    }
    halted := r.Halted?;
  }

  /** The pages a step of the builder took off its pool, taken out of the map in turn. */
  method DrawPages(mem: BiosAllocator.BiosMemory, n: nat, ceiling: nat, ghost pool: seq<nat>) returns (halted: bool)
    requires Backs(mem, pool, ceiling) && n <= |pool|
    modifies mem`count, mem.entries
    ensures halted <==> Crowded(old(mem.Contents()), pool[..n], mem.entries.Length, ceiling)
    ensures !halted ==>
              && Backs(mem, pool[n..], ceiling) && LiveWalk.SameRam(old(mem.Contents()), mem.Contents())
              && Continues(old(mem.Contents()), mem.Contents(), pool, n, mem.entries.Length, ceiling)
              && mem.count <= old(mem.count) + 2 * n
              && (n == 0 ==> mem.Contents() == old(mem.Contents()))
  {
    hide Draws, BiosAllocator.FreeAligned, Canonical, AllKnown, LiveWalk.SameRam, NoSlots, Continues, Crowded;
    LiveWalk.SameRamRefl(mem.Contents());
    ContinuesStart(mem.Contents(), pool, mem.entries.Length, ceiling);
    var i := 0;
    while i < n
      invariant i <= n && mem.count <= old(mem.count) + 2 * i
      invariant Backs(mem, pool[i..], ceiling) && LiveWalk.SameRam(old(mem.Contents()), mem.Contents())
      invariant Continues(old(mem.Contents()), mem.Contents(), pool, i, mem.entries.Length, ceiling)
      invariant i == 0 ==> mem.Contents() == old(mem.Contents())
    {
      ghost var s := mem.Contents();
      DrawsNext(s, pool[i..], ceiling);
      ContinuesAt(old(mem.Contents()), s, pool, i, n - i, mem.entries.Length, ceiling);
      halted := Draw(mem, ceiling, pool[i..]);
      if halted {
        CrowdedNow(s, pool[i..][..n - i], mem.entries.Length, ceiling);
        return;
      }
      LiveWalk.SameRamTrans(old(mem.Contents()), s, mem.Contents());
      ContinuesStep(old(mem.Contents()), s, mem.Contents(), pool, i, mem.entries.Length, ceiling);
      assert pool[i..][1..] == pool[i + 1..];
      i := i + 1;
    }
    ContinuesAt(old(mem.Contents()), mem.Contents(), pool, n, 0, mem.entries.Length, ceiling);
    NothingCrowded(mem.Contents(), pool[n..][..0], mem.entries.Length, ceiling);
    halted := false;
  }

  lemma DrawsNext(s: seq<Entry>, pool: seq<nat>, ceiling: nat)
    requires Draws(s, pool, ceiling) && pool != []
    ensures BiosAllocator.IsHighest(s, pool[0], PAGE_SIZE, ceiling)
  {
  }

  lemma CrowdedNow(s: seq<Entry>, pages: seq<nat>, capacity: nat, ceiling: nat)
    requires NoSlots(s, capacity, ceiling) && pages != []
    ensures Crowded(s, pages, capacity, ceiling)
  {
  }

  lemma NothingCrowded(s: seq<Entry>, pages: seq<nat>, capacity: nat, ceiling: nat)
    requires pages == []
    ensures !Crowded(s, pages, capacity, ceiling)
  {
  }

  datatype LiveResult = Built | OutOfPages | MetHugePage | MapFull

  /** How a step of the builder ended, once its pages were taken out of the map. */
  function Ended(done: MapResult, full: bool): LiveResult {
    if full then MapFull else if done.Mapped? then Built else if done.NoPages? then OutOfPages else MetHugePage
  }

  /** What one step does to the map behind it: `held` and `left` are the pool before and after. */
  ghost predicate Stepped(s: seq<Entry>, t: seq<Entry>, held: seq<nat>, left: seq<nat>, capacity: nat, ceiling: nat,
                          top: nat) {
    && |left| <= |held| && left == held[|held| - |left|..] && |t| + 2 * |left| <= |s| + 2 * |held|
    && Next(s, t, top) && Continues(s, t, held, |held| - |left|, capacity, ceiling)
    && (|left| == |held| ==> t == s)
  }

  /** Takes the pages of a step, from `held` down to `left`, out of the map. */
  method Settle(mem: BiosAllocator.BiosMemory, n: nat, ceiling: nat, ghost held: seq<nat>, ghost left: seq<nat>,
                ghost top: nat)
    returns (full: bool)
    requires Backs(mem, held, ceiling) && LeftOf(left, held) && n == |held| - |left| && RamBelow(mem.Contents(), top)
    modifies mem`count, mem.entries
    ensures full <==> Crowded(old(mem.Contents()), held[..n], mem.entries.Length, ceiling)
    ensures !full ==>
              && Backs(mem, left, ceiling)
              && Stepped(old(mem.Contents()), mem.Contents(), held, left, mem.entries.Length, ceiling, top)
  {
    hide Draws, BiosAllocator.FreeAligned, Canonical, AllKnown, LiveWalk.SameRam, Next, RamBelow, LeftOf, Continues,
         Crowded;
    ghost var s := mem.Contents();
    LeftIs(left, held);
    full := DrawPages(mem, n, ceiling, held);
    if !full {
      NextIs(s, mem.Contents(), top);
    }
  }

  /** One visit: the entry at index `i` as the map is now, then the table pages of the flush, if any. */
  method VisitEntry(mem: BiosAllocator.BiosMemory, dm: DirectMapper, i: nat, ceiling: nat, ghost v: seq<Entry>,
                    ghost guard: bool, ghost top: nat)
    returns (r: LiveResult)
    requires Backs(mem, dm.pt.pool, ceiling) && dm.Walked(v, guard, top) && i < mem.count
    requires RamBelow(mem.Contents(), top)
    modifies mem`count, mem.entries, dm`ramBegin, dm`ramEnd, dm.pt`pool, dm.pt`tables, dm.pt`place
    ensures dm.pt.Valid() && (r.OutOfPages? ==> dm.pt.pool == []) && |dm.pt.pool| <= |old(dm.pt.pool)|
    ensures r.MapFull? <==>
              Crowded(old(mem.Contents()), old(dm.pt.pool)[..|old(dm.pt.pool)| - |dm.pt.pool|], mem.entries.Length,
                      ceiling)
    ensures r.MetHugePage? ==> AnyClash(HugeBytes(dm.pt.fmt), Runs(v), dm.L(top).Limit())
    ensures r.Built? ==>
              && Backs(mem, dm.pt.pool, ceiling) && dm.Walked(v + [old(mem.Contents())[i]], guard, top)
              && Stepped(old(mem.Contents()), mem.Contents(), old(dm.pt.pool), dm.pt.pool, mem.entries.Length, ceiling,
                         top)
    ensures !Flushes(HugeBytes(dm.pt.fmt), v, old(mem.Contents())[i]) && !r.MapFull? ==>
              r.Built? && mem.Contents() == old(mem.Contents())
  {
    hide Draws, BiosAllocator.FreeAligned, Canonical, AllKnown, LiveWalk.SameRam, Translate, Shows, AnyClash, Next,
         RamRuns.Mapped, RamBelow, LeftOf, Fits, Fold, HugeBytes, Unshared, PoolOk, Continues, Crowded, Flushes;
    ghost var held := dm.pt.pool;
    var had := |dm.pt.pool|;
    BelowNext(mem.Contents(), v, i, top);
    var done := dm.RamEntry(mem.entries[i], v, guard, top);
    LeftIs(dm.pt.pool, held);
    var full := Settle(mem, had - |dm.pt.pool|, ceiling, held, dm.pt.pool, top);
    r := Ended(done, full);
  }

  /** The map may have changed, but not its RAM. */
  ghost predicate Next(s: seq<Entry>, t: seq<Entry>, top: nat) {
    Ordered(t) && LiveWalk.SameRam(s, t) && RamBelow(t, top)
  }

  lemma NextIs(s: seq<Entry>, t: seq<Entry>, top: nat)
    requires Canonical(t) && LiveWalk.SameRam(s, t) && RamBelow(s, top)
    ensures Next(s, t, top)
  {
    StillBelow(s, t, top);
  }

  lemma NextThen(s: seq<Entry>, t: seq<Entry>, u: seq<Entry>, top: nat)
    requires Next(s, t, top) && Next(t, u, top)
    ensures Next(s, u, top)
  {
    LiveWalk.SameRamTrans(s, t, u);
  }

  /**
   The map-building steps over the live map. The entry at each index is read only when the walk gets there,
   after the table pages of all earlier visits were carved out of the same map.
   */
  method Build(mem: BiosAllocator.BiosMemory, dm: DirectMapper, ceiling: nat, guard: bool, ghost top: nat)
    returns (r: LiveResult, ghost maps: seq<seq<Entry>>, ghost v: seq<Entry>)
    requires Backs(mem, dm.pt.pool, ceiling) && dm.Ready(top) && RamBelow(mem.Contents(), top)
    requires dm.ramBegin == dm.ramEnd == 0
    requires forall va: nat :: Translate(dm.pt.fmt, dm.pt.tables, dm.pt.root, va) == None
    modifies mem`count, mem.entries, dm`ramBegin, dm`ramEnd, dm.pt`pool, dm.pt`tables, dm.pt`place
    ensures dm.pt.Valid() && (r.OutOfPages? ==> dm.pt.pool == []) && |dm.pt.pool| <= |old(dm.pt.pool)|
    ensures r.MapFull? <==>
              Crowded(old(mem.Contents()), old(dm.pt.pool)[..|old(dm.pt.pool)| - |dm.pt.pool|], mem.entries.Length,
                      ceiling)
    ensures r.Built? || r.MetHugePage? ==> LiveWalk.Walking(maps, v) && Next(old(mem.Contents()), maps[0], top)
    ensures r.MetHugePage? ==> AnyClash(HugeBytes(dm.pt.fmt), Runs(v), dm.L(top).Limit())
    ensures r.Built? ==>
              && LiveWalk.Walked(maps, v)
              && !AnyClash(HugeBytes(dm.pt.fmt), Runs(v), dm.L(top).Limit())
              && Shows(dm.pt.fmt, dm.pt.tables, dm.pt.root, dm.L(top), RamRuns.Mapped(HugeBytes(dm.pt.fmt), Runs(v)),
                       guard)
              && Backs(mem, dm.pt.pool, ceiling)
              && Stepped(old(mem.Contents()), mem.Contents(), old(dm.pt.pool), dm.pt.pool, mem.entries.Length, ceiling,
                         top)
    ensures OneStretch(HugeBytes(dm.pt.fmt), old(mem.Contents())) ==>
              !r.MetHugePage? && (r.Built? ==> LiveWalk.AllKept(maps, v))
  {
    hide Draws, BiosAllocator.FreeAligned, Canonical, AllKnown, LiveWalk.SameRam, LiveWalk.Walking, Translate, Shows,
         AnyClash, RamRuns.Mapped, RamBelow, LeftOf, Fits, Fold, HugeBytes, Unshared, PoolOk, Stepped, Crowded,
         OneStretch, Next, Flushes, LiveWalk.AllKept, Still;
    ghost var s0, pool := mem.Contents(), dm.pt.pool;
    r := StartLive(mem, dm, ceiling, guard, top);
    maps, v := [], [];
    if !r.Built? {
      return;
    }
    maps := [mem.Contents()];
    WalkStarts(HugeBytes(dm.pt.fmt), s0, mem.Contents(), pool, dm.pt.pool, mem.entries.Length, ceiling, top);
    var i := 0;
    while i < mem.count
      invariant Backs(mem, dm.pt.pool, ceiling) && dm.Walked(v, guard, top)
      invariant i == |v| && |maps| == i + 1 && maps[i] == mem.Contents()
      invariant LiveWalk.Walking(maps, v) && Next(s0, maps[0], top)
      invariant Stepped(s0, mem.Contents(), pool, dm.pt.pool, mem.entries.Length, ceiling, top)
      invariant OneStretch(HugeBytes(dm.pt.fmt), s0) ==> Still(HugeBytes(dm.pt.fmt), maps, v)
      invariant mem.count + 2 * |dm.pt.pool| <= old(mem.count) + 2 * |old(dm.pt.pool)| && |dm.pt.pool| <= |pool|
      decreases mem.count + 2 * |dm.pt.pool| - i
    {
      ghost var s, held := mem.Contents(), dm.pt.pool;
      SteppedFacts(s0, s, pool, held, mem.entries.Length, ceiling, top);
      r := VisitEntry(mem, dm, i, ceiling, v, guard, top);
      CrowdedLater(s0, s, pool, held, |held| - |dm.pt.pool|, mem.entries.Length, ceiling, top);
      if !r.Built? {
        StillNoClash(dm.pt.fmt, maps, v, dm.L(top).Limit());
        return;
      }
      SteppedThen(s0, s, mem.Contents(), pool, held, dm.pt.pool, mem.entries.Length, ceiling, top);
      SteppedFacts(s, mem.Contents(), held, dm.pt.pool, mem.entries.Length, ceiling, top);
      StillNext(HugeBytes(dm.pt.fmt), maps, v, mem.Contents());
      NextVisit(HugeBytes(dm.pt.fmt), s, maps, v, mem.Contents(), top);
      maps, v := maps + [mem.Contents()], v + [s[i]];
      i := i + 1;
    }
    StillIsKept(HugeBytes(dm.pt.fmt), maps, v);
    StillNoClash(dm.pt.fmt, maps, v, dm.L(top).Limit());
    ghost var s, held := mem.Contents(), dm.pt.pool;
    SteppedFacts(s0, s, pool, held, mem.entries.Length, ceiling, top);
    r := FinishLive(mem, dm, ceiling, v, guard, top);
    CrowdedLater(s0, s, pool, held, |held| - |dm.pt.pool|, mem.entries.Length, ceiling, top);
    if r.Built? {
      SteppedThen(s0, s, mem.Contents(), pool, held, dm.pt.pool, mem.entries.Length, ceiling, top);
    }
  }

  /** RAM above the first huge page is one stretch. */
  ghost predicate OneStretch(hp: nat, s: seq<Entry>) {
    forall x: nat, y: nat, z: nat :: hp <= x < y < z && Ram(s, x) && Ram(s, z) ==> Ram(s, y)
  }

  /** The walk has not changed its map, and its map has one stretch of RAM above the first huge page. */
  ghost predicate Still(hp: nat, maps: seq<seq<Entry>>, v: seq<Entry>) {
    && |maps| == |v| + 1 && |v| <= |maps[0]| && v == maps[0][..|v|] && Ordered(maps[0]) && OneStretch(hp, maps[0])
    && (forall k: nat :: k < |maps| ==> maps[k] == maps[0])
  }

  lemma StillIsKept(hp: nat, maps: seq<seq<Entry>>, v: seq<Entry>)
    ensures Still(hp, maps, v) ==> LiveWalk.AllKept(maps, v)
  {
    hide OneStretch, Ordered, Ram;
  }

  /** With one stretch, a run that reaches above the first huge page ends where the RAM does: no visit flushes it. */
  lemma NoFlush(hp: nat, s: seq<Entry>, k: nat)
    requires Ordered(s) && OneStretch(hp, s) && k < |s|
    ensures !Flushes(hp, s[..k], s[k])
  {
    if Flushes(hp, s[..k], s[k]) {
      OrderedPrefix(s, k);
      FoldRuns(s[..k]);
      PendingGap(s, k, Fold(s[..k]));
      assert false;
    }
  }

  lemma OrderedPrefix(s: seq<Entry>, k: nat)
    requires Ordered(s) && k <= |s|
    ensures OrderedRam(s[..k])
  {
  }

  /** Behind a pending run that the next RAM entry does not touch there is a gap. */
  lemma PendingGap(s: seq<Entry>, k: nat, f: Folded)
    requires Ordered(s) && k < |s| && FoldIs(s[..k], f) && IsRamType(s[k].kind) && f.pending.end != s[k].base
    requires f.pending.end > 0
    ensures f.pending.end < s[k].base && Ram(s, f.pending.end - 1) && Ram(s, s[k].base) && !Ram(s, f.pending.end)
  {
    var w, end := s[..k], f.pending.end;
    var i: nat :| i < |w| && IsRamType(w[i].kind) && w[i].End() == end;
    assert s[i] == w[i] && s[i].End() <= s[k].base;
    LiveWalk.RamHere(s, i, end - 1);
    LiveWalk.RamHere(s, k, s[k].base);
    forall j: nat | j < |s| ensures !IsRam(s[j], end) {
      if j < k { assert w[j] == s[j]; }
    }
  }

  /** Runs of one stretch do not clash, whatever their alignment. */
  lemma StretchNoClash(hp: nat, v: seq<Entry>, limit: nat)
    requires HugeSize(hp) && OrderedRam(v) && OneStretch(hp, v)
    ensures !AnyClash(hp, Runs(v), limit)
  {
    hide AnyClash, Ram, Fold, SharedHuge, OrderedRam;
    var rs := Runs(v);
    FoldRuns(v);
    ClashIff(hp, rs, limit);
    forall i: nat | i + 1 < |rs| ensures !SharedHuge(hp, rs[i], rs[i + 1], limit) {
      if SharedHuge(hp, rs[i], rs[i + 1], limit) {
        SharedReaches(hp, rs[i], rs[i + 1], limit);
        GapBetween(rs, i);
      }
    }
  }

  lemma SharedReaches(hp: nat, a: Run, b: Run, limit: nat)
    requires HugeSize(hp) && SharedHuge(hp, a, b, limit)
    ensures a.end > hp
  {
    hide AlignDown, AlignUp, OnPage, HugeBegin, HugeEnd;
    RoundFacts(hp, a);
    if a.end <= hp { RoundBelow(a, hp); }
  }

  lemma GapBetween(rs: seq<Run>, i: nat)
    requires Apart(rs) && i + 1 < |rs| && rs[i].end > 0
    ensures InRuns(rs, rs[i].end - 1) && InRuns(rs, rs[i + 1].begin) && !InRuns(rs, rs[i].end)
    ensures rs[i].end < rs[i + 1].begin
  {
    assert rs[i].Covers(rs[i].end - 1) && rs[i + 1].Covers(rs[i + 1].begin);
  }

  lemma EarlierIndex(s: seq<Entry>, m: nat, j: nat, y: nat, z: nat)
    requires Ordered(s) && m < |s| && j < |s| && s[m].Covers(y) && s[j].Covers(z) && y < z
    ensures m <= j
  {
  }

  /** What is visited of one stretch is one stretch. */
  lemma StretchPrefix(hp: nat, s: seq<Entry>, k: nat)
    requires Ordered(s) && OneStretch(hp, s) && k <= |s|
    ensures OneStretch(hp, s[..k])
  {
    hide Ram;
    forall x: nat, y: nat, z: nat | hp <= x < y < z && Ram(s[..k], x) && Ram(s[..k], z) ensures Ram(s[..k], y) {
      var i := LiveWalk.RamIn(s[..k], x);
      var j := LiveWalk.RamIn(s[..k], z);
      LiveWalk.RamHere(s, i, x);
      LiveWalk.RamHere(s, j, z);
      var m := LiveWalk.RamIn(s, y);
      EarlierIndex(s, m, j, y, z);
      LiveWalk.RamHere(s[..k], m, y);
    }
  }

  lemma StillNoClash(f: Format, maps: seq<seq<Entry>>, v: seq<Entry>, limit: nat)
    requires f.width >= 1
    ensures Still(HugeBytes(f), maps, v) ==> !AnyClash(HugeBytes(f), Runs(v), limit)
  {
    hide AnyClash, OneStretch, Ordered, OrderedRam, HugeBytes;
    if Still(HugeBytes(f), maps, v) {
      SmallPages(f);
      OrderedPrefix(maps[0], |v|);
      StretchPrefix(HugeBytes(f), maps[0], |v|);
      StretchNoClash(HugeBytes(f), v, limit);
    }
  }

  lemma StillNext(hp: nat, maps: seq<seq<Entry>>, v: seq<Entry>, s: seq<Entry>)
    requires |maps| == |v| + 1 && |v| < |maps[|v|]|
    requires !Flushes(hp, v, maps[|v|][|v|]) ==> s == maps[|v|]
    ensures Still(hp, maps, v) ==> Still(hp, maps + [s], v + [maps[|v|][|v|]])
  {
    hide OneStretch, Ordered, Flushes;
    if Still(hp, maps, v) {
      NoFlush(hp, maps[0], |v|);
      var maps', v' := maps + [s], v + [maps[|v|][|v|]];
      assert v' == maps[0][..|v'|];
      assert forall k: nat :: k < |maps'| ==> maps'[k] == maps[0];
    }
  }

  lemma StretchKept(hp: nat, s: seq<Entry>, t: seq<Entry>)
    requires LiveWalk.SameRam(s, t) && OneStretch(hp, s)
    ensures OneStretch(hp, t)
  {
    hide Ram;
  }

  lemma WalkStarts(hp: nat, s0: seq<Entry>, s: seq<Entry>, held: seq<nat>, left: seq<nat>, capacity: nat, ceiling: nat,
                   top: nat)
    requires Stepped(s0, s, held, left, capacity, ceiling, top)
    ensures LiveWalk.Walking([s], []) && Next(s0, s, top) && |left| <= |held| && |s| + 2 * |left| <= |s0| + 2 * |held|
    ensures OneStretch(hp, s0) ==> Still(hp, [s], [])
  {
    hide OneStretch, Continues, LiveWalk.SameRam;
    LiveWalk.StartWalking(s);
    if OneStretch(hp, s0) { StretchKept(hp, s0, s); }
  }

  lemma SteppedFacts(s: seq<Entry>, t: seq<Entry>, held: seq<nat>, left: seq<nat>, capacity: nat, ceiling: nat,
                     top: nat)
    requires Stepped(s, t, held, left, capacity, ceiling, top)
    ensures RamBelow(t, top) && |left| <= |held| && |t| + 2 * |left| <= |s| + 2 * |held|
  {
  }

  lemma SteppedThen(s: seq<Entry>, t: seq<Entry>, u: seq<Entry>, pool: seq<nat>, held: seq<nat>, left: seq<nat>,
                    capacity: nat, ceiling: nat, top: nat)
    requires Stepped(s, t, pool, held, capacity, ceiling, top) && Stepped(t, u, held, left, capacity, ceiling, top)
    ensures Stepped(s, u, pool, left, capacity, ceiling, top)
    ensures Next(t, u, top) && |left| <= |pool| && |u| + 2 * |left| <= |s| + 2 * |pool|
  {
    hide Continues, Next;
    NextThen(s, t, u, top);
    ContinuesThen(s, t, u, pool, |pool| - |held|, |held| - |left|, capacity, ceiling);
  }

  /** The pages of a later step find no slots exactly when the pages of all steps so far do. */
  lemma CrowdedLater(s: seq<Entry>, t: seq<Entry>, pool: seq<nat>, held: seq<nat>, n: nat, capacity: nat, ceiling: nat,
                     top: nat)
    requires Stepped(s, t, pool, held, capacity, ceiling, top) && n <= |held|
    ensures |held| <= |pool|
    ensures Crowded(t, held[..n], capacity, ceiling) <==> Crowded(s, pool[..|pool| - (|held| - n)], capacity, ceiling)
  {
    hide Continues, Crowded, Next;
    ContinuesAt(s, t, pool, |pool| - |held|, n, capacity, ceiling);
  }

  lemma NextVisit(hp: nat, t: seq<Entry>, maps: seq<seq<Entry>>, v: seq<Entry>, s: seq<Entry>, top: nat)
    requires |maps| == |v| + 1 && LiveWalk.Walking(maps, v) && |v| < |maps[|v|]|
    requires t == maps[|v|] && Next(t, s, top)
    requires !Flushes(hp, v, t[|v|]) ==> s == t
    ensures LiveWalk.Walking(maps + [s], v + [t[|v|]])
  {
    LiveWalk.WalkOn(maps, v, s);
  }

  /** The low pages, mapped before the walk starts. */
  method StartLive(mem: BiosAllocator.BiosMemory, dm: DirectMapper, ceiling: nat, guard: bool, ghost top: nat)
    returns (r: LiveResult)
    requires Backs(mem, dm.pt.pool, ceiling) && dm.Ready(top) && RamBelow(mem.Contents(), top)
    requires dm.ramBegin == dm.ramEnd == 0
    requires forall va: nat :: Translate(dm.pt.fmt, dm.pt.tables, dm.pt.root, va) == None
    modifies mem`count, mem.entries, dm.pt`pool, dm.pt`tables, dm.pt`place
    ensures dm.pt.Valid() && !r.MetHugePage? && (r.OutOfPages? ==> dm.pt.pool == [])
    ensures |dm.pt.pool| <= |old(dm.pt.pool)|
    ensures r.MapFull? <==>
              Crowded(old(mem.Contents()), old(dm.pt.pool)[..|old(dm.pt.pool)| - |dm.pt.pool|], mem.entries.Length,
                      ceiling)
    ensures r.Built? ==>
              && Backs(mem, dm.pt.pool, ceiling) && dm.Walked([], guard, top)
              && Stepped(old(mem.Contents()), mem.Contents(), old(dm.pt.pool), dm.pt.pool, mem.entries.Length, ceiling,
                         top)
  {
    hide Draws, BiosAllocator.FreeAligned, Canonical, AllKnown, LiveWalk.SameRam, Translate, Shows, AnyClash, Stepped,
         RamRuns.Mapped, RamBelow, LeftOf, Fits, HugeBytes, Unshared, PoolOk, Crowded;
    ghost var held := dm.pt.pool;
    var had := |dm.pt.pool|;
    var done := dm.MapLowSmallPages(guard, top);
    LeftIs(dm.pt.pool, held);
    var full := Settle(mem, had - |dm.pt.pool|, ceiling, held, dm.pt.pool, top);
    NoRunsYet(HugeBytes(dm.pt.fmt), dm.L(top).Limit());
    BelowStart(top);
    r := Ended(done, full);
  }

  /** The final flush and its table pages. */
  method FinishLive(mem: BiosAllocator.BiosMemory, dm: DirectMapper, ceiling: nat, ghost v: seq<Entry>,
                    ghost guard: bool, ghost top: nat)
    returns (r: LiveResult)
    requires Backs(mem, dm.pt.pool, ceiling) && dm.Walked(v, guard, top) && RamBelow(mem.Contents(), top)
    modifies mem`count, mem.entries, dm.pt`pool, dm.pt`tables, dm.pt`place
    ensures dm.pt.Valid() && (r.OutOfPages? ==> dm.pt.pool == []) && |dm.pt.pool| <= |old(dm.pt.pool)|
    ensures r.MapFull? <==>
              Crowded(old(mem.Contents()), old(dm.pt.pool)[..|old(dm.pt.pool)| - |dm.pt.pool|], mem.entries.Length,
                      ceiling)
    ensures r.MetHugePage? ==> AnyClash(HugeBytes(dm.pt.fmt), Runs(v), dm.L(top).Limit())
    ensures r.Built? ==>
              && !AnyClash(HugeBytes(dm.pt.fmt), Runs(v), dm.L(top).Limit())
              && Shows(dm.pt.fmt, dm.pt.tables, dm.pt.root, dm.L(top), RamRuns.Mapped(HugeBytes(dm.pt.fmt), Runs(v)),
                       guard)
              && Backs(mem, dm.pt.pool, ceiling)
              && Stepped(old(mem.Contents()), mem.Contents(), old(dm.pt.pool), dm.pt.pool, mem.entries.Length, ceiling,
                         top)
  {
    hide Draws, BiosAllocator.FreeAligned, Canonical, AllKnown, LiveWalk.SameRam, Translate, Shows, AnyClash, Stepped,
         RamRuns.Mapped, RamBelow, LeftOf, Fits, Fold, HugeBytes, Unshared, PoolOk, Crowded;
    ghost var held := dm.pt.pool;
    var had := |dm.pt.pool|;
    var done := dm.FinalFlush(v, guard, top);
    LeftIs(dm.pt.pool, held);
    var full := Settle(mem, had - |dm.pt.pool|, ceiling, held, dm.pt.pool, top);
    r := Ended(done, full);
  }

  /** `page_table_init`, with its pages taken out of the map. */
  method TakeRoot(mem: BiosAllocator.BiosMemory, t: PtType, accessFlag: bool, ceiling: nat, pages: seq<nat>,
                  ghost top: nat)
    returns (full: bool, pt: PageTable?)
    requires Backs(mem, pages, ceiling) && PoolOk(FormatOf(t, accessFlag), pages, map[])
    requires RamBelow(mem.Contents(), top)
    modifies mem`count, mem.entries
    ensures pt == null <==> |pages| < if t.I386Pae? then 5 else 1
    ensures pt != null ==>
              && fresh(pt) && pt.Valid() && pt.fmt == FormatOf(t, accessFlag) && |pt.pool| <= |pages|
              && forall va :: Translate(pt.fmt, pt.tables, pt.root, va) == None
    ensures full <==>
              var used := if pt == null then |pages| else |pages| - |pt.pool|;
              Crowded(old(mem.Contents()), pages[..used], mem.entries.Length, ceiling)
    ensures !full && pt != null ==>
              && Backs(mem, pt.pool, ceiling)
              && Stepped(old(mem.Contents()), mem.Contents(), pages, pt.pool, mem.entries.Length, ceiling, top)
  {
    hide Draws, BiosAllocator.FreeAligned, Canonical, AllKnown, Translate, RamBelow, LeftOf, Unshared, PoolOk, Stepped,
         Crowded, FormatOf, ValidFormat;
    pt := Init(t, accessFlag, pages);
    if pt == null {
      LeftOfNone(pages);
      full := Settle(mem, |pages|, ceiling, pages, [], top);
    } else {
      LeftIs(pt.pool, pages);
      full := Settle(mem, |pages| - |pt.pool|, ceiling, pages, pt.pool, top);
    }
  }

  /**
   `page_table_init` and the direct map of `do_build_page_table` over the live map, from the page of the root on.
   `pages` are the pages the map will hand out.
   */
  method BuildPageTable(mem: BiosAllocator.BiosMemory, t: PtType, accessFlag: bool, base: nat, higher: nat, lower: nat,
                        ceiling: nat, guard: bool, pages: seq<nat>, ghost top: nat)
    returns (r: LiveResult, pt: PageTable?, ghost maps: seq<seq<Entry>>, ghost v: seq<Entry>)
    requires Backs(mem, pages, ceiling) && PoolOk(FormatOf(t, accessFlag), pages, map[])
    requires Fits(FormatOf(t, accessFlag), base, higher, lower, top) && RamBelow(mem.Contents(), top)
    modifies mem`count, mem.entries
    ensures pt == null <==> |pages| < if t.I386Pae? then 5 else 1
    ensures pt != null ==> fresh(pt) && pt.Valid() && pt.fmt == FormatOf(t, accessFlag) && |pt.pool| <= |pages|
    ensures r.MapFull? <==>
              var used := if pt == null then |pages| else |pages| - |pt.pool|;
              Crowded(old(mem.Contents()), pages[..used], mem.entries.Length, ceiling)
    ensures r.OutOfPages? ==> pt == null || pt.pool == []
    ensures r.Built? || r.MetHugePage? ==>
              pt != null && LiveWalk.Walking(maps, v) && Next(old(mem.Contents()), maps[0], top)
    ensures r.MetHugePage? ==>
              AnyClash(HugeBytes(pt.fmt), Runs(v), LayoutOf(pt.fmt, base, higher, lower, top).Limit())
    ensures r.Built? ==>
              && LiveWalk.Walked(maps, v)
              && Shows(pt.fmt, pt.tables, pt.root, LayoutOf(pt.fmt, base, higher, lower, top),
                       RamRuns.Mapped(HugeBytes(pt.fmt), Runs(v)), guard)
    ensures OneStretch(HugeBytes(FormatOf(t, accessFlag)), old(mem.Contents())) ==>
              !r.MetHugePage? && (r.Built? ==> LiveWalk.AllKept(maps, v))
  {
    hide Draws, BiosAllocator.FreeAligned, Canonical, AllKnown, LiveWalk.SameRam, LiveWalk.Walking, Translate, Shows,
         AnyClash, RamRuns.Mapped, RamBelow, LeftOf, Fits, Fold, HugeBytes, Unshared, PoolOk, Stepped, Crowded,
         OneStretch, Next, LiveWalk.AllKept, FormatOf, ValidFormat;
    ghost var s0 := mem.Contents();
    maps, v := [], [];
    var full;
    full, pt := TakeRoot(mem, t, accessFlag, ceiling, pages, top);
    if full || pt == null {
      return if full then MapFull else OutOfPages, pt, maps, v;
    }
    ghost var s, held := mem.Contents(), pt.pool;
    SteppedFacts(s0, s, pages, held, mem.entries.Length, ceiling, top);
    SteppedStretch(HugeBytes(pt.fmt), s0, s, pages, held, mem.entries.Length, ceiling, top);
    var dm := new DirectMapper(pt, base, higher, lower);
    r, maps, v := Build(mem, dm, ceiling, guard, top);
    CrowdedLater(s0, s, pages, held, |held| - |pt.pool|, mem.entries.Length, ceiling, top);
    if r.Built? || r.MetHugePage? {
      SteppedWalk(s0, s, maps, v, pages, held, mem.entries.Length, ceiling, top);
    }
  }

  lemma LeftOfNone(pool: seq<nat>)
    ensures LeftOf([], pool) && pool[..|pool|] == pool
  {
  }

  lemma SteppedStretch(hp: nat, s: seq<Entry>, t: seq<Entry>, held: seq<nat>, left: seq<nat>, capacity: nat,
                       ceiling: nat, top: nat)
    requires Stepped(s, t, held, left, capacity, ceiling, top)
    ensures OneStretch(hp, s) ==> OneStretch(hp, t)
  {
    hide OneStretch, Continues, LiveWalk.SameRam;
    if OneStretch(hp, s) { StretchKept(hp, s, t); }
  }

  lemma SteppedWalk(s: seq<Entry>, t: seq<Entry>, maps: seq<seq<Entry>>, v: seq<Entry>, held: seq<nat>, left: seq<nat>,
                    capacity: nat, ceiling: nat, top: nat)
    requires Stepped(s, t, held, left, capacity, ceiling, top) && LiveWalk.Walking(maps, v) && Next(t, maps[0], top)
    ensures maps != [] && Next(s, maps[0], top)
  {
    hide Continues, Next;
    NextThen(s, t, maps[0], top);
  }

  lemma LeftIs(left: seq<nat>, pool: seq<nat>)
    requires LeftOf(left, pool)
    ensures |left| <= |pool| && pool[|pool| - |left|..] == left
  {
  }

  lemma BelowStart(top: nat)
    ensures RamBelow([], top)
  {
  }

  lemma BelowNext(s: seq<Entry>, v: seq<Entry>, i: nat, top: nat)
    requires RamBelow(s, top) && RamBelow(v, top) && i < |s|
    ensures RamBelow(v + [s[i]], top)
  {
  }

  // ----- What an undisturbed walk builds -----

  /** A walk that disturbs nothing behind it never meets the huge-page check on page-aligned RAM. */
  lemma UndisturbedNoClash(hp: nat, maps: seq<seq<Entry>>, v: seq<Entry>, limit: nat)
    requires HugeSize(hp) && LiveWalk.Walking(maps, v) && AlignedRam(v)
    requires forall k: nat :: k < |v| ==> LiveWalk.Kept(maps, k)
    ensures !AnyClash(hp, Runs(v), limit)
  {
    hide AnyClash, OrderedRam, AlignedRam;
    LiveWalk.KeptIsOrdered(maps, v);
    AlignedNoClash(hp, v, limit);
  }

  /** And then the direct map is that of the RAM there was at the start. */
  lemma UndisturbedIsRam(f: Format, tables: Tables, root: nat, base: nat, higher: nat, lower: nat, top: nat,
                         maps: seq<seq<Entry>>, v: seq<Entry>, guard: bool, pa: nat)
    requires Fits(f, base, higher, lower, top) && LiveWalk.Walked(maps, v) && AlignedRam(v) && RamBelow(v, top)
    requires forall k: nat :: k < |v| ==> LiveWalk.Kept(maps, k)
    requires Shows(f, tables, root, LayoutOf(f, base, higher, lower, top), RamRuns.Mapped(HugeBytes(f), Runs(v)), guard)
    requires HugeBytes(f) <= pa && base % FlatBytes(f) + pa < FlatBytes(f)
    ensures Translate(f, tables, root, base + pa)
         == if pa < higher && Ram(maps[0], pa)
            then Some(Leaf(pa, if AllRam(HugeBytes(f), maps[0], pa) then 1 else 0)) else None
  {
    hide Translate, Residue, FlatBytes, Fits, AlignedRam, RamBelow, Shows, OrderedRam, LiveWalk.Walking, LiveWalk.Kept,
         Ram, HugeBytes;
    LiveWalk.KeptIsExact(maps, v);
    DirectMapIsRam(f, tables, root, base, higher, lower, top, v, guard, pa);
    assert AllRam(HugeBytes(f), maps[0], pa) <==> AllRam(HugeBytes(f), v, pa);
  }

  // ----- A walk that is disturbed -----

  /** Free memory up to 8 MiB below loader memory, after `d` pages were taken off its top. */
  function Shrunk(d: nat): seq<Entry>
    requires d < 512
  {
    [Entry(0, 4 * MIB + PAGE_SIZE, FREE), Entry(4 * MIB + PAGE_SIZE, 2 * MIB - PAGE_SIZE, RESERVED),
     Entry(6 * MIB, 2 * MIB - d * PAGE_SIZE, FREE),
     Entry(8 * MIB - d * PAGE_SIZE, 2 * MIB + d * PAGE_SIZE, LOADER_RECLAIMABLE)]
  }

  lemma FourEntries(s: seq<Entry>, a: nat)
    requires |s| == 4 && Ordered(s)
    ensures TypeAt(s, a)
         == if s[0].Covers(a) then Some(s[0].kind)
            else if s[1].Covers(a) then Some(s[1].kind)
            else if s[2].Covers(a) then Some(s[2].kind)
            else if s[3].Covers(a) then Some(s[3].kind) else None
  {
    hide TypeAt;
    if TypeAt(s, a).Some? {
      var i := TypeAtCovered(s, a);
      TypeAtIndex(s, i, a);
    }
    forall i | 0 <= i < 4 && s[i].Covers(a) ensures TypeAt(s, a) == Some(s[i].kind) { TypeAtIndex(s, i, a); }
  }

  /** The next page comes off the top of that memory and joins the loader memory above. */
  lemma ShrinksByDraw(d: nat)
    requires d < 511
    ensures BiosAllocator.TakesHighest(Shrunk(d), Shrunk(d + 1), PAGE_SIZE, TWO_32, LOADER_RECLAIMABLE,
                                       8 * MIB - (d + 1) * PAGE_SIZE)
  {
    var s, t, page := Shrunk(d), Shrunk(d + 1), 8 * MIB - (d + 1) * PAGE_SIZE;
    var taken := Entry(page, PAGE_SIZE, LOADER_RECLAIMABLE);
    forall a: nat ensures TypeAt(t, a) == BiosAllocator.CarvedType(s[2], taken, a, TypeAt(s, a)) {
      FourEntries(s, a);
      FourEntries(t, a);
    }
    assert BiosAllocator.CarvedOut(s, t, 2, taken);
    BiosAllocator.HighestWindow(s, 2, PAGE_SIZE, TWO_32);
  }

  /** The maps at each visit when the flush made by the third visit takes `d` pages. */
  function DisturbedMaps(d: nat): seq<seq<Entry>>
    requires d < 512
  {
    [Shrunk(0), Shrunk(0), Shrunk(0), Shrunk(d), Shrunk(d)]
  }

  function DisturbedVisits(d: nat): seq<Entry>
    requires d < 512
  {
    Shrunk(0)[..3] + [Shrunk(d)[3]]
  }

  lemma ShrunkRam(d: nat, pa: nat)
    requires d < 512
    ensures Ram(Shrunk(d), pa) <==> pa < 4 * MIB + PAGE_SIZE || 6 * MIB <= pa < 10 * MIB
  {
    var s := Shrunk(d);
    hide Ram;
    if Ram(s, pa) { var i := LiveWalk.RamIn(s, pa); }
    if s[0].Covers(pa) { LiveWalk.RamHere(s, 0, pa); }
    if s[2].Covers(pa) { LiveWalk.RamHere(s, 2, pa); }
    if s[3].Covers(pa) { LiveWalk.RamHere(s, 3, pa); }
  }

  lemma DisturbedWalks(d: nat)
    requires d < 512
    ensures LiveWalk.Walked(DisturbedMaps(d), DisturbedVisits(d))
  {
    hide LiveWalk.SameRam, Ordered, Shrunk;
    var maps, v := DisturbedMaps(d), DisturbedVisits(d);
    ShrunkFacts(0);
    ShrunkFacts(d);
    LiveWalk.SameRamRefl(Shrunk(0));
    LiveWalk.SameRamRefl(Shrunk(d));
    ShrunkSame(d);
    forall k: nat | k < |v| ensures k < |maps[k]| && v[k] == maps[k][k] && LiveWalk.SameRam(maps[k], maps[k + 1]) {
    }
  }

  lemma ShrunkFacts(d: nat)
    requires d < 512
    ensures |Shrunk(d)| == 4 && Ordered(Shrunk(d)) && IsRamType(Shrunk(d)[2].kind)
  {
  }

  lemma ShrunkSame(d: nat)
    requires d < 512
    ensures LiveWalk.SameRam(Shrunk(0), Shrunk(d))
  {
    hide Ram, Shrunk;
    forall pa: nat ensures Ram(Shrunk(0), pa) <==> Ram(Shrunk(d), pa) {
      ShrunkRam(0, pa);
      ShrunkRam(d, pa);
    }
  }

  /** The byte below 8 MiB was visited in the third entry and is ahead of the cursor again. */
  lemma DisturbedBehind(d: nat)
    requires 0 < d < 512
    ensures !LiveWalk.Kept(DisturbedMaps(d), 2)
  {
    var s, t, pa := Shrunk(0), Shrunk(d), 8 * MIB - 1;
    LiveWalk.RamBelowIs(s, 3, 2, pa);
    var below := LiveWalk.Below(t, 3);
    forall i: nat | i < |below| ensures !IsRam(below[i], pa) {
      assert below[i] == t[i];
    }
    assert !Ram(below, pa);
  }

  lemma DisturbedRuns(d: nat)
    requires 0 < d < 512
    ensures Runs(DisturbedVisits(d))
         == [Run(0, 4 * MIB + PAGE_SIZE)] + [Run(6 * MIB, 8 * MIB)] + [Run(8 * MIB - d * PAGE_SIZE, 10 * MIB)]
  {
    hide Fold;
    var s, e := Shrunk(0), Shrunk(d)[3];
    FoldFour(s[0], s[1], s[2], e);
    assert DisturbedVisits(d) == [s[0]] + [s[1]] + [s[2]] + [e];
  }

  /** The page where the last run starts lies in the huge page of the run before it. */
  lemma DisturbedPage(d: nat)
    requires 0 < d < 512
    ensures var a, b, pa := Run(6 * MIB, 8 * MIB), Run(8 * MIB - d * PAGE_SIZE, 10 * MIB), 8 * MIB - d * PAGE_SIZE;
            HugeSize(2 * MIB) && InHuge(2 * MIB, a, pa) && InRounded(2 * MIB, b, pa) && !InHuge(2 * MIB, b, pa)
  {
  }

  /**
   The third visit flushes the first run, whose small tail needs a table in each window. The pages come off the
   entry being visited, the last entry now starts inside it, and its small head meets the huge page just mapped.
   */
  lemma DisturbedExample(d: nat, limit: nat)
    requires 0 < d < 512 && limit > 8 * MIB
    ensures LiveWalk.Walked(DisturbedMaps(d), DisturbedVisits(d)) && !LiveWalk.Kept(DisturbedMaps(d), 2)
    ensures AnyClash(2 * MIB, Runs(DisturbedVisits(d)), limit)
  {
    hide LiveWalk.Walked, LiveWalk.Kept, InHuge, InRounded, Pieces, LevelAt, HugeSize, Fold;
    DisturbedWalks(d);
    DisturbedBehind(d);
    DisturbedRuns(d);
    DisturbedPage(d);
    var low, a, b := Run(0, 4 * MIB + PAGE_SIZE), Run(6 * MIB, 8 * MIB), Run(8 * MIB - d * PAGE_SIZE, 10 * MIB);
    MappedSnoc(2 * MIB, [low], a);
    LevelConcat(RamRuns.Mapped(2 * MIB, [low]), Pieces(2 * MIB, a), b.begin);
    PiecesLevel(2 * MIB, a, b.begin);
    HugeInRounded(2 * MIB, a, b.begin);
    assert RunClash(2 * MIB, [low] + [a], b, limit);
    AnyClashSnoc(2 * MIB, [low] + [a], b, limit);
  }
}
