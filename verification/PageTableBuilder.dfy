/**
 `page_table_init`, `table_at`, `get_pte`, `bulk_map_pages` and `map_pages` as methods over the
 heap of table pages, each proved against the translation in `AddressPaths`.
 */
module PageTableBuilder {
  import opened Arith
  import opened PageTables
  import opened AddressPaths

  datatype PtType = I386NoPae | I386Pae | Amd64FourLevel | Amd64FiveLevel | Aarch64Granule48 | Aarch64Granule52

  /**
   Per-mode parameters. AArch64 counts the TTBR choice as one more level; its attribute bits 8..10 are
   shareability, not with 52 bits, and the access flag, set unless hardware manages it.
   */
  function FormatOf(t: PtType, accessFlag: bool): (f: Format)
    ensures ValidFormat(f)
  {
    var access := if accessFlag then 4 else 0;
    match t
    case I386NoPae => Format(X86, 2, 10, 32, 52)
    case I386Pae => Format(X86, 3, 9, 64, 52)
    case Amd64FourLevel => Format(X86, 4, 9, 64, 52)
    case Amd64FiveLevel => Format(X86, 5, 9, 64, 52)
    case Aarch64Granule48 => Format(Aarch64(3 + access), 5, 9, 64, 48)
    case Aarch64Granule52 => Format(Aarch64(access), 6, 9, 64, 48)
  }

  /** Pages an allocator may hand out for tables: page aligned, addressable, distinct and unused. */
  ghost predicate PoolOk(f: Format, pool: seq<nat>, tables: Tables) {
    && (forall i :: 0 <= i < |pool| ==>
          0 < pool[i] < Pow2(AddressBits(f)) && pool[i] % PAGE_SIZE == 0 && pool[i] !in tables)
    && (forall i, j :: 0 <= i < j < |pool| ==> pool[i] != pool[j])
  }

  /** What is left of a pool after some pages were taken off its front. */
  ghost predicate LeftOf(left: seq<nat>, pool: seq<nat>) {
    |left| <= |pool| && left == pool[|pool| - |left|..]
  }

  lemma LeftOfAll(pool: seq<nat>)
    ensures LeftOf(pool, pool)
  {
  }

  lemma LeftOfLeft(a: seq<nat>, b: seq<nat>, c: seq<nat>)
    requires LeftOf(a, b) && LeftOf(b, c)
    ensures LeftOf(a, c) && |a| <= |b| <= |c|
  {
  }

  /**
   A slot as the builder leaves it in a table at `level`: empty, a link, or a leaf on the boundary of its page. The
   links of the 32-bit PAE root have no flag but the present bit.
   */
  ghost predicate SlotFormed(f: Format, level: nat, e: nat) {
    || e == 0
    || (&& e < Pow2(f.entryBits)
        && (|| (level > 0 && e % PAGE_SIZE == TableFlags(f))
            || (level == 2 && f.levels == 3 && f.arch.X86? && e % PAGE_SIZE == 1)
            || (level == 0 && e % PAGE_SIZE == LeafFlags(f, Normal))
            || (level == 1 && e % PageBytes(f, 1) == LeafFlags(f, Huge))))
  }

  /** Every table is a page and every slot is formed. */
  ghost predicate Formed(f: Format, tables: Tables, place: Places) {
    && place.Keys == tables.Keys
    && (forall t :: t in tables ==>
          t % PAGE_SIZE == 0 && |place[t]| < f.levels && TableFormed(f, tables[t], |place[t]|))
  }

  ghost predicate TableFormed(f: Format, slots: seq<nat>, depth: nat)
    requires depth < f.levels
  {
    forall i :: 0 <= i < |slots| ==> SlotFormed(f, f.levels - 1 - depth, slots[i])
  }

  /** 32-bit PAE: the four root slots are links with the present bit alone. */
  ghost predicate RootReady(f: Format, tables: Tables, root: nat) {
    f.arch.X86? && f.levels == 3 ==>
      root in tables && |tables[root]| >= 4 && forall i :: 0 <= i < 4 ==> tables[root][i] % PAGE_SIZE == 1
  }

  /** No leaf above `level` stands in the way of a walk for `va`. */
  ghost predicate NothingHugeAbove(f: Format, tables: Tables, root: nat, va: nat, level: nat) {
    var t := Translate(f, tables, root, va);
    t.Some? ==> t.value.level <= level
  }

  ghost predicate SameTranslation(f: Format, before: Tables, after: Tables, root: nat) {
    forall va :: Translate(f, after, root, va) == Translate(f, before, root, va)
  }

  /** Translation after is the first `n` pages of the request laid over translation before. */
  ghost predicate Overlaid(f: Format, before: Tables, after: Tables, root: nat, kind: PageKind, v: nat, p: nat, n: nat)
    requires f.levels >= 2
  {
    forall va :: Translate(f, after, root, va) == Overlay(f, kind, v, p, n, va, Translate(f, before, root, va))
  }

  /** A table, none because no page is left, or a huge page where a table should be. */
  datatype TableResult = Table(address: nat) | NoPage | HugePage

  datatype MapResult = Mapped | NoPages | HugeInWay

  class PageTable {
    const fmt: Format
    var root: nat
    var tables: Tables
    /** Pages the allocator has left, in the order it will return them. */
    var pool: seq<nat>
    ghost var place: Places

    ghost predicate ValidTree()
      reads this
    {
      && ValidFormat(fmt)
      && Unshared(fmt, tables, root, place)
      && Formed(fmt, tables, place)
      && PoolOk(fmt, pool, tables)
      && 0 !in tables
    }

    ghost predicate Valid()
      reads this
    {
      ValidTree() && RootReady(fmt, tables, root)
    }

    /** A lone zeroed root. */
    constructor (f: Format, pages: seq<nat>)
      requires ValidFormat(f) && PoolOk(f, pages, map[]) && pages != []
      ensures ValidTree() && fmt == f && pool == pages[1..]
      ensures tables == map[root := Zeros(fmt)] && place == map[root := []]
      ensures forall va :: Translate(fmt, tables, root, va) == None
    {
      fmt := f;
      root := pages[0];
      tables := map[pages[0] := Zeros(f)];
      pool := pages[1..];
      place := map[pages[0] := []];
      new;
      FreshRoot(f, pages[0]);
      FreshFormed(f, pages[0]);
    }

    /** 32-bit PAE fills its four root slots up front; running out of pages halts. */
    method PopulatePaeRoot() returns (ok: bool)
      requires ValidTree() && fmt.arch.X86? && fmt.levels == 3 && fmt.width >= 2
      requires tables == map[root := Zeros(fmt)] && place == map[root := []]
      requires forall va :: Translate(fmt, tables, root, va) == None
      modifies this`pool, this`tables, this`place
      ensures ValidTree() && (ok <==> |old(pool)| >= 4) && LeftOf(pool, old(pool))
      ensures forall va :: Translate(fmt, tables, root, va) == None
      ensures ok ==> Valid()
    {
      hide Translate, Formed;
      Pow2Monotone(2, fmt.width);
      var i := 0;
      while i < 4
        invariant 0 <= i <= 4 && |pool| == |old(pool)| - i && LeftOf(pool, old(pool))
        invariant ValidTree()
        invariant |tables[root]| >= 4
        invariant forall j :: 0 <= j < i ==> tables[root][j] % PAGE_SIZE == 1
        invariant forall j :: i <= j < |tables[root]| ==> tables[root][j] == 0
        invariant SameTranslation(fmt, old(tables), tables, root)
      {
        var child := AddTable(root, i, 1);
        if child == 0 {
          return false;
        }
        i := i + 1;
      }
      ok := true;
    }

    /** `pt_get_table_page`: the next page, or 0 when the allocator has none left. */
    method GetTablePage() returns (page: nat)
      modifies this`pool
      ensures old(pool) == [] ==> page == 0 && pool == []
      ensures old(pool) != [] ==> page == old(pool)[0] && pool == old(pool)[1..]
    {
      if pool == [] {
        page := 0;
      } else {
        page := pool[0];
        pool := pool[1..];
      }
    }

    /** A fresh zeroed table behind absent slot `idx` of `t`; 0 and no change when out of pages. */
    method AddTable(t: nat, idx: nat, flags: nat) returns (child: nat)
      requires ValidTree() && flags < PAGE_SIZE && IsLink(fmt, flags)
      requires t in tables && |place[t]| + 1 < fmt.levels && idx < |tables[t]| && !Present(tables[t][idx])
      requires flags == TableFlags(fmt) || (flags == 1 && fmt.arch.X86? && fmt.levels == 3 && place[t] == [])
      modifies this`pool, this`tables, this`place
      ensures ValidTree() && (RootReady(fmt, old(tables), root) ==> RootReady(fmt, tables, root))
      ensures old(pool) == [] ==> child == 0 && pool == [] && tables == old(tables) && place == old(place)
      ensures old(pool) != [] ==>
                && child != 0
                && |pool| == |old(pool)| - 1
                && t in tables && |tables[t]| == |old(tables)[t]|
                && IsLink(fmt, tables[t][idx])
                && Address(fmt, tables[t][idx]) == child && tables[t][idx] % PAGE_SIZE == flags
                && (forall i :: 0 <= i < |tables[t]| && i != idx ==> tables[t][i] == old(tables)[t][i])
      ensures LeftOf(pool, old(pool))
      ensures SameTranslation(fmt, old(tables), tables, root)
      ensures KeepsDescents(fmt, old(tables), tables, root)
    {
      hide Formed, TableOk, Translate, Descend, TableFlags, Address, Present, IsHuge, Stored, Zeros, RootReady;
      child := GetTablePage();
      if child == 0 {
        return;
      }
      var e := Stored(fmt, child + flags);
      ChildLink(fmt, tables, root, place, t, idx, child, flags);
      place := place[child := place[t] + [idx]];
      tables := WithTable(fmt, tables, t, idx, e);
    }

    /** `table_at`: the table behind a slot, created when absent. A huge page there is a bug. */
    method TableAt(t: nat, idx: nat) returns (r: TableResult)
      requires Valid()
      requires t in tables && |place[t]| + 1 < fmt.levels && idx < |tables[t]|
      modifies this`pool, this`tables, this`place
      ensures Valid()
      ensures r.HugePage? <==> Present(old(tables)[t][idx]) && IsHuge(fmt, old(tables)[t][idx])
      ensures LeftOf(pool, old(pool)) && (r.NoPage? ==> pool == [])
      ensures |pool| == |old(pool)| ==> tables == old(tables)
      ensures !r.Table? ==> tables == old(tables) && place == old(place)
      ensures r.Table? ==>
                && r.address != 0 && t in tables && idx < |tables[t]|
                && IsLink(fmt, tables[t][idx])
                && Address(fmt, tables[t][idx]) == r.address
      ensures SameTranslation(fmt, old(tables), tables, root)
      ensures KeepsDescents(fmt, old(tables), tables, root)
    {
      var e := tables[t][idx];
      if Present(e) {
        if IsHuge(fmt, e) {
          return HugePage;
        }
        assert TableOk(fmt, tables, place, t);
        return Table(Address(fmt, e));
      }
      LinkFlags(fmt);
      var child := AddTable(t, idx, TableFlags(fmt));
      r := if child == 0 then NoPage else Table(child);
    }

    /**
     `get_pte`: the table at `wantLevel - 1` that a walk for `va` passes, building what is missing. It meets
     the huge-page check exactly when a larger page is in the way.
     */
    method GetPte(va: nat, wantLevel: nat) returns (r: TableResult)
      requires Valid() && 1 <= wantLevel <= fmt.levels
      modifies this`pool, this`tables, this`place
      ensures Valid()
      ensures SameTranslation(fmt, old(tables), tables, root)
      ensures LeftOf(pool, old(pool)) && (r.NoPage? ==> pool == [])
      ensures |pool| == |old(pool)| ==> tables == old(tables)
      ensures r.HugePage? ==> !NothingHugeAbove(fmt, old(tables), root, va, wantLevel - 1)
      ensures r.Table? ==> Descend(fmt, tables, root, IndexPath(fmt, va, wantLevel)) == Some(r.address)
    {
      hide LevelIndex, PoolOk, Address, IsHuge, Present, PageBytes, Unshared, Translate, Pow2, Walk, LeftOf;
      LeftOfAll(pool);
      RootIsTable(fmt, tables, root, place);
      r := Table(root);
      var level := fmt.levels;
      while level > wantLevel
        invariant wantLevel <= level <= fmt.levels
        invariant Valid()
        invariant SameTranslation(fmt, old(tables), tables, root)
        invariant r.Table? && r.address != 0 && LeftOf(pool, old(pool))
        invariant |pool| <= |old(pool)| && (|pool| == |old(pool)| ==> tables == old(tables))
        invariant Descend(fmt, tables, root, IndexPath(fmt, va, level)) == Some(r.address)
      {
        level := level - 1;
        StandsOnTable(fmt, tables, root, place, va, level, r.address);
        ghost var held := pool;
        r := TableAt(r.address, LevelIndex(fmt, va, level));
        LeftOfLeft(pool, held, old(pool));
        if !r.Table? {
          return;
        }
        DescendMore(fmt, tables, root, IndexPath(fmt, va, level + 1), LevelIndex(fmt, va, level));
      }
    }

    /** The slot-writing loop of `bulk_map_pages`. */
    method WriteSlots(kind: PageKind, table: nat, slot: nat, p: nat, n: nat)
      requires table in tables && slot + n <= |tables[table]|
      modifies this`tables
      ensures table in tables && tables == old(tables)[table := tables[table]]
      ensures IsFilled(fmt, kind, old(tables)[table], tables[table], slot, p, n)
    {
      var pte := p + LeafFlags(fmt, kind);
      var k := 0;
      while k < n
        invariant 0 <= k <= n
        invariant pte == PageBase(fmt, kind, p, k) + LeafFlags(fmt, kind)
        invariant table in tables && tables == old(tables)[table := tables[table]]
        invariant IsFilled(fmt, kind, old(tables)[table], tables[table], slot, p, k)
      {
        var slots: seq<nat> := tables[table][slot + k := Stored(fmt, pte)];
        tables := tables[table := slots];
        PageBaseAdd(fmt, kind, p, k, 1);
        pte := pte + PageBytes(fmt, LeafLevel(kind));
        k := k + 1;
      }
    }

    /**
     `bulk_map_pages`: fills the rest of one leaf table, `mapped` pages in all, and reports how far it got.
     Nothing is mapped when a table page cannot be allocated or a larger page is in the way.
     */
    method BulkMapPages(kind: PageKind, v: nat, p: nat, count: nat) returns (r: MapResult, mapped: nat)
      requires Valid() && count > 0
      requires v % PageBytes(fmt, LeafLevel(kind)) == 0 && p % PageBytes(fmt, LeafLevel(kind)) == 0
      modifies this`pool, this`tables, this`place
      ensures Valid()
      ensures if r.Mapped? then 0 < mapped <= count else mapped == 0
      ensures LeftOf(pool, old(pool)) && (r.NoPages? ==> pool == [])
      ensures r.HugeInWay? ==> !NothingHugeAbove(fmt, old(tables), root, v, LeafLevel(kind))
      ensures forall k: nat :: k < mapped ==>
                NothingHugeAbove(fmt, old(tables), root, PageBase(fmt, kind, v, k), LeafLevel(kind))
      ensures Overlaid(fmt, old(tables), tables, root, kind, v, p, mapped)
      ensures r.Mapped? && |pool| == |old(pool)| ==>
                Descend(fmt, old(tables), root, IndexPath(fmt, v, LeafLevel(kind) + 1)).Some?
    {
      hide LevelIndex, PageBytes, Address, Stored, Present, IsHuge, PageBase, LeafFlags, IndexPath, Translate, Unshared;
      var leaf := GetPte(v, LeafLevel(kind) + 1);
      if !leaf.Table? {
        NoBatch(fmt, old(tables), tables, root, kind, v, p);
        return if leaf.NoPage? then NoPages else HugeInWay, 0;
      }
      var table := leaf.address;
      StandsOnTable(fmt, tables, root, place, v, LeafLevel(kind), table);
      var slot := LevelIndex(fmt, v, LeafLevel(kind));
      ghost var before := tables;
      mapped := Min(count, Pow2(fmt.width) - slot);
      BatchClear(fmt, old(tables), before, root, kind, v, mapped, table);
      WriteSlots(kind, table, slot, p, mapped);
      FillKeepsFormed(fmt, before, place, table, tables[table], kind, slot, p, mapped);
      FillKeepsReady(fmt, before, root, place, table, tables[table], kind);
      FillIsOverlay(fmt, before, root, place, table, tables[table], kind, v, p, mapped);
      SameOverlay(fmt, old(tables), before, tables, root, kind, v, p, mapped);
      r := Mapped;
    }

    /**
     `map_pages`: the whole request on success; on failure a prefix of it, with every other
     address translating as before. The huge-page check is met exactly when a page of the request is
     reached that lies in a larger page. A request into a region without a leaf table takes a page for one.
     */
    method MapPages(kind: PageKind, v: nat, p: nat, count: nat) returns (r: MapResult, ghost done: nat)
      requires Valid()
      requires v % PageBytes(fmt, LeafLevel(kind)) == 0 && p % PageBytes(fmt, LeafLevel(kind)) == 0
      modifies this`pool, this`tables, this`place
      ensures Valid()
      ensures done <= count && (r.Mapped? <==> done == count)
      ensures LeftOf(pool, old(pool)) && (r.NoPages? ==> pool == [])
      ensures r.HugeInWay? ==> !NothingHugeAbove(fmt, tables, root, PageBase(fmt, kind, v, done), LeafLevel(kind))
      ensures forall i: nat :: i < done ==> ClearOrMapped(fmt, old(tables), root, kind, v, i)
      ensures Overlaid(fmt, old(tables), tables, root, kind, v, p, done)
      ensures r.Mapped? && count > 0 && |pool| == |old(pool)| ==>
                Descend(fmt, old(tables), root, IndexPath(fmt, v, LeafLevel(kind) + 1)).Some?
    {
      hide Overlay, Unshared, PoolOk, Translate, PageBytes, PageBase, NothingHugeAbove, Overlaid, ClearOrMapped, LeftOf,
           Descend, IndexPath;
      LeftOfAll(pool);
      EmptyRequest(fmt, tables, root, kind, v, p);
      FirstPage(fmt, kind, v);
      var virtualBase, physicalBase, left := v, p, count;
      done := 0;
      while left > 0
        invariant 0 <= left && left + done == count && LeftOf(pool, old(pool)) && |pool| <= |old(pool)|
        invariant done == 0 ==> tables == old(tables)
        invariant done > 0 && |pool| == |old(pool)| ==>
                    Descend(fmt, old(tables), root, IndexPath(fmt, v, LeafLevel(kind) + 1)).Some?
        invariant Valid()
        invariant virtualBase == PageBase(fmt, kind, v, done) && physicalBase == PageBase(fmt, kind, p, done)
        invariant Overlaid(fmt, old(tables), tables, root, kind, v, p, done)
        invariant forall i: nat :: i < done ==> ClearOrMapped(fmt, old(tables), root, kind, v, i)
      {
        var mapped;
        StaysAligned(fmt, kind, v, done);
        StaysAligned(fmt, kind, p, done);
        ghost var before, held := tables, pool;
        r, mapped := BulkMapPages(kind, virtualBase, physicalBase, left);
        LeftOfLeft(pool, held, old(pool));
        OverlaidCompose(fmt, old(tables), before, tables, root, kind, v, p, done, mapped);
        if !r.Mapped? {
          StillInWay(fmt, before, tables, root, kind, virtualBase, physicalBase);
          return r, done;
        }
        ClearSoFar(fmt, old(tables), before, root, kind, v, p, done, mapped);
        PageBaseAdd(fmt, kind, v, done, mapped);
        PageBaseAdd(fmt, kind, p, done, mapped);
        left := left - mapped;
        virtualBase := PageBase(fmt, kind, virtualBase, mapped);
        physicalBase := PageBase(fmt, kind, physicalBase, mapped);
        done := done + mapped;
      }
      r := Mapped;
    }
  }

  /** `page_table_init`: a table that maps nothing, or nothing at all when the allocator runs out of pages. */
  method Init(t: PtType, accessFlag: bool, pages: seq<nat>) returns (pt: PageTable?)
    requires PoolOk(FormatOf(t, accessFlag), pages, map[])
    ensures pt == null <==> |pages| < if t.I386Pae? then 5 else 1
    ensures pt != null ==> fresh(pt) && pt.Valid() && pt.fmt == FormatOf(t, accessFlag) && LeftOf(pt.pool, pages)
                           && forall va :: Translate(pt.fmt, pt.tables, pt.root, va) == None
  {
    if pages == [] {
      return null;
    }
    pt := new PageTable(FormatOf(t, accessFlag), pages);
    if t.I386Pae? {
      var ok := pt.PopulatePaeRoot();
      if !ok {
        return null;
      }
    }
  }

  lemma FirstPage(f: Format, kind: PageKind, v: nat)
    ensures PageBase(f, kind, v, 0) == v
  {
  }

  /** Page `i` of the request had no larger page in its way, or an earlier page of the request took its slot. */
  ghost predicate ClearOrMapped(f: Format, before: Tables, root: nat, kind: PageKind, v: nat, i: nat)
    requires f.levels >= 2
  {
    || NothingHugeAbove(f, before, root, PageBase(f, kind, v, i), LeafLevel(kind))
    || exists j: nat :: j < i && Hits(f, kind, v, j, PageBase(f, kind, v, i))
  }

  lemma ClearSoFar(f: Format, start: Tables, before: Tables, root: nat, kind: PageKind, v: nat, p: nat, done: nat,
                   mapped: nat)
    requires f.levels >= 2 && Overlaid(f, start, before, root, kind, v, p, done)
    requires forall k: nat :: k < mapped ==>
               NothingHugeAbove(f, before, root, PageBase(f, kind, PageBase(f, kind, v, done), k), LeafLevel(kind))
    ensures forall i: nat :: done <= i < done + mapped ==> ClearOrMapped(f, start, root, kind, v, i)
  {
    hide Translate, PageBase, Hits;
    forall i: nat | done <= i < done + mapped
      ensures ClearOrMapped(f, start, root, kind, v, i)
    {
      PageBaseAdd(f, kind, v, done, i - done);
      var va := PageBase(f, kind, v, i);
      assert NothingHugeAbove(f, before, root, PageBase(f, kind, PageBase(f, kind, v, done), i - done),
                              LeafLevel(kind));
      if forall j: nat :: j < i ==> !Hits(f, kind, v, j, va) {
        OverlayMissed(f, kind, v, p, done, va, Translate(f, start, root, va));
      }
    }
  }

  lemma NoBatch(f: Format, before: Tables, after: Tables, root: nat, kind: PageKind, v: nat, p: nat)
    requires f.levels >= 2 && SameTranslation(f, before, after, root)
    ensures Overlaid(f, before, after, root, kind, v, p, 0)
  {
    hide Translate;
  }

  lemma SameOverlay(f: Format, start: Tables, before: Tables, after: Tables, root: nat, kind: PageKind, v: nat, p: nat,
                    n: nat)
    requires f.levels >= 2 && SameTranslation(f, start, before, root) && Overlaid(f, before, after, root, kind, v, p, n)
    ensures Overlaid(f, start, after, root, kind, v, p, n)
  {
    hide Translate, Overlay;
  }

  lemma StillInWay(f: Format, before: Tables, after: Tables, root: nat, kind: PageKind, v: nat, p: nat)
    requires f.levels >= 2 && Overlaid(f, before, after, root, kind, v, p, 0)
    ensures !NothingHugeAbove(f, before, root, v, LeafLevel(kind)) ==>
              !NothingHugeAbove(f, after, root, v, LeafLevel(kind))
  {
    hide Translate;
  }

  lemma {:induction false} WalkLevel(f: Format, tables: Tables, t: nat, path: seq<nat>)
    ensures var w := Walk(f, tables, t, path); w.Some? ==> w.value.level < |path|
    decreases |path|
  {
    hide Address, IsHuge, Present;
    if path != [] && t in tables && path[0] < |tables[t]| && Present(tables[t][path[0]]) {
      WalkLevel(f, tables, Address(f, tables[t][path[0]]), path[1..]);
    }
  }

  /** Where a descent reaches a table, no larger page is in the way. */
  lemma DescentClears(f: Format, tables: Tables, root: nat, va: nat, leaf: nat, t: nat)
    requires leaf < f.levels && Descend(f, tables, root, IndexPath(f, va, leaf + 1)) == Some(t)
    ensures NothingHugeAbove(f, tables, root, va, leaf)
  {
    hide LevelIndex, PageBytes, Address, IsHuge, Present, Walk, Descend;
    var full, up := IndexPath(f, va, 0), IndexPath(f, va, leaf + 1);
    PathPrefix(f, va, 0, leaf);
    assert full == up + full[|up|..];
    DescendThenWalk(f, tables, root, up, full[|up|..]);
    WalkLevel(f, tables, t, full[|up|..]);
  }

  lemma BatchClear(f: Format, start: Tables, before: Tables, root: nat, kind: PageKind, v: nat, n: nat, t: nat)
    requires ValidFormat(f) && SameTranslation(f, start, before, root)
    requires v % PageBytes(f, LeafLevel(kind)) == 0 && LevelIndex(f, v, LeafLevel(kind)) + n <= Pow2(f.width)
    requires Descend(f, before, root, IndexPath(f, v, LeafLevel(kind) + 1)) == Some(t)
    ensures forall k: nat :: k < n ==> NothingHugeAbove(f, start, root, PageBase(f, kind, v, k), LeafLevel(kind))
  {
    hide LevelIndex, PageBytes, Translate, IndexPath, PageBase, Descend;
    forall k: nat | k < n
      ensures NothingHugeAbove(f, start, root, PageBase(f, kind, v, k), LeafLevel(kind))
    {
      BatchIndices(f, kind, v, k);
      DescentClears(f, before, root, PageBase(f, kind, v, k), LeafLevel(kind), t);
    }
  }

  // ----- Formed slots -----

  /** A slot write keeps the offset of an entry from a page boundary. */
  lemma StoredOffset(f: Format, p: nat, flags: nat, s: nat)
    requires p % Pow2(s) == 0 && flags < Pow2(s) && (s <= f.entryBits || flags < Pow2(f.entryBits))
    ensures Stored(f, p + flags) < Pow2(f.entryBits) && Stored(f, p + flags) % Pow2(s) == flags
  {
    hide Pow2;
    var n := f.entryBits;
    DivModRebuild(p, Pow2(s));
    DivModUnique(p + flags, Pow2(s), p / Pow2(s), flags);
    if s <= n {
      ModModPow2(p + flags, s, n);
    } else {
      ModModPow2(p, n, s);
      DivModRebuild(p, Pow2(n));
      DivModUnique(p + flags, Pow2(n), p / Pow2(n), flags);
      Pow2Monotone(n, s);
      DivModUnique(flags, Pow2(s), 0, flags);
    }
  }

  lemma FlagsFit(f: Format)
    requires ValidFormat(f)
    ensures PAGE_SIZE <= Pow2(f.entryBits) && PageBytes(f, 0) == PAGE_SIZE <= PageBytes(f, 1)
    ensures TableFlags(f) < PAGE_SIZE && LeafFlags(f, Normal) < PAGE_SIZE && LeafFlags(f, Huge) < PAGE_SIZE
  {
    Pow2Twelve();
    Pow2Monotone(12, f.entryBits);
    Pow2Monotone(12, LevelShift(f, 1));
  }

  /** The new link and the zeroed table behind it are formed. */
  lemma LinkKeepsFormed(f: Format, tables: Tables, place: Places, t: nat, idx: nat, child: nat, flags: nat)
    requires ValidFormat(f) && Formed(f, tables, place) && child % PAGE_SIZE == 0
    requires t in tables && idx < |tables[t]| && |place[t]| + 1 < f.levels
    requires flags == TableFlags(f) || (flags == 1 && f.arch.X86? && f.levels == 3 && place[t] == [])
    requires Address(f, Stored(f, child + flags)) == child
    ensures Formed(f, WithTable(f, tables, t, idx, Stored(f, child + flags)), place[child := place[t] + [idx]])
  {
    hide Address, Stored, TableFlags, LeafFlags, PageBytes, Pow2;
    FlagsFit(f);
    Pow2Twelve();
    StoredOffset(f, child, flags, 12);
    var e := Stored(f, child + flags);
    var tables', place' := WithTable(f, tables, t, idx, e), place[child := place[t] + [idx]];
    assert SlotFormed(f, f.levels - 1 - |place[t]|, e);
    forall u | u in tables'
      ensures u % PAGE_SIZE == 0 && |place'[u]| < f.levels && TableFormed(f, tables'[u], |place'[u]|)
    {
      if u != child { assert TableFormed(f, tables[u], |place[u]|); }
    }
  }

  /** So are the leaves of a batch. */
  lemma FillKeepsFormed(f: Format, tables: Tables, place: Places, t: nat, slots: seq<nat>, kind: PageKind, slot: nat,
                        p: nat, n: nat)
    requires ValidFormat(f) && Formed(f, tables, place) && t in tables
    requires |place[t]| == f.levels - 1 - LeafLevel(kind) && p % PageBytes(f, LeafLevel(kind)) == 0
    requires IsFilled(f, kind, tables[t], slots, slot, p, n)
    ensures Formed(f, tables[t := slots], place)
  {
    hide Stored, TableFlags, LeafFlags, PageBytes, Pow2, PageBase;
    forall i | 0 <= i < |slots| ensures SlotFormed(f, LeafLevel(kind), slots[i]) {
      assert TableFormed(f, tables[t], |place[t]|);
      if slot <= i < slot + n { LeafFormed(f, kind, p, i - slot); }
    }
    assert TableFormed(f, slots, |place[t]|);
    forall u | u in tables[t := slots]
      ensures u % PAGE_SIZE == 0 && |place[u]| < f.levels && TableFormed(f, tables[t := slots][u], |place[u]|)
    {
    }
  }

  lemma FillKeepsReady(f: Format, tables: Tables, root: nat, place: Places, t: nat, slots: seq<nat>, kind: PageKind)
    requires Unshared(f, tables, root, place) && t in tables && |place[t]| == f.levels - 1 - LeafLevel(kind)
    ensures RootReady(f, tables, root) ==> RootReady(f, tables[t := slots], root)
  {
    hide TableOk;
  }

  lemma LeafFormed(f: Format, kind: PageKind, p: nat, i: nat)
    requires ValidFormat(f) && p % PageBytes(f, LeafLevel(kind)) == 0
    ensures SlotFormed(f, LeafLevel(kind), Stored(f, PageBase(f, kind, p, i) + LeafFlags(f, kind)))
  {
    hide Stored, TableFlags, LeafFlags, Pow2, PageBase;
    FlagsFit(f);
    StaysAligned(f, kind, p, i);
    StoredOffset(f, PageBase(f, kind, p, i), LeafFlags(f, kind), LevelShift(f, LeafLevel(kind)));
  }

  lemma FreshFormed(f: Format, root: nat)
    requires ValidFormat(f) && root % PAGE_SIZE == 0
    ensures Formed(f, map[root := Zeros(f)], map[root := []])
  {
  }

  /** A lone zeroed root translates nothing. */
  lemma FreshRoot(f: Format, root: nat)
    requires ValidFormat(f)
    ensures Unshared(f, map[root := Zeros(f)], root, map[root := []])
    ensures forall va :: Translate(f, map[root := Zeros(f)], root, va) == None
  {
  }

  lemma ChildAddress(f: Format, child: nat)
    requires child < Pow2(AddressBits(f))
    ensures child % Pow2(AddressBits(f)) == child
  {
    DivModUnique(child, Pow2(AddressBits(f)), 0, child);
  }

  /** A zeroed page behind an absent slot: the slot leads to it, and the tree, its form and all walks are kept. */
  lemma ChildLink(f: Format, tables: Tables, root: nat, place: Places, t: nat, idx: nat, child: nat, flags: nat)
    requires ValidFormat(f) && Unshared(f, tables, root, place) && Formed(f, tables, place)
    requires child % PAGE_SIZE == 0 && child < Pow2(AddressBits(f)) && child !in tables
    requires t in tables && |place[t]| + 1 < f.levels && idx < |tables[t]| && !Present(tables[t][idx])
    requires flags < PAGE_SIZE && IsLink(f, flags)
    requires flags == TableFlags(f) || (flags == 1 && f.arch.X86? && f.levels == 3 && place[t] == [])
    ensures var e := Stored(f, child + flags);
            var tables', place' := WithTable(f, tables, t, idx, e), place[child := place[t] + [idx]];
            && IsLink(f, e) && Address(f, e) == child
            && Unshared(f, tables', root, place') && Formed(f, tables', place')
            && SameTranslation(f, tables, tables', root) && KeepsDescents(f, tables, tables', root)
            && e % PAGE_SIZE == flags && (RootReady(f, tables, root) ==> RootReady(f, tables', root))
  {
    hide Formed, TableOk, Address, Present, IsHuge, Stored, Zeros, Pow2, SameTranslation, KeepsDescents, TableFlags,
         RootReady;
    var e := Stored(f, child + flags);
    EntryRoundTrip(f, child, flags);
    ChildAddress(f, child);
    LinkKeepsFormed(f, tables, place, t, idx, child, flags);
    LinkKeepsUnshared(f, tables, root, place, t, idx, e);
    LinkKeepsTranslation(f, tables, root, place, t, idx, e);
    LinkKeepsAllDescents(f, tables, root, place, t, idx, e);
    LinkKeepsReady(f, tables, root, t, idx, e);
    Pow2Twelve();
    FlagsFit(f);
    StoredOffset(f, child, flags, 12);
  }

  /** A slot that was absent is none of the four. */
  lemma LinkKeepsReady(f: Format, tables: Tables, root: nat, t: nat, idx: nat, e: nat)
    requires t in tables && idx < |tables[t]| && !Present(tables[t][idx]) && Address(f, e) !in tables
    ensures RootReady(f, tables, root) ==> RootReady(f, WithTable(f, tables, t, idx, e), root)
  {
    hide Address, Zeros;
    DivModRebuild(tables[t][idx], PAGE_SIZE);
  }

  lemma LinkFlags(f: Format)
    requires ValidFormat(f)
    ensures TableFlags(f) < PAGE_SIZE && IsLink(f, TableFlags(f))
  {
  }

  // ----- Linking -----

  /** Every finished descent from the root still ends in the same table. */
  ghost predicate KeepsDescents(f: Format, before: Tables, after: Tables, root: nat) {
    forall path :: |path| < f.levels && Descend(f, before, root, path).Some?
      ==> Descend(f, after, root, path) == Descend(f, before, root, path)
  }

  /** Linking in an empty table changes no translation. */
  lemma LinkKeepsTranslation(f: Format, tables: Tables, root: nat, place: Places, t: nat, idx: nat, e: nat)
    requires Unshared(f, tables, root, place)
    requires CanLink(f, tables, place, t, idx, e)
    ensures SameTranslation(f, tables, WithTable(f, tables, t, idx, e), root)
  {
    var after := WithTable(f, tables, t, idx, e);
    forall va
      ensures Translate(f, after, root, va) == Translate(f, tables, root, va)
    {
      LinkKeepsWalks(f, tables, root, place, t, idx, e, root, IndexPath(f, va, 0));
    }
  }

  lemma LinkKeepsAllDescents(f: Format, tables: Tables, root: nat, place: Places, t: nat, idx: nat, e: nat)
    requires Unshared(f, tables, root, place)
    requires CanLink(f, tables, place, t, idx, e)
    ensures KeepsDescents(f, tables, WithTable(f, tables, t, idx, e), root)
  {
    forall path | |path| < f.levels && Descend(f, tables, root, path).Some?
      ensures Descend(f, WithTable(f, tables, t, idx, e), root, path) == Descend(f, tables, root, path)
    {
      LinkKeepsDescents(f, tables, root, place, t, idx, e, root, path);
    }
  }

  lemma RootIsTable(f: Format, tables: Tables, root: nat, place: Places)
    requires Unshared(f, tables, root, place)
    ensures root in tables && root in place && place[root] == []
  {
  }

  /** Where a descent stands: a table of the right depth, whose next slot is no large page if none is in the way. */
  lemma StandsOnTable(f: Format, tables: Tables, root: nat, place: Places, va: nat, level: nat, t: nat)
    requires ValidFormat(f) && Unshared(f, tables, root, place)
    requires level < f.levels && Descend(f, tables, root, IndexPath(f, va, level + 1)) == Some(t)
    ensures t in tables && place[t] == IndexPath(f, va, level + 1)
    ensures LevelIndex(f, va, level) < |tables[t]| == Pow2(f.width)
    ensures var e := tables[t][LevelIndex(f, va, level)];
            level > 0 && Present(e) && IsHuge(f, e) ==> !NothingHugeAbove(f, tables, root, va, level - 1)
  {
    hide LevelIndex, PageBytes, Address, Present, IsHuge;
    var full, up := IndexPath(f, va, 0), IndexPath(f, va, level + 1);
    DescendPlace(f, tables, root, place, root, up);
    assert TableOk(f, tables, place, t);
    IndexInTable(f, va, level);
    PathPrefix(f, va, 0, level);
    assert full == up + full[|up|..];
    DescendThenWalk(f, tables, root, up, full[|up|..]);
  }

  // ----- Filling -----

  /** Slots `slot..slot + n` hold the entries of consecutive pages from `p`; the rest are as before. */
  ghost predicate IsFilled(f: Format, kind: PageKind, before: seq<nat>, after: seq<nat>, slot: nat, p: nat, n: nat) {
    && |after| == |before|
    && slot + n <= |after|
    && (forall i :: 0 <= i < |after| && !(slot <= i < slot + n) ==> after[i] == before[i])
    && (forall i :: slot <= i < slot + n ==> after[i] == Stored(f, PageBase(f, kind, p, i - slot) + LeafFlags(f, kind)))
  }

  lemma StaysAligned(f: Format, kind: PageKind, p: nat, i: nat)
    requires p % PageBytes(f, LeafLevel(kind)) == 0
    ensures PageBase(f, kind, p, i) % PageBytes(f, LeafLevel(kind)) == 0
    ensures PageBase(f, kind, p, i) % PAGE_SIZE == 0
  {
    DivAddUnits(p, i, PageBytes(f, LeafLevel(kind)));
    ModModPow2(PageBase(f, kind, p, i), 12, LevelShift(f, LeafLevel(kind)));
    Pow2Twelve();
  }

  lemma LeafFlagBits(f: Format, kind: PageKind)
    requires ValidFormat(f)
    ensures LeafFlags(f, kind) < PAGE_SIZE && Present(LeafFlags(f, kind))
    ensures (kind.Huge? ==> IsHuge(f, LeafFlags(f, kind)))
  {
  }

  /** The facts under which slots of table `t` are filled for a request. */
  ghost predicate FillsFor(f: Format, tables: Tables, root: nat, place: Places, t: nat, slots: seq<nat>, kind: PageKind,
                           v: nat, p: nat, n: nat) {
    && ValidFormat(f) && Unshared(f, tables, root, place)
    && v % PageBytes(f, LeafLevel(kind)) == 0 && p % PageBytes(f, LeafLevel(kind)) == 0
    && Descend(f, tables, root, IndexPath(f, v, LeafLevel(kind) + 1)) == Some(t) && t in tables
    && IsFilled(f, kind, tables[t], slots, LevelIndex(f, v, LeafLevel(kind)), p, n)
  }

  lemma FilledLeaves(f: Format, tables: Tables, root: nat, place: Places, t: nat, slots: seq<nat>, kind: PageKind,
                     v: nat, p: nat, n: nat)
    requires FillsFor(f, tables, root, place, t, slots, kind, v, p, n)
    ensures FillsLeaves(f, tables, place, t, slots, LevelIndex(f, v, LeafLevel(kind)), n)
    ensures place[t] == IndexPath(f, v, LeafLevel(kind) + 1)
    ensures LevelIndex(f, v, LeafLevel(kind)) + n <= Pow2(f.width)
  {
    hide LevelIndex, PageBytes, Stored, Present, IsHuge, PageBase, LeafFlags, Address;
    StandsOnTable(f, tables, root, place, v, LeafLevel(kind), t);
    var idx := LevelIndex(f, v, LeafLevel(kind));
    LeafFlagBits(f, kind);
    forall i | idx <= i < idx + n
      ensures Present(slots[i]) && (kind.Huge? ==> IsHuge(f, slots[i]))
    {
      StaysAligned(f, kind, p, i - idx);
      EntryRoundTrip(f, PageBase(f, kind, p, i - idx), LeafFlags(f, kind));
    }
  }

  /** An address in the batch is translated by the slot written for its page. */
  lemma FillInside(f: Format, tables: Tables, root: nat, place: Places, t: nat, slots: seq<nat>, kind: PageKind, v: nat,
                   p: nat, n: nat, va: nat)
    requires FillsFor(f, tables, root, place, t, slots, kind, v, p, n)
    requires InBatch(f, kind, v, n, va)
    ensures Translate(f, tables[t := slots], root, va)
         == Some(LeafFor(f, kind, p, LevelIndex(f, va, LeafLevel(kind)) - LevelIndex(f, v, LeafLevel(kind)), va))
  {
    hide LevelIndex, PageBytes, Address, Stored, Present, IsHuge, PageBase, LeafFlags, Unshared, IndexPath;
    var i := LevelIndex(f, va, LeafLevel(kind)) - LevelIndex(f, v, LeafLevel(kind));
    FilledLeaves(f, tables, root, place, t, slots, kind, v, p, n);
    FillReached(f, tables, root, place, t, slots, LeafLevel(kind), va);
    StaysAligned(f, kind, p, i);
    LeafFlagBits(f, kind);
    EntryRoundTrip(f, PageBase(f, kind, p, i), LeafFlags(f, kind));
  }

  /** A walk whose upper indices lead to `t` ends at the rewritten slot. */
  lemma FillReached(f: Format, tables: Tables, root: nat, place: Places, t: nat, slots: seq<nat>, leaf: nat, va: nat)
    requires Unshared(f, tables, root, place) && leaf < f.levels
    requires t in tables && place[t] == IndexPath(f, va, leaf + 1)
    requires Descend(f, tables, root, IndexPath(f, va, leaf + 1)) == Some(t)
    requires LevelIndex(f, va, leaf) < |slots|
    requires Present(slots[LevelIndex(f, va, leaf)]) && (leaf == 0 || IsHuge(f, slots[LevelIndex(f, va, leaf)]))
    ensures Walk(f, tables[t := slots], root, IndexPath(f, va, 0)) == Some(Found(slots[LevelIndex(f, va, leaf)], leaf))
  {
    hide LevelIndex, PageBytes, Address, Present, IsHuge, Unshared, Descend, IndexPath;
    var full, up := IndexPath(f, va, 0), IndexPath(f, va, leaf + 1);
    PathPrefix(f, va, 0, leaf);
    assert full == up + full[|up|..];
    RootIsTable(f, tables, root, place);
    FillKeepsDescent(f, tables, root, place, t, slots, root, up);
    DescendThenWalk(f, tables[t := slots], root, up, full[|up|..]);
  }

  lemma FillOutside(f: Format, tables: Tables, root: nat, place: Places, t: nat, slots: seq<nat>, kind: PageKind,
                    v: nat, p: nat, n: nat, va: nat)
    requires FillsFor(f, tables, root, place, t, slots, kind, v, p, n)
    requires !InBatch(f, kind, v, n, va)
    ensures Translate(f, tables[t := slots], root, va) == Translate(f, tables, root, va)
  {
    hide LevelIndex, PageBytes, Address, Stored, Present, IsHuge, PageBase, LeafFlags, IndexPath, Walk;
    FilledLeaves(f, tables, root, place, t, slots, kind, v, p, n);
    PathPrefix(f, va, 0, LeafLevel(kind));
    assert place[root] + IndexPath(f, va, 0) == IndexPath(f, va, 0);
    FillKeepsOtherWalks(f, tables, root, place, t, slots, LevelIndex(f, v, LeafLevel(kind)), n, root,
                        IndexPath(f, va, 0));
  }

  lemma FillIsOverlay(f: Format, tables: Tables, root: nat, place: Places, t: nat, slots: seq<nat>, kind: PageKind,
                      v: nat, p: nat, n: nat)
    requires FillsFor(f, tables, root, place, t, slots, kind, v, p, n)
    ensures Unshared(f, tables[t := slots], root, place)
    ensures Overlaid(f, tables, tables[t := slots], root, kind, v, p, n)
  {
    hide LevelIndex, PageBytes, Address, Stored, Present, IsHuge, PageBase, LeafFlags, Walk, IndexPath;
    FilledLeaves(f, tables, root, place, t, slots, kind, v, p, n);
    var idx := LevelIndex(f, v, LeafLevel(kind));
    FillKeepsUnshared(f, tables, root, place, t, slots, idx, n);
    forall va
      ensures Translate(f, tables[t := slots], root, va)
           == Overlay(f, kind, v, p, n, va, Translate(f, tables, root, va))
    {
      BatchIsOverlay(f, kind, v, p, n, va, Translate(f, tables, root, va));
      if InBatch(f, kind, v, n, va) {
        FillInside(f, tables, root, place, t, slots, kind, v, p, n, va);
      } else {
        FillOutside(f, tables, root, place, t, slots, kind, v, p, n, va);
      }
    }
  }

  // ----- Composing batches -----

  lemma EmptyRequest(f: Format, tables: Tables, root: nat, kind: PageKind, v: nat, p: nat)
    requires f.levels >= 2
    ensures PageBase(f, kind, v, 0) == v && PageBase(f, kind, p, 0) == p
    ensures Overlaid(f, tables, tables, root, kind, v, p, 0)
  {
  }

  lemma OverlaidCompose(f: Format, start: Tables, mid: Tables, end: Tables, root: nat, kind: PageKind, v: nat, p: nat,
                        m: nat, n: nat)
    requires f.levels >= 2
    requires Overlaid(f, start, mid, root, kind, v, p, m)
    requires Overlaid(f, mid, end, root, kind, PageBase(f, kind, v, m), PageBase(f, kind, p, m), n)
    ensures Overlaid(f, start, end, root, kind, v, p, m + n)
  {
    forall va
      ensures Translate(f, end, root, va) == Overlay(f, kind, v, p, m + n, va, Translate(f, start, root, va))
    {
      OverlayAppend(f, kind, v, p, m, n, va, Translate(f, start, root, va));
      assert Translate(f, mid, root, va) == Overlay(f, kind, v, p, m, va, Translate(f, start, root, va));
    }
  }
}
