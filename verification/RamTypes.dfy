/**
 The direct map by the numbers of the memory types: which bytes of a memory map it translates, and that memory the
 loader allocates stays in it.
 */
module RamTypes {
  import opened Arith
  import opened MemoryMap
  import opened PageTables
  import opened AddressPaths
  import opened RamRuns
  import opened DirectMap
  import opened PageTableBuilder
  import opened Modes
  import opened Mmu
  import LiveWalk
  import LiveBuild
  import BiosAllocator

  /**
   Memory that is there to be used: free (1), ACPI reclaimable (3) and non-volatile (4), and what the loader or the
   protocol took, from 0xFFFEFFFF on. Not among them: reserved (2), unusable (5), disabled (6), persistent (7),
   unaccepted (8) and soft-reserved (9).
   */
  predicate Backed(t: Option<nat>) {
    t.Some? && (t.value in {1, 3, 4} || t.value >= 0xFFFE_FFFF)
  }

  /** The RAM of a map is its backed bytes. */
  lemma RamByType(s: seq<Entry>, pa: nat)
    requires Ordered(s)
    ensures Ram(s, pa) <==> Backed(TypeAt(s, pa))
  {
    hide Ram;
    LiveBuild.RamIsType(s, pa);
  }

  /**
   Of a page-aligned map, above the first huge page, the direct map translates exactly the backed bytes below its
   limit, each at its own offset.
   */
  lemma MappedByType(f: Format, tables: Tables, root: nat, base: nat, higher: nat, lower: nat, top: nat, s: seq<Entry>,
                     guard: bool, pa: nat)
    requires Fits(f, base, higher, lower, top) && Ordered(s) && AlignedRam(s) && RamBelow(s, top)
    requires Shows(f, tables, root, LayoutOf(f, base, higher, lower, top), RamRuns.Mapped(HugeBytes(f), Runs(s)), guard)
    requires HugeBytes(f) <= pa && base % FlatBytes(f) + pa < FlatBytes(f)
    ensures var t := Translate(f, tables, root, base + pa);
            if pa < higher && Backed(TypeAt(s, pa)) then t.Some? && t.value.pa == pa else t == None
  {
    hide Translate, Fits, AlignedRam, RamBelow, Shows, Ram, Residue, FlatBytes, HugeBytes, AllRam, TypeAt;
    RamInOrder(s);
    DirectMapIsRam(f, tables, root, base, higher, lower, top, s, guard, pa);
    RamByType(s, pa);
  }

  /** Without alignment: a byte is translated exactly when its page holds a backed byte. */
  lemma MappedByPage(f: Format, tables: Tables, root: nat, base: nat, higher: nat, lower: nat, top: nat, s: seq<Entry>,
                     guard: bool, pa: nat)
    requires Fits(f, base, higher, lower, top) && Ordered(s)
    requires Shows(f, tables, root, LayoutOf(f, base, higher, lower, top), RamRuns.Mapped(HugeBytes(f), Runs(s)), guard)
    requires HugeBytes(f) <= pa < Min(higher, top) && base % FlatBytes(f) + pa < FlatBytes(f)
    ensures var t := Translate(f, tables, root, base + pa);
            && (t.Some? <==>
                  exists x: nat :: Backed(TypeAt(s, x)) && AlignDown(x, PAGE_SIZE) == AlignDown(pa, PAGE_SIZE))
            && (t.Some? ==> t.value.pa == pa)
  {
    hide Translate, Fits, Shows, Ram, Residue, FlatBytes, HugeBytes, TypeAt, AlignDown, Backed;
    RamInOrder(s);
    DirectMapIsPages(f, tables, root, base, higher, lower, top, s, guard, pa);
    forall x: nat ensures Ram(s, x) <==> Backed(TypeAt(s, x)) {
      RamByType(s, x);
    }
  }

  /**
   The first huge page is in the direct map in small pages whatever its types, and below as well when there is an
   identity map, but for the guard page at 0.
   */
  lemma LowMemory(f: Format, tables: Tables, root: nat, base: nat, higher: nat, lower: nat, top: nat, rs: seq<Run>,
                  guard: bool, pa: nat)
    requires Fits(f, base, higher, lower, top) && pa < HugeBytes(f)
    requires Shows(f, tables, root, LayoutOf(f, base, higher, lower, top), RamRuns.Mapped(HugeBytes(f), rs), guard)
    ensures Translate(f, tables, root, base + pa) == Some(Leaf(pa, 0))
    ensures lower > 0 ==>
              Translate(f, tables, root, pa) == if guard && pa < 4096 then None else Some(Leaf(pa, 0))
  {
    hide Translate, PageBytes, Pow2, Residue, FlatBytes, GoodLimit, RamRuns.Mapped, LevelAt, OnPage;
    SmallPages(f);
    LowIsSmall(HugeBytes(f), rs, pa);
    DirectMapAt(f, tables, root, base, higher, lower, top, RamRuns.Mapped(HugeBytes(f), rs), guard, pa);
    if lower > 0 { ResidueSmall(f, pa); }
  }

  lemma {:induction false} LowIsSmall(hp: nat, rs: seq<Run>, pa: nat)
    requires HugeSize(hp) && pa < hp
    ensures LevelAt(RamRuns.Mapped(hp, rs), pa) == Some(0)
  {
    hide AlignDown, AlignUp, LevelAt;
    if rs == [] {
      LowLevel(hp, pa);
    } else {
      var n := |rs| - 1;
      LowIsSmall(hp, rs[..n], pa);
      LevelConcat(RamRuns.Mapped(hp, rs[..n]), Pieces(hp, rs[n]), pa);
      AboveFirst(hp, rs[n], pa);
    }
  }

  lemma AboveFirst(hp: nat, r: Run, pa: nat)
    requires HugeSize(hp) && pa < hp
    ensures LevelAt(Pieces(hp, r), pa) == None
  {
    hide LevelAt, RoundBegin, RoundEnd;
    PiecesLevel(hp, r, pa);
    RoundFacts(hp, r);
    HugeInRounded(hp, r, pa);
  }

  /** The identity map of a page-aligned map, above the first huge page and below its limit: the backed bytes. */
  lemma IdentityByType(f: Format, tables: Tables, root: nat, base: nat, higher: nat, lower: nat, top: nat,
                       s: seq<Entry>, guard: bool, pa: nat)
    requires Fits(f, base, higher, lower, top) && Ordered(s) && AlignedRam(s) && RamBelow(s, top)
    requires Shows(f, tables, root, LayoutOf(f, base, higher, lower, top), RamRuns.Mapped(HugeBytes(f), Runs(s)), guard)
    requires HugeBytes(f) <= pa < Min(lower, top)
    ensures var t := Translate(f, tables, root, pa);
            if Backed(TypeAt(s, pa)) then t.Some? && t.value.pa == pa else t == None
  {
    hide Translate, PageBytes, Pow2, Residue, FlatBytes, GoodLimit, RamRuns.Mapped, LevelAt, OnPage, Ram, TypeAt,
         Backed, AllRam, AlignedRam, Runs;
    SmallPages(f);
    RamInOrder(s);
    AlignedLevels(HugeBytes(f), s, pa);
    RamByType(s, pa);
    ResidueSmall(f, pa);
  }

  lemma RamInOrder(s: seq<Entry>)
    requires Ordered(s)
    ensures OrderedRam(s)
  {
  }

  // ----- Memory the loader takes -----

  /**
   Free memory that is given another type above the firmware's stays backed, and so does all the rest, if and only if
   the type is the loader's or the protocol's.
   */
  lemma TakenIsBacked(s: seq<Entry>, s': seq<Entry>, lo: nat, hi: nat, kind: nat)
    requires lo < hi && kind > 9 && BiosAllocator.AllOf(s, lo, hi - lo, 1) && BiosAllocator.Retyped(s, s', lo, hi, kind)
    ensures (forall a: nat :: Backed(TypeAt(s, a)) <==> Backed(TypeAt(s', a))) <==> kind >= 0xFFFE_FFFF
  {
    hide TypeAt, Canonical, BiosAllocator.AllOf;
    BiosAllocator.OneOf(s, lo, hi - lo, 1, lo);
    assert Backed(TypeAt(s', lo)) <==> kind >= 0xFFFE_FFFF;
    forall a: nat | kind >= 0xFFFE_FFFF ensures Backed(TypeAt(s, a)) <==> Backed(TypeAt(s', a)) {
      if lo <= a < hi { BiosAllocator.OneOf(s, lo, hi - lo, 1, a); }
    }
  }

  /** An allocation below a page-aligned limit changes the type of whole free pages, and nothing else. */
  lemma TopDownTakes(s: seq<Entry>, s': seq<Entry>, bytes: nat, limit: nat, kind: nat, address: nat)
    requires Canonical(s) && BiosAllocator.FreeAligned(s) && limit % PAGE_SIZE == 0 && bytes % PAGE_SIZE == 0 < bytes
    requires BiosAllocator.TakesHighest(s, s', bytes, limit, kind, address) && address > 0
    ensures BiosAllocator.AllOf(s, address, bytes, 1)
    ensures BiosAllocator.Retyped(s, s', address, address + bytes, kind)
  {
    hide TypeAt, Canonical, BiosAllocator.FreeAligned, BiosAllocator.AllOf, BiosAllocator.CarvedOut;
    BiosAllocator.HighestAligned(s, bytes, limit, address);
    var idx: nat :| BiosAllocator.CarvedOut(s, s', idx, Entry(address, bytes, kind));
    BiosAllocator.AlignedCarving(s, s', idx, Entry(address, bytes, kind));
  }

  /** So does an allocation of whole pages at an address. */
  lemma ExactTakes(s: seq<Entry>, s': seq<Entry>, bytes: nat, kind: nat, address: nat)
    requires Canonical(s) && BiosAllocator.FreeAligned(s) && address % PAGE_SIZE == 0 && bytes % PAGE_SIZE == 0 < bytes
    requires BiosAllocator.TakesExactly(s, s', address, bytes, kind, address) && address > 0
    ensures BiosAllocator.AllOf(s, address, bytes, 1)
    ensures BiosAllocator.Retyped(s, s', address, address + bytes, kind)
  {
    hide TypeAt, Canonical, BiosAllocator.FreeAligned, BiosAllocator.AllOf, BiosAllocator.CarvedOut;
    var idx: nat :| BiosAllocator.CarvedOut(s, s', idx, Entry(address, bytes, kind));
    BiosAllocator.AlignedCarving(s, s', idx, Entry(address, bytes, kind));
  }

  /**
   An allocation on the live map: refused for the types of the firmware; of any other type it takes free pages, and the
   backed bytes stay the same if and only if the type is the loader's or the protocol's.
   */
  method Allocate(mem: BiosAllocator.BiosMemory, pageCount: nat, limit: nat, kind: nat)
    returns (r: BiosAllocator.Outcome)
    requires mem.Valid() && BiosAllocator.FreeAligned(mem.Contents()) && pageCount < TWO_32 && limit % PAGE_SIZE == 0
    requires kind > 9 ==> ResolveKind(mem.Known(), kind) == kind
    modifies mem`count, mem.entries
    ensures kind <= 9 ==> r.Halted?
    ensures r.Done? ==> mem.Valid()
    ensures r.Done? && r.address > 0 ==>
              var s, s', end := old(mem.Contents()), mem.Contents(), r.address + BiosAllocator.ByteCount(pageCount);
              && r.address < end
              && BiosAllocator.AllOf(s, r.address, end - r.address, 1)
              && BiosAllocator.Retyped(s, s', r.address, end, kind)
              && ((forall a: nat :: Backed(TypeAt(s, a)) <==> Backed(TypeAt(s', a))) <==> kind >= 0xFFFE_FFFF)
  {
    hide TypeAt, Canonical, BiosAllocator.FreeAligned, BiosAllocator.AllOf, BiosAllocator.Retyped, Backed,
         BiosAllocator.TakesHighest, AllKnown, ResolveKind;
    ghost var s := mem.Contents();
    r := mem.AllocatePages(pageCount, limit, kind);
    if r.Done? && r.address > 0 {
      ghost var bytes := BiosAllocator.ByteCount(pageCount);
      WholePages(pageCount);
      TopDownTakes(s, mem.Contents(), bytes, limit, kind, r.address);
      TakenIsBacked(s, mem.Contents(), r.address, r.address + bytes, kind);
    }
  }

  lemma WholePages(pageCount: nat)
    ensures BiosAllocator.ByteCount(pageCount) % PAGE_SIZE == 0
  {
    var q := pageCount * 4096 / 0x1_0000_0000;
    DivModUnique(pageCount * 4096 - q * 0x1_0000_0000, 4096, pageCount - q * 0x10_0000, 0);
  }

  /** Every byte of memory taken as a type of the loader or the protocol is translated by a direct map built after. */
  lemma AllocationIsMapped(f: Format, tables: Tables, root: nat, base: nat, higher: nat, lower: nat, top: nat,
                           s: seq<Entry>, s': seq<Entry>, lo: nat, hi: nat, kind: nat, guard: bool, pa: nat)
    requires kind >= 0xFFFE_FFFF && BiosAllocator.Retyped(s, s', lo, hi, kind) && lo <= pa < hi
    requires Fits(f, base, higher, lower, top) && AlignedRam(s') && RamBelow(s', top)
    requires Shows(f, tables, root, LayoutOf(f, base, higher, lower, top), RamRuns.Mapped(HugeBytes(f), Runs(s')),
                   guard)
    requires HugeBytes(f) <= pa < higher && base % FlatBytes(f) + pa < FlatBytes(f)
    ensures var t := Translate(f, tables, root, base + pa); t.Some? && t.value.pa == pa
  {
    hide Translate, Fits, AlignedRam, RamBelow, Shows, Residue, FlatBytes, HugeBytes, TypeAt, Canonical;
    BiosAllocator.CanonicalOrdered(s');
    MappedByType(f, tables, root, base, higher, lower, top, s', guard, pa);
  }

  // ----- What the processor sees -----

  /**
   With the tables in memory, an x86 processor in the mode they were built for reaches exactly the backed bytes of a
   page-aligned map below the limit, each at its own offset in the direct map, to be written and cached.
   */
  lemma ProcessorSees(pt: PageTable, t: PtType, accessFlag: bool, m: Memory, base: nat, higher: nat, lower: nat,
                      top: nat, s: seq<Entry>, guard: bool, pa: nat)
    requires IsX86(t) && pt.Valid() && pt.fmt == FormatOf(t, accessFlag) && Resides(m, SlotBytes(t), pt.tables)
    requires Fits(pt.fmt, base, higher, lower, top) && Ordered(s) && AlignedRam(s) && RamBelow(s, top)
    requires Shows(pt.fmt, pt.tables, pt.root, LayoutOf(pt.fmt, base, higher, lower, top),
                   RamRuns.Mapped(HugeBytes(pt.fmt), Runs(s)), guard)
    requires PageSize(t, Huge) <= pa && base % Span(t) + pa < Span(t)
    requires t.I386NoPae? || t.I386Pae? ==> base + pa < 0x1_0000_0000
    ensures X86Translates(t, m, pt.root, base + pa)
         == if pa < higher && Backed(TypeAt(s, pa)) then Some(Access(pa, true, true)) else None
  {
    hide Translate, Fits, AlignedRam, RamBelow, Shows, Residue, FlatBytes, Backed, TypeAt, Ordered, X86Translates,
         Resides, PageBytes, Pow2, Runs, RamRuns.Mapped, LayoutOf, FormatOf, Unshared, Formed, PoolOk, RootReady;
    ModeNumbers(t, accessFlag, 0);
    MappedByType(pt.fmt, pt.tables, pt.root, base, higher, lower, top, s, guard, pa);
    X86Finds(pt, t, accessFlag, m, base + pa);
  }

  /** Over the live map: the RAM there was at the start, by its types, when no visit disturbs the walk. */
  lemma LiveByType(f: Format, tables: Tables, root: nat, base: nat, higher: nat, lower: nat, top: nat,
                   maps: seq<seq<Entry>>, v: seq<Entry>, guard: bool, pa: nat)
    requires Fits(f, base, higher, lower, top) && LiveWalk.Walked(maps, v) && AlignedRam(v) && RamBelow(v, top)
    requires LiveWalk.AllKept(maps, v)
    requires Shows(f, tables, root, LayoutOf(f, base, higher, lower, top), RamRuns.Mapped(HugeBytes(f), Runs(v)), guard)
    requires HugeBytes(f) <= pa && base % FlatBytes(f) + pa < FlatBytes(f)
    ensures var t := Translate(f, tables, root, base + pa);
            if pa < higher && Backed(TypeAt(maps[0], pa)) then t.Some? && t.value.pa == pa else t == None
  {
    hide Translate, Fits, AlignedRam, RamBelow, Shows, Ram, Residue, FlatBytes, HugeBytes, AllRam, TypeAt, Backed,
         LiveWalk.Kept;
    LiveBuild.UndisturbedIsRam(f, tables, root, base, higher, lower, top, maps, v, guard, pa);
    RamByType(maps[0], pa);
  }
}
