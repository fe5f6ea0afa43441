/**
 The walk of the Arm Architecture Reference Manual (section D8.3, 4 KiB granule, without and with the 52-bit
 descriptors of FEAT_LPA2) over the bytes of memory, and that it finds what `Translate` says.
 */
module MmuArm {
  import opened Arith
  import opened PageTables
  import opened AddressPaths
  import opened PageTableBuilder
  import opened Modes
  import opened Mmu

  /** A page that was found, and what its descriptor says: write permission, access flag and the field of bits 9:8. */
  datatype ArmAccess = ArmAccess(pa: nat, writable: bool, accessed: bool, field: nat)

  /** The address in a descriptor: bits 47:12, or with 52 bits, 49:12 and above them bits 9:8. */
  function ArmFrame(wide: bool, e: nat): nat {
    if wide then e / 4096 % 0x40_0000_0000 * 4096 + e / 256 % 4 * 0x4_0000_0000_0000
    else e / 4096 % 0x10_0000_0000 * 4096
  }

  function ArmLeaf(wide: bool, e: nat, va: nat, unit: nat): ArmAccess
    requires unit > 0
  {
    ArmAccess(AlignDown(ArmFrame(wide, e), unit) + va % unit, !Bit(e, 128), Bit(e, 1024), e / 256 % 4)
  }

  /**
   From `table` down: bit 0 is validity, bit 1 tells tables and pages from blocks. The last table holds pages alone,
   and blocks are of 1 GiB at most, or 512 GiB with the wide descriptors.
   */
  function ArmWalk(m: Memory, table: nat, va: nat, units: seq<nat>, slots: seq<nat>, wide: bool): Option<ArmAccess>
    requires |slots| == |units| && forall i :: 0 <= i < |units| ==> units[i] > 0 && slots[i] > 0
    decreases |units|
  {
    if units == [] then None
    else
      var e := Load(m, table + 8 * (va / units[0] % slots[0]), 8);
      if !Bit(e, 1) then None
      else if |units| == 1 then if Bit(e, 2) then Some(ArmLeaf(wide, e, va, 4096)) else None
      else if Bit(e, 2) then ArmWalk(m, ArmFrame(wide, e), va, units[1..], slots[1..], wide)
      else if units[0] > (if wide then 0x80_0000_0000 else 0x4000_0000) then None
      else Some(ArmLeaf(wide, e, va, units[0]))
  }

  /** The halves of the address space that have a table: below 2^48 or 2^52, and as much at the top of 64 bits. */
  predicate InHalf(wide: bool, va: nat) {
    var half := if wide then 0x10_0000_0000_0000 else 0x1_0000_0000_0000;
    va < half || TWO_64 - half <= va < TWO_64
  }

  /** Which slot of the builder's root holds the base register of an address. */
  function BaseSlot(wide: bool, va: nat): nat {
    if va < TWO_64 / 2 then 0 else if wide then 127 else 511
  }

  /** The base register of the half, as the loader reads it out of the root, and the walk from there. */
  function ArmTranslates(wide: bool, m: Memory, root: nat, va: nat): Option<ArmAccess> {
    var base := Load(m, root + 8 * BaseSlot(wide, va), 8) % 0x1_0000_0000_0000 / 4096 * 4096;
    if wide then
      ArmWalk(m, base, va, [0x1_0000_0000_0000, 0x80_0000_0000, 0x4000_0000, 0x20_0000, 0x1000],
              [16, 512, 512, 512, 512], true)
    else ArmWalk(m, base, va, [0x80_0000_0000, 0x4000_0000, 0x20_0000, 0x1000], [512, 512, 512, 512], false)
  }

  // ----- Descriptors -----

  ghost predicate ArmFormat(f: Format, wide: bool) {
    && ValidFormat(f) && f.arch.Aarch64? && f.maskBits == 48 && f.entryBits == 64 && f.width == 9
    && f.arch.attributes < 8 && f.levels == (if wide then 6 else 5)
    && (wide ==> f.arch.attributes % 4 == 0)
  }

  /** All addresses are below 2^48. */
  ghost predicate Narrow(tables: Tables) {
    forall t, i: nat :: t in tables && i < |tables[t]| ==> tables[t][i] < 0x1_0000_0000_0000
  }

  lemma ArmBits(e: nat, low: nat, a: nat)
    requires low < 4 && a < 8 && e % 4096 == low + 256 * a
    ensures Bit(e, 1) == (low % 2 == 1) && Bit(e, 2) == (low / 2 == 1)
    ensures !Bit(e, 128) && Bit(e, 1024) == (a >= 4) && e / 256 % 4 == a % 4
  {
    var q, flags := e / 4096, low + 256 * a;
    LowBit(flags, q, 1, 2048);
    LowBit(flags, q, 2, 1024);
    LowBit(flags, q, 128, 16);
    LowBit(flags, q, 1024, 2);
    DivModUnique(e, 256, q * 16 + a, low);
    DivModUnique(q * 16 + a, 4, q * 4 + a / 4, a % 4);
  }

  lemma ArmAddress(f: Format, wide: bool, e: nat)
    requires ArmFormat(f, wide) && e < 0x1_0000_0000_0000 && e / 256 % 4 == f.arch.attributes % 4
    ensures ArmFrame(wide, e) == Address(f, e) == e / 4096 * 4096 == e % 0x1_0000_0000_0000 / 4096 * 4096
  {
    Powers();
    hide Pow2;
    DivModUnique(e, 0x1_0000_0000_0000, 0, e);
    DivModUnique(e / 4096, 0x40_0000_0000, 0, e / 4096);
    DivModUnique(e / 4096, 0x10_0000_0000, 0, e / 4096);
  }

  /** A table descriptor or a page descriptor. */
  lemma ReadsTable(f: Format, wide: bool, e: nat)
    requires ArmFormat(f, wide) && e < 0x1_0000_0000_0000 && e % 4096 == 3 + 256 * f.arch.attributes
    ensures Bit(e, 1) && Bit(e, 2) && Present(e) && !IsHuge(f, e)
    ensures ArmFrame(wide, e) == Address(f, e) == e % 0x1_0000_0000_0000 / 4096 * 4096
    ensures forall va: nat :: ArmLeaf(wide, e, va, 4096) == Described(f, e, va % 4096)
  {
    hide Address, ArmFrame;
    ArmBits(e, 3, f.arch.attributes);
    ArmAddress(f, wide, e);
    DivModUnique(e / 4096 * 4096, 4096, e / 4096, 0);
  }

  /** A block: nothing but its attributes is set below its boundary. */
  lemma ReadsBlock(f: Format, wide: bool, e: nat)
    requires ArmFormat(f, wide) && e < 0x1_0000_0000_0000 && e % 0x20_0000 == 1 + 256 * f.arch.attributes
    ensures Bit(e, 1) && !Bit(e, 2) && Present(e) && IsHuge(f, e)
    ensures forall va: nat :: ArmLeaf(wide, e, va, 0x20_0000) == Described(f, e, va % 0x20_0000)
  {
    hide Address, ArmFrame;
    var q, a := e / 0x20_0000, f.arch.attributes;
    DivModUnique(e, 4096, q * 512, 1 + 256 * a);
    ArmBits(e, 1, a);
    ArmAddress(f, wide, e);
    DivModUnique(q * 0x20_0000, 0x20_0000, q, 0);
  }

  /** A leaf as the builder means it: to be written, with the access flag and shareability of the format. */
  ghost function Described(f: Format, e: nat, offset: nat): ArmAccess
    requires f.arch.Aarch64?
  {
    ArmAccess(Address(f, e) + offset, true, f.arch.attributes >= 4, f.arch.attributes % 4)
  }

  ghost function Descriptor(f: Format, va: nat, w: Option<Found>): Option<ArmAccess>
    requires f.arch.Aarch64?
  {
    if w.None? then None else Some(Described(f, w.value.entry, va % PageBytes(f, w.value.level)))
  }

  // ----- The walk from a table down -----

  /** Entries a walk can select in each table, from `level` down. */
  ghost function Sizes(f: Format, level: nat): (u: seq<nat>)
    ensures |u| == level + 1 && u[0] == Pow2(WidthAt(f, level)) && forall i :: 0 <= i < |u| ==> u[i] > 0
  {
    if level == 0 then [Pow2(WidthAt(f, 0))] else [Pow2(WidthAt(f, level))] + Sizes(f, level - 1)
  }

  lemma ArmUnits(f: Format, wide: bool)
    requires ArmFormat(f, wide)
    ensures Units(f, 3) == [0x80_0000_0000, 0x4000_0000, 0x20_0000, 0x1000] && Sizes(f, 3) == [512, 512, 512, 512]
    ensures PageBytes(f, 4) == 0x1_0000_0000_0000 && PageBytes(f, 5) == 0x200_0000_0000_0000
    ensures wide ==> Units(f, 4) == [0x1_0000_0000_0000, 0x80_0000_0000, 0x4000_0000, 0x20_0000, 0x1000]
                     && Sizes(f, 4) == [16, 512, 512, 512, 512]
    ensures Pow2(WidthAt(f, f.levels - 1)) == 512
  {
    Powers();
    hide Pow2;
    assert Units(f, 0) == [0x1000] && Sizes(f, 0) == [512];
    assert Units(f, 1) == [0x20_0000, 0x1000] && Sizes(f, 1) == [512, 512];
    assert Units(f, 2) == [0x4000_0000, 0x20_0000, 0x1000] && Sizes(f, 2) == [512, 512, 512];
    assert Units(f, 3) == [0x80_0000_0000, 0x4000_0000, 0x20_0000, 0x1000] && Sizes(f, 3) == [512, 512, 512, 512];
  }

  lemma FlagNumbers(f: Format, wide: bool)
    requires ArmFormat(f, wide)
    ensures TableFlags(f) == LeafFlags(f, Normal) == 3 + 256 * f.arch.attributes
    ensures LeafFlags(f, Huge) == 1 + 256 * f.arch.attributes
    ensures PageBytes(f, 0) == 4096 && PageBytes(f, 1) == 0x20_0000
  {
    Powers();
  }

  lemma {:induction false} ArmAgrees(f: Format, wide: bool, m: Memory, tables: Tables, root: nat, place: Places,
                                     table: nat, level: nat, va: nat)
    requires ArmFormat(f, wide) && Stands(f, m, tables, root, place, table, level) && Narrow(tables)
    ensures ArmWalk(m, table, va, Units(f, level), Sizes(f, level), wide)
         == Descriptor(f, va, Walk(f, tables, table, Lower(f, va, level)))
    decreases level
  {
    hide Stands, Load, Address, ArmFrame, Bit, Pow2, TableFlags, LeafFlags, Present, IsHuge, ArmLeaf, PageBytes,
         WidthAt;
    SlotRead(f, m, tables, root, place, table, level, va);
    TableThere(f, m, tables, root, place, table, level);
    FlagNumbers(f, wide);
    var e := tables[table][LevelIndex(f, va, level)];
    if e == 0 {
      ReadsNothing();
    } else if e % PAGE_SIZE == TableFlags(f) {
      ReadsTable(f, wide, e);
      if level > 0 {
        LinkStands(f, m, tables, root, place, table, level, LevelIndex(f, va, level));
        ArmAgrees(f, wide, m, tables, root, place, Address(f, e), level - 1, va);
        assert Units(f, level)[1..] == Units(f, level - 1) && Sizes(f, level)[1..] == Sizes(f, level - 1);
        assert Lower(f, va, level)[1..] == Lower(f, va, level - 1);
      }
    } else {
      ReadsBlock(f, wide, e);
    }
  }

  // ----- The two formats -----

  /** The base register of an address is the root slot that the builder's walk selects. */
  lemma BaseIsRootSlot(f: Format, wide: bool, va: nat)
    requires ArmFormat(f, wide) && InHalf(wide, va)
    ensures LevelIndex(f, va, f.levels - 1) == BaseSlot(wide, va)
  {
    ArmUnits(f, wide);
    hide Pow2, PageBytes, WidthAt;
    var unit := PageBytes(f, f.levels - 1);
    var i := va / unit;
    if va < TWO_64 / 2 {
      DivModUnique(va, unit, 0, va);
    } else if wide {
      DivModUnique(va, unit, 127, va - 127 * unit);
    } else {
      DivModUnique(va, unit, 65535, va - 65535 * unit);
    }
  }

  /**
   On both AArch64 formats, in a half whose base register was set up, the processor finds exactly what `Translate`
   says: it may write, the access flag is set as asked, and with 48 bits memory is inner shareable, while with 52 bits,
   where the same field is part of the address, it is clear.
   */
  lemma ArmFinds(pt: PageTable, wide: bool, accessFlag: bool, m: Memory, va: nat)
    requires pt.Valid() && pt.fmt == FormatOf(if wide then Aarch64Granule52 else Aarch64Granule48, accessFlag)
    requires Resides(m, 8, pt.tables) && Narrow(pt.tables) && InHalf(wide, va)
    requires pt.root in pt.tables && |pt.tables[pt.root]| == 512 && pt.tables[pt.root][BaseSlot(wide, va)] != 0
    ensures ArmTranslates(wide, m, pt.root, va)
         == match Translate(pt.fmt, pt.tables, pt.root, va)
            case None => None
            case Some(leaf) => Some(ArmAccess(leaf.pa, true, accessFlag, if wide then 0 else 3))
  {
    hide ArmWalk, IndexPath, LevelIndex, Address, Pow2, PageBytes, Load, Formed, TableOk, PoolOk, SlotFormed, Present,
         IsHuge, ArmFrame, Narrow, Resides, WidthAt, TableFlags, LeafFlags, Units, Sizes;
    var f, tables, root := pt.fmt, pt.tables, pt.root;
    var top := f.levels - 1;
    BaseIsRootSlot(f, wide, va);
    ArmUnits(f, wide);
    WholePath(f, va);
    FlagNumbers(f, wide);
    SlotRead(f, m, tables, root, pt.place, root, top, va);
    var e := tables[root][BaseSlot(wide, va)];
    RootLink(f, wide, tables, root, e, top, BaseSlot(wide, va));
    ReadsTable(f, wide, e);
    LinkStands(f, m, tables, root, pt.place, root, top, BaseSlot(wide, va));
    ArmAgrees(f, wide, m, tables, root, pt.place, Address(f, e), top - 1, va);
    assert Lower(f, va, top)[1..] == Lower(f, va, top - 1);
  }

  lemma RootLink(f: Format, wide: bool, tables: Tables, root: nat, e: nat, level: nat, i: nat)
    requires ArmFormat(f, wide) && SlotFormed(f, level, e) && e != 0 && level >= 2 && Narrow(tables)
    requires root in tables && i < |tables[root]| && e == tables[root][i]
    ensures e < 0x1_0000_0000_0000 && e % 4096 == 3 + 256 * f.arch.attributes
  {
    FlagNumbers(f, wide);
  }
}
