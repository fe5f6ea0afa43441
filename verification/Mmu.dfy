/**
 The processor's view of the tables: the walks of the Intel SDM (Vol. 3A, sections 4.3, 4.4.2 and 4.5.4) and of the Arm
 Architecture Reference Manual (section D8.3, 4 KiB granule) over the bytes of memory, and that they find what
 `Translate` says.
 */
module Mmu {
  import opened Arith
  import opened PageTables
  import opened AddressPaths
  import opened PageTableBuilder
  import opened Modes

  /** The byte at each physical address. */
  type Memory = nat -> nat

  /** `n` bytes at `a`, lowest first. */
  function Load(m: Memory, a: nat, n: nat): nat
    decreases n
  {
    if n == 0 then 0 else m(a) + 256 * Load(m, a + 1, n - 1)
  }

  // ----- x86 -----

  /** A page that was found: where the byte is, and whether it may be written and is cached write-back. */
  datatype Access = Access(pa: nat, writable: bool, writeBack: bool)

  /** Bits 51:12 of an entry. */
  function Frame(e: nat): nat {
    e % 0x10_0000_0000_0000 / 4096 * 4096
  }

  /** The address of a large page: 4 MiB pages keep bits 39:32 of it in bits 20:13 of the entry. */
  function LargeFrame(e: nat, unit: nat, width: nat): nat
    requires unit > 0
  {
    if width == 4 then e / 0x40_0000 * 0x40_0000 + e / 0x2000 % 256 * 0x1_0000_0000
    else e % 0x10_0000_0000_0000 / unit * unit
  }

  predicate Bit(e: nat, unit: nat)
    requires unit > 0
  {
    e / unit % 2 == 1
  }

  /**
   From `table` down, one table per unit of address space; `slots` entries of `width` bytes in each. The last
   table maps pages; bit 7 maps a large page before, but not above 1 GiB. Bits 3 and 4 and the PAT bit, 7 or 12,
   select write-back when clear.
   */
  function X86Walk(m: Memory, table: nat, va: nat, units: seq<nat>, slots: nat, width: nat, writable: bool)
    : Option<Access>
    requires slots > 0 && forall i :: 0 <= i < |units| ==> units[i] > 0
    decreases |units|
  {
    if units == [] then None
    else
      var e := Load(m, table + width * (va / units[0] % slots), width);
      var w := writable && Bit(e, 2);
      if !Bit(e, 1) then None
      else if |units| == 1 then Some(Access(Frame(e) + va % 4096, w, !Bit(e, 8) && !Bit(e, 16) && !Bit(e, 128)))
      else if Bit(e, 128) then
        if units[0] > 0x4000_0000 then None
        else Some(Access(LargeFrame(e, units[0], width) + va % units[0], w, !Bit(e, 8) && !Bit(e, 16) && !Bit(e, 4096)))
      else X86Walk(m, Frame(e), va, units[1..], slots, width, w)
  }

  /** The four pointers of 32-bit PAE: in them bits 2:1 and 8:5 are reserved, and nothing is said about writing. */
  function PaeWalk(m: Memory, root: nat, va: nat): Option<Access> {
    var e := Load(m, root + 8 * (va / 0x4000_0000 % 4), 8);
    if !Bit(e, 1) || e / 2 % 4 != 0 || e / 32 % 16 != 0 then None
    else X86Walk(m, Frame(e), va, [0x20_0000, 0x1000], 512, 8, true)
  }

  predicate IsX86(t: PtType) {
    !t.Aarch64Granule48? && !t.Aarch64Granule52?
  }

  function X86Translates(t: PtType, m: Memory, root: nat, va: nat): Option<Access>
    requires IsX86(t)
  {
    match t
    case I386NoPae => X86Walk(m, root, va, [0x40_0000, 0x1000], 1024, 4, true)
    case I386Pae => PaeWalk(m, root, va)
    case Amd64FourLevel =>
      X86Walk(m, root, va, [0x80_0000_0000, 0x4000_0000, 0x20_0000, 0x1000], 512, 8, true)
    case Amd64FiveLevel =>
      X86Walk(m, root, va, [0x1_0000_0000_0000, 0x80_0000_0000, 0x4000_0000, 0x20_0000, 0x1000], 512, 8, true)
  }

  // ----- The tables in memory -----

  /** Every slot of every table is in memory, at its place in the page. */
  ghost predicate Resides(m: Memory, width: nat, tables: Tables) {
    forall t, i: nat :: t in tables && i < |tables[t]| ==> Load(m, t + width * i, width) == tables[t][i]
  }

  /** Byte `k` of an entry. */
  function ByteOf(e: nat, k: nat): nat {
    e / Pow2(8 * k) % 256
  }

  /** Memory that holds the tables, and zeros elsewhere. */
  function Image(tables: Tables, width: nat): Memory
    requires width > 0
  {
    (a: nat) =>
      var page, at := AlignDown(a, PAGE_SIZE), a % PAGE_SIZE;
      if page in tables && at / width < |tables[page]| then ByteOf(tables[page][at / width], at % width) else 0
  }

  /** There is such memory: entries written as their bytes are read back. */
  lemma ImageResides(tables: Tables, width: nat)
    requires width > 0
    requires forall t :: t in tables ==> t % PAGE_SIZE == 0 && width * |tables[t]| == PAGE_SIZE
    requires forall t, i: nat :: t in tables && i < |tables[t]| ==> tables[t][i] < Pow2(8 * width)
    ensures Resides(Image(tables, width), width, tables)
  {
    hide Load, Image, Pow2;
    forall t, i: nat | t in tables && i < |tables[t]|
      ensures Load(Image(tables, width), t + width * i, width) == tables[t][i]
    {
      LoadsRest(tables, width, t, i, 0);
      assert Pow2(0) == 1 by { PowZero(); }
    }
  }

  lemma PowZero()
    ensures Pow2(0) == 1 && Pow2(8) == 256
  {
  }

  lemma {:induction false} LoadsRest(tables: Tables, width: nat, t: nat, i: nat, k: nat)
    requires width > 0 && t in tables && t % PAGE_SIZE == 0 && width * |tables[t]| == PAGE_SIZE && i < |tables[t]|
    requires tables[t][i] < Pow2(8 * width) && k <= width
    ensures Load(Image(tables, width), t + width * i + k, width - k) == tables[t][i] / Pow2(8 * k)
    decreases width - k
  {
    hide Pow2, Image;
    var e := tables[t][i];
    if k < width {
      LoadsRest(tables, width, t, i, k + 1);
      PowZero();
      DivPow2(e, 8 * k, 8);
      DivModRebuild(e / Pow2(8 * k), 256);
      ImageByte(tables, width, t, i, k);
    } else {
      DivModUnique(e, Pow2(8 * width), 0, e);
    }
  }

  lemma ImageByte(tables: Tables, width: nat, t: nat, i: nat, k: nat)
    requires width > 0 && t in tables && t % PAGE_SIZE == 0 && width * |tables[t]| == PAGE_SIZE && i < |tables[t]|
    requires k < width
    ensures Image(tables, width)(t + width * i + k) == ByteOf(tables[t][i], k)
  {
    hide Pow2;
    var at := width * i + k;
    MulMonotone(i + 1, |tables[t]|, width);
    MulDistribute(i, 1, width);
    DivModRebuild(t, PAGE_SIZE);
    DivModUnique(t + at, PAGE_SIZE, t / PAGE_SIZE, at);
    DivModUnique(at, width, i, k);
  }

  // ----- Slots as the processor reads them -----

  /** The formats of x86, without those of 32-bit PAE's root. */
  ghost predicate X86Format(f: Format) {
    && ValidFormat(f) && f.arch.X86? && f.maskBits == 52
    && ((f.entryBits == 32 && f.width == 10) || (f.entryBits == 64 && f.width == 9))
  }

  lemma LowBits(e: nat, flags: nat)
    requires flags < 4096 && e % 4096 == flags
    ensures Bit(e, 1) == Bit(flags, 1) && Bit(e, 2) == Bit(flags, 2) && Bit(e, 8) == Bit(flags, 8)
    ensures Bit(e, 16) == Bit(flags, 16) && Bit(e, 128) == Bit(flags, 128)
  {
    var q := e / 4096;
    LowBit(flags, q, 1, 2048);
    LowBit(flags, q, 2, 1024);
    LowBit(flags, q, 8, 256);
    LowBit(flags, q, 16, 128);
    LowBit(flags, q, 128, 16);
  }

  lemma LowBit(flags: nat, q: nat, unit: nat, half: nat)
    requires unit > 0 && 2 * half * unit == 4096
    ensures Bit(q * 4096 + flags, unit) == Bit(flags, unit)
  {
    assert q * 4096 == q * (2 * half) * unit by { MulAssoc(q, 2 * half, unit); }
    DivAddUnits(flags, q * (2 * half), unit);
    assert q * (2 * half) == q * half * 2 by { MulAssoc(q, half, 2); }
    DivAddUnits(flags / unit, q * half, 2);
  }

  lemma FrameIsAddress(f: Format, e: nat)
    requires f.maskBits == 52
    ensures Frame(e) == Address(f, e)
  {
    Powers();
    hide Pow2;
  }

  /** A link, as the processor reads it. */
  lemma ReadsLink(f: Format, e: nat)
    requires X86Format(f) && e % PAGE_SIZE == TableFlags(f)
    ensures Bit(e, 1) && Bit(e, 2) && !Bit(e, 128) && Frame(e) == Address(f, e)
    ensures Present(e) && !IsHuge(f, e)
  {
    hide Frame, Address;
    LowBits(e, 3);
    FrameIsAddress(f, e);
  }

  /** A page. */
  lemma ReadsPage(f: Format, e: nat)
    requires X86Format(f) && e % PAGE_SIZE == LeafFlags(f, Normal)
    ensures Bit(e, 1) && Bit(e, 2) && !Bit(e, 8) && !Bit(e, 16) && !Bit(e, 128) && Frame(e) == Address(f, e)
    ensures Present(e)
  {
    hide Frame, Address;
    LowBits(e, 3);
    FrameIsAddress(f, e);
  }

  /** A large page: nothing but its flags is set below its boundary. */
  lemma ReadsLarge(f: Format, e: nat)
    requires X86Format(f) && e < Pow2(f.entryBits) && e % PageBytes(f, 1) == LeafFlags(f, Huge)
    ensures Bit(e, 1) && Bit(e, 2) && !Bit(e, 8) && !Bit(e, 16) && Bit(e, 128) && !Bit(e, 4096)
    ensures PageBytes(f, 1) <= 0x4000_0000 && LargeFrame(e, PageBytes(f, 1), f.entryBits / 8) == Address(f, e)
    ensures Present(e) && IsHuge(f, e)
  {
    Powers();
    hide Pow2;
    var unit := PageBytes(f, 1);
    var q := e / unit;
    assert unit == if f.entryBits == 32 then 0x40_0000 else 0x20_0000;
    assert e == q * unit + 131;
    LargeBits(e, q, unit);
    LowBits(e, 131);
    if f.entryBits == 32 {
      SmallEnough(e);
    } else {
      LargeAddress(e, q);
    }
  }

  lemma LargeBits(e: nat, q: nat, unit: nat)
    requires e == q * unit + 131 && (unit == 0x40_0000 || unit == 0x20_0000)
    ensures e % 4096 == 131 && !Bit(e, 4096)
    ensures unit == 0x40_0000 ==> e / 0x2000 % 256 == 0
  {
    DivModUnique(e, 4096, q * (unit / 4096), 131);
    DivModUnique(q * (unit / 4096), 2, q * (unit / 8192), 0);
    if unit == 0x40_0000 {
      DivModUnique(e, 0x2000, q * 512, 131);
      DivModUnique(q * 512, 256, q * 2, 0);
    }
  }

  lemma SmallEnough(e: nat)
    requires e < 0x1_0000_0000
    ensures e % 0x10_0000_0000_0000 == e
  {
  }

  lemma LargeAddress(e: nat, q: nat)
    requires e == q * 0x20_0000 + 131
    ensures var x := e % 0x10_0000_0000_0000; x / 0x20_0000 * 0x20_0000 == x - 131 == x / 4096 * 4096
  {
    var k := q % 0x8000_0000;
    DivModRebuild(q, 0x8000_0000);
    DivModUnique(e, 0x10_0000_0000_0000, q / 0x8000_0000, k * 0x20_0000 + 131);
    DivModUnique(k * 0x20_0000 + 131, 0x20_0000, k, 131);
    DivModUnique(k * 0x20_0000 + 131, 4096, k * 512, 131);
  }

  // ----- The walk from a table down -----

  /** Address space covered by one entry of each table, from `level` down. */
  ghost function Units(f: Format, level: nat): (u: seq<nat>)
    ensures |u| == level + 1 && u[0] == PageBytes(f, level) && forall i :: 0 <= i < |u| ==> u[i] > 0
  {
    if level == 0 then [PageBytes(f, 0)] else [PageBytes(f, level)] + Units(f, level - 1)
  }

  /** The slot indices of an address from `level` down. */
  ghost function Lower(f: Format, va: nat, level: nat): (p: seq<nat>)
    ensures |p| == level + 1 && p[0] == LevelIndex(f, va, level)
  {
    if level == 0 then [LevelIndex(f, va, 0)] else [LevelIndex(f, va, level)] + Lower(f, va, level - 1)
  }

  lemma {:induction false} PathSplits(f: Format, va: nat, level: nat)
    requires level < f.levels
    ensures IndexPath(f, va, 0) == IndexPath(f, va, level + 1) + Lower(f, va, level)
    decreases level
  {
    hide LevelIndex;
    if level > 0 { PathSplits(f, va, level - 1); }
  }

  /** All of the path, from the root. */
  lemma WholePath(f: Format, va: nat)
    requires f.levels > 0
    ensures IndexPath(f, va, 0) == Lower(f, va, f.levels - 1)
  {
    hide LevelIndex;
    PathSplits(f, va, f.levels - 1);
    assert IndexPath(f, va, f.levels) == [];
  }

  /** A leaf as a page that may be written and is cached. */
  ghost function Writable(f: Format, va: nat, w: Option<Found>): Option<Access> {
    if w.None? then None
    else Some(Access(Address(f, w.value.entry) + va % PageBytes(f, w.value.level), true, true))
  }

  /** What holds of a table the walk stands on. */
  ghost predicate Stands(f: Format, m: Memory, tables: Tables, root: nat, place: Places, table: nat, level: nat) {
    && Unshared(f, tables, root, place) && Formed(f, tables, place) && Resides(m, f.entryBits / 8, tables)
    && table in tables && level < f.levels && |place[table]| == f.levels - 1 - level
  }

  /** The slot the processor reads is the slot the walk reads. */
  lemma SlotRead(f: Format, m: Memory, tables: Tables, root: nat, place: Places, table: nat, level: nat, va: nat)
    requires ValidFormat(f) && Stands(f, m, tables, root, place, table, level)
    ensures LevelIndex(f, va, level) < |tables[table]| == Pow2(f.width)
    ensures Load(m, table + f.entryBits / 8 * LevelIndex(f, va, level), f.entryBits / 8)
         == tables[table][LevelIndex(f, va, level)]
    ensures SlotFormed(f, level, tables[table][LevelIndex(f, va, level)])
  {
    hide LevelIndex, SlotFormed, Load, Pow2;
    IndexInTable(f, va, level);
    assert TableOk(f, tables, place, table);
    assert TableFormed(f, tables[table], |place[table]|);
  }

  /** A link leads to a table one level down. */
  lemma LinkStands(f: Format, m: Memory, tables: Tables, root: nat, place: Places, table: nat, level: nat, i: nat)
    requires Stands(f, m, tables, root, place, table, level) && level > 0
    requires i < |tables[table]| && IsLink(f, tables[table][i])
    ensures Stands(f, m, tables, root, place, Address(f, tables[table][i]), level - 1)
  {
    hide Address, Present, IsHuge, Load, Formed, Resides;
    assert TableOk(f, tables, place, table);
  }

  /** From any table below the root of 32-bit PAE, the processor's walk is the walk of the model. */
  lemma {:induction false} X86Agrees(f: Format, m: Memory, tables: Tables, root: nat, place: Places, table: nat,
                                     level: nat, va: nat)
    requires X86Format(f) && Stands(f, m, tables, root, place, table, level) && !(f.levels == 3 && level == 2)
    ensures X86Walk(m, table, va, Units(f, level), Pow2(f.width), f.entryBits / 8, true)
         == Writable(f, va, Walk(f, tables, table, Lower(f, va, level)))
    decreases level
  {
    hide LevelIndex, Stands, Load, Address, Frame, LargeFrame, Bit, Pow2, TableFlags, LeafFlags, Present, IsHuge;
    SlotRead(f, m, tables, root, place, table, level, va);
    UniformIndex(f, va, level);
    TableThere(f, m, tables, root, place, table, level);
    var e := tables[table][LevelIndex(f, va, level)];
    if e == 0 {
      ReadsNothing();
    } else if level == 0 {
      ReadsPage(f, e);
      SmallUnit(f);
    } else if e % PAGE_SIZE == TableFlags(f) {
      ReadsLink(f, e);
      LinkStands(f, m, tables, root, place, table, level, LevelIndex(f, va, level));
      X86Agrees(f, m, tables, root, place, Address(f, e), level - 1, va);
      assert Units(f, level)[1..] == Units(f, level - 1);
      assert Lower(f, va, level)[1..] == Lower(f, va, level - 1);
    } else {
      ReadsLarge(f, e);
    }
  }

  lemma ReadsNothing()
    ensures !Bit(0, 1) && !Present(0)
  {
  }

  lemma SmallUnit(f: Format)
    ensures PageBytes(f, 0) == 4096
  {
    Pow2Twelve();
  }

  lemma TableThere(f: Format, m: Memory, tables: Tables, root: nat, place: Places, table: nat, level: nat)
    requires Stands(f, m, tables, root, place, table, level)
    ensures table in tables && level < f.levels
  {
  }

  lemma UniformIndex(f: Format, va: nat, level: nat)
    requires f.arch.X86?
    ensures LevelIndex(f, va, level) == va / PageBytes(f, level) % Pow2(f.width)
  {
  }

  /** So there is memory that holds the tables of a builder. */
  lemma TablesReside(pt: PageTable, t: PtType, accessFlag: bool)
    requires pt.Valid() && pt.fmt == FormatOf(t, accessFlag)
    ensures Resides(Image(pt.tables, SlotBytes(t)), SlotBytes(t), pt.tables)
  {
    hide Unshared, PoolOk, RootReady, Pow2, Image, Resides;
    TablesArePages(t, accessFlag, pt.tables, pt.root, pt.place);
    Powers();
    ImageResides(pt.tables, SlotBytes(t));
  }

  // ----- The modes of x86 -----

  /** The unit sizes of the formats, as the manual has them. */
  lemma ModeUnits(t: PtType, accessFlag: bool)
    requires IsX86(t)
    ensures var f := FormatOf(t, accessFlag);
            && X86Format(f) && Pow2(f.width) * SlotBytes(t) == 4096 && f.entryBits / 8 == SlotBytes(t)
            && (t.I386NoPae? ==> f.levels == 2 && Units(f, 1) == [0x40_0000, 0x1000])
            && (t.I386Pae? ==> f.levels == 3 && Units(f, 1) == [0x20_0000, 0x1000] && PageBytes(f, 2) == 0x4000_0000)
            && (t.Amd64FourLevel? ==>
                  f.levels == 4 && Units(f, 3) == [0x80_0000_0000, 0x4000_0000, 0x20_0000, 0x1000])
            && (t.Amd64FiveLevel? ==>
                  f.levels == 5
                  && Units(f, 4) == [0x1_0000_0000_0000, 0x80_0000_0000, 0x4000_0000, 0x20_0000, 0x1000])
  {
    Powers();
    hide Pow2;
    var f := FormatOf(t, accessFlag);
    assert Units(f, 0) == [0x1000];
    assert Units(f, 1) == [PageBytes(f, 1), 0x1000];
    assert Units(f, 2) == [PageBytes(f, 2), PageBytes(f, 1), 0x1000];
    assert Units(f, 3) == [PageBytes(f, 3), PageBytes(f, 2), PageBytes(f, 1), 0x1000];
    assert Units(f, 4) == [PageBytes(f, 4), PageBytes(f, 3), PageBytes(f, 2), PageBytes(f, 1), 0x1000];
  }

  /**
   In every mode of x86, on every table the builder made, the processor finds exactly what `Translate` says, and may
   write to it, cached; whatever else is in memory.
   */
  lemma X86Finds(pt: PageTable, t: PtType, accessFlag: bool, m: Memory, va: nat)
    requires IsX86(t) && pt.Valid() && pt.fmt == FormatOf(t, accessFlag) && Resides(m, SlotBytes(t), pt.tables)
    requires t.I386NoPae? || t.I386Pae? ==> va < 0x1_0000_0000
    ensures X86Translates(t, m, pt.root, va)
         == match Translate(pt.fmt, pt.tables, pt.root, va)
            case None => None
            case Some(leaf) => Some(Access(leaf.pa, true, true))
  {
    hide X86Walk, Walk, IndexPath, LevelIndex, Address, Pow2, PageBytes, Load, Formed, TableOk, PoolOk;
    var f := pt.fmt;
    ModeUnits(t, accessFlag);
    WholePath(f, va);
    if t.I386Pae? {
      PaeFinds(f, m, pt.tables, pt.root, pt.place, va);
    } else {
      X86Agrees(f, m, pt.tables, pt.root, pt.place, pt.root, f.levels - 1, va);
    }
  }

  lemma PaeFinds(f: Format, m: Memory, tables: Tables, root: nat, place: Places, va: nat)
    requires X86Format(f) && f.levels == 3 && f.entryBits == 64 && va < 0x1_0000_0000
    requires Unshared(f, tables, root, place) && Formed(f, tables, place) && Resides(m, 8, tables)
    requires RootReady(f, tables, root) && PageBytes(f, 2) == 0x4000_0000 && Units(f, 1) == [0x20_0000, 0x1000]
    ensures PaeWalk(m, root, va) == Writable(f, va, Walk(f, tables, root, Lower(f, va, 2)))
  {
    hide X86Walk, LevelIndex, Address, Frame, Pow2, PageBytes, Load, Formed, TableOk, Resides, Present, IsHuge,
         TableFlags;
    PaeIndex(f, va);
    SlotRead(f, m, tables, root, place, root, 2, va);
    var e := tables[root][LevelIndex(f, va, 2)];
    ReadsPointer(f, e);
    FrameIsAddress(f, e);
    LinkStands(f, m, tables, root, place, root, 2, LevelIndex(f, va, 2));
    X86Agrees(f, m, tables, root, place, Address(f, e), 1, va);
    assert Lower(f, va, 2)[1..] == Lower(f, va, 1);
    SlotsOf(f);
  }

  lemma SlotsOf(f: Format)
    requires X86Format(f)
    ensures Pow2(f.width) == if f.entryBits == 32 then 1024 else 512
  {
    Powers();
  }

  lemma PaeIndex(f: Format, va: nat)
    requires X86Format(f) && f.entryBits == 64 && PageBytes(f, 2) == 0x4000_0000 && va < 0x1_0000_0000
    ensures LevelIndex(f, va, 2) == va / 0x4000_0000 % 4 < 4
  {
    SlotsOf(f);
    hide Pow2, PageBytes;
  }

  /** A pointer with the present bit alone. */
  lemma ReadsPointer(f: Format, e: nat)
    requires f.arch.X86? && e % PAGE_SIZE == 1
    ensures Bit(e, 1) && e / 2 % 4 == 0 && e / 32 % 16 == 0 && Present(e) && !IsHuge(f, e)
  {
    LowBits(e, 1);
    var q := e / 4096;
    DivModUnique(e, 2, q * 2048, 1);
    DivModUnique(q * 2048, 4, q * 512, 0);
    DivModUnique(e, 32, q * 128, 1);
    DivModUnique(q * 128, 16, q * 8, 0);
  }
}
