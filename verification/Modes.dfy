/**
 The paging modes in numbers (Intel SDM Vol. 3A, sections 4.3, 4.4 and 4.5; Arm Architecture Reference Manual, section
 D8.2): how much address space a table of each mode tells apart, and its page sizes. On AArch64 the choice between the
 two base registers counts as one more level, selected by the bits above the table's own.
 */
module Modes {
  import opened Arith
  import opened PageTables
  import opened AddressPaths
  import opened PageTableBuilder

  /** Addresses this many bytes apart look the same to a table of the mode, or to one of its AArch64 halves. */
  function Span(t: PtType): (n: nat)
    ensures n > 0
  {
    match t
    case I386NoPae => 0x1_0000_0000
    case I386Pae => 0x80_0000_0000
    case Amd64FourLevel => 0x1_0000_0000_0000
    case Amd64FiveLevel => 0x200_0000_0000_0000
    case Aarch64Granule48 => 0x200_0000_0000_0000
    case Aarch64Granule52 => 0x10_0000_0000_0000
  }

  /** The address as the mode sees it: with 52 bits on AArch64 it skips the bits between the table and the halves. */
  function Seen(t: PtType, va: nat): nat {
    if t.Aarch64Granule52? then va % Span(t) + va / 0x200_0000_0000_0000 % 512 * Span(t) else va % Span(t)
  }

  function PageSize(t: PtType, kind: PageKind): (n: nat)
    ensures n > 0
  {
    if kind.Normal? then 4096 else if t.I386NoPae? then 0x40_0000 else 0x20_0000
  }

  /** Physical addresses an entry has room for. */
  function PhysicalSpan(t: PtType): (n: nat)
    ensures n > 0
  {
    if t.I386NoPae? then 0x1_0000_0000
    else if t.Aarch64Granule48? || t.Aarch64Granule52? then 0x1_0000_0000_0000
    else 0x10_0000_0000_0000
  }

  function SlotBytes(t: PtType): nat {
    if t.I386NoPae? then 4 else 8
  }

  lemma Powers()
    ensures Pow2(4) == 16 && Pow2(9) == 512 && Pow2(10) == 1024 && Pow2(12) == 4096 && Pow2(21) == 0x20_0000
    ensures Pow2(22) == 0x40_0000 && Pow2(30) == 0x4000_0000 && Pow2(32) == 0x1_0000_0000
    ensures Pow2(39) == 0x80_0000_0000 && Pow2(48) == 0x1_0000_0000_0000 && Pow2(52) == 0x10_0000_0000_0000
    ensures Pow2(57) == 0x200_0000_0000_0000 && Pow2(64) == 0x1_0000_0000_0000_0000
  {
    assert Pow2(4) == 16 && Pow2(5) == 32;
    hide Pow2;
    Pow2Twelve();
    Pow2Add(4, 5);
    Pow2Add(5, 5);
    Pow2Add(12, 9);
    Pow2Add(12, 10);
    Pow2Add(21, 9);
    Pow2Add(22, 10);
    Pow2Add(30, 9);
    Pow2Add(39, 9);
    Pow2Add(48, 4);
    Pow2Add(48, 9);
    Pow2SixtyFour();
  }

  /** The format of a mode in these numbers. */
  lemma ModeNumbers(t: PtType, accessFlag: bool, va: nat)
    ensures var f := FormatOf(t, accessFlag);
            && PageBytes(f, 0) == 4096 && PageBytes(f, 1) == PageSize(t, Huge)
            && FlatBytes(f) == Span(t) && Residue(f, va) == Seen(t, va)
            && Pow2(AddressBits(f)) == PhysicalSpan(t)
            && f.entryBits == 8 * SlotBytes(t) && Pow2(f.width) * SlotBytes(t) == 4096
  {
    Powers();
    hide Pow2;
  }

  // ----- What one request on a fresh table maps -----

  /**
   A fresh table of each mode and one request on it: exactly the addresses that the mode cannot tell from those of the
   request translate, each to the byte at its offset, by pages of the mode's size.
   */
  method MapFresh(t: PtType, accessFlag: bool, pages: seq<nat>, kind: PageKind, v: nat, p: nat, n: nat)
    returns (pt: PageTable?, r: MapResult)
    requires PoolOk(FormatOf(t, accessFlag), pages, map[])
    requires v % PageSize(t, kind) == 0 && p % PageSize(t, kind) == 0
    requires v % Span(t) + n * PageSize(t, kind) <= Span(t) && p + n * PageSize(t, kind) <= PhysicalSpan(t)
    ensures pt == null <==> |pages| < if t.I386Pae? then 5 else 1
    ensures pt != null && r.Mapped? ==>
              forall va: nat :: Translate(pt.fmt, pt.tables, pt.root, va)
                == if Seen(t, v) <= Seen(t, va) < Seen(t, v) + n * PageSize(t, kind)
                   then Some(Leaf(p + (Seen(t, va) - Seen(t, v)), if kind.Huge? then 1 else 0)) else None
    ensures pt != null ==> r.Mapped? || r.NoPages?
    ensures pt != null ==> pt.Valid() && forall a :: a in pt.tables ==> |pt.tables[a]| * SlotBytes(t) == 4096
    ensures pt != null ==> forall a, i :: a in pt.tables && 0 <= i < |pt.tables[a]| ==> InSlot(t, pt.tables[a][i])
  {
    hide Translate, Residue, FlatBytes, Pow2, PageBytes, AddressBits, Overlay, Unshared, Formed, RootReady, PoolOk;
    r := NoPages;
    pt := Init(t, accessFlag, pages);
    if pt == null {
      return;
    }
    ghost var fresh_ := pt.tables;
    ModeNumbers(t, accessFlag, v);
    ghost var done;
    r, done := pt.MapPages(kind, v, p, n);
    TablesArePages(t, accessFlag, pt.tables, pt.root, pt.place);
    NothingInWay(pt.fmt, fresh_, pt.tables, pt.root, kind, v, p, done);
    if r.HugeInWay? {
      assert false;
    }
    if r.Mapped? {
      forall va: nat
        ensures Translate(pt.fmt, pt.tables, pt.root, va)
             == if Seen(t, v) <= Seen(t, va) < Seen(t, v) + n * PageSize(t, kind)
                then Some(Leaf(p + (Seen(t, va) - Seen(t, v)), if kind.Huge? then 1 else 0)) else None
      {
        ModeNumbers(t, accessFlag, va);
        FlatRequest(pt.fmt, kind, v, p, n, va, None);
      }
    }
  }

  /** An entry fits its slot. */
  predicate InSlot(t: PtType, e: nat) {
    e < if t.I386NoPae? then 0x1_0000_0000 else 0x1_0000_0000_0000_0000
  }

  lemma TablesArePages(t: PtType, accessFlag: bool, tables: Tables, root: nat, place: Places)
    requires Unshared(FormatOf(t, accessFlag), tables, root, place) && Formed(FormatOf(t, accessFlag), tables, place)
    ensures forall a :: a in tables ==> |tables[a]| * SlotBytes(t) == 4096
    ensures forall a, i :: a in tables && 0 <= i < |tables[a]| ==> InSlot(t, tables[a][i])
  {
    hide Pow2;
    ModeNumbers(t, accessFlag, 0);
    Powers();
    forall a | a in tables ensures |tables[a]| * SlotBytes(t) == 4096 {
      assert TableOk(FormatOf(t, accessFlag), tables, place, a);
    }
    forall a, i | a in tables && 0 <= i < |tables[a]| ensures InSlot(t, tables[a][i]) {
      assert TableFormed(FormatOf(t, accessFlag), tables[a], |place[a]|);
    }
  }

  /** Over a table that translated nothing, a request meets no page larger than its own. */
  lemma {:induction false} NothingInWay(f: Format, before: Tables, after: Tables, root: nat, kind: PageKind, v: nat,
                                        p: nat, n: nat)
    requires f.levels >= 2 && Overlaid(f, before, after, root, kind, v, p, n)
    requires forall va: nat :: Translate(f, before, root, va) == None
    ensures forall va: nat :: NothingHugeAbove(f, after, root, va, LeafLevel(kind))
  {
    hide Translate, Overlay;
    forall va: nat ensures NothingHugeAbove(f, after, root, va, LeafLevel(kind)) {
      OverlayLevel(f, kind, v, p, n, va);
    }
  }

  lemma {:induction false} OverlayLevel(f: Format, kind: PageKind, v: nat, p: nat, n: nat, va: nat)
    requires f.levels >= 2
    ensures var o := Overlay(f, kind, v, p, n, va, None); o.Some? ==> o.value.level == LeafLevel(kind)
    decreases n
  {
    hide Hits, PageBase;
    if n > 0 { OverlayLevel(f, kind, v, p, n - 1, va); }
  }
}
