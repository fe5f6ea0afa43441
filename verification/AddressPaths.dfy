/**
 How virtual addresses select slots, the translation a processor performs, and the flat
 specification of a mapping request as an overlay on that translation.
 */
module AddressPaths {
  import opened Arith
  import opened PageTables

  /** The level whose tables hold the leaf entries of a page kind. */
  function LeafLevel(kind: PageKind): nat {
    match kind
    case Normal => 0
    case Huge => 1
  }

  function LevelShift(f: Format, level: nat): nat {
    PAGE_SHIFT + f.width * level
  }

  /** Bytes covered by one entry of a table at `level`. */
  function PageBytes(f: Format, level: nat): (n: nat)
    ensures n > 0
  {
    Pow2(LevelShift(f, level))
  }

  /** The 52-bit AArch64 format narrows lookup level -1 to 16 entries. */
  function WidthAt(f: Format, level: nat): nat {
    if f.arch.Aarch64? && f.levels == 6 && level == 4 then 4 else f.width
  }

  function LevelIndex(f: Format, va: nat, level: nat): nat {
    (va / PageBytes(f, level)) % Pow2(WidthAt(f, level))
  }

  /** The slot indices an address selects, from the root down to and including `level`. */
  function IndexPath(f: Format, va: nat, level: nat): (p: seq<nat>)
    requires level <= f.levels
    ensures |p| == f.levels - level
    decreases f.levels - level
  {
    if level == f.levels then [] else IndexPath(f, va, level + 1) + [LevelIndex(f, va, level)]
  }

  /** The outcome of a successful translation: the physical address and the level of the leaf entry. */
  datatype Leaf = Leaf(pa: nat, level: nat)

  function Translate(f: Format, tables: Tables, root: nat, va: nat): Option<Leaf> {
    match Walk(f, tables, root, IndexPath(f, va, 0))
    case None => None
    case Some(Found(e, level)) => Some(Leaf(Address(f, e) + va % PageBytes(f, level), level))
  }

  /** Virtual base of page `i` of a request starting at `v`. */
  function PageBase(f: Format, kind: PageKind, v: nat, i: nat): nat {
    v + i * PageBytes(f, LeafLevel(kind))
  }

  /** A walk for `va` selects the same leaf slot as page `i` of the request. */
  predicate Hits(f: Format, kind: PageKind, v: nat, i: nat, va: nat)
    requires f.levels >= 2
  {
    IndexPath(f, va, LeafLevel(kind)) == IndexPath(f, PageBase(f, kind, v, i), LeafLevel(kind))
  }

  function LeafFor(f: Format, kind: PageKind, p: nat, i: nat, va: nat): Leaf {
    Leaf(PageBase(f, kind, p, i) % Pow2(AddressBits(f)) + va % PageBytes(f, LeafLevel(kind)), LeafLevel(kind))
  }

  /** What `va` translates to once the first `n` pages of a request lie over the translation `before`. */
  function Overlay(f: Format, kind: PageKind, v: nat, p: nat, n: nat, va: nat, before: Option<Leaf>): Option<Leaf>
    requires f.levels >= 2
    decreases n
  {
    if n == 0 then before
    else if Hits(f, kind, v, n - 1, va) then Some(LeafFor(f, kind, p, n - 1, va))
    else Overlay(f, kind, v, p, n - 1, va, before)
  }

  // ----- Index paths -----

  lemma IndexInTable(f: Format, va: nat, level: nat)
    requires ValidFormat(f)
    ensures LevelIndex(f, va, level) < Pow2(f.width)
  {
    Pow2Monotone(WidthAt(f, level), f.width);
  }

  /** A path to a level is a prefix of the path to any lower level. */
  lemma {:induction false} PathPrefix(f: Format, va: nat, low: nat, high: nat)
    requires low <= high < f.levels
    ensures IndexPath(f, va, low)[..f.levels - high - 1] == IndexPath(f, va, high + 1)
    ensures IndexPath(f, va, low)[f.levels - high - 1] == LevelIndex(f, va, high)
    decreases high - low
  {
    if low < high {
      PathPrefix(f, va, low + 1, high);
    }
  }

  lemma {:induction false} SamePathAbove(f: Format, va: nat, vb: nat, level: nat)
    requires level <= f.levels
    requires va / PageBytes(f, level) == vb / PageBytes(f, level)
    ensures IndexPath(f, va, level) == IndexPath(f, vb, level)
    decreases f.levels - level
  {
    if level < f.levels {
      NextShift(f, va, level);
      NextShift(f, vb, level);
      SamePathAbove(f, va, vb, level + 1);
    }
  }

  lemma NextShift(f: Format, va: nat, level: nat)
    ensures LevelShift(f, level + 1) == LevelShift(f, level) + f.width
    ensures PageBytes(f, level + 1) == PageBytes(f, level) * Pow2(f.width)
    ensures va / PageBytes(f, level + 1) == (va / PageBytes(f, level)) / Pow2(f.width)
    ensures va % PageBytes(f, level + 1)
         == (va / PageBytes(f, level)) % Pow2(f.width) * PageBytes(f, level) + va % PageBytes(f, level)
  {
    MulDistribute(level, 1, f.width);
    MulCommute(f.width, level);
    MulCommute(f.width, level + 1);
    Pow2Add(LevelShift(f, level), f.width);
    DivPow2(va, LevelShift(f, level), f.width);
  }

  lemma WithinTable(n: nat, k: nat, w: nat)
    requires w > 0 && n % w + k < w
    ensures (n + k) / w == n / w && (n + k) % w == n % w + k
  {
    DivModRebuild(n, w);
    DivModUnique(n + k, w, n / w, n % w + k);
  }

  /** Pages that stay inside one table differ only in the leaf index. */
  lemma BatchIndices(f: Format, kind: PageKind, v: nat, k: nat)
    requires ValidFormat(f)
    requires v % PageBytes(f, LeafLevel(kind)) == 0
    requires LevelIndex(f, v, LeafLevel(kind)) + k < Pow2(f.width)
    ensures LevelIndex(f, PageBase(f, kind, v, k), LeafLevel(kind)) == LevelIndex(f, v, LeafLevel(kind)) + k
    ensures IndexPath(f, PageBase(f, kind, v, k), LeafLevel(kind) + 1) == IndexPath(f, v, LeafLevel(kind) + 1)
  {
    hide Pow2, PageBytes, IndexPath;
    var leaf := LeafLevel(kind);
    DivAddUnits(v, k, PageBytes(f, leaf));
    WithinTable(v / PageBytes(f, leaf), k, Pow2(f.width));
    NextShift(f, v, leaf);
    NextShift(f, PageBase(f, kind, v, k), leaf);
    SamePathAbove(f, PageBase(f, kind, v, k), v, leaf + 1);
  }

  // ----- Overlays -----

  lemma PageBaseAdd(f: Format, kind: PageKind, v: nat, m: nat, n: nat)
    ensures PageBase(f, kind, PageBase(f, kind, v, m), n) == PageBase(f, kind, v, m + n)
  {
    MulDistribute(m, n, PageBytes(f, LeafLevel(kind)));
  }

  lemma PageOfRest(f: Format, kind: PageKind, v: nat, p: nat, m: nat, n: nat, va: nat)
    requires f.levels >= 2
    ensures Hits(f, kind, PageBase(f, kind, v, m), n, va) == Hits(f, kind, v, m + n, va)
    ensures LeafFor(f, kind, PageBase(f, kind, p, m), n, va) == LeafFor(f, kind, p, m + n, va)
  {
    hide IndexPath, PageBytes, PageBase, Pow2;
    PageBaseAdd(f, kind, v, m, n);
    PageBaseAdd(f, kind, p, m, n);
  }

  /** Two consecutive batches make one request. */
  lemma {:induction false} OverlayAppend(f: Format, kind: PageKind, v: nat, p: nat, m: nat, n: nat, va: nat,
                                         before: Option<Leaf>)
    requires f.levels >= 2
    ensures Overlay(f, kind, v, p, m + n, va, before)
         == Overlay(f, kind, PageBase(f, kind, v, m), PageBase(f, kind, p, m), n, va,
                    Overlay(f, kind, v, p, m, va, before))
    decreases n
  {
    hide PageBase, Hits, LeafFor;
    if n > 0 {
      OverlayAppend(f, kind, v, p, m, n - 1, va, before);
      PageOfRest(f, kind, v, p, m, n - 1, va);
      assert m + n - 1 == m + (n - 1);
    }
  }

  /** `va` selects one of the `n` leaf slots that follow the slot of `v` in the same table. */
  predicate InBatch(f: Format, kind: PageKind, v: nat, n: nat, va: nat)
    requires f.levels >= 2
  {
    var leaf := LeafLevel(kind);
    && IndexPath(f, va, leaf + 1) == IndexPath(f, v, leaf + 1)
    && LevelIndex(f, v, leaf) <= LevelIndex(f, va, leaf) < LevelIndex(f, v, leaf) + n
  }

  /** Filling the next `n` slots of the right leaf table is exactly a request of `n` pages. */
  lemma {:induction false} BatchIsOverlay(f: Format, kind: PageKind, v: nat, p: nat, n: nat, va: nat,
                                          before: Option<Leaf>)
    requires ValidFormat(f)
    requires v % PageBytes(f, LeafLevel(kind)) == 0
    requires LevelIndex(f, v, LeafLevel(kind)) + n <= Pow2(f.width)
    ensures Overlay(f, kind, v, p, n, va, before)
         == if InBatch(f, kind, v, n, va)
            then Some(LeafFor(f, kind, p, LevelIndex(f, va, LeafLevel(kind)) - LevelIndex(f, v, LeafLevel(kind)), va))
            else before
    decreases n
  {
    hide LevelIndex, LeafFor, PageBase, Hits, IndexPath, Pow2, PageBytes;
    if n > 0 {
      BatchIsOverlay(f, kind, v, p, n - 1, va, before);
      HitsSlot(f, kind, v, n - 1, va);
    }
  }

  /** Page `k` of a batch is hit through its own slot of the table. */
  lemma HitsSlot(f: Format, kind: PageKind, v: nat, k: nat, va: nat)
    requires ValidFormat(f)
    requires v % PageBytes(f, LeafLevel(kind)) == 0
    requires LevelIndex(f, v, LeafLevel(kind)) + k < Pow2(f.width)
    ensures var leaf := LeafLevel(kind);
            Hits(f, kind, v, k, va) <==>
              IndexPath(f, va, leaf + 1) == IndexPath(f, v, leaf + 1)
              && LevelIndex(f, va, leaf) == LevelIndex(f, v, leaf) + k
  {
    hide LevelIndex, PageBase, Pow2, PageBytes;
    BatchIndices(f, kind, v, k);
    PathPrefix(f, va, LeafLevel(kind), LeafLevel(kind));
    PathPrefix(f, PageBase(f, kind, v, k), LeafLevel(kind), LeafLevel(kind));
  }

  /** A request leaves an address alone that none of its pages hits. */
  lemma {:induction false} OverlayMissed(f: Format, kind: PageKind, v: nat, p: nat, n: nat, va: nat,
                                         before: Option<Leaf>)
    requires f.levels >= 2 && forall j: nat :: j < n ==> !Hits(f, kind, v, j, va)
    ensures Overlay(f, kind, v, p, n, va, before) == before
    decreases n
  {
    if n > 0 { OverlayMissed(f, kind, v, p, n - 1, va, before); }
  }

  // ----- The flat address space -----

  /** Every level is selected by the same number of bits (all formats but 52-bit AArch64). */
  predicate Uniform(f: Format) {
    !(f.arch.Aarch64? && f.levels == 6)
  }

  /** Levels below this one are selected by adjacent bits of the address. */
  function FlatLevels(f: Format): nat {
    if Uniform(f) then f.levels else 4
  }

  function FlatBits(f: Format): nat {
    if Uniform(f) then LevelShift(f, f.levels) else LevelShift(f, 4) + 4
  }

  /** Bytes of virtual address space that the tree sees as one piece. */
  function FlatBytes(f: Format): (n: nat)
    ensures n > 0
  {
    Pow2(FlatBits(f))
  }

  /** Which of those pieces an address is in: with 52 bits, five address bits below this number are ignored. */
  function FlatPiece(f: Format, va: nat): nat {
    if Uniform(f) then 0 else va / PageBytes(f, 5) % Pow2(f.width)
  }

  /** The part of an address the tree distinguishes, as one number. */
  function Residue(f: Format, va: nat): nat {
    va % FlatBytes(f) + FlatPiece(f, va) * FlatBytes(f)
  }

  /** A residue is the address within its piece, and the piece. */
  lemma ResidueParts(f: Format, va: nat)
    ensures Residue(f, va) % FlatBytes(f) == va % FlatBytes(f)
    ensures Residue(f, va) / FlatBytes(f) == FlatPiece(f, va)
  {
    hide Pow2, PageBytes;
    DivModUnique(Residue(f, va), FlatBytes(f), FlatPiece(f, va), va % FlatBytes(f));
  }

  lemma ShiftGap(f: Format, low: nat, high: nat)
    requires low < high
    ensures LevelShift(f, low) + f.width <= LevelShift(f, high)
  {
    MulDistribute(low, high - low, f.width);
    MulMonotone(1, high - low, f.width);
    MulCommute(f.width, low);
    MulCommute(f.width, high);
  }

  lemma FlatGap(f: Format, level: nat)
    requires level < FlatLevels(f)
    ensures LevelShift(f, level) + f.width <= FlatBits(f)
  {
    ShiftGap(f, level, FlatLevels(f));
  }

  /** The residue keeps every index below the flat levels. */
  lemma IndexOfResidue(f: Format, va: nat, level: nat)
    requires level < FlatLevels(f)
    ensures (Residue(f, va) / PageBytes(f, level)) % Pow2(f.width) == LevelIndex(f, va, level)
  {
    hide Pow2, LevelShift, FlatBits, Residue;
    FlatGap(f, level);
    ResidueParts(f, va);
    BitsOfResidue(Residue(f, va), va, LevelShift(f, level), f.width, FlatBits(f));
  }

  /** Numbers that agree in their low `n` bits agree in any field of them. */
  lemma BitsOfResidue(x: nat, y: nat, a: nat, w: nat, n: nat)
    requires a + w <= n && x % Pow2(n) == y % Pow2(n)
    ensures (x / Pow2(a)) % Pow2(w) == (y / Pow2(a)) % Pow2(w)
  {
    hide Pow2;
    ModModPow2(x, a, n);
    ModModPow2(y, a, n);
    ModModPow2(x / Pow2(a), w, n - a);
    ModModPow2(y / Pow2(a), w, n - a);
  }

  /** The residue keeps the offset within a page. */
  lemma OffsetOfResidue(f: Format, va: nat, level: nat)
    requires level <= FlatLevels(f)
    ensures Residue(f, va) % PageBytes(f, level) == va % PageBytes(f, level)
  {
    hide Pow2, Residue;
    if level < FlatLevels(f) { FlatGap(f, level); }
    ResidueParts(f, va);
    ModModPow2(Residue(f, va), LevelShift(f, level), FlatBits(f));
    ModModPow2(va, LevelShift(f, level), FlatBits(f));
  }

  /** At the top of the flat levels, equal paths are equal numbers of whole entries. */
  lemma TopPaths(f: Format, va: nat, vb: nat)
    requires ValidFormat(f)
    ensures IndexPath(f, va, FlatLevels(f)) == IndexPath(f, vb, FlatLevels(f))
       <==> Residue(f, va) / PageBytes(f, FlatLevels(f)) == Residue(f, vb) / PageBytes(f, FlatLevels(f))
  {
    hide Pow2, IndexPath, LevelIndex, Residue, PageBytes;
    if Uniform(f) {
      UniformTop(f, va);
      UniformTop(f, vb);
    } else {
      NarrowPath(f, va);
      NarrowPath(f, vb);
      NarrowNumber(f, va);
      NarrowNumber(f, vb);
    }
  }

  lemma UniformTop(f: Format, va: nat)
    requires ValidFormat(f) && Uniform(f)
    ensures IndexPath(f, va, FlatLevels(f)) == [] && Residue(f, va) / PageBytes(f, FlatLevels(f)) == 0
  {
    hide Pow2;
    ResidueParts(f, va);
  }

  lemma NarrowPath(f: Format, va: nat)
    requires !Uniform(f)
    ensures IndexPath(f, va, 4) == [LevelIndex(f, va, 5), LevelIndex(f, va, 4)]
  {
    hide LevelIndex;
    assert IndexPath(f, va, 6) == [] && IndexPath(f, va, 5) == [LevelIndex(f, va, 5)];
  }

  lemma NarrowNumber(f: Format, va: nat)
    requires !Uniform(f)
    ensures Residue(f, va) / PageBytes(f, 4) == LevelIndex(f, va, 5) * 16 + LevelIndex(f, va, 4)
    ensures LevelIndex(f, va, 4) < 16
  {
    assert Pow2(4) == 16;
    hide Pow2;
    var s, k := LevelShift(f, 4), FlatPiece(f, va);
    Pow2Add(s, 4);
    DivPow2(va, s, 4);
    var i, o := (va / Pow2(s)) % 16, va % Pow2(s);
    assert k * FlatBytes(f) == k * 16 * Pow2(s) by { MulCommute(Pow2(s), 16); MulAssoc(k, 16, Pow2(s)); }
    MulDistribute(k * 16, i, Pow2(s));
    DivModUnique(Residue(f, va), Pow2(s), k * 16 + i, o);
  }

  /** Equal index paths are equal page numbers of the residues, for every format. */
  lemma {:induction false} PathIsPageNumber(f: Format, va: nat, vb: nat, level: nat)
    requires ValidFormat(f) && level <= FlatLevels(f)
    ensures IndexPath(f, va, level) == IndexPath(f, vb, level)
       <==> Residue(f, va) / PageBytes(f, level) == Residue(f, vb) / PageBytes(f, level)
    decreases FlatLevels(f) - level
  {
    hide LevelIndex, PageBytes, Pow2, Residue;
    var ra, rb := Residue(f, va), Residue(f, vb);
    if level == FlatLevels(f) {
      TopPaths(f, va, vb);
    } else {
      PathIsPageNumber(f, va, vb, level + 1);
      PathPrefix(f, va, level, level);
      PathPrefix(f, vb, level, level);
      IndexOfResidue(f, va, level);
      IndexOfResidue(f, vb, level);
      NextShift(f, ra, level);
      NextShift(f, rb, level);
      DivModRebuild(ra / PageBytes(f, level), Pow2(f.width));
      DivModRebuild(rb / PageBytes(f, level), Pow2(f.width));
    }
  }

  /** Within a piece, residues follow addresses. */
  lemma ResidueAdds(f: Format, v: nat, k: nat)
    requires ValidFormat(f) && v % FlatBytes(f) + k < FlatBytes(f)
    ensures Residue(f, v + k) == Residue(f, v) + k
  {
    hide Pow2, FlatBits;
    var b := FlatBytes(f);
    DivModRebuild(v, b);
    DivModUnique(v + k, b, v / b, v % b + k);
    if !Uniform(f) {
      PieceOfBlock(f, v);
      PieceOfBlock(f, v + k);
    }
  }

  lemma PieceOfBlock(f: Format, v: nat)
    requires !Uniform(f) && f.width >= 4
    ensures v / PageBytes(f, 5) == v / FlatBytes(f) / Pow2(f.width - 4)
  {
    hide Pow2;
    MulDistribute(4, 1, f.width);
    DivPow2(v, FlatBits(f), f.width - 4);
  }

  lemma ResidueSmall(f: Format, v: nat)
    requires ValidFormat(f) && v < FlatBytes(f)
    ensures Residue(f, v) == v
  {
    hide Pow2;
    DivModUnique(v, FlatBytes(f), 0, v);
    if !Uniform(f) {
      MulDistribute(4, 1, f.width);
      Pow2Monotone(FlatBits(f), LevelShift(f, 5));
      DivModUnique(v, PageBytes(f, 5), 0, v);
    }
  }

  /** Page `i` of a request that stays within a piece covers exactly its own bytes. */
  lemma HitsExactly(f: Format, kind: PageKind, v: nat, i: nat, va: nat)
    requires ValidFormat(f)
    requires v % PageBytes(f, LeafLevel(kind)) == 0
    requires PageBase(f, kind, v % FlatBytes(f), i + 1) <= FlatBytes(f)
    ensures Hits(f, kind, v, i, va)
       <==> PageBase(f, kind, Residue(f, v), i) <= Residue(f, va) < PageBase(f, kind, Residue(f, v), i + 1)
    ensures Hits(f, kind, v, i, va)
        ==> Residue(f, va) == PageBase(f, kind, Residue(f, v), i) + va % PageBytes(f, LeafLevel(kind))
  {
    hide Pow2, PageBytes, Residue, FlatBytes, IndexPath;
    var leaf := LeafLevel(kind);
    var size, base, r := PageBytes(f, leaf), Residue(f, v), Residue(f, va);
    PathIsPageNumber(f, va, PageBase(f, kind, v, i), leaf);
    MulDistribute(i, 1, size);
    ResidueAdds(f, v, i * size);
    OffsetOfResidue(f, v, leaf);
    OffsetOfResidue(f, va, leaf);
    PageOf(base, i, size, r);
  }

  /** The page of `r` is the page of `base + i * size` exactly when `r` lies in it. */
  lemma PageOf(base: nat, i: nat, size: nat, r: nat)
    requires size > 0 && base % size == 0
    ensures r / size == (base + i * size) / size <==> base + i * size <= r < base + (i + 1) * size
    ensures r / size == (base + i * size) / size ==> r == base + i * size + r % size
  {
    DivAddUnits(base, i, size);
    var k := base / size + i;
    assert base + i * size == k * size by { MulDistribute(base / size, i, size); DivModRebuild(base, size); }
    MulDistribute(i, 1, size);
    DivModRebuild(r, size);
    if base + i * size <= r < base + (i + 1) * size {
      DivModUnique(r, size, k, r - k * size);
    }
  }

  /**
   What one request does to the flat address space: bytes inside the range go to the physical
   range byte for byte, every other address keeps its translation.
   */
  lemma {:induction false} FlatRequest(f: Format, kind: PageKind, v: nat, p: nat, n: nat, va: nat, before: Option<Leaf>)
    requires ValidFormat(f)
    requires v % PageBytes(f, LeafLevel(kind)) == 0
    requires PageBase(f, kind, v % FlatBytes(f), n) <= FlatBytes(f)
    requires PageBase(f, kind, p, n) <= Pow2(AddressBits(f))
    ensures Overlay(f, kind, v, p, n, va, before)
         == if Residue(f, v) <= Residue(f, va) < PageBase(f, kind, Residue(f, v), n)
            then Some(Leaf(p + (Residue(f, va) - Residue(f, v)), LeafLevel(kind)))
            else before
    decreases n
  {
    hide IndexPath, PageBytes, Pow2, Hits, Residue, FlatBytes;
    if n > 0 {
      var size, i := PageBytes(f, LeafLevel(kind)), n - 1;
      MulDistribute(i, 1, size);
      MulMonotone(0, i, size);
      HitsExactly(f, kind, v, i, va);
      FlatRequest(f, kind, v, p, i, va, before);
      DivModUnique(PageBase(f, kind, p, i), Pow2(AddressBits(f)), 0, PageBase(f, kind, p, i));
    }
  }
}
