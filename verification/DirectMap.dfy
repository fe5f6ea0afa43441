/**
 The direct and identity maps of loader/boot_protocol/ultra.c: the runs and pieces of `RamRuns`
 are mapped through `PageTableBuilder`, and the translation afterwards is that of the pieces.
 */
module DirectMap {
  import opened Arith
  import opened MemoryMap
  import opened PageTables
  import opened AddressPaths
  import opened PageTableBuilder
  import opened RamRuns

  function HugeBytes(f: Format): (n: nat)
    ensures n > 0
  {
    PageBytes(f, 1)
  }

  /**
   Where physical memory shows up, as residues of virtual addresses: bytes below `higher` from
   `base` on, and bytes below `lower` at their own address.
   */
  datatype Layout = Layout(base: nat, higher: nat, lower: nat) {
    function Limit(): nat {
      if higher > lower then higher else lower
    }
  }

  /** The leaf over physical byte `pa` once these pieces are mapped. */
  function At(ps: seq<Piece>, pa: nat): Option<Leaf> {
    var level := LevelAt(ps, pa);
    if level.Some? then Some(Leaf(pa, level.value)) else None
  }

  function Expected(l: Layout, ps: seq<Piece>, guard: bool, r: nat): Option<Leaf> {
    if l.base <= r < l.base + l.higher then At(ps, r - l.base)
    else if r < l.lower then if guard && r < PAGE_SIZE then None else At(ps, r)
    else None
  }

  /** Every virtual address translates as these pieces say, in both windows, and nothing else translates. */
  ghost predicate Shows(f: Format, tables: Tables, root: nat, l: Layout, ps: seq<Piece>, guard: bool) {
    forall va: nat :: Translate(f, tables, root, va) == Expected(l, ps, guard, Residue(f, va))
  }

  /** Pieces on page boundaries, small or huge. */
  ghost predicate Paged(ps: seq<Piece>) {
    forall k: nat :: k < |ps| ==> OnPage(ps[k].begin) && OnPage(ps[k].end) && ps[k].level <= 1
  }

  // ----- One request -----

  /** `bytes` at `v` now go to physical `p`; everything else is as it was. */
  ghost predicate Window(f: Format, before: Tables, after: Tables, root: nat, v: nat, p: nat, bytes: nat, level: nat) {
    forall va: nat :: Translate(f, after, root, va)
      == if Residue(f, v) <= Residue(f, va) < Residue(f, v) + bytes
         then Some(Leaf(p + (Residue(f, va) - Residue(f, v)), level))
         else Translate(f, before, root, va)
  }

  lemma WindowAt(f: Format, before: Tables, after: Tables, root: nat, v: nat, p: nat, bytes: nat, level: nat, va: nat)
    requires Window(f, before, after, root, v, p, bytes, level)
    ensures Translate(f, after, root, va)
         == if Residue(f, v) <= Residue(f, va) < Residue(f, v) + bytes
            then Some(Leaf(p + (Residue(f, va) - Residue(f, v)), level))
            else Translate(f, before, root, va)
  {
    hide Translate, Residue;
  }

  /** Some page of the request finds a larger page in its way. */
  ghost predicate Blocked(f: Format, tables: Tables, root: nat, kind: PageKind, v: nat, n: nat) {
    exists i: nat :: i < n && !NothingHugeAbove(f, tables, root, PageBase(f, kind, v, i), LeafLevel(kind))
  }

  /** A request that the flat address space holds. */
  ghost predicate Sound(f: Format, kind: PageKind, v: nat, p: nat, n: nat) {
    && ValidFormat(f)
    && v % PageBytes(f, LeafLevel(kind)) == 0
    && PageBase(f, kind, v % FlatBytes(f), n) <= FlatBytes(f)
    && PageBase(f, kind, p, n) <= Pow2(AddressBits(f))
  }

  lemma RequestIsWindow(f: Format, before: Tables, after: Tables, root: nat, kind: PageKind, v: nat, p: nat, n: nat)
    requires Sound(f, kind, v, p, n) && Overlaid(f, before, after, root, kind, v, p, n)
    ensures Window(f, before, after, root, v, p, n * PageBytes(f, LeafLevel(kind)), LeafLevel(kind))
  {
    hide Overlay, Translate, PageBytes, Pow2, Residue, FlatBytes;
    forall va: nat
      ensures Translate(f, after, root, va)
           == if Residue(f, v) <= Residue(f, va) < Residue(f, v) + n * PageBytes(f, LeafLevel(kind))
              then Some(Leaf(p + (Residue(f, va) - Residue(f, v)), LeafLevel(kind)))
              else Translate(f, before, root, va)
    {
      FlatRequest(f, kind, v, p, n, va, Translate(f, before, root, va));
    }
  }

  /** Page `i` of a sound request starts at its own residue. */
  lemma PageResidue(f: Format, kind: PageKind, v: nat, p: nat, n: nat, i: nat)
    requires Sound(f, kind, v, p, n) && i < n
    ensures Residue(f, PageBase(f, kind, v, i)) == Residue(f, v) + i * PageBytes(f, LeafLevel(kind))
    ensures i * PageBytes(f, LeafLevel(kind)) + PageBytes(f, LeafLevel(kind)) <= n * PageBytes(f, LeafLevel(kind))
  {
    hide PageBytes, Pow2, Residue, FlatBytes;
    var size := PageBytes(f, LeafLevel(kind));
    MulMonotone(i + 1, n, size);
    MulDistribute(i, 1, size);
    ResidueAdds(f, v, i * size);
  }

  /** No page of a sound request falls into an earlier one. */
  lemma PagesApart(f: Format, kind: PageKind, v: nat, p: nat, n: nat, j: nat, i: nat)
    requires Sound(f, kind, v, p, n) && j < i < n
    ensures !Hits(f, kind, v, j, PageBase(f, kind, v, i))
  {
    hide PageBytes, Pow2, Residue, FlatBytes, Hits;
    var size := PageBytes(f, LeafLevel(kind));
    PageResidue(f, kind, v, p, n, i);
    MulMonotone(j + 1, n, size);
    MulMonotone(j + 1, i, size);
    HitsExactly(f, kind, v, j, PageBase(f, kind, v, i));
  }

  lemma AllClear(f: Format, tables: Tables, root: nat, kind: PageKind, v: nat, p: nat, n: nat)
    requires Sound(f, kind, v, p, n) && forall i: nat :: i < n ==> ClearOrMapped(f, tables, root, kind, v, i)
    ensures !Blocked(f, tables, root, kind, v, n)
  {
    hide PageBytes, Pow2, Residue, FlatBytes, Hits, NothingHugeAbove, PageBase;
    forall i: nat | i < n
      ensures NothingHugeAbove(f, tables, root, PageBase(f, kind, v, i), LeafLevel(kind))
    {
      assert ClearOrMapped(f, tables, root, kind, v, i);
      if !NothingHugeAbove(f, tables, root, PageBase(f, kind, v, i), LeafLevel(kind)) {
        var j: nat :| j < i && Hits(f, kind, v, j, PageBase(f, kind, v, i));
        PagesApart(f, kind, v, p, n, j, i);
      }
    }
  }

  /** A page that is blocked after the pages before it were mapped was blocked at the start. */
  lemma BlockedFirst(f: Format, before: Tables, after: Tables, root: nat, kind: PageKind, v: nat, p: nat, n: nat,
                     done: nat)
    requires Sound(f, kind, v, p, n) && done < n && Overlaid(f, before, after, root, kind, v, p, done)
    requires !NothingHugeAbove(f, after, root, PageBase(f, kind, v, done), LeafLevel(kind))
    ensures Blocked(f, before, root, kind, v, n)
  {
    hide Overlay, Translate, PageBytes, Pow2, Residue, FlatBytes;
    var va := PageBase(f, kind, v, done);
    PageResidue(f, kind, v, p, n, done);
    FlatRequest(f, kind, v, p, done, va, Translate(f, before, root, va));
    assert !NothingHugeAbove(f, before, root, va, LeafLevel(kind));
  }

  // ----- What a window holds before a request -----

  /** The `bytes` from residue `w` on hold what these pieces say of physical `begin` on. */
  ghost predicate Reads(f: Format, tables: Tables, root: nat, w: nat, ps: seq<Piece>, begin: nat, bytes: nat) {
    forall va: nat :: w <= Residue(f, va) < w + bytes ==>
      Translate(f, tables, root, va) == At(ps, begin + (Residue(f, va) - w))
  }

  lemma ShowsReads(f: Format, tables: Tables, root: nat, l: Layout, ps: seq<Piece>, guard: bool, begin: nat, end: nat)
    requires Shows(f, tables, root, l, ps, guard) && l.lower <= l.base && PAGE_SIZE <= begin <= end
    ensures end <= l.higher ==> Reads(f, tables, root, l.base + begin, ps, begin, end - begin)
    ensures end <= l.lower ==> Reads(f, tables, root, begin, ps, begin, end - begin)
  {
    hide Translate, Residue, At;
  }

  /** A request elsewhere leaves a window as it was. */
  lemma ReadsKept(f: Format, before: Tables, after: Tables, root: nat, v: nat, p: nat, size: nat, level: nat, w: nat,
                  ps: seq<Piece>, begin: nat, bytes: nat)
    requires Reads(f, before, root, w, ps, begin, bytes) && Window(f, before, after, root, v, p, size, level)
    requires Residue(f, v) + size <= w
    ensures Reads(f, after, root, w, ps, begin, bytes)
  {
    hide Translate, Residue, At;
  }

  ghost predicate HoldsHuge(ps: seq<Piece>, begin: nat, end: nat) {
    exists pa: nat :: begin <= pa < end && LevelAt(ps, pa) == Some(1)
  }

  lemma NothingThere(ps: seq<Piece>, begin: nat, end: nat)
    ensures end <= begin ==> !HoldsHuge(ps, begin, end)
  {
  }

  lemma NothingClashes(ps: seq<Piece>, p: Piece, limit: nat)
    ensures p.end <= p.begin ==> !Clash(ps, p, limit)
  {
  }

  lemma ClashParts(ps: seq<Piece>, p: Piece, l: Layout)
    ensures Clash(ps, p, l.Limit()) <==>
              p.level == 0
              && (HoldsHuge(ps, p.begin, Min(p.end, l.lower)) || HoldsHuge(ps, p.begin, Min(p.end, l.higher)))
  {
    hide LevelAt;
    if p.level == 0 {
      if pa: nat :| p.Covers(pa) && pa < l.Limit() && LevelAt(ps, pa) == Some(1) {
        assert p.begin <= pa < Min(p.end, l.lower) || p.begin <= pa < Min(p.end, l.higher);
      }
      if pa: nat :| p.begin <= pa < Min(p.end, l.lower) && LevelAt(ps, pa) == Some(1) { assert p.Covers(pa); }
      if pa: nat :| p.begin <= pa < Min(p.end, l.higher) && LevelAt(ps, pa) == Some(1) { assert p.Covers(pa); }
    }
  }

  /** Pieces on page boundaries have one level throughout a page. */
  lemma {:induction false} LevelOfPage(ps: seq<Piece>, pa: nat)
    requires Paged(ps)
    ensures LevelAt(ps, AlignDown(pa, PAGE_SIZE)) == LevelAt(ps, pa)
    ensures LevelAt(ps, pa).Some? ==> LevelAt(ps, pa).value <= 1
  {
    hide OnPage, AlignDown;
    if ps != [] {
      var n := |ps| - 1;
      LevelOfPage(ps[..n], pa);
      PageDown(pa);
      StepDown(AlignDown(pa, PAGE_SIZE), ps[n].begin);
      StepDown(AlignDown(pa, PAGE_SIZE), ps[n].end);
    }
  }

  /** A request is blocked exactly when it is one of small pages over a huge piece. */
  lemma BlockedIff(f: Format, tables: Tables, root: nat, kind: PageKind, v: nat, n: nat, ps: seq<Piece>, begin: nat)
    requires Sound(f, kind, v, begin, n) && Paged(ps) && OnPage(begin)
    requires Reads(f, tables, root, Residue(f, v), ps, begin, n * PageBytes(f, LeafLevel(kind)))
    ensures Blocked(f, tables, root, kind, v, n) <==>
              kind.Normal? && HoldsHuge(ps, begin, begin + n * PageBytes(f, LeafLevel(kind)))
  {
    hide Translate, PageBytes, Pow2, Residue, FlatBytes, LevelAt, OnPage, PageBase;
    var size := PageBytes(f, LeafLevel(kind));
    if Blocked(f, tables, root, kind, v, n) {
      var i: nat :| i < n && !NothingHugeAbove(f, tables, root, PageBase(f, kind, v, i), LeafLevel(kind));
      PageHolds(f, tables, root, kind, v, n, ps, begin, i);
      assert begin <= begin + i * size < begin + n * size;
    }
    if kind.Normal? {
      if pa: nat :| begin <= pa < begin + n * size && LevelAt(ps, pa) == Some(1) {
        var i := PageIndex(f, begin, pa, n);
        LevelOfPage(ps, pa);
        PageHolds(f, tables, root, kind, v, n, ps, begin, i);
      }
    }
  }

  /** What stands in the way of page `i` is the piece over its physical address. */
  lemma PageHolds(f: Format, tables: Tables, root: nat, kind: PageKind, v: nat, n: nat, ps: seq<Piece>, begin: nat,
                  i: nat)
    requires Sound(f, kind, v, begin, n) && Paged(ps) && i < n
    requires Reads(f, tables, root, Residue(f, v), ps, begin, n * PageBytes(f, LeafLevel(kind)))
    ensures 0 <= i * PageBytes(f, LeafLevel(kind)) < n * PageBytes(f, LeafLevel(kind))
    ensures NothingHugeAbove(f, tables, root, PageBase(f, kind, v, i), LeafLevel(kind))
       <==> kind.Huge? || LevelAt(ps, begin + i * PageBytes(f, LeafLevel(kind))) != Some(1)
  {
    hide Translate, PageBytes, Pow2, Residue, FlatBytes, LevelAt, Sound, OnPage, PageBase;
    var at := i * PageBytes(f, LeafLevel(kind));
    PageResidue(f, kind, v, begin, n, i);
    MulMonotone(0, i, PageBytes(f, LeafLevel(kind)));
    LevelOfPage(ps, begin + at);
    assert Translate(f, tables, root, PageBase(f, kind, v, i)) == At(ps, begin + at);
  }

  /** The small page of a byte in a request of `n` of them. */
  lemma PageIndex(f: Format, begin: nat, pa: nat, n: nat) returns (i: nat)
    requires f.width >= 1 && OnPage(begin) && begin <= pa < begin + n * PageBytes(f, 0)
    ensures i < n && AlignDown(pa, PAGE_SIZE) == begin + i * PageBytes(f, 0)
  {
    hide PageBytes;
    SmallPages(f);
    i := (pa - begin) / PAGE_SIZE;
    DivModRebuild(pa - begin, PAGE_SIZE);
    DivModRebuild(begin, PAGE_SIZE);
    DivModUnique(pa, PAGE_SIZE, begin / PAGE_SIZE + i, (pa - begin) % PAGE_SIZE);
  }

  // ----- Arithmetic of the windows -----

  lemma SmallPages(f: Format)
    requires f.width >= 1
    ensures PageBytes(f, 0) == PAGE_SIZE
    ensures HugeSize(HugeBytes(f))
  {
    assert LevelShift(f, 0) == 12;
    Pow2Twelve();
    DivModUnique(HugeBytes(f), HugeBytes(f), 1, 0);
    HugeIsMultiple(f, Normal, HugeBytes(f));
    ShiftGap(f, 0, 1);
    Pow2Monotone(13, LevelShift(f, 1));
    assert Pow2(13) == 2 * Pow2(12);
  }

  lemma HugeIsMultiple(f: Format, kind: PageKind, x: nat)
    requires x % HugeBytes(f) == 0
    ensures x % PageBytes(f, LeafLevel(kind)) == 0
  {
    hide Pow2;
    ShiftGap(f, 0, 1);
    ModModPow2(x, LevelShift(f, LeafLevel(kind)), LevelShift(f, 1));
  }

  lemma PieceOnPage(f: Format, kind: PageKind, x: nat)
    requires ValidFormat(f) && x % PageBytes(f, LeafLevel(kind)) == 0
    ensures OnPage(x) && PAGE_SIZE < HugeBytes(f)
  {
    hide PageBytes;
    SmallPages(f);
    if kind.Huge? { HugeIsMultiple(f, Normal, x); }
  }

  lemma AlignedSum(a: nat, b: nat, unit: nat)
    requires unit > 0 && a % unit == 0 && b % unit == 0
    ensures (a + b) % unit == 0
  {
    DivModRebuild(b, unit);
    DivAddUnits(a, b / unit, unit);
  }

  lemma AlignedGap(a: nat, b: nat, unit: nat)
    requires unit > 0 && a <= b && a % unit == 0 && b % unit == 0
    ensures (b - a) % unit == 0
  {
    DivModRebuild(a, unit);
    DivModRebuild(b, unit);
    MulDistribute(b / unit, -(a / unit), unit);
    DivModUnique(b - a, unit, b / unit - a / unit, 0);
  }

  /** A limit that cuts no page: a whole number of huge pages, or beyond all RAM. */
  predicate GoodLimit(f: Format, limit: nat, top: nat) {
    limit % HugeBytes(f) == 0 || top <= limit
  }

  /**
   What the map builder relies on: both windows fit the address space without overlap, and no
   address below a limit is wider than an entry. `top` bounds all RAM.
   */
  ghost predicate Fits(f: Format, base: nat, higher: nat, lower: nat, top: nat) {
    && ValidFormat(f)
    && base % HugeBytes(f) == 0 && OnPage(top)
    && HugeBytes(f) <= top && HugeBytes(f) <= Pow2(AddressBits(f))
    && Min(Max(higher, lower), top) <= Pow2(AddressBits(f))
    && GoodLimit(f, higher, top) && HugeBytes(f) <= higher
    && GoodLimit(f, lower, top) && (lower == 0 || HugeBytes(f) <= lower)
    && base % FlatBytes(f) + Min(higher, top) <= FlatBytes(f)
    && Min(lower, top) <= FlatBytes(f) && Min(lower, top) <= Residue(f, base)
  }

  function LayoutOf(f: Format, base: nat, higher: nat, lower: nat, top: nat): Layout {
    Layout(Residue(f, base), Min(higher, top), Min(lower, top))
  }

  /** The part of a physical range below a limit is whole pages of its kind. */
  lemma CutAtLimit(f: Format, kind: PageKind, limit: nat, top: nat, begin: nat, end: nat)
    requires GoodLimit(f, limit, top) && begin < end <= top && begin < limit
    requires begin % PageBytes(f, LeafLevel(kind)) == 0 && end % PageBytes(f, LeafLevel(kind)) == 0
    ensures (Min(end, limit) - begin) % PageBytes(f, LeafLevel(kind)) == 0
  {
    hide PageBytes;
    if limit < end { HugeIsMultiple(f, kind, limit); }
    AlignedGap(begin, Min(end, limit), PageBytes(f, LeafLevel(kind)));
  }

  lemma DirectArith(f: Format, kind: PageKind, base: nat, begin: nat, bytes: nat)
    requires ValidFormat(f) && base % HugeBytes(f) == 0 && begin % PageBytes(f, LeafLevel(kind)) == 0
    requires bytes > 0 && base % FlatBytes(f) + begin + bytes <= FlatBytes(f)
    ensures Residue(f, base + begin) == Residue(f, base) + begin
    ensures (base + begin) % PageBytes(f, LeafLevel(kind)) == 0
    ensures (base + begin) % FlatBytes(f) + bytes <= FlatBytes(f)
  {
    hide PageBytes, Residue, FlatBytes;
    ResidueAdds(f, base, begin);
    HugeIsMultiple(f, kind, base);
    AlignedSum(base, begin, PageBytes(f, LeafLevel(kind)));
    DivModRebuild(base, FlatBytes(f));
    DivModUnique(base + begin, FlatBytes(f), base / FlatBytes(f), base % FlatBytes(f) + begin);
  }

  lemma LowArith(f: Format, begin: nat, bytes: nat)
    requires ValidFormat(f) && bytes > 0 && begin + bytes <= FlatBytes(f)
    ensures Residue(f, begin) == begin && begin % FlatBytes(f) + bytes <= FlatBytes(f)
  {
    hide Residue, FlatBytes;
    ResidueSmall(f, begin);
    DivModUnique(begin, FlatBytes(f), 0, begin);
  }

  // ----- One piece -----

  /** The identity window and the direct window together show one more piece. */
  lemma PieceShows(f: Format, start: Tables, mid: Tables, after: Tables, root: nat, l: Layout, base: nat,
                   ps: seq<Piece>, guard: bool, p: Piece)
    requires Shows(f, start, root, l, ps, guard) && PAGE_SIZE <= p.begin < p.end && l.lower <= l.base
    requires if p.begin < l.lower
             then Residue(f, p.begin) == p.begin
                  && Window(f, start, mid, root, p.begin, p.begin, Min(p.end, l.lower) - p.begin, p.level)
             else mid == start
    requires if p.begin < l.higher
             then Residue(f, base + p.begin) == l.base + p.begin
                  && Window(f, mid, after, root, base + p.begin, p.begin, Min(p.end, l.higher) - p.begin, p.level)
             else after == mid
    ensures Shows(f, after, root, l, ps + [p], guard)
  {
    hide Translate, Residue, Window, LevelAt;
    forall va: nat
      ensures Translate(f, after, root, va) == Expected(l, ps + [p], guard, Residue(f, va))
    {
      var r := Residue(f, va);
      if p.begin < l.lower {
        WindowAt(f, start, mid, root, p.begin, p.begin, Min(p.end, l.lower) - p.begin, p.level, va);
      }
      if p.begin < l.higher {
        WindowAt(f, mid, after, root, base + p.begin, p.begin, Min(p.end, l.higher) - p.begin, p.level, va);
      }
      LevelSnoc(ps, p, r);
      if l.base <= r { LevelSnoc(ps, p, r - l.base); }
      assert Translate(f, start, root, va) == Expected(l, ps, guard, r);
    }
  }

  // ----- One run -----

  lemma PagedSnoc(ps: seq<Piece>, p: Piece)
    requires Paged(ps) && (p.begin < p.end ==> OnPage(p.begin) && OnPage(p.end) && p.level <= 1)
    ensures Paged(ps + PieceIfAny(p))
  {
    hide OnPage;
  }

  lemma {:induction false} MappedPaged(hp: nat, rs: seq<Run>)
    requires HugeSize(hp)
    ensures Paged(RamRuns.Mapped(hp, rs))
  {
    if rs == [] {
      assert OnPage(0);
    } else {
      hide OnPage, Paged, PieceIfAny;
      var n := |rs| - 1;
      MappedPaged(hp, rs[..n]);
      PiecesPaged(hp, RamRuns.Mapped(hp, rs[..n]), rs[n]);
    }
  }

  lemma PiecesPaged(hp: nat, ps: seq<Piece>, r: Run)
    requires HugeSize(hp) && Paged(ps)
    ensures Paged(ps + Pieces(hp, r))
  {
    hide OnPage, Paged, PieceIfAny, HugeBegin, HugeEnd, RoundBegin, RoundEnd;
    var b, e := RoundBegin(hp, r), RoundEnd(r);
    RoundFacts(hp, r);
    if e <= b {
      assert ps + Pieces(hp, r) == ps;
    } else {
      CutFacts(hp, b, e);
      var head, interior, tail := Head(hp, r), Interior(hp, r), Tail(hp, r);
      PagedSnoc(ps, head);
      PagedSnoc(ps + PieceIfAny(head), interior);
      PagedSnoc(ps + PieceIfAny(head) + PieceIfAny(interior), tail);
      assert ps + Pieces(hp, r) == ps + PieceIfAny(head) + PieceIfAny(interior) + PieceIfAny(tail);
    }
  }

  function Head(hp: nat, r: Run): Piece
    requires hp > 0
  {
    Piece(RoundBegin(hp, r), HugeBegin(hp, RoundBegin(hp, r), RoundEnd(r)), 0)
  }

  function Interior(hp: nat, r: Run): Piece
    requires hp > 0
  {
    Piece(HugeBegin(hp, RoundBegin(hp, r), RoundEnd(r)), HugeEnd(hp, RoundBegin(hp, r), RoundEnd(r)), 1)
  }

  function Tail(hp: nat, r: Run): Piece
    requires hp > 0
  {
    Piece(HugeEnd(hp, RoundBegin(hp, r), RoundEnd(r)), RoundEnd(r), 0)
  }

  /** A run meets a huge page already there exactly when its head or its tail does. */
  lemma RunClashParts(hp: nat, rs: seq<Run>, r: Run, limit: nat)
    requires HugeSize(hp) && RoundBegin(hp, r) < RoundEnd(r)
    ensures var ps := RamRuns.Mapped(hp, rs);
            && Pieces(hp, r) == PieceIfAny(Head(hp, r)) + PieceIfAny(Interior(hp, r)) + PieceIfAny(Tail(hp, r))
            && (RunClash(hp, rs, r, limit) <==>
                  || Clash(ps, Head(hp, r), limit)
                  || Clash(ps + PieceIfAny(Head(hp, r)) + PieceIfAny(Interior(hp, r)), Tail(hp, r), limit))
  {
    hide LevelAt, OnPage, RoundBegin, RoundEnd, HugeBegin, HugeEnd, RamRuns.Mapped;
    var ps, qs := RamRuns.Mapped(hp, rs), PieceIfAny(Head(hp, r)) + PieceIfAny(Interior(hp, r));
    RoundFacts(hp, r);
    CutFacts(hp, RoundBegin(hp, r), RoundEnd(r));
    assert ps + qs == ps + PieceIfAny(Head(hp, r)) + PieceIfAny(Interior(hp, r));
    forall pa: nat | Tail(hp, r).Covers(pa) ensures LevelAt(ps + qs, pa) == LevelAt(ps, pa) {
      LevelConcat(ps, qs, pa);
      LevelCovered(qs, pa);
    }
  }

  /** Runs rounded out stay below a page-aligned bound. */
  lemma RoundBelow(r: Run, top: nat)
    requires OnPage(top) && r.end <= top
    ensures RoundEnd(r) <= top
  {
    hide OnPage, AlignUp;
    AlignUpOnPage(r.end);
    StepDown(top, RoundEnd(r));
  }

  lemma AlignUpOnPage(x: nat)
    ensures OnPage(AlignUp(x, PAGE_SIZE)) && x <= AlignUp(x, PAGE_SIZE) < x + PAGE_SIZE
  {
    AlignFacts(x, PAGE_SIZE);
  }

  lemma EmptyRun(hp: nat, rs: seq<Run>, r: Run, limit: nat)
    requires HugeSize(hp) && RoundEnd(r) <= RoundBegin(hp, r)
    ensures RamRuns.Mapped(hp, rs + [r]) == RamRuns.Mapped(hp, rs) && !RunClash(hp, rs, r, limit)
  {
    hide LevelAt, RoundBegin, RoundEnd;
    MappedSnoc(hp, rs, r);
  }

  lemma HugeNeverClashes(ps: seq<Piece>, p: Piece, limit: nat)
    ensures p.level == 1 ==> !Clash(ps, p, limit)
  {
  }

  /** The cuts of a rounded run are whole pages of the kind on either side. */
  lemma CutUnits(f: Format, begin: nat, end: nat, hugeBegin: nat, hugeEnd: nat)
    requires ValidFormat(f) && OnPage(begin) && OnPage(end) && OnPage(hugeBegin) && OnPage(hugeEnd)
    requires hugeBegin < hugeEnd ==> hugeBegin % HugeBytes(f) == 0 && hugeEnd % HugeBytes(f) == 0
    ensures begin % PageBytes(f, 0) == 0 && hugeBegin % PageBytes(f, 0) == 0
    ensures hugeEnd % PageBytes(f, 0) == 0 && end % PageBytes(f, 0) == 0
    ensures hugeBegin < hugeEnd ==> hugeBegin % PageBytes(f, 1) == 0 && hugeEnd % PageBytes(f, 1) == 0
  {
    hide PageBytes;
    SmallPages(f);
  }

  // ----- A walk -----

  ghost predicate RamBelow(v: seq<Entry>, top: nat) {
    forall i: nat :: i < |v| && IsRamType(v[i].kind) ==> v[i].End() <= top
  }

  lemma {:induction false} PendingBelow(v: seq<Entry>, top: nat)
    requires RamBelow(v, top)
    ensures Fold(v).pending.end <= top
  {
    if v != [] {
      PendingBelow(v[..|v| - 1], top);
    }
  }

  lemma AnyClashSnoc(hp: nat, rs: seq<Run>, r: Run, limit: nat)
    requires hp > 0
    ensures AnyClash(hp, rs + [r], limit) <==> AnyClash(hp, rs, limit) || RunClash(hp, rs, r, limit)
  {
    hide RunClash;
    var w := rs + [r];
    assert w[..|rs|] == rs && w[|rs|] == r;
    forall j: nat | j < |rs| ensures w[..j] == rs[..j] && w[j] == rs[j] {}
  }

  /** What has clashed stays in the runs of every longer walk. */
  lemma {:induction false} ClashStays(hp: nat, v: seq<Entry>, k: nat, limit: nat)
    requires hp > 0 && k <= |v|
    ensures AnyClash(hp, Fold(v[..k]).flushed, limit) ==>
              AnyClash(hp, Fold(v).flushed, limit) && AnyClash(hp, Runs(v), limit)
    decreases |v|
  {
    hide AnyClash;
    AnyClashSnoc(hp, Fold(v).flushed, Fold(v).pending, limit);
    if k == |v| {
      assert v[..k] == v;
    } else {
      var w, e := v[..|v| - 1], v[|v| - 1];
      ClashStays(hp, w, k, limit);
      assert w[..k] == v[..k];
      AnyClashSnoc(hp, Fold(w).flushed, Fold(w).pending, limit);
    }
  }

  lemma LowLevel(hp: nat, pa: nat)
    ensures LevelAt([Piece(0, hp, 0)], pa) == if pa < hp then Some(0) else None
  {
    LevelSnoc([], Piece(0, hp, 0), pa);
    assert [] + [Piece(0, hp, 0)] == [Piece(0, hp, 0)];
  }

  lemma LowShows(f: Format, start: Tables, mid: Tables, after: Tables, root: nat, l: Layout, base: nat, guard: bool)
    requires forall va: nat :: Translate(f, start, root, va) == None
    requires l.base == Residue(f, base) && l.lower <= l.base && PAGE_SIZE < HugeBytes(f) <= l.higher
    requires l.lower == 0 || HugeBytes(f) <= l.lower
    requires Window(f, start, mid, root, base, 0, HugeBytes(f), 0)
    requires if l.lower == 0 then after == mid
             else var p := if guard then PAGE_SIZE else 0;
                  Residue(f, p) == p && Window(f, mid, after, root, p, p, HugeBytes(f) - p, 0)
    ensures Shows(f, after, root, l, RamRuns.Mapped(HugeBytes(f), []), guard)
  {
    hide Translate, HugeBytes, Residue, Window, LevelAt;
    forall va: nat
      ensures Translate(f, after, root, va) == Expected(l, [Piece(0, HugeBytes(f), 0)], guard, Residue(f, va))
    {
      LowLevel(HugeBytes(f), Residue(f, va));
      if l.base <= Residue(f, va) { LowLevel(HugeBytes(f), Residue(f, va) - l.base); }
      assert Translate(f, start, root, va) == None;
      WindowAt(f, start, mid, root, base, 0, HugeBytes(f), 0, va);
      if l.lower != 0 {
        var p := if guard then PAGE_SIZE else 0;
        WindowAt(f, mid, after, root, p, p, HugeBytes(f) - p, 0, va);
      }
    }
  }

  /** Nothing is in the way of a small page where only small pages are mapped. */
  lemma OnlySmall(f: Format, start: Tables, mid: Tables, root: nat, base: nat, bytes: nat, v: nat, n: nat)
    requires forall va: nat :: Translate(f, start, root, va) == None
    requires mid == start || Window(f, start, mid, root, base, 0, bytes, 0)
    ensures !Blocked(f, mid, root, Normal, v, n)
  {
    hide Translate, Residue;
    forall va: nat ensures NothingHugeAbove(f, mid, root, va, 0) {
      assert Translate(f, start, root, va) == None;
    }
  }

  /** The first requests stay inside their windows, on page boundaries. */
  lemma LowFits(f: Format, base: nat, higher: nat, lower: nat, top: nat, p: nat)
    requires Fits(f, base, higher, lower, top) && (p == 0 || p == PAGE_SIZE)
    ensures PAGE_SIZE < HugeBytes(f) && base % PageBytes(f, 0) == 0 && 0 % PageBytes(f, 0) == 0
    ensures HugeBytes(f) % PageBytes(f, 0) == 0 && p % PageBytes(f, 0) == 0 && (HugeBytes(f) - p) % PageBytes(f, 0) == 0
    ensures lower > 0 ==> Residue(f, p) == p && p % FlatBytes(f) + (HugeBytes(f) - p) <= FlatBytes(f)
    ensures var l := LayoutOf(f, base, higher, lower, top);
            && l.lower <= l.base && HugeBytes(f) <= l.higher
            && (l.lower == 0 <==> lower == 0) && (l.lower == 0 || HugeBytes(f) <= l.lower)
  {
    hide Pow2, PageBytes, Residue, FlatBytes;
    SmallPages(f);
    HugeIsMultiple(f, Normal, base);
    AlignedGap(p, HugeBytes(f), PAGE_SIZE);
    if lower > 0 { LowArith(f, p, HugeBytes(f) - p); }
  }

  /** Visiting this entry flushes a run that reaches above the first huge page. */
  predicate Flushes(hp: nat, v: seq<Entry>, me: Entry) {
    IsRamType(me.kind) && Fold(v).pending.end != me.base && Fold(v).pending.end > hp
  }

  class DirectMapper {
    const pt: PageTable
    const base: nat
    const higherLimit: nat
    const lowerLimit: nat
    /** The run of RAM entries collected so far. */
    var ramBegin: nat
    var ramEnd: nat

    constructor (pt: PageTable, base: nat, higherLimit: nat, lowerLimit: nat)
      ensures this.pt == pt && this.base == base && this.higherLimit == higherLimit && this.lowerLimit == lowerLimit
      ensures ramBegin == 0 && ramEnd == 0
    {
      this.pt, this.base, this.higherLimit, this.lowerLimit := pt, base, higherLimit, lowerLimit;
      ramBegin, ramEnd := 0, 0;
    }

    ghost predicate Ready(top: nat)
      reads this, pt
    {
      pt.Valid() && Fits(pt.fmt, base, higherLimit, lowerLimit, top)
    }

    ghost function L(top: nat): Layout
      reads this
    {
      LayoutOf(pt.fmt, base, higherLimit, lowerLimit, top)
    }

    /** One `map_pages` request of whole pages that stays inside a flat piece of the address space. */
    method Request(kind: PageKind, v: nat, p: nat, bytes: nat) returns (r: MapResult, ghost count: nat)
      requires pt.Valid()
      requires v % PageBytes(pt.fmt, LeafLevel(kind)) == 0 && p % PageBytes(pt.fmt, LeafLevel(kind)) == 0
      requires bytes % PageBytes(pt.fmt, LeafLevel(kind)) == 0
      requires v % FlatBytes(pt.fmt) + bytes <= FlatBytes(pt.fmt) && p + bytes <= Pow2(AddressBits(pt.fmt))
      modifies pt`pool, pt`tables, pt`place
      ensures pt.Valid()
      ensures bytes == count * PageBytes(pt.fmt, LeafLevel(kind)) && Sound(pt.fmt, kind, v, p, count)
      ensures LeftOf(pt.pool, old(pt.pool)) && (r.NoPages? ==> pt.pool == [])
      ensures r.HugeInWay? ==> Blocked(pt.fmt, old(pt.tables), pt.root, kind, v, count)
      ensures r.Mapped? ==>
                && !Blocked(pt.fmt, old(pt.tables), pt.root, kind, v, count)
                && Window(pt.fmt, old(pt.tables), pt.tables, pt.root, v, p, bytes, LeafLevel(kind))
    {
      hide PageBytes, Translate, Unshared, Pow2, PoolOk, NothingHugeAbove, ClearOrMapped, Overlaid, Blocked, Window,
           FlatBytes;
      var size := PageBytes(pt.fmt, LeafLevel(kind));
      count := bytes / size;
      DivModRebuild(bytes, size);
      ghost var done;
      r, done := pt.MapPages(kind, v, p, bytes / size);
      if r.Mapped? {
        AllClear(pt.fmt, old(pt.tables), pt.root, kind, v, p, count);
        RequestIsWindow(pt.fmt, old(pt.tables), pt.tables, pt.root, kind, v, p, count);
      } else if r.HugeInWay? {
        BlockedFirst(pt.fmt, old(pt.tables), pt.tables, pt.root, kind, v, p, count, done);
      }
    }

    /** `direct_map_one_range`: the identity window first, then the direct map. */
    method MapOneRange(begin: nat, end: nat, kind: PageKind, ghost ps: seq<Piece>, ghost guard: bool, ghost top: nat)
      returns (r: MapResult)
      requires Ready(top) && HugeBytes(pt.fmt) <= begin && end <= top
      requires begin < end ==>
                 begin % PageBytes(pt.fmt, LeafLevel(kind)) == 0 && end % PageBytes(pt.fmt, LeafLevel(kind)) == 0
      requires Paged(ps) && Shows(pt.fmt, pt.tables, pt.root, L(top), ps, guard)
      modifies pt`pool, pt`tables, pt`place
      ensures pt.Valid()
      ensures LeftOf(pt.pool, old(pt.pool)) && (r.NoPages? ==> pt.pool == [])
      ensures r.HugeInWay? ==> Clash(ps, Piece(begin, end, LeafLevel(kind)), L(top).Limit())
      ensures r.Mapped? ==>
                && !Clash(ps, Piece(begin, end, LeafLevel(kind)), L(top).Limit())
                && Shows(pt.fmt, pt.tables, pt.root, L(top), ps + PieceIfAny(Piece(begin, end, LeafLevel(kind))), guard)
    {
      hide PageBytes, Translate, Unshared, Pow2, PoolOk, GoodLimit, HugeBytes, Blocked, Window, Reads, Shows, Clash,
           Paged, Residue, FlatBytes, HoldsHuge, Sound, LevelAt, OnPage;
      ghost var l, level := L(top), LeafLevel(kind);
      ghost var p := Piece(begin, end, level);
      ClashParts(ps, p, l);
      if end <= begin {
        NothingClashes(ps, p, l.Limit());
        assert ps + PieceIfAny(p) == ps;
        return MapResult.Mapped;
      }
      ghost var count;
      PieceOnPage(pt.fmt, kind, begin);
      if begin < lowerLimit {
        var bytes := Min(end, lowerLimit) - begin;
        CutAtLimit(pt.fmt, kind, lowerLimit, top, begin, end);
        LowArith(pt.fmt, begin, bytes);
        ShowsReads(pt.fmt, pt.tables, pt.root, l, ps, guard, begin, begin + bytes);
        r, count := Request(kind, begin, begin, bytes);
        BlockedIff(pt.fmt, old(pt.tables), pt.root, kind, begin, count, ps, begin);
        if !r.Mapped? {
          return;
        }
      }
      ghost var mid := pt.tables;
      if begin < higherLimit {
        var bytes := Min(end, higherLimit) - begin;
        CutAtLimit(pt.fmt, kind, higherLimit, top, begin, end);
        DirectArith(pt.fmt, kind, base, begin, bytes);
        ShowsReads(pt.fmt, old(pt.tables), pt.root, l, ps, guard, begin, begin + bytes);
        if begin < lowerLimit {
          ReadsKept(pt.fmt, old(pt.tables), mid, pt.root, begin, begin, Min(end, lowerLimit) - begin, level,
                    l.base + begin, ps, begin, bytes);
        }
        r, count := Request(kind, base + begin, begin, bytes);
        BlockedIff(pt.fmt, mid, pt.root, kind, base + begin, count, ps, begin);
        if !r.Mapped? {
          return;
        }
      }
      NothingThere(ps, begin, Min(end, l.lower));
      NothingThere(ps, begin, Min(end, l.higher));
      PieceShows(pt.fmt, old(pt.tables), mid, pt.tables, pt.root, l, base, ps, guard, p);
      r := MapResult.Mapped;
    }

    /** `direct_map_ram_range`: small head, huge interior and small tail of one run. */
    method MapRamRange(runBegin: nat, runEnd: nat, ghost rs: seq<Run>, ghost guard: bool, ghost top: nat)
      returns (r: MapResult)
      requires Ready(top) && runEnd <= top
      requires Shows(pt.fmt, pt.tables, pt.root, L(top), RamRuns.Mapped(HugeBytes(pt.fmt), rs), guard)
      modifies pt`pool, pt`tables, pt`place
      ensures pt.Valid()
      ensures LeftOf(pt.pool, old(pt.pool)) && (r.NoPages? ==> pt.pool == [])
      ensures r.HugeInWay? ==> RunClash(HugeBytes(pt.fmt), rs, Run(runBegin, runEnd), L(top).Limit())
      ensures runEnd <= HugeBytes(pt.fmt) ==> r.Mapped? && pt.pool == old(pt.pool)
      ensures r.Mapped? ==>
                && !RunClash(HugeBytes(pt.fmt), rs, Run(runBegin, runEnd), L(top).Limit())
                && Shows(pt.fmt, pt.tables, pt.root, L(top),
                         RamRuns.Mapped(HugeBytes(pt.fmt), rs + [Run(runBegin, runEnd)]), guard)
    {
      hide PageBytes, Translate, Unshared, Pow2, PoolOk, Shows, Clash, Paged, RunClash, OnPage, RamRuns.Mapped,
           PieceIfAny, AlignUp, AlignDown, Pieces, HugeBytes;
      var hp := HugeBytes(pt.fmt);
      ghost var run := Run(runBegin, runEnd);
      SmallPages(pt.fmt);
      RoundFacts(hp, run);
      RoundBelow(run, top);
      if runEnd <= hp {
        RoundBelow(run, hp);
      }
      MappedPaged(hp, rs);
      MappedSnoc(hp, rs, run);
      var begin := AlignDown(Max(runBegin, hp), PAGE_SIZE);
      var end := AlignUp(runEnd, PAGE_SIZE);
      if end <= begin {
        EmptyRun(hp, rs, run, L(top).Limit());
        return MapResult.Mapped;
      }
      var hugeBegin := Min(AlignUp(begin, hp), end);
      var hugeEnd := Max(AlignDown(end, hp), hugeBegin);
      CutFacts(hp, begin, end);
      CutUnits(pt.fmt, begin, end, hugeBegin, hugeEnd);
      RunClashParts(hp, rs, run, L(top).Limit());
      ghost var ps := RamRuns.Mapped(hp, rs);
      r := MapOneRange(begin, hugeBegin, Normal, ps, guard, top);
      if !r.Mapped? {
        return;
      }
      PagedSnoc(ps, Head(hp, run));
      ps := ps + PieceIfAny(Head(hp, run));
      r := MapOneRange(hugeBegin, hugeEnd, Huge, ps, guard, top);
      if !r.Mapped? {
        HugeNeverClashes(ps, Interior(hp, run), L(top).Limit());
        return;
      }
      PagedSnoc(ps, Interior(hp, run));
      ps := ps + PieceIfAny(Interior(hp, run));
      r := MapOneRange(hugeEnd, end, Normal, ps, guard, top);
      assert RamRuns.Mapped(hp, rs + [run]) == ps + PieceIfAny(Tail(hp, run));
    }

    /**
     `map_low_small_pages`: the first huge page of physical memory in small pages, in both
     windows, without the first page of the identity window when that guards null.
     */
    method MapLowSmallPages(guard: bool, ghost top: nat) returns (r: MapResult)
      requires Ready(top)
      requires forall va: nat :: Translate(pt.fmt, pt.tables, pt.root, va) == None
      modifies pt`pool, pt`tables, pt`place
      ensures pt.Valid()
      ensures LeftOf(pt.pool, old(pt.pool)) && !r.HugeInWay? && (r.NoPages? ==> pt.pool == [])
      ensures r.Mapped? ==> Shows(pt.fmt, pt.tables, pt.root, L(top), RamRuns.Mapped(HugeBytes(pt.fmt), []), guard)
    {
      hide Translate, Unshared, Pow2, PageBytes, Shows, Window, Residue, FlatBytes, HugeBytes, Blocked, PoolOk,
           GoodLimit, Sound, OnPage, RamRuns.Mapped;
      var hp := HugeBytes(pt.fmt);
      ghost var start, count := pt.tables, 0;
      LowFits(pt.fmt, base, higherLimit, lowerLimit, top, if guard then PAGE_SIZE else 0);
      r, count := Request(Normal, base, 0, hp);
      OnlySmall(pt.fmt, start, start, pt.root, base, hp, base, count);
      if !r.Mapped? {
        return;
      }
      ghost var mid := pt.tables;
      if lowerLimit > 0 {
        var p := if guard then PAGE_SIZE else 0;
        r, count := Request(Normal, p, p, hp - p);
        OnlySmall(pt.fmt, start, mid, pt.root, base, hp, p, count);
        if !r.Mapped? {
          return;
        }
      }
      LowShows(pt.fmt, start, mid, pt.tables, pt.root, L(top), base, guard);
    }

    /** The tables show the flushed runs of the visited entries, the fields hold the pending one, nothing clashed. */
    ghost predicate Walked(v: seq<Entry>, guard: bool, top: nat)
      reads this, pt
    {
      && Ready(top) && RamBelow(v, top)
      && Run(ramBegin, ramEnd) == Fold(v).pending
      && !AnyClash(HugeBytes(pt.fmt), Fold(v).flushed, L(top).Limit())
      && Shows(pt.fmt, pt.tables, pt.root, L(top), RamRuns.Mapped(HugeBytes(pt.fmt), Fold(v).flushed), guard)
    }

    /** `direct_map_ram_entry`: extend the run, or flush it and start another. */
    method RamEntry(me: Entry, ghost v: seq<Entry>, ghost guard: bool, ghost top: nat) returns (r: MapResult)
      requires Walked(v, guard, top) && RamBelow(v + [me], top)
      modifies this`ramBegin, this`ramEnd, pt`pool, pt`tables, pt`place
      ensures pt.Valid()
      ensures LeftOf(pt.pool, old(pt.pool)) && (r.NoPages? ==> pt.pool == [])
      ensures r.HugeInWay? ==> Fold(v + [me]).flushed == Runs(v) && AnyClash(HugeBytes(pt.fmt), Runs(v), L(top).Limit())
      ensures r.Mapped? ==> Walked(v + [me], guard, top)
      ensures !Flushes(HugeBytes(pt.fmt), v, me) ==> r.Mapped? && pt.pool == old(pt.pool)
    {
      hide Translate, Unshared, Pow2, PageBytes, Fits, PoolOk, Shows, Fold, AnyClash, RunClash, RamRuns.Mapped;
      FoldSnoc(v, me);
      PendingBelow(v, top);
      if !IsRamType(me.kind) {
        return MapResult.Mapped;
      }
      if ramEnd == me.base {
        ramEnd := me.End();
        return MapResult.Mapped;
      }
      r := MapRamRange(ramBegin, ramEnd, Fold(v).flushed, guard, top);
      AnyClashSnoc(HugeBytes(pt.fmt), Fold(v).flushed, Fold(v).pending, L(top).Limit());
      if !r.Mapped? {
        return;
      }
      ramBegin := me.base;
      ramEnd := me.End();
    }

    /** The final flush of `do_build_page_table`. */
    method FinalFlush(ghost v: seq<Entry>, ghost guard: bool, ghost top: nat) returns (r: MapResult)
      requires Walked(v, guard, top)
      modifies pt`pool, pt`tables, pt`place
      ensures pt.Valid()
      ensures LeftOf(pt.pool, old(pt.pool)) && (r.NoPages? ==> pt.pool == [])
      ensures r.HugeInWay? ==> AnyClash(HugeBytes(pt.fmt), Runs(v), L(top).Limit())
      ensures r.Mapped? ==>
                && !AnyClash(HugeBytes(pt.fmt), Runs(v), L(top).Limit())
                && Shows(pt.fmt, pt.tables, pt.root, L(top), RamRuns.Mapped(HugeBytes(pt.fmt), Runs(v)), guard)
    {
      hide Translate, Unshared, Pow2, PageBytes, Fits, PoolOk, Shows, Fold, AnyClash, RunClash, RamRuns.Mapped;
      PendingBelow(v, top);
      r := MapRamRange(ramBegin, ramEnd, Fold(v).flushed, guard, top);
      AnyClashSnoc(HugeBytes(pt.fmt), Fold(v).flushed, Fold(v).pending, L(top).Limit());
    }

    /** The map-building steps of `do_build_page_table` on a freshly initialised table, over the entries visited. */
    method Build(v: seq<Entry>, guard: bool, ghost top: nat) returns (r: MapResult)
      requires Ready(top) && RamBelow(v, top)
      requires ramBegin == ramEnd == 0
      requires forall va: nat :: Translate(pt.fmt, pt.tables, pt.root, va) == None
      modifies this`ramBegin, this`ramEnd, pt`pool, pt`tables, pt`place
      ensures pt.Valid()
      ensures LeftOf(pt.pool, old(pt.pool)) && (r.NoPages? ==> pt.pool == [])
      ensures r.HugeInWay? ==> AnyClash(HugeBytes(pt.fmt), Runs(v), L(top).Limit())
      ensures r.Mapped? ==>
                && !AnyClash(HugeBytes(pt.fmt), Runs(v), L(top).Limit())
                && Shows(pt.fmt, pt.tables, pt.root, L(top), RamRuns.Mapped(HugeBytes(pt.fmt), Runs(v)), guard)
    {
      hide Translate, Unshared, Pow2, PageBytes, Fits, PoolOk, Shows, AnyClash, RamRuns.Mapped, LeftOf;
      r := MapLowSmallPages(guard, top);
      if !r.Mapped? {
        return;
      }
      NoRunsYet(HugeBytes(pt.fmt), L(top).Limit());
      var k := 0;
      while k < |v|
        invariant k <= |v|
        invariant Walked(v[..k], guard, top) && LeftOf(pt.pool, old(pt.pool))
      {
        assert v[..k + 1] == v[..k] + [v[k]];
        ghost var held := pt.pool;
        r := RamEntry(v[k], v[..k], guard, top);
        LeftOfLeft(pt.pool, held, old(pt.pool));
        if !r.Mapped? {
          ClashStays(HugeBytes(pt.fmt), v, k + 1, L(top).Limit());
          return;
        }
        k := k + 1;
      }
      assert v[..k] == v;
      ghost var held := pt.pool;
      r := FinalFlush(v, guard, top);
      LeftOfLeft(pt.pool, held, old(pt.pool));
    }
  }

  lemma NoRunsYet(hp: nat, limit: nat)
    requires hp > 0
    ensures !AnyClash(hp, [], limit)
  {
  }

  /** What the direct map holds at `base + pa` above the first huge page is the piece over `pa`. */
  lemma DirectMapAt(f: Format, tables: Tables, root: nat, base: nat, higher: nat, lower: nat, top: nat, ps: seq<Piece>,
                    guard: bool, pa: nat)
    requires Fits(f, base, higher, lower, top)
    requires Shows(f, tables, root, LayoutOf(f, base, higher, lower, top), ps, guard)
    requires base % FlatBytes(f) + pa < FlatBytes(f)
    ensures Translate(f, tables, root, base + pa) == if pa < Min(higher, top) then At(ps, pa) else None
  {
    hide Translate, PageBytes, Pow2, Residue, FlatBytes, At, GoodLimit;
    ResidueAdds(f, base, pa);
    assert Translate(f, tables, root, base + pa)
        == Expected(LayoutOf(f, base, higher, lower, top), ps, guard, Residue(f, base + pa));
  }

  /**
   The direct map of page-aligned RAM visited in order, above the first huge page: exactly the RAM bytes below
   the limit, each at its own offset, by a huge page exactly where all of that page is RAM.
   */
  lemma DirectMapIsRam(f: Format, tables: Tables, root: nat, base: nat, higher: nat, lower: nat, top: nat,
                       v: seq<Entry>, guard: bool, pa: nat)
    requires Fits(f, base, higher, lower, top) && OrderedRam(v) && AlignedRam(v) && RamBelow(v, top)
    requires Shows(f, tables, root, LayoutOf(f, base, higher, lower, top), RamRuns.Mapped(HugeBytes(f), Runs(v)), guard)
    requires HugeBytes(f) <= pa && base % FlatBytes(f) + pa < FlatBytes(f)
    ensures Translate(f, tables, root, base + pa)
         == if pa < higher && Ram(v, pa) then Some(Leaf(pa, if AllRam(HugeBytes(f), v, pa) then 1 else 0)) else None
  {
    hide Translate, PageBytes, Pow2, Residue, FlatBytes, GoodLimit, AllRam, RamRuns.Mapped, LevelAt, Fold, Shows,
         OnPage;
    SmallPages(f);
    AlignedLevels(HugeBytes(f), v, pa);
    DirectMapAt(f, tables, root, base, higher, lower, top, RamRuns.Mapped(HugeBytes(f), Runs(v)), guard, pa);
  }

  /** Without alignment: a byte is mapped, at its own offset, exactly when its page holds a byte of RAM. */
  lemma DirectMapIsPages(f: Format, tables: Tables, root: nat, base: nat, higher: nat, lower: nat, top: nat,
                         v: seq<Entry>, guard: bool, pa: nat)
    requires Fits(f, base, higher, lower, top) && OrderedRam(v)
    requires Shows(f, tables, root, LayoutOf(f, base, higher, lower, top), RamRuns.Mapped(HugeBytes(f), Runs(v)), guard)
    requires HugeBytes(f) <= pa < Min(higher, top) && base % FlatBytes(f) + pa < FlatBytes(f)
    ensures var t := Translate(f, tables, root, base + pa);
            && (t.Some? <==> exists x: nat :: Ram(v, x) && AlignDown(x, PAGE_SIZE) == AlignDown(pa, PAGE_SIZE))
            && (t.Some? ==> t.value.pa == pa)
  {
    hide Translate, PageBytes, Pow2, Residue, FlatBytes, GoodLimit, Ram, RamRuns.Mapped, LevelAt, Fold, Shows, OnPage,
         AlignDown;
    SmallPages(f);
    MappedPages(HugeBytes(f), v, pa);
    DirectMapAt(f, tables, root, base, higher, lower, top, RamRuns.Mapped(HugeBytes(f), Runs(v)), guard, pa);
  }
}
