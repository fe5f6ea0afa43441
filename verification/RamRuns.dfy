/**
 Runs of RAM as the direct map of loader/boot_protocol/ultra.c collects them from the entries it
 visits, the page-aligned pieces each run is mapped in, and when a piece meets a huge page that is
 already there. No page tables yet: a piece is a range of physical bytes and a page level.
 */
module RamRuns {
  import opened Arith
  import opened MemoryMap

  predicate IsRamType(kind: nat) {
    kind == FREE || kind == ACPI_RECLAIMABLE || kind == ACPI_NVS || kind >= LOADER_RECLAIMABLE
  }

  predicate IsRam(e: Entry, pa: nat) {
    IsRamType(e.kind) && e.Covers(pa)
  }

  /** Physical byte `pa` lies in some RAM entry. */
  ghost predicate Ram(v: seq<Entry>, pa: nat) {
    exists i: nat :: i < |v| && IsRam(v[i], pa)
  }

  /** All of the huge page around `pa` is RAM. */
  ghost predicate AllRam(hp: nat, v: seq<Entry>, pa: nat)
    requires hp > 0
  {
    forall x: nat :: AlignDown(pa, hp) <= x < AlignDown(pa, hp) + hp ==> Ram(v, x)
  }

  // ----- Runs -----

  datatype Run = Run(begin: nat, end: nat) {
    predicate Covers(pa: nat) {
      begin <= pa < end
    }
  }

  /** Runs flushed so far, and the pending one. */
  datatype Folded = Folded(flushed: seq<Run>, pending: Run) {
    function All(): seq<Run> {
      flushed + [pending]
    }
  }

  /** One visit of `direct_map_ram_entry`. */
  function Visit(s: Folded, e: Entry): Folded {
    if !IsRamType(e.kind) then s
    else if s.pending.end == e.base then Folded(s.flushed, Run(s.pending.begin, e.End()))
    else Folded(s.flushed + [s.pending], Run(e.base, e.End()))
  }

  /** The state after visiting these entries in turn. */
  function Fold(v: seq<Entry>): Folded {
    if v == [] then Folded([], Run(0, 0)) else Visit(Fold(v[..|v| - 1]), v[|v| - 1])
  }

  lemma FoldSnoc(v: seq<Entry>, e: Entry)
    ensures Fold(v + [e]) == Visit(Fold(v), e)
  {
    assert (v + [e])[..|v|] == v;
  }

  /** All runs of a walk, with the final flush. */
  function Runs(v: seq<Entry>): seq<Run> {
    Fold(v).All()
  }

  /** RAM entries come in order and are not empty; what is not RAM may be anywhere. */
  ghost predicate OrderedRam(v: seq<Entry>) {
    && (forall i: nat :: i < |v| && IsRamType(v[i].kind) ==> v[i].size > 0)
    && (forall i: nat, j: nat ::
          i < j < |v| && IsRamType(v[i].kind) && IsRamType(v[j].kind) ==> v[i].End() <= v[j].base)
  }

  /** Byte `pa` lies in some run. */
  ghost predicate InRuns(rs: seq<Run>, pa: nat) {
    exists i: nat :: i < |rs| && rs[i].Covers(pa)
  }

  /** Runs in order with a gap between any two; only the first can be empty. */
  ghost predicate Apart(rs: seq<Run>) {
    && (forall i: nat :: i < |rs| ==> rs[i].begin < rs[i].end || (i == 0 && rs[i] == Run(0, 0)))
    && (forall i: nat, j: nat :: i < j < |rs| ==> rs[i].end < rs[j].begin)
  }

  lemma RamSnoc(v: seq<Entry>, e: Entry, pa: nat)
    ensures Ram(v + [e], pa) <==> Ram(v, pa) || IsRam(e, pa)
  {
    var w := v + [e];
    if i: nat :| i < |v| && IsRam(v[i], pa) { assert w[i] == v[i]; }
    if IsRam(e, pa) { assert w[|v|] == e; }
  }

  lemma InRunsSnoc(rs: seq<Run>, r: Run, pa: nat)
    ensures InRuns(rs + [r], pa) <==> InRuns(rs, pa) || r.Covers(pa)
  {
    var w := rs + [r];
    if i: nat :| i < |rs| && rs[i].Covers(pa) { assert w[i] == rs[i]; }
    if r.Covers(pa) { assert w[|rs|] == r; }
  }

  /** What the fold keeps: its runs are the RAM visited, and every RAM entry visited ends by the pending run. */
  ghost predicate FoldIs(v: seq<Entry>, s: Folded) {
    && Apart(s.All())
    && (forall pa: nat :: Ram(v, pa) <==> InRuns(s.All(), pa))
    && (forall i: nat :: i < |v| && IsRamType(v[i].kind) ==> v[i].End() <= s.pending.end)
    && (s.pending.end == 0 || exists i: nat :: i < |v| && IsRamType(v[i].kind) && v[i].End() == s.pending.end)
  }

  /** The runs of an ordered walk are the maximal stretches of the RAM visited. */
  lemma {:induction false} FoldRuns(v: seq<Entry>)
    requires OrderedRam(v)
    ensures FoldIs(v, Fold(v))
  {
    if v == [] {
    } else {
      var n := |v| - 1;
      var w, e := v[..n], v[n];
      FoldRuns(w);
      assert v == w + [e];
      VisitRuns(w, Fold(w), e);
    }
  }

  lemma VisitRuns(w: seq<Entry>, s: Folded, e: Entry)
    requires OrderedRam(w + [e]) && FoldIs(w, s)
    ensures FoldIs(w + [e], Visit(s, e))
  {
    var v, t := w + [e], Visit(s, e);
    assert v[|w|] == e && forall i: nat :: i < |w| ==> v[i] == w[i];
    assert s.All()[|s.flushed|] == s.pending;
    if IsRamType(e.kind) {
      assert s.pending.end <= e.base by {
        if s.pending.end != 0 {
          var i: nat :| i < |w| && IsRamType(w[i].kind) && w[i].End() == s.pending.end;
          assert v[i].End() <= v[|w|].base;
        }
      }
      assert v[|w|].End() == t.pending.end;
      VisitApart(s, e);
    }
    forall pa: nat
      ensures Ram(v, pa) <==> InRuns(t.All(), pa)
    {
      RamSnoc(w, e, pa);
      InRunsSnoc(s.flushed, s.pending, pa);
      InRunsSnoc(t.flushed, t.pending, pa);
    }
  }

  lemma VisitApart(s: Folded, e: Entry)
    requires Apart(s.All()) && IsRamType(e.kind) && e.size > 0 && s.pending.end <= e.base
    ensures Apart(Visit(s, e).All())
  {
    var a, b := s.All(), Visit(s, e).All();
    assert forall i: nat :: i < |s.flushed| ==> a[i] == b[i] == s.flushed[i];
    assert a[|s.flushed|] == s.pending;
    if s.pending.end != e.base { assert b[|s.flushed|] == s.pending; }
  }

  // ----- Pieces -----

  /** Physical bytes mapped as pages of one level, 0 for small and 1 for huge. */
  datatype Piece = Piece(begin: nat, end: nat, level: nat) {
    predicate Covers(pa: nat) {
      begin <= pa < end
    }
  }

  function HugeBegin(hp: nat, begin: nat, end: nat): nat
    requires hp > 0
  {
    Min(AlignUp(begin, hp), end)
  }

  function HugeEnd(hp: nat, begin: nat, end: nat): nat
    requires hp > 0
  {
    Max(AlignDown(end, hp), HugeBegin(hp, begin, end))
  }

  /** A run starts above the first huge page and on a page boundary. */
  function RoundBegin(hp: nat, r: Run): nat {
    AlignDown(Max(r.begin, hp), PAGE_SIZE)
  }

  function RoundEnd(r: Run): nat {
    AlignUp(r.end, PAGE_SIZE)
  }

  function PieceIfAny(p: Piece): seq<Piece> {
    if p.begin < p.end then [p] else []
  }

  /** The pieces of `direct_map_ram_range`: small head, huge interior, small tail. */
  function Pieces(hp: nat, r: Run): seq<Piece>
    requires hp > 0
  {
    var b, e := RoundBegin(hp, r), RoundEnd(r);
    if e <= b then []
    else
      var hb, he := HugeBegin(hp, b, e), HugeEnd(hp, b, e);
      PieceIfAny(Piece(b, hb, 0)) + PieceIfAny(Piece(hb, he, 1)) + PieceIfAny(Piece(he, e, 0))
  }

  /** What is mapped after these runs: the first huge page in small pages, then the pieces of each run. */
  function Mapped(hp: nat, rs: seq<Run>): seq<Piece>
    requires hp > 0
  {
    if rs == [] then [Piece(0, hp, 0)] else Mapped(hp, rs[..|rs| - 1]) + Pieces(hp, rs[|rs| - 1])
  }

  lemma MappedSnoc(hp: nat, rs: seq<Run>, r: Run)
    requires hp > 0
    ensures Mapped(hp, rs + [r]) == Mapped(hp, rs) + Pieces(hp, r)
  {
    assert (rs + [r])[..|rs|] == rs;
  }

  /** The level of the piece mapped last over `pa`. */
  function LevelAt(ps: seq<Piece>, pa: nat): Option<nat> {
    if ps == [] then None
    else if ps[|ps| - 1].Covers(pa) then Some(ps[|ps| - 1].level)
    else LevelAt(ps[..|ps| - 1], pa)
  }

  lemma LevelSnoc(ps: seq<Piece>, p: Piece, pa: nat)
    ensures LevelAt(ps + [p], pa) == if p.Covers(pa) then Some(p.level) else LevelAt(ps, pa)
  {
    assert (ps + [p])[..|ps|] == ps;
  }

  lemma {:induction false} LevelConcat(ps: seq<Piece>, qs: seq<Piece>, pa: nat)
    ensures LevelAt(ps + qs, pa) == if LevelAt(qs, pa).Some? then LevelAt(qs, pa) else LevelAt(ps, pa)
    decreases |qs|
  {
    if qs == [] {
      assert ps + qs == ps;
    } else {
      var n := |qs| - 1;
      LevelConcat(ps, qs[..n], pa);
      assert ps + qs == (ps + qs[..n]) + [qs[n]];
      LevelSnoc(ps + qs[..n], qs[n], pa);
    }
  }

  lemma {:induction false} LevelCovered(ps: seq<Piece>, pa: nat)
    ensures LevelAt(ps, pa).Some? ==>
              exists k: nat :: k < |ps| && ps[k].Covers(pa) && LevelAt(ps, pa) == Some(ps[k].level)
    ensures (forall k: nat :: k < |ps| ==> !ps[k].Covers(pa)) ==> LevelAt(ps, pa) == None
  {
    if ps != [] {
      var n := |ps| - 1;
      LevelCovered(ps[..n], pa);
      if LevelAt(ps, pa).Some? && !ps[n].Covers(pa) {
        var k: nat :| k < n && ps[..n][k].Covers(pa) && LevelAt(ps[..n], pa) == Some(ps[..n][k].level);
        assert ps[k].Covers(pa);
      }
    }
  }

  /** A small piece below the limit meets a huge page that is already mapped. */
  ghost predicate Clash(ps: seq<Piece>, p: Piece, limit: nat) {
    p.level == 0 && exists pa: nat :: p.Covers(pa) && pa < limit && LevelAt(ps, pa) == Some(1)
  }

  // ----- Alignment -----

  /** A huge page is a whole number of pages, more than one. */
  ghost predicate HugeSize(hp: nat) {
    hp > PAGE_SIZE && OnPage(hp)
  }

  predicate OnPage(x: nat) {
    x % PAGE_SIZE == 0
  }

  lemma HugeMultiple(hp: nat, x: nat)
    requires HugeSize(hp) && x % hp == 0
    ensures OnPage(x)
  {
    DivModRebuild(x, hp);
    DivModRebuild(hp, PAGE_SIZE);
    var q, k := x / hp, hp / PAGE_SIZE;
    MulAssoc(q, k, PAGE_SIZE);
    DivModUnique(x, PAGE_SIZE, q * k, 0);
  }

  /** The cuts of a rounded run are in order, on the right boundaries. */
  lemma CutFacts(hp: nat, b: nat, e: nat)
    requires HugeSize(hp) && OnPage(b) && OnPage(e) && b < e
    ensures var hb, he := HugeBegin(hp, b, e), HugeEnd(hp, b, e);
            && b <= hb <= he <= e && OnPage(hb) && OnPage(he)
            && (hb < he ==> hb % hp == 0 && he % hp == 0)
            && (hb < he ==> hb == AlignUp(b, hp) && he == AlignDown(e, hp))
            && (hb == he ==> AlignDown(e, hp) <= AlignUp(b, hp))
  {
    AlignFacts(b, hp);
    AlignFacts(e, hp);
    HugeMultiple(hp, AlignUp(b, hp));
    HugeMultiple(hp, AlignDown(e, hp));
  }

  lemma RoundFacts(hp: nat, r: Run)
    requires HugeSize(hp)
    ensures hp <= RoundBegin(hp, r) <= Max(r.begin, hp) < RoundBegin(hp, r) + PAGE_SIZE
    ensures r.end <= RoundEnd(r) < r.end + PAGE_SIZE
    ensures OnPage(RoundBegin(hp, r)) && OnPage(RoundEnd(r))
  {
    AlignFacts(Max(r.begin, hp), PAGE_SIZE);
    AlignFacts(r.end, PAGE_SIZE);
    if RoundBegin(hp, r) < hp { MultiplesApart(RoundBegin(hp, r), hp, PAGE_SIZE); }
  }

  // ----- Pieces of a run -----

  /** The huge interior of a run. */
  ghost predicate InHuge(hp: nat, r: Run, pa: nat)
    requires hp > 0
  {
    var b, e := RoundBegin(hp, r), RoundEnd(r);
    b < e && HugeBegin(hp, b, e) <= pa < HugeEnd(hp, b, e)
  }

  ghost predicate InRounded(hp: nat, r: Run, pa: nat) {
    RoundBegin(hp, r) <= pa < RoundEnd(r)
  }

  /** A run maps its rounded range once: huge in the interior, small elsewhere. */
  lemma PiecesLevel(hp: nat, r: Run, pa: nat)
    requires HugeSize(hp)
    ensures LevelAt(Pieces(hp, r), pa)
         == if InHuge(hp, r, pa) then Some(1) else if InRounded(hp, r, pa) then Some(0) else None
  {
    hide AlignDown, AlignUp, HugeBegin, HugeEnd;
    var b, e := RoundBegin(hp, r), RoundEnd(r);
    RoundFacts(hp, r);
    if b < e {
      CutFacts(hp, b, e);
      var hb, he := HugeBegin(hp, b, e), HugeEnd(hp, b, e);
      var x, y, z := PieceIfAny(Piece(b, hb, 0)), PieceIfAny(Piece(hb, he, 1)), PieceIfAny(Piece(he, e, 0));
      LevelConcat(x + y, z, pa);
      LevelConcat(x, y, pa);
      OneLevel(Piece(b, hb, 0), pa);
      OneLevel(Piece(hb, he, 1), pa);
      OneLevel(Piece(he, e, 0), pa);
    }
  }

  lemma OneLevel(p: Piece, pa: nat)
    ensures LevelAt(PieceIfAny(p), pa) == if p.Covers(pa) then Some(p.level) else None
  {
    if p.begin < p.end {
      assert [p] == [] + [p];
      LevelSnoc([], p, pa);
    }
  }

  /** The last run whose rounded range holds `pa` decides its level. */
  lemma {:induction false} MappedLevel(hp: nat, rs: seq<Run>, pa: nat)
    requires HugeSize(hp)
    ensures hp <= pa ==> (LevelAt(Mapped(hp, rs), pa).Some? <==> exists i: nat :: i < |rs| && InRounded(hp, rs[i], pa))
    ensures LevelAt(Mapped(hp, rs), pa) == Some(1) ==> exists i: nat :: i < |rs| && InHuge(hp, rs[i], pa)
    decreases |rs|
  {
    hide RoundBegin, RoundEnd, HugeBegin, HugeEnd, Pieces;
    if rs == [] {
      OneLevel(Piece(0, hp, 0), pa);
    } else {
      var n := |rs| - 1;
      var ws := rs[..n];
      MappedLevel(hp, ws, pa);
      LevelConcat(Mapped(hp, ws), Pieces(hp, rs[n]), pa);
      PiecesLevel(hp, rs[n], pa);
      HugeInRounded(hp, rs[n], pa);
      if i: nat :| i < n && InRounded(hp, ws[i], pa) { assert rs[i] == ws[i]; }
      if i: nat :| i < n && InHuge(hp, ws[i], pa) { assert rs[i] == ws[i]; }
      if i: nat :| i < |rs| && InRounded(hp, rs[i], pa) { assert i < n ==> ws[i] == rs[i]; }
    }
  }

  lemma HugeInRounded(hp: nat, r: Run, pa: nat)
    requires HugeSize(hp)
    ensures InHuge(hp, r, pa) ==> InRounded(hp, r, pa)
  {
    hide AlignDown, AlignUp, HugeBegin, HugeEnd;
    RoundFacts(hp, r);
    if RoundBegin(hp, r) < RoundEnd(r) { CutFacts(hp, RoundBegin(hp, r), RoundEnd(r)); }
  }

  // ----- When a run meets a huge page -----

  /** Mapping the run after these runs puts a small page below the limit into a huge page that is there. */
  ghost predicate RunClash(hp: nat, before: seq<Run>, r: Run, limit: nat)
    requires hp > 0
  {
    exists pa: nat ::
      InRounded(hp, r, pa) && !InHuge(hp, r, pa) && pa < limit && LevelAt(Mapped(hp, before), pa) == Some(1)
  }

  ghost predicate AnyClash(hp: nat, rs: seq<Run>, limit: nat)
    requires hp > 0
  {
    exists j: nat :: j < |rs| && RunClash(hp, rs[..j], rs[j], limit)
  }

  /** Two runs round out to a shared page, and it lies in the huge interior of the first. */
  ghost predicate SharedHuge(hp: nat, a: Run, b: Run, limit: nat)
    requires hp > 0
  {
    var page := AlignDown(b.begin, PAGE_SIZE);
    b.begin < b.end && page < RoundEnd(a) && page < limit && InHuge(hp, a, page)
  }

  /** The first page of a run after `a` that shares a page with it. */
  lemma SharedPage(hp: nat, a: Run, b: Run, pa: nat)
    requires HugeSize(hp) && a.end < b.begin && InRounded(hp, b, pa) && InHuge(hp, a, pa)
    ensures var page := AlignDown(b.begin, PAGE_SIZE);
            page <= pa < page + PAGE_SIZE && page < RoundEnd(a) && InHuge(hp, a, page)
    ensures AlignDown(b.begin, PAGE_SIZE) < a.end
  {
    hide AlignDown, AlignUp, HugeBegin, HugeEnd, RoundEnd, OnPage;
    RoundFacts(hp, a);
    RoundFacts(hp, b);
    HugeInRounded(hp, a, pa);
    PageDown(b.begin);
    var begin, end, page := RoundBegin(hp, a), RoundEnd(a), AlignDown(b.begin, PAGE_SIZE);
    CutFacts(hp, begin, end);
    StepDown(hp, end);
    StepDown(page + PAGE_SIZE, end);
    StepDown(page + PAGE_SIZE, HugeBegin(hp, begin, end));
  }

  lemma PageDown(x: nat)
    ensures var p := AlignDown(x, PAGE_SIZE); OnPage(p) && OnPage(p + PAGE_SIZE) && p <= x < p + PAGE_SIZE
  {
    AlignFacts(x, PAGE_SIZE);
  }

  /** A multiple of the page size above another is at least a page above it. */
  lemma StepDown(x: nat, y: nat)
    requires OnPage(x) && OnPage(y)
    ensures y > x ==> y >= x + PAGE_SIZE
    ensures y < x ==> y + PAGE_SIZE <= x
  {
    if y > x { MultiplesApart(x, y, PAGE_SIZE); }
    if y < x { MultiplesApart(y, x, PAGE_SIZE); }
  }

  /** A shared page in a huge interior is a clash when the second run is mapped. */
  lemma SharedClashes(hp: nat, before: seq<Run>, a: Run, b: Run, limit: nat)
    requires HugeSize(hp) && a.end < b.begin && SharedHuge(hp, a, b, limit)
    ensures RunClash(hp, before + [a], b, limit)
  {
    hide AlignDown, AlignUp, HugeBegin, HugeEnd, RoundEnd, OnPage, Pieces, LevelAt;
    var page := AlignDown(b.begin, PAGE_SIZE);
    var begin, end := RoundBegin(hp, a), RoundEnd(a);
    RoundFacts(hp, a);
    RoundFacts(hp, b);
    HugeInRounded(hp, a, page);
    CutFacts(hp, begin, end);
    PageDown(b.begin);
    StepDown(page + PAGE_SIZE, end);
    StepDown(page, HugeEnd(hp, begin, end));
    NotHugeStart(hp, page, HugeEnd(hp, begin, end));
    if RoundBegin(hp, b) < RoundEnd(b) { CutFacts(hp, RoundBegin(hp, b), RoundEnd(b)); UpFacts(page, hp); }
    MappedSnoc(hp, before, a);
    LevelConcat(Mapped(hp, before), Pieces(hp, a), page);
    PiecesLevel(hp, a, page);
    assert InRounded(hp, b, page) && !InHuge(hp, b, page);
  }

  /** The last page of a huge page is not the first. */
  lemma NotHugeStart(hp: nat, page: nat, end: nat)
    requires HugeSize(hp) && end == page + PAGE_SIZE && end % hp == 0
    ensures page % hp != 0
  {
    if page % hp == 0 { MultiplesApart(page, end, hp); }
  }

  lemma UpFacts(x: nat, unit: nat)
    requires unit > 0 && x % unit != 0
    ensures AlignUp(x, unit) > x
  {
    AlignFacts(x, unit);
  }

  /**
   Mapping the runs of an ordered walk meets the huge-page check if and only if two neighbouring
   runs round out to a shared page that lies in the huge interior of the first.
   */
  lemma ClashIff(hp: nat, rs: seq<Run>, limit: nat)
    requires HugeSize(hp) && Apart(rs)
    ensures AnyClash(hp, rs, limit) <==> exists i: nat :: i + 1 < |rs| && SharedHuge(hp, rs[i], rs[i + 1], limit)
  {
    hide InRounded, InHuge, LevelAt, Mapped, AlignDown, RoundEnd;
    if AnyClash(hp, rs, limit) {
      var j: nat :| j < |rs| && RunClash(hp, rs[..j], rs[j], limit);
      var pa: nat :| InRounded(hp, rs[j], pa) && !InHuge(hp, rs[j], pa) && pa < limit
                     && LevelAt(Mapped(hp, rs[..j]), pa) == Some(1);
      MappedLevel(hp, rs[..j], pa);
      var i: nat :| i < j && InHuge(hp, rs[..j][i], pa);
      NeighbourShares(hp, rs, i, j, pa, limit);
    }
    if i: nat :| i + 1 < |rs| && SharedHuge(hp, rs[i], rs[i + 1], limit) {
      SharedClashes(hp, rs[..i], rs[i], rs[i + 1], limit);
      assert rs[..i + 1] == rs[..i] + [rs[i]];
    }
  }

  lemma NeighbourShares(hp: nat, rs: seq<Run>, i: nat, j: nat, pa: nat, limit: nat)
    requires HugeSize(hp) && Apart(rs) && i < j < |rs| && InHuge(hp, rs[i], pa) && InRounded(hp, rs[j], pa)
    requires pa < limit
    ensures SharedHuge(hp, rs[i], rs[i + 1], limit)
  {
    hide InRounded, InHuge, RoundEnd, AlignDown;
    SharedPage(hp, rs[i], rs[j], pa);
    var page := AlignDown(rs[j].begin, PAGE_SIZE);
    PageDown(rs[j].begin);
    assert rs[i].end < rs[i + 1].begin <= rs[j].begin;
    SamePage(rs[i + 1].begin, rs[j].begin);
  }

  lemma SamePage(x: nat, y: nat)
    requires AlignDown(y, PAGE_SIZE) <= x <= y
    ensures AlignDown(x, PAGE_SIZE) == AlignDown(y, PAGE_SIZE)
  {
    PageDown(x);
    PageDown(y);
    StepDown(AlignDown(x, PAGE_SIZE), AlignDown(y, PAGE_SIZE));
  }

  /** Above the first huge page, exactly the pages that hold a byte of RAM are mapped. */
  lemma MappedPages(hp: nat, v: seq<Entry>, pa: nat)
    requires HugeSize(hp) && OrderedRam(v) && hp <= pa
    ensures LevelAt(Mapped(hp, Runs(v)), pa).Some?
       <==> exists x: nat :: AlignDown(x, PAGE_SIZE) == AlignDown(pa, PAGE_SIZE) && Ram(v, x)
  {
    hide AlignDown, RoundBegin, RoundEnd, LevelAt, Mapped, Fold, Ram;
    var rs := Runs(v);
    FoldRuns(v);
    MappedLevel(hp, rs, pa);
    if i: nat :| i < |rs| && InRounded(hp, rs[i], pa) {
      var x := RoundedByte(hp, rs[i], pa);
      assert InRuns(rs, x);
    }
    if x: nat :| AlignDown(x, PAGE_SIZE) == AlignDown(pa, PAGE_SIZE) && Ram(v, x) {
      assert InRuns(rs, x);
      var i: nat :| i < |rs| && rs[i].Covers(x);
      ByteRounds(hp, rs[i], x, pa);
    }
  }

  lemma RoundedByte(hp: nat, r: Run, pa: nat) returns (x: nat)
    requires HugeSize(hp) && hp <= pa && InRounded(hp, r, pa) && (r.begin < r.end || r == Run(0, 0))
    ensures r.Covers(x) && AlignDown(x, PAGE_SIZE) == AlignDown(pa, PAGE_SIZE)
  {
    hide AlignDown, AlignUp, OnPage;
    RoundFacts(hp, r);
    PageDown(pa);
    PageDown(r.begin);
    var page := AlignDown(pa, PAGE_SIZE);
    x := Max(r.begin, page);
    StepDown(page + PAGE_SIZE, RoundBegin(hp, r));
    StepDown(page, RoundEnd(r));
    SamePageBy(x, page, pa);
  }

  lemma SamePageBy(x: nat, page: nat, pa: nat)
    requires OnPage(page) && page <= x < page + PAGE_SIZE && page <= pa < page + PAGE_SIZE
    ensures AlignDown(x, PAGE_SIZE) == AlignDown(pa, PAGE_SIZE) == page
  {
    DivModRebuild(page, PAGE_SIZE);
    DivModUnique(x, PAGE_SIZE, page / PAGE_SIZE, x - page);
    DivModUnique(pa, PAGE_SIZE, page / PAGE_SIZE, pa - page);
  }

  lemma ByteRounds(hp: nat, r: Run, x: nat, pa: nat)
    requires HugeSize(hp) && hp <= pa && r.Covers(x) && AlignDown(x, PAGE_SIZE) == AlignDown(pa, PAGE_SIZE)
    ensures InRounded(hp, r, pa)
  {
    hide AlignDown, AlignUp, OnPage;
    RoundFacts(hp, r);
    PageDown(pa);
    PageDown(x);
    StepDown(AlignDown(pa, PAGE_SIZE), hp);
    StepDown(AlignDown(pa, PAGE_SIZE), RoundBegin(hp, r));
    StepDown(AlignDown(pa, PAGE_SIZE), RoundEnd(r));
  }

  // ----- Page-aligned RAM -----

  ghost predicate AlignedRam(v: seq<Entry>) {
    forall i: nat :: i < |v| && IsRamType(v[i].kind) ==> OnPage(v[i].base) && OnPage(v[i].size)
  }

  ghost predicate RunsOnPages(rs: seq<Run>) {
    forall i: nat :: i < |rs| ==> OnPage(rs[i].begin) && OnPage(rs[i].end)
  }

  lemma OnPageSum(a: nat, b: nat)
    requires OnPage(a) && OnPage(b)
    ensures OnPage(a + b)
  {
  }

  lemma {:induction false} RunsAligned(v: seq<Entry>)
    requires AlignedRam(v)
    ensures RunsOnPages(Runs(v))
  {
    if v == [] {
      assert OnPage(0);
    } else {
      hide OnPage;
      var n := |v| - 1;
      RunsAligned(v[..n]);
      VisitAligned(Fold(v[..n]), v[n]);
    }
  }

  lemma VisitAligned(s: Folded, e: Entry)
    requires RunsOnPages(s.All())
    requires IsRamType(e.kind) ==> OnPage(e.base) && OnPage(e.size)
    ensures RunsOnPages(Visit(s, e).All())
  {
    hide OnPage;
    assert s.All()[|s.flushed|] == s.pending;
    if IsRamType(e.kind) {
      OnPageSum(e.base, e.size);
      var t := Visit(s, e);
      forall i: nat | i < |t.All()| ensures OnPage(t.All()[i].begin) && OnPage(t.All()[i].end) {
        if i < |s.flushed| { assert t.All()[i] == s.All()[i]; }
      }
    }
  }

  lemma RoundAligned(hp: nat, r: Run, pa: nat)
    requires HugeSize(hp) && OnPage(r.begin) && OnPage(r.end) && hp <= pa
    ensures RoundBegin(hp, r) == Max(r.begin, hp) && RoundEnd(r) == r.end
    ensures InRounded(hp, r, pa) <==> r.Covers(pa)
  {
    AlignFacts(Max(r.begin, hp), PAGE_SIZE);
    AlignFacts(r.end, PAGE_SIZE);
  }

  /** The huge interior of a maximal run is exactly the huge pages that are RAM throughout. */
  lemma CutRun(hp: nat, v: seq<Entry>, r: Run, pa: nat)
    requires HugeSize(hp) && OnPage(r.begin) && OnPage(r.end) && hp <= pa && r.Covers(pa)
    requires forall x: nat :: r.Covers(x) ==> Ram(v, x)
    requires (r.begin == 0 || !Ram(v, r.begin - 1)) && !Ram(v, r.end)
    ensures InHuge(hp, r, pa) <==> AllRam(hp, v, pa)
  {
    hide Ram, OnPage;
    RoundAligned(hp, r, pa);
    var begin, end := Max(r.begin, hp), r.end;
    AlignFacts(begin, hp);
    AlignFacts(end, hp);
    AlignFacts(pa, hp);
    DivModUnique(hp, hp, 1, 0);
    var h := AlignDown(pa, hp);
    MultiplesStep(AlignUp(begin, hp), h, hp);
    MultiplesStep(AlignDown(end, hp), h, hp);
    MultiplesStep(hp, h, hp);
    hide AlignDown, AlignUp;
    if h < begin {
      assert h <= r.begin - 1 < h + hp;
    } else if h + hp > end {
      assert h <= end < h + hp;
    } else {
      assert forall x: nat :: h <= x < h + hp ==> r.Covers(x);
    }
  }

  lemma {:induction false} MappedOnly(hp: nat, rs: seq<Run>, i: nat, pa: nat)
    requires HugeSize(hp) && i < |rs| && InRounded(hp, rs[i], pa)
    requires forall j: nat :: j < |rs| && j != i ==> !InRounded(hp, rs[j], pa)
    ensures LevelAt(Mapped(hp, rs), pa) == Some(if InHuge(hp, rs[i], pa) then 1 else 0)
    decreases |rs|
  {
    hide InRounded, InHuge, Pieces, LevelAt;
    var n := |rs| - 1;
    LevelConcat(Mapped(hp, rs[..n]), Pieces(hp, rs[n]), pa);
    PiecesLevel(hp, rs[n], pa);
    HugeInRounded(hp, rs[n], pa);
    if i < n { MappedOnly(hp, rs[..n], i, pa); }
  }

  /** Around a run that is one of runs with gaps between them, there is no RAM. */
  lemma RunIsMaximal(v: seq<Entry>, rs: seq<Run>, i: nat)
    requires Apart(rs) && (forall pa: nat :: Ram(v, pa) <==> InRuns(rs, pa)) && i < |rs| && rs[i].begin < rs[i].end
    ensures forall x: nat :: rs[i].Covers(x) ==> Ram(v, x)
    ensures (rs[i].begin == 0 || !Ram(v, rs[i].begin - 1)) && !Ram(v, rs[i].end)
  {
    hide Ram;
    forall x: nat | rs[i].Covers(x) ensures Ram(v, x) { assert InRuns(rs, x); }
    forall j: nat | j < |rs| ensures !rs[j].Covers(rs[i].end) && (rs[i].begin > 0 ==> !rs[j].Covers(rs[i].begin - 1)) {}
    assert !InRuns(rs, rs[i].end);
    assert rs[i].begin > 0 ==> !InRuns(rs, rs[i].begin - 1);
  }

  /**
   With page-aligned RAM in order, what is mapped above the first huge page is exactly the RAM, huge exactly
   where all of the huge page is RAM, and no huge page is ever in the way.
   */
  lemma AlignedLevels(hp: nat, v: seq<Entry>, pa: nat)
    requires HugeSize(hp) && OrderedRam(v) && AlignedRam(v) && hp <= pa
    ensures LevelAt(Mapped(hp, Runs(v)), pa) == if Ram(v, pa) then Some(if AllRam(hp, v, pa) then 1 else 0) else None
  {
    hide Ram, AllRam, Mapped, LevelAt, Fold, OnPage, InRounded, InHuge;
    var rs := Runs(v);
    FoldRuns(v);
    RunsAligned(v);
    MappedLevel(hp, rs, pa);
    forall i: nat | i < |rs| ensures InRounded(hp, rs[i], pa) <==> rs[i].Covers(pa) { RoundAligned(hp, rs[i], pa); }
    if Ram(v, pa) {
      assert InRuns(rs, pa);
      var i: nat :| i < |rs| && rs[i].Covers(pa);
      MappedOnly(hp, rs, i, pa);
      RunIsMaximal(v, rs, i);
      CutRun(hp, v, rs[i], pa);
    } else {
      assert !InRuns(rs, pa);
    }
  }

  lemma AlignedNoClash(hp: nat, v: seq<Entry>, limit: nat)
    requires HugeSize(hp) && OrderedRam(v) && AlignedRam(v)
    ensures !AnyClash(hp, Runs(v), limit)
  {
    hide AnyClash, InHuge, Fold, RoundBegin;
    var rs := Runs(v);
    FoldRuns(v);
    RunsAligned(v);
    ClashIff(hp, rs, limit);
    forall i: nat | i + 1 < |rs|
      ensures !SharedHuge(hp, rs[i], rs[i + 1], limit)
    {
      AlignFacts(rs[i].end, PAGE_SIZE);
      AlignFacts(rs[i + 1].begin, PAGE_SIZE);
    }
  }

  // ----- Unaligned memory -----

  const MIB: nat := 0x10_0000

  /** Two ACPI ranges that end and start in one page, below and above a reserved gap. */
  function UnalignedMap(): seq<Entry> {
    [Entry(0, 0x3FF000, FREE), Entry(0x3FF000, 0x800, ACPI_RECLAIMABLE), Entry(0x3FF800, 0x400, RESERVED),
     Entry(0x3FFC00, 0x1400, ACPI_NVS)]
  }

  lemma UnalignedRuns()
    ensures Runs(UnalignedMap()) == [Run(0, 0x3FF800)] + [Run(0x3FFC00, 0x401000)]
  {
    hide Fold;
    var v := UnalignedMap();
    FoldFour(v[0], v[1], v[2], v[3]);
    assert v == [v[0]] + [v[1]] + [v[2]] + [v[3]];
  }

  lemma UnalignedPage(limit: nat)
    requires limit > 0x3FF000
    ensures HugeSize(2 * MIB) && SharedHuge(2 * MIB, Run(0, 0x3FF800), Run(0x3FFC00, 0x401000), limit)
  {
  }

  /** The free range is page aligned, and yet the page of the gap is mapped small inside a huge page. */
  lemma UnalignedExample(limit: nat)
    requires limit > 0x3FF000
    ensures Ordered(UnalignedMap()) && AnyClash(2 * MIB, Runs(UnalignedMap()), limit)
  {
    hide Fold, RunClash, SharedHuge, HugeSize;
    var a, b := Run(0, 0x3FF800), Run(0x3FFC00, 0x401000);
    UnalignedRuns();
    UnalignedPage(limit);
    SharedClashes(2 * MIB, [], a, b, limit);
    assert ([a] + [b])[..1] == [] + [a];
  }

  lemma FoldFour(a: Entry, b: Entry, c: Entry, d: Entry)
    ensures Fold([a] + [b] + [c] + [d]) == Visit(Visit(Visit(Visit(Folded([], Run(0, 0)), a), b), c), d)
  {
    hide Visit;
    FoldSnoc([], a);
    assert [] + [a] == [a];
    FoldSnoc([a], b);
    FoldSnoc([a] + [b], c);
    FoldSnoc([a] + [b] + [c], d);
  }
}
