/**
 The BIOS page allocator (loader/arch/x86/bios/bios_memory_services.c): a memory map edited in
 place by every allocation and free.
 */
module BiosAllocator {
  import opened Arith
  import opened MemoryMap
  import opened MemoryFixup

  // ----- Building canonical maps -----

  lemma CanonicalSlice(s: seq<Entry>, lo: nat, hi: nat)
    requires Canonical(s) && lo <= hi <= |s|
    ensures Canonical(s[lo..hi])
  {
    forall i | 0 <= i < hi - lo - 1
      ensures !Mergeable(s[lo..hi][i], s[lo..hi][i + 1])
    {
      assert !Mergeable(s[lo + i], s[lo + i + 1]);
    }
  }

  /** Two canonical maps can be joined when the seam is in order and does not merge. */
  ghost predicate SeamOk(s: seq<Entry>, t: seq<Entry>) {
    s != [] && t != [] ==> s[|s| - 1].End() <= t[0].base && !Mergeable(s[|s| - 1], t[0])
  }

  lemma OrderedEnds(s: seq<Entry>, i: nat)
    requires Ordered(s) && i < |s|
    ensures s[i].End() <= s[|s| - 1].End()
  {
    if i < |s| - 1 { assert s[i].End() <= s[|s| - 1].base; }
  }

  lemma OrderedBases(s: seq<Entry>, i: nat)
    requires Ordered(s) && i < |s|
    ensures s[0].base <= s[i].base
  {
    if i > 0 { assert s[0].End() <= s[i].base; }
  }

  lemma OrderedJoin(s: seq<Entry>, t: seq<Entry>)
    requires Ordered(s) && Ordered(t)
    requires s != [] && t != [] ==> s[|s| - 1].End() <= t[0].base
    ensures Ordered(s + t)
  {
    var u := s + t;
    forall i, j | 0 <= i < j < |u|
      ensures u[i].End() <= u[j].base
    {
      if i < |s| <= j {
        OrderedEnds(s, i);
        OrderedBases(t, j - |s|);
      }
    }
  }

  lemma CanonicalJoin(s: seq<Entry>, t: seq<Entry>)
    requires Canonical(s) && Canonical(t) && SeamOk(s, t)
    ensures Canonical(s + t)
  {
    var u := s + t;
    OrderedJoin(s, t);
    forall i | 0 <= i < |u| - 1
      ensures !Mergeable(u[i], u[i + 1])
    {
      if i >= |s| { assert !Mergeable(t[i - |s|], t[i - |s| + 1]); }
    }
  }

  // ----- Carving a range out of an entry -----

  /** The range lies inside the entry and would change its type. */
  predicate CanCarve(me: Entry, new_: Entry) {
    new_.size > 0 && me.base <= new_.base && new_.End() <= me.End() && me.kind != new_.kind
  }

  function RangeBefore(me: Entry, new_: Entry): Entry
    requires me.base <= new_.base
  {
    Entry(me.base, new_.base - me.base, me.kind)
  }

  function RangeAfter(me: Entry, new_: Entry): Entry
    requires new_.End() <= me.End()
  {
    Entry(new_.End(), me.End() - new_.End(), me.kind)
  }

  /** Bytes that fall out of the map: a free remainder shorter than a page. */
  predicate Lost(me: Entry, new_: Entry, a: nat)
    requires CanCarve(me, new_)
  {
    || (RangeBefore(me, new_).Covers(a) && !RangeBefore(me, new_).IsValid())
    || (RangeAfter(me, new_).Covers(a) && !RangeAfter(me, new_).IsValid())
  }

  function Pieces(me: Entry, new_: Entry): seq<Entry>
    requires CanCarve(me, new_)
  {
    IfValid(RangeBefore(me, new_)) + [new_] + IfValid(RangeAfter(me, new_))
  }

  function CarvedType(me: Entry, new_: Entry, a: nat, before: Option<nat>): Option<nat>
    requires CanCarve(me, new_)
  {
    if new_.Covers(a) then Some(new_.kind) else if Lost(me, new_, a) then None else before
  }

  /** The map after carving, still uncompressed where `new_` now touches its neighbours. */
  function Raw(s: seq<Entry>, idx: nat, new_: Entry): seq<Entry>
    requires idx < |s| && CanCarve(s[idx], new_)
  {
    s[..idx] + Pieces(s[idx], new_) + s[idx + 1..]
  }

  lemma TypeAtIfValid(e: Entry, a: nat)
    ensures TypeAt(IfValid(e), a) == if e.Covers(a) && e.IsValid() then Some(e.kind) else None
  {
    if e.IsValid() { TypeAtOne(e, a); }
  }

  lemma PiecesMeaning(me: Entry, new_: Entry, a: nat)
    requires CanCarve(me, new_)
    ensures Canonical(Pieces(me, new_))
    ensures TypeAt(Pieces(me, new_), a) == CarvedType(me, new_, a, if me.Covers(a) then Some(me.kind) else None)
  {
    var before, after := RangeBefore(me, new_), RangeAfter(me, new_);
    TypeAtIfValid(before, a);
    TypeAtIfValid(after, a);
    TypeAtAppend(IfValid(before), new_, a);
    TypeAtConcat(IfValid(before) + [new_], IfValid(after), a);
  }

  lemma RawMeaning(s: seq<Entry>, idx: nat, new_: Entry, a: nat)
    requires Ordered(s) && idx < |s| && CanCarve(s[idx], new_)
    ensures TypeAt(Raw(s, idx, new_), a) == CarvedType(s[idx], new_, a, TypeAt(s, a))
  {
    var pre, me, post := s[..idx], s[idx], s[idx + 1..];
    assert s == pre + [me] + post;
    PiecesMeaning(me, new_, a);
    TypeAtConcat(pre, Pieces(me, new_), a);
    TypeAtConcat(pre + Pieces(me, new_), post, a);
    TypeAtAppend(pre, me, a);
    TypeAtConcat(pre + [me], post, a);
    if me.Covers(a) {
      TypeAtNone(pre, a);
      TypeAtNone(post, a);
    }
  }

  lemma RawOrdered(s: seq<Entry>, idx: nat, new_: Entry)
    requires Ordered(s) && idx < |s| && CanCarve(s[idx], new_)
    ensures Ordered(Raw(s, idx, new_))
  {
    PiecesMeaning(s[idx], new_, 0);
    OrderedJoin(s[..idx], Pieces(s[idx], new_));
    OrderedJoin(s[..idx] + Pieces(s[idx], new_), s[idx + 1..]);
  }

  /** `before` is kept: nothing merges on the left, and on the right only when `new_` ends the entry. */
  lemma CarveWithBefore(s: seq<Entry>, idx: nat, new_: Entry)
    requires Canonical(s) && idx < |s| && CanCarve(s[idx], new_)
    requires RangeBefore(s[idx], new_).IsValid()
    requires idx + 1 < |s| && !RangeAfter(s[idx], new_).IsValid() ==> !Mergeable(new_, s[idx + 1])
    ensures Canonical(Raw(s, idx, new_))
  {
    hide TypeAt, CarvedType;
    var pre, mid, post := s[..idx], Pieces(s[idx], new_), s[idx + 1..];
    PiecesMeaning(s[idx], new_, 0);
    CanonicalSlice(s, 0, idx);
    CanonicalSlice(s, idx + 1, |s|);
    assert s[0..idx] == pre && s[idx + 1..|s|] == post;
    assert SeamOk(pre, mid) by { if idx > 0 { assert !Mergeable(s[idx - 1], s[idx]); } }
    CanonicalJoin(pre, mid);
    assert SeamOk(pre + mid, post) by { if post != [] { assert !Mergeable(s[idx], s[idx + 1]); } }
    CanonicalJoin(pre + mid, post);
  }

  function Joined(a: Entry, b: Entry): Entry {
    Entry(a.base, b.size + a.size, b.kind)
  }

  /** The shortcut: `new_` ends the entry and merges with the next one. */
  function RawMerged(s: seq<Entry>, idx: nat, new_: Entry): seq<Entry>
    requires idx + 1 < |s| && CanCarve(s[idx], new_)
  {
    s[..idx] + [RangeBefore(s[idx], new_), Joined(new_, s[idx + 1])] + s[idx + 2..]
  }

  lemma CarveMerged(s: seq<Entry>, idx: nat, new_: Entry)
    requires Canonical(s) && idx + 1 < |s| && CanCarve(s[idx], new_)
    requires RangeBefore(s[idx], new_).IsValid() && !RangeAfter(s[idx], new_).IsValid() && Mergeable(new_, s[idx + 1])
    ensures Canonical(RawMerged(s, idx, new_))
    ensures SameMeaning(RawMerged(s, idx, new_), Raw(s, idx, new_))
  {
    var pre, mid, post := s[..idx], [RangeBefore(s[idx], new_), Joined(new_, s[idx + 1])], s[idx + 2..];
    assert s[0..idx] == pre && s[idx + 2..|s|] == post;
    CanonicalSlice(s, 0, idx);
    CanonicalSlice(s, idx + 2, |s|);
    assert SeamOk(pre, mid) by { if idx > 0 { assert !Mergeable(s[idx - 1], s[idx]); } }
    CanonicalJoin(pre, mid);
    assert SeamOk(pre + mid, post) by { if post != [] { assert !Mergeable(s[idx + 1], s[idx + 2]); } }
    CanonicalJoin(pre + mid, post);
    forall a
      ensures TypeAt(RawMerged(s, idx, new_), a) == TypeAt(Raw(s, idx, new_), a)
    {
      MergedMeaning(s, idx, new_, a);
    }
  }

  lemma MergedMeaning(s: seq<Entry>, idx: nat, new_: Entry, a: nat)
    requires idx + 1 < |s| && CanCarve(s[idx], new_)
    requires RangeBefore(s[idx], new_).IsValid() && !RangeAfter(s[idx], new_).IsValid() && Mergeable(new_, s[idx + 1])
    ensures TypeAt(RawMerged(s, idx, new_), a) == TypeAt(Raw(s, idx, new_), a)
  {
    var pre, before, next, post := s[..idx], RangeBefore(s[idx], new_), s[idx + 1], s[idx + 2..];
    var head := pre + [before];
    assert RawMerged(s, idx, new_) == head + [Joined(new_, next)] + post;
    assert Raw(s, idx, new_) == head + [new_] + [next] + post;
    TypeAtAppend(head, Joined(new_, next), a);
    TypeAtAppend(head, new_, a);
    TypeAtAppend(head + [new_], next, a);
    TypeAtConcat(head + [Joined(new_, next)], post, a);
    TypeAtConcat(head + [new_] + [next], post, a);
  }

  /** Compressing only a suffix is enough when the part before it was compressed already. */
  lemma CompactSuffix(mask: Mask, u: seq<Entry>, m: nat)
    requires ValidMask(mask) && Ordered(u) && AllKnown(mask, u) && m < |u|
    requires Canonical(u[..m]) && (m > 0 ==> !Mergeable(u[m - 1], u[m]))
    ensures Canonical(u[..m] + Compacted(mask, u[m..]))
    ensures SameMeaning(u[..m] + Compacted(mask, u[m..]), u)
  {
    hide ResolveKind, ValidMask, Compacted, AllKnown;
    var t := u[m..];
    assert AllKnown(mask, t) by { KnownSlice(mask, u, m); }
    CompactedKnown(mask, t);
    assert u == u[..m] + t;
    CanonicalJoin(u[..m], Compacted(mask, t));
    forall a
      ensures TypeAt(u[..m] + Compacted(mask, t), a) == TypeAt(u, a)
    {
      TypeAtConcat(u[..m], Compacted(mask, t), a);
      TypeAtConcat(u[..m], t, a);
    }
  }

  lemma KnownSlice(mask: Mask, u: seq<Entry>, m: nat)
    requires AllKnown(mask, u) && m <= |u|
    ensures AllKnown(mask, u[m..])
  {
  }

  /** With every type known, compaction only merges. */
  lemma CompactedKnown(mask: Mask, t: seq<Entry>)
    requires ValidMask(mask) && Ordered(t) && AllKnown(mask, t) && t != []
    ensures Canonical(Compacted(mask, t)) && SameMeaning(Compacted(mask, t), t)
    ensures Compacted(mask, t)[0].base == t[0].base && Compacted(mask, t)[0].kind == t[0].kind
  {
    hide ResolveKind, ValidMask;
    var c := Compacted(mask, t);
    CompactedMeaning(mask, t);
    assert ResolveLast(mask, c) == c;
    forall a
      ensures TypeAt(c, a) == TypeAt(t, a)
    {
      KnownMeaning(mask, t, a);
    }
    assert c[0].Covers(c[0].base) && t[0].Covers(t[0].base);
    assert TypeAt(c, c[0].base) == TypeAt(t, c[0].base);
  }

  lemma {:induction false} KnownMeaning(mask: Mask, s: seq<Entry>, a: nat)
    requires AllKnown(mask, s)
    ensures ResolveType(mask, TypeAt(s, a)) == TypeAt(s, a)
  {
    if s != [] && !s[0].Covers(a) {
      assert s[1..] != [] ==> AllKnown(mask, s[1..]);
      KnownMeaning(mask, s[1..], a);
    }
  }

  lemma KnownFromMeaning(mask: Mask, s: seq<Entry>)
    requires Ordered(s)
    requires forall a :: ResolveType(mask, TypeAt(s, a)) == TypeAt(s, a)
    ensures AllKnown(mask, s)
  {
    forall i | 0 <= i < |s|
      ensures ResolveKind(mask, s[i].kind) == s[i].kind
    {
      TypeAtIndex(s, i, s[i].base);
      assert ResolveType(mask, TypeAt(s, s[i].base)) == TypeAt(s, s[i].base);
    }
  }

  // ----- The allocator -----

  /** The result of carving `new_` out of entry `idx`: canonical, with exactly the types changed that must be. */
  ghost predicate CarvedOut(s: seq<Entry>, s': seq<Entry>, idx: nat, new_: Entry) {
    && idx < |s| && CanCarve(s[idx], new_)
    && Canonical(s')
    && (forall a :: TypeAt(s', a) == CarvedType(s[idx], new_, a, TypeAt(s, a)))
  }

  lemma RawByInserts(s: seq<Entry>, idx: nat, new_: Entry)
    requires idx < |s| && CanCarve(s[idx], new_)
    ensures var before, after := RangeBefore(s[idx], new_), RangeAfter(s[idx], new_);
            Raw(s, idx, new_)
            == if before.IsValid() then
                 (var t := Inserted(s[idx := before], new_, idx + 1);
                  if after.IsValid() then Inserted(t, after, idx + 2) else t)
               else if after.IsValid() then Inserted(s[idx := new_], after, idx + 1)
               else s[idx := new_]
  {
  }

  /** A canonical map with the meaning of `Raw` is a correct carving, and brings no unknown type. */
  lemma CarvingDone(mask: Mask, s: seq<Entry>, s': seq<Entry>, idx: nat, new_: Entry)
    requires Canonical(s) && AllKnown(mask, s) && idx < |s| && CanCarve(s[idx], new_)
    requires ResolveKind(mask, new_.kind) == new_.kind
    requires Canonical(s') && SameMeaning(s', Raw(s, idx, new_))
    ensures CarvedOut(s, s', idx, new_) && AllKnown(mask, s')
  {
    hide ResolveKind, Raw, CanCarve, Lost;
    forall a
      ensures TypeAt(s', a) == CarvedType(s[idx], new_, a, TypeAt(s, a))
      ensures ResolveType(mask, TypeAt(s', a)) == TypeAt(s', a)
    {
      RawMeaning(s, idx, new_, a);
      KnownMeaning(mask, s, a);
    }
    KnownFromMeaning(mask, s');
  }

  lemma RawKnown(mask: Mask, s: seq<Entry>, idx: nat, new_: Entry)
    requires AllKnown(mask, s) && idx < |s| && CanCarve(s[idx], new_)
    requires ResolveKind(mask, new_.kind) == new_.kind
    ensures AllKnown(mask, Raw(s, idx, new_))
  {
    hide ResolveKind;
  }

  /** The entry that starts the suffix to compress. */
  function SuffixStart(idx: nat): nat {
    if idx > 0 then idx - 1 else 0
  }

  /** `new_` starts the entry: only the suffix from the previous entry on can need compression. */
  lemma CarveFromStart(mask: Mask, s: seq<Entry>, idx: nat, new_: Entry)
    requires ValidMask(mask) && Canonical(s) && AllKnown(mask, s) && idx < |s| && CanCarve(s[idx], new_)
    requires ResolveKind(mask, new_.kind) == new_.kind
    requires !RangeBefore(s[idx], new_).IsValid()
    ensures SuffixStart(idx) < |Raw(s, idx, new_)| && Ordered(Raw(s, idx, new_))
    ensures var u := Raw(s, idx, new_);
            var s' := u[..SuffixStart(idx)] + Compacted(mask, u[SuffixStart(idx)..]);
            Canonical(s') && SameMeaning(s', u)
  {
    hide ResolveKind, ValidMask, Compacted;
    var u, m := Raw(s, idx, new_), SuffixStart(idx);
    RawOrdered(s, idx, new_);
    RawKnown(mask, s, idx, new_);
    assert u[..m] == s[0..m];
    CanonicalSlice(s, 0, m);
    assert m > 0 ==> u[m - 1] == s[m - 1] && u[m] == s[m];
    CompactSuffix(mask, u, m);
  }

  /** The carved range touches a later entry of its own type, with nothing left in between. */
  predicate MergesAfter(s: seq<Entry>, idx: nat, new_: Entry)
    requires idx < |s| && CanCarve(s[idx], new_)
  {
    && idx + 1 < |s| && !RangeAfter(s[idx], new_).IsValid()
    && s[idx + 1].kind == new_.kind && new_.End() == s[idx + 1].base
  }

  /** Free slots a carving needs while it is under way. */
  function Slots(s: seq<Entry>, idx: nat, new_: Entry): nat
    requires idx < |s| && CanCarve(s[idx], new_)
  {
    var after := if RangeAfter(s[idx], new_).IsValid() then 1 else 0;
    if !RangeBefore(s[idx], new_).IsValid() then after
    else if MergesAfter(s, idx, new_) then 0
    else 1 + after
  }

  /** The buffer has the slots to carve `new_` out of the entry it lies in. */
  ghost predicate Room(s: seq<Entry>, capacity: nat, new_: Entry) {
    forall idx: nat :: idx < |s| && CanCarve(s[idx], new_) ==> |s| + Slots(s, idx, new_) <= capacity
  }

  /** A range lies in one entry at most. */
  lemma RoomAt(s: seq<Entry>, capacity: nat, idx: nat, new_: Entry)
    requires Ordered(s) && idx < |s| && CanCarve(s[idx], new_)
    ensures Room(s, capacity, new_) <==> |s| + Slots(s, idx, new_) <= capacity
    ensures |s| + 2 <= capacity ==> Room(s, capacity, new_)
  {
    hide Slots;
    forall i: nat | i < |s| && CanCarve(s[i], new_) ensures i == idx {}
    assert Slots(s, idx, new_) <= 2 by { SlotsBound(s, idx, new_); }
  }

  lemma SlotsBound(s: seq<Entry>, idx: nat, new_: Entry)
    requires idx < |s| && CanCarve(s[idx], new_)
    ensures Slots(s, idx, new_) <= 2
  {
  }

  class BiosMemory {
    /** The known-type mask. */
    const mask: Mask
    const entries: array<Entry>
    var count: nat

    ghost function Contents(): seq<Entry>
      reads this, entries
      requires count <= entries.Length
    {
      entries[..count]
    }

    function Known(): Mask {
      FixupMask(mask, true)
    }

    ghost predicate Valid()
      reads this, entries
    {
      && count <= entries.Length
      && ValidMask(mask)
      && Canonical(Contents())
      && AllKnown(Known(), Contents())
    }

    /** `mme_emplace_at`; `false` when the buffer is full, which halts the loader. */
    method EmplaceAt(idx: nat, e: Entry) returns (ok: bool)
      requires count <= entries.Length && idx <= count
      modifies this`count, entries
      ensures ok ==> count == old(count) + 1 <= entries.Length && Contents() == Inserted(old(Contents()), e, idx)
      ensures !ok <==> old(count) == entries.Length
      ensures !ok ==> count == old(count) && entries[..] == old(entries[..])
    {
      if count >= entries.Length {
        return false;
      }
      Insert(entries, e, idx, count);
      count := count + 1;
      ok := true;
    }

    /** The suffix-only `mm_fixup` at the end of `allocate_out_of`. */
    method CompressFrom(m: nat)
      requires m < count <= entries.Length && InOrder(Contents())
      modifies this`count, entries
      ensures count <= old(count) <= entries.Length
      ensures Contents() == old(Contents()[..m]) + Compacted(Known(), old(Contents()[m..]))
    {
      hide Compacted;
      ghost var s := Contents();
      assert entries[m..count] == s[m..];
      var n := DoFixup(entries, m, count, Known());
      count := m + n;
      assert entries[..count] == entries[..m] + entries[m..m + n];
      assert entries[..m] == s[..m];
    }

    /** `allocate_out_of` with a valid range before the new one. */
    method CarveKeepingBefore(idx: nat, new_: Entry) returns (ok: bool)
      requires Valid() && idx < count && CanCarve(entries[idx], new_)
      requires ResolveKind(Known(), new_.kind) == new_.kind
      requires RangeBefore(entries[idx], new_).IsValid()
      modifies this`count, entries
      ensures count <= entries.Length && count <= old(count) + 2
      ensures ok <==> old(count) + Slots(old(Contents()), idx, new_) <= entries.Length
      ensures ok ==> Canonical(Contents()) && SameMeaning(Contents(), Raw(old(Contents()), idx, new_))
    {
      hide ResolveKind, AllKnown, Canonical, SameMeaning;
      ghost var s := Contents();
      var me := entries[idx];
      var after := RangeAfter(me, new_);
      RawByInserts(s, idx, new_);
      entries[idx] := RangeBefore(me, new_);
      assert Contents() == s[idx := RangeBefore(me, new_)];
      if
        idx != count - 1 && !after.IsValid()
        && entries[idx + 1].kind == new_.kind && new_.End() == entries[idx + 1].base
      {
        CarveMerged(s, idx, new_);
        entries[idx + 1] := Joined(new_, entries[idx + 1]);
        assert Contents() == RawMerged(s, idx, new_);
        ok := true;
        return;
      }
      CarveWithBefore(s, idx, new_);
      SameMeaningRefl(Raw(s, idx, new_));
      ok := EmplaceAt(idx + 1, new_);
      if ok && after.IsValid() {
        ok := EmplaceAt(idx + 2, after);
      }
    }

    /** `allocate_out_of` with nothing left before the new range. */
    method CarveAtStart(idx: nat, new_: Entry) returns (ok: bool)
      requires Valid() && idx < count && CanCarve(entries[idx], new_)
      requires ResolveKind(Known(), new_.kind) == new_.kind
      requires !RangeBefore(entries[idx], new_).IsValid()
      modifies this`count, entries
      ensures count <= entries.Length && count <= old(count) + 2
      ensures ok <==> old(count) + Slots(old(Contents()), idx, new_) <= entries.Length
      ensures ok ==> Canonical(Contents()) && SameMeaning(Contents(), Raw(old(Contents()), idx, new_))
    {
      hide ResolveKind, AllKnown, Canonical, SameMeaning, Compacted;
      ghost var s := Contents();
      var after := RangeAfter(entries[idx], new_);
      RawByInserts(s, idx, new_);
      CarveFromStart(Known(), s, idx, new_);
      entries[idx] := new_;
      assert Contents() == s[idx := new_];
      if after.IsValid() {
        ok := EmplaceAt(idx + 1, after);
        if !ok {
          return;
        }
      }
      assert Contents() == Raw(s, idx, new_);
      CompressFrom(SuffixStart(idx));
      ok := true;
    }

    /**
     `allocate_out_of`: `false` stands for a halt, on a range that does not fit the entry or
     does not change its type, or when the buffer is full.
     */
    method AllocateOutOf(idx: nat, new_: Entry) returns (ok: bool)
      requires Valid() && idx < count && new_.size > 0
      requires ResolveKind(Known(), new_.kind) == new_.kind
      modifies this`count, entries
      ensures ok ==> Valid() && CarvedOut(old(Contents()), Contents(), idx, new_)
      ensures ok <==> CanCarve(old(entries[idx]), new_) && Room(old(Contents()), entries.Length, new_)
      ensures count <= old(count) + 2
    {
      if !CanCarve(entries[idx], new_) {
        return false;
      }
      RoomAt(Contents(), entries.Length, idx, new_);
      if RangeBefore(entries[idx], new_).IsValid() {
        ok := CarveKeepingBefore(idx, new_);
      } else {
        ok := CarveAtStart(idx, new_);
      }
      if ok {
        CarvingDone(Known(), old(Contents()), Contents(), idx, new_);
      }
    }

    /** The search loop of `allocate_top_down`: the last entry that can hold the window below the limit, or -1. */
    method FindBelow(bytes: nat, limit: nat) returns (r: int)
      requires Valid() && bytes > 0
      ensures -1 <= r < count
      ensures r < 0 ==> forall a: nat :: !FreeWindow(Contents(), a, bytes, 0, limit)
      ensures r >= 0 ==> FitsBelow(entries[r], bytes, limit)
      ensures r >= 0 ==> forall a: nat :: FreeWindow(Contents(), a, bytes, 0, limit) ==>
                a <= Min(entries[r].End(), limit) - bytes
    {
      hide AllKnown, TypeAt;
      ghost var s := Contents();
      var i := count;
      while i > 0
        invariant 0 <= i <= count
        invariant forall k :: i <= k < count ==> !FitsBelow(s[k], bytes, limit)
      {
        i := i - 1;
        if FitsBelow(entries[i], bytes, limit) {
          HighestWindow(s, i, bytes, limit);
          return i;
        }
      }
      NoWindowBelow(s, bytes, limit);
      r := -1;
    }

    /** The search of `allocate_within`: the first entry that can hold the window between the limits, or -1. */
    method FindWithin(bytes: nat, lower: nat, upper: nat) returns (r: int)
      requires Valid() && bytes > 0 && lower < upper
      ensures -1 <= r < count
      ensures r < 0 ==> forall a: nat :: !FreeWindow(Contents(), a, bytes, lower, upper)
      ensures r >= 0 ==> FitsWithin(entries[r], bytes, lower, upper)
      ensures r >= 0 ==> forall a: nat :: FreeWindow(Contents(), a, bytes, lower, upper) ==>
                Max(lower, entries[r].base) <= a
    {
      hide AllKnown, TypeAt;
      ghost var s := Contents();
      var idx := FindFirstThatContains(entries, count, lower, true);
      StartsSearch(s, lower, idx);
      if idx < 0 {
        NoWindowFrom(s, |s|, bytes, lower, upper);
        return -1;
      }
      while idx < count
        invariant 0 <= idx <= count
        invariant forall k :: 0 <= k < idx ==> !FitsWithin(s[k], bytes, lower, upper)
        invariant forall k :: idx <= k < count ==> lower < s[k].End()
      {
        var me := entries[idx];
        if me.base > upper {
          NothingLater(s, idx, bytes, lower, upper);
          return -1;
        }
        // The unsigned difference in the gap computation does not wrap.
        assert Min(me.End(), upper) >= Max(me.base, lower);
        if FitsWithin(me, bytes, lower, upper) {
          LowestWindow(s, idx, bytes, lower, upper);
          return idx;
        }
        if me.End() >= upper || upper - me.End() < bytes {
          NothingLater(s, idx, bytes, lower, upper);
          return -1;
        }
        idx := idx + 1;
      }
      NoWindowFrom(s, |s|, bytes, lower, upper);
      r := -1;
    }

    /**
     `allocate_top_down`: the highest all-free window below the limit is taken; with none, the map
     stays as it is. A byte count that fails the size check halts.
     */
    method AllocateTopDown(pageCount: nat, upperLimit: nat, kind: nat) returns (r: Outcome)
      requires Valid() && pageCount < TWO_32
      requires kind > TYPE_MAX && ResolveKind(Known(), kind) == kind
      modifies this`count, entries
      ensures ByteCount(pageCount) <= pageCount ==> r.Halted?
      ensures ByteCount(pageCount) > pageCount ==>
                (r.Halted? <==> NoRoomHighest(old(Contents()), entries.Length, ByteCount(pageCount), upperLimit, kind))
      ensures count <= old(count) + 2
      ensures r.Done? ==>
                Valid() && TakesHighest(old(Contents()), Contents(), ByteCount(pageCount), upperLimit, kind, r.address)
    {
      hide ResolveKind, AllKnown, Canonical, TypeAt, CarvedOut, AllOf;
      var bytes := ByteCount(pageCount);
      if bytes <= pageCount {
        return Halted;
      }
      var i := FindBelow(bytes, upperLimit);
      if i < 0 {
        NoneHighest(Contents(), entries.Length, bytes, upperLimit, kind);
        return Done(0);
      }
      var address := Min(entries[i].End(), upperLimit) - bytes;
      WindowInEntry(Contents(), i, address, bytes);
      assert FreeWindow(Contents(), address, bytes, 0, upperLimit);
      var ok := AllocateOutOf(i, Entry(address, bytes, kind));
      r := if ok then Done(address) else Halted;
    }

    /** `allocate_within`: the lowest all-free window between the limits is taken. */
    method AllocateWithin(pageCount: nat, lower: nat, upper: nat, kind: nat) returns (r: Outcome)
      requires Valid() && pageCount < TWO_32 && lower < TWO_64 && upper < TWO_64
      requires kind > TYPE_MAX && ResolveKind(Known(), kind) == kind
      modifies this`count, entries
      ensures ByteCount(pageCount) <= pageCount || lower + ByteCount(pageCount) > upper ==> r.Halted?
      ensures ByteCount(pageCount) > pageCount && lower + ByteCount(pageCount) <= upper ==>
                (r.Halted? <==> NoRoomLowest(old(Contents()), entries.Length, ByteCount(pageCount), lower, upper, kind))
      ensures r.Done? ==>
                Valid() && TakesLowest(old(Contents()), Contents(), ByteCount(pageCount), lower, upper, kind, r.address)
    {
      hide ResolveKind, AllKnown, Canonical, TypeAt, CarvedOut, AllOf;
      var bytes := ByteCount(pageCount);
      if bytes <= pageCount {
        return Halted;
      }
      if lower >= upper || (lower + bytes) % TWO_64 > upper || (lower + bytes) % TWO_64 < lower {
        return Halted;
      }
      var i := FindWithin(bytes, lower, upper);
      if i < 0 {
        NoneLowest(Contents(), entries.Length, bytes, lower, upper, kind);
        return Done(0);
      }
      var address := Max(lower, entries[i].base);
      WindowInEntry(Contents(), i, address, bytes);
      assert FreeWindow(Contents(), address, bytes, lower, upper);
      var ok := AllocateOutOf(i, Entry(address, bytes, kind));
      r := if ok then Done(address) else Halted;
    }

    /** `ms_allocate_pages`. */
    method AllocatePages(pageCount: nat, upperLimit: nat, kind: nat) returns (r: Outcome)
      requires Valid() && pageCount < TWO_32
      requires kind > TYPE_MAX ==> ResolveKind(Known(), kind) == kind
      modifies this`count, entries
      ensures kind <= 9 || ByteCount(pageCount) <= pageCount ==> r.Halted?
      ensures kind > 9 && ByteCount(pageCount) > pageCount ==>
                (r.Halted? <==> NoRoomHighest(old(Contents()), entries.Length, ByteCount(pageCount), upperLimit, kind))
      ensures count <= old(count) + 2
      ensures r.Done? ==>
                Valid() && TakesHighest(old(Contents()), Contents(), ByteCount(pageCount), upperLimit, kind, r.address)
    {
      if kind <= TYPE_MAX {
        return Halted;
      }
      r := AllocateTopDown(pageCount, upperLimit, kind);
    }

    /** `ms_allocate_pages_at`: succeeds exactly when every byte of the range is free. */
    method AllocatePagesAt(address: nat, pageCount: nat, kind: nat) returns (r: Outcome)
      requires Valid() && pageCount < TWO_32 && address < TWO_64
      requires kind > TYPE_MAX ==> ResolveKind(Known(), kind) == kind
      modifies this`count, entries
      ensures kind <= 9 || ByteCount(pageCount) <= pageCount || address + ByteCount(pageCount) >= TWO_64 ==>
                r.Halted?
      ensures kind > 9 && ByteCount(pageCount) > pageCount && address + ByteCount(pageCount) < TWO_64 ==>
                (r.Halted? <==> AllOf(old(Contents()), address, ByteCount(pageCount), FREE)
                                && !Room(old(Contents()), entries.Length, Entry(address, ByteCount(pageCount), kind)))
      ensures r.Done? ==>
                Valid() && TakesExactly(old(Contents()), Contents(), address, ByteCount(pageCount), kind, r.address)
    {
      hide ResolveKind, AllKnown, Canonical, TypeAt, CarvedOut, AllOf;
      if kind <= TYPE_MAX {
        return Halted;
      }
      r := AllocateWithin(pageCount, address, (address + ByteCount(pageCount)) % TWO_64, kind);
      if r.Done? {
        assert FreeWindow(old(Contents()), address, ByteCount(pageCount), address, address + ByteCount(pageCount))
           <==> AllOf(old(Contents()), address, ByteCount(pageCount), FREE);
      }
    }

    /** `allocate_out_of` with an empty free range at `address` inside entry `idx`; `kept` when it merged away again. */
    method CarveNothing(idx: nat, address: nat) returns (ok: bool, kept: bool)
      requires Valid() && Allotted(Contents(), idx, address)
      modifies this`count, entries
      ensures ok <==> old(count) + EmptySlots(old(entries[idx]), address) <= entries.Length
      ensures ok ==> count <= entries.Length && Contents() == EmptyFreed(old(Contents()), idx, address)
      ensures ok ==> (kept <==> Contents() == old(Contents()))
    {
      hide ResolveKind, AllKnown, Canonical, Compacted;
      ghost var s := Contents();
      var me, empty, before := entries[idx], Entry(address, 0, FREE), count;
      EmptyFreedLonger(s, idx, address);
      if me.base < address {
        entries[idx] := RangeBefore(me, empty);
        assert Contents() == s[idx := RangeBefore(me, empty)];
        ok := EmplaceAt(idx + 1, empty);
        if ok {
          ok := EmplaceAt(idx + 2, RangeAfter(me, empty));
        }
        SplitByInserts(s, idx, address);
        return ok, false;
      }
      entries[idx] := empty;
      assert Contents() == s[idx := empty];
      ok := EmplaceAt(idx + 1, RangeAfter(me, empty));
      if ok {
        EmptyCompacts(Known(), s, idx, address);
        CompressFrom(SuffixStart(idx));
      }
      kept := count == before;
    }

    /** `ms_free_pages` of no bytes: an empty free entry appears there, unless it merges into the entry before. */
    method FreeNothing(address: nat) returns (r: FreeResult)
      requires Valid()
      modifies this`count, entries
      ensures r.NotFreed? <==> !EmptyFree(old(Contents()), address, entries.Length)
      ensures r.Emptied? <==> !r.NotFreed? && LeavesEmpty(old(Contents()), address)
      ensures !r.NotFreed? ==> count <= entries.Length
      ensures !r.NotFreed? ==> forall idx: nat :: Allotted(old(Contents()), idx, address) ==>
                               Contents() == EmptyFreed(old(Contents()), idx, address)
      ensures r.Freed? ==> Valid() && Contents() == old(Contents())
    {
      hide EmptyFreed, AllKnown;
      ghost var s := Contents();
      var idx := FindFirstThatContains(entries, count, address, false);
      if idx < 0 || entries[idx].kind == FREE {
        NotInside(s, address, idx);
        return NotFreed;
      }
      OneInside(s, idx, address);
      var ok, kept := CarveNothing(idx, address);
      r := if !ok then NotFreed else if kept then Freed else Emptied;
    }

    /**
     `ms_free_pages`: the range becomes free and nothing else changes; a range not inside one allocated entry halts. A
     byte count of 0 is not refused; see `FreeNothing`.
     */
    method FreePages(address: nat, pageCount: nat) returns (r: FreeResult)
      requires Valid()
      modifies this`count, entries
      ensures ByteCount(pageCount) > 0 ==>
                && !r.Emptied?
                && (r.Freed? ==>
                      Valid() && Retyped(old(Contents()), Contents(), address, address + ByteCount(pageCount), FREE))
                && (r.Freed? <==>
                      && Freeable(old(Contents()), address, ByteCount(pageCount))
                      && Room(old(Contents()), entries.Length, Entry(address, ByteCount(pageCount), FREE)))
                && (old(count) + 2 <= entries.Length ==>
                      Room(old(Contents()), entries.Length, Entry(address, ByteCount(pageCount), FREE)))
      ensures ByteCount(pageCount) == 0 ==>
                && (r.NotFreed? <==> !EmptyFree(old(Contents()), address, entries.Length))
                && (r.Emptied? <==> !r.NotFreed? && LeavesEmpty(old(Contents()), address))
                && (r.Freed? ==> Valid() && Contents() == old(Contents()))
                && (!r.NotFreed? ==> count <= entries.Length)
                && (!r.NotFreed? ==> forall idx: nat :: Allotted(old(Contents()), idx, address) ==>
                                     Contents() == EmptyFreed(old(Contents()), idx, address))
    {
      if ByteCount(pageCount) == 0 {
        r := FreeNothing(address);
        return;
      }
      hide AllKnown, TypeAt, CarvedOut, AllOf, CanCarve;
      var freed := Entry(address, ByteCount(pageCount), FREE);
      ghost var s := Contents();
      var idx := FindFirstThatContains(entries, count, address, false);
      if idx < 0 {
        NotInAnyEntry(s, freed);
        return NotFreed;
      }
      FreeableInEntry(s, idx, freed);
      var ok := AllocateOutOf(idx, freed);
      if ok {
        FreedMeaning(s, Contents(), idx, freed);
      }
      r := if ok then Freed else NotFreed;
    }

    /**
     Freeing what was just allocated restores the entry array element for element, exactly when the allocation
     dropped no remainder; with aligned free memory and limit it drops none. With fewer than four free slots
     either call can halt.
     */
    method AllocateThenFree(pageCount: nat, upperLimit: nat, kind: nat) returns (r: Outcome)
      requires Valid() && pageCount < TWO_32
      requires kind > TYPE_MAX && ResolveKind(Known(), kind) == kind
      modifies this`count, entries
      ensures r.Done? ==> ByteCount(pageCount) > pageCount
      ensures ByteCount(pageCount) > pageCount && old(count) + 4 <= entries.Length ==> r.Done?
      ensures r.Done? && r.address != 0 ==>
                && Valid()
                && (Contents() == old(Contents())
                    <==> !Drops(old(Contents()), Entry(r.address, ByteCount(pageCount), kind)))
                && (FreeAligned(old(Contents())) && upperLimit % PAGE_SIZE == 0 ==> Contents() == old(Contents()))
    {
      hide ResolveKind, AllKnown, TypeAt, CarvedOut, AllOf, CanCarve, Canonical, Retyped, FreeAligned, Lost;
      ghost var s := Contents();
      r := AllocateTopDown(pageCount, upperLimit, kind);
      if r.Done? && r.address != 0 {
        ghost var idx: nat :| CarvedOut(s, Contents(), idx, Entry(r.address, ByteCount(pageCount), kind));
        ghost var new_ := Entry(r.address, ByteCount(pageCount), kind);
        TakenRange(s, Contents(), idx, new_);
        ghost var s1 := Contents();
        if FreeAligned(s) && upperLimit % PAGE_SIZE == 0 {
          AlignedBytes(pageCount);
          HighestAligned(s, ByteCount(pageCount), upperLimit, r.address);
          NothingLostAnywhere(s, s1, idx, new_);
        }
        DropsAt(s, s1, idx, new_);
        TakenFromFree(s, s1, idx, new_);
        var f := FreePages(r.address, pageCount);
        if f.NotFreed? {
          return Halted;
        }
        FreeRestores(s, s1, Contents(), idx, new_);
      }
    }

    /**
     Executes any list of requests. The maps in between are linked by exactly the requested steps, and every
     one of them is canonical. It halts exactly at a request that is refused or for which the buffer has no
     room, and stops exactly at a free of no bytes that leaves an empty entry.
     */
    method Run(ops: seq<Op>) returns (end: RunEnd, ghost trace: seq<seq<Entry>>)
      requires Valid() && forall i: nat :: i < |ops| ==> GoodOp(Known(), ops[i])
      modifies this`count, entries
      ensures trace != [] && trace[0] == old(Contents()) && |trace| <= |ops| + 1
      ensures forall i: nat :: i < |trace| ==> Canonical(trace[i])
      ensures forall i: nat :: i + 1 < |trace| ==> Stepped(ops[i], trace[i], trace[i + 1])
      ensures FreeAligned(trace[0]) && (forall i: nat :: i < |ops| ==> AlignedOp(ops[i])) ==>
                forall i: nat :: i < |trace| ==> FreeAligned(trace[i]) && SameExtent(trace[0], trace[i])
      ensures end.Finished? <==> |trace| == |ops| + 1
      ensures end.Finished? ==> Valid() && trace[|ops|] == Contents()
      ensures forall i: nat :: i < |trace| && i < |ops| ==>
                EndOf(ops[i], trace[i], entries.Length) == if i == |trace| - 1 then end else Finished
    {
      hide ResolveKind, AllKnown, TypeAt, AllOf, CanCarve, Canonical, CarvedOut, Retyped, FreeAligned, GoodOp, Stepped,
           EndOf, SameExtent, AlignedOp;
      trace := [Contents()];
      SameExtentRefl(Contents());
      ghost var aligned := FreeAligned(Contents()) && forall i: nat :: i < |ops| ==> AlignedOp(ops[i]);
      var i := 0;
      while i < |ops|
        invariant 0 <= i <= |ops|
        invariant Valid()
        invariant |trace| == i + 1 && trace[0] == old(Contents()) && trace[i] == Contents()
        invariant forall k: nat :: k < |trace| ==> Canonical(trace[k])
        invariant forall k: nat :: k + 1 < |trace| ==> Stepped(ops[k], trace[k], trace[k + 1])
        invariant forall k: nat :: k < i ==> EndOf(ops[k], trace[k], entries.Length) == Finished
        invariant aligned ==> forall k: nat :: k < |trace| ==> FreeAligned(trace[k]) && SameExtent(trace[0], trace[k])
      {
        ghost var s := Contents();
        end := Execute(ops[i]);
        if !end.Finished? {
          return;
        }
        if aligned {
          SameExtentTrans(trace[0], s, Contents());
        }
        trace := trace + [Contents()];
        i := i + 1;
      }
      end := Finished;
    }

    method Execute(op: Op) returns (end: RunEnd)
      requires Valid() && GoodOp(Known(), op)
      modifies this`count, entries
      ensures end == EndOf(op, old(Contents()), entries.Length)
      ensures end.Finished? ==> Valid() && Stepped(op, old(Contents()), Contents())
      ensures end.Finished? && FreeAligned(old(Contents())) && AlignedOp(op) ==>
                FreeAligned(Contents()) && SameExtent(old(Contents()), Contents())
    {
      hide ResolveKind, AllKnown, TypeAt, AllOf, CanCarve, Canonical, CarvedOut, Retyped, FreeAligned, Room, EmptyFreed,
           Freeable;
      ghost var s := Contents();
      var r;
      SameExtentRefl(s);
      match op {
        case Allocate(pageCount, limit, kind) =>
          r := AllocatePages(pageCount, limit, kind);
          if r.Done? && Contents() != s && FreeAligned(s) && AlignedOp(op) {
            ghost var idx: nat :| CarvedOut(s, Contents(), idx, Entry(r.address, ByteCount(pageCount), kind));
            AlignedBytes(pageCount);
            HighestAligned(s, ByteCount(pageCount), limit, r.address);
            CarvingKeeps(s, Contents(), idx, Entry(r.address, ByteCount(pageCount), kind));
          }
        case AllocateAt(address, pageCount, kind) =>
          r := AllocatePagesAt(address, pageCount, kind);
          if r.Done? && Contents() != s && FreeAligned(s) && AlignedOp(op) {
            ghost var idx: nat :| CarvedOut(s, Contents(), idx, Entry(r.address, ByteCount(pageCount), kind));
            AlignedBytes(pageCount);
            CarvingKeeps(s, Contents(), idx, Entry(r.address, ByteCount(pageCount), kind));
          }
        case Free(address, pageCount) =>
          end := ExecuteFree(address, pageCount);
          return;
      }
      end := if r.Halted? then Stopped else Finished;
    }

    method ExecuteFree(address: nat, pageCount: nat) returns (end: RunEnd)
      requires Valid()
      modifies this`count, entries
      ensures end == EndOf(Free(address, pageCount), old(Contents()), entries.Length)
      ensures end.Finished? ==> Valid() && Stepped(Free(address, pageCount), old(Contents()), Contents())
      ensures end.Finished? && FreeAligned(old(Contents())) && address % PAGE_SIZE == 0 ==>
                FreeAligned(Contents()) && SameExtent(old(Contents()), Contents())
    {
      hide ResolveKind, AllKnown, TypeAt, AllOf, CanCarve, Canonical, CarvedOut, Retyped, FreeAligned, Room, EmptyFreed,
           Freeable;
      ghost var s := Contents();
      SameExtentRefl(s);
      ghost var bytes := ByteCount(pageCount);
      var r := FreePages(address, pageCount);
      AlignedBytes(pageCount);
      if r.Freed? && bytes > 0 && FreeAligned(s) && address % PAGE_SIZE == 0 {
        FreeableIsMapped(s, address, bytes);
        RetypedKeeps(s, Contents(), address, address + bytes, FREE);
      }
      if r.Freed? && bytes == 0 {
        NothingFreed(s, address);
      }
      end := match r case NotFreed => Stopped case Emptied => Spoiled case Freed => Finished;
    }
  }

  // ----- A free of no bytes -----

  /** The address lies in this entry, which is not free. */
  ghost predicate Allotted(s: seq<Entry>, idx: nat, address: nat) {
    idx < |s| && s[idx].Covers(address) && s[idx].kind != FREE
  }

  /** Free slots that an empty range at this address needs. */
  function EmptySlots(me: Entry, address: nat): nat {
    if me.base < address then 2 else 1
  }

  ghost predicate EmptyFree(s: seq<Entry>, address: nat, capacity: nat) {
    exists idx: nat :: Allotted(s, idx, address) && |s| + EmptySlots(s[idx], address) <= capacity
  }

  /** The entries after an empty free range was carved out of entry `idx`. */
  function EmptyFreed(s: seq<Entry>, idx: nat, address: nat): seq<Entry>
    requires idx < |s| && s[idx].Covers(address)
  {
    var me, empty := s[idx], Entry(address, 0, FREE);
    if me.base < address then s[..idx] + [RangeBefore(me, empty), empty, RangeAfter(me, empty)] + s[idx + 1..]
    else if idx > 0 && Mergeable(s[idx - 1], empty) then s
    else s[..idx] + [empty] + s[idx..]
  }

  lemma NotInside(s: seq<Entry>, address: nat, r: int)
    requires Canonical(s) && FindsFirst(s, address, false, r) && (r < 0 || s[r].kind == FREE)
    ensures forall idx: nat :: !Allotted(s, idx, address)
  {
    forall idx: nat | idx < |s| && s[idx].Covers(address) ensures idx == r {}
  }

  lemma OneInside(s: seq<Entry>, idx: nat, address: nat)
    requires Canonical(s) && Allotted(s, idx, address)
    ensures forall i: nat :: Allotted(s, i, address) ==> i == idx
  {
  }

  lemma SplitByInserts(s: seq<Entry>, idx: nat, address: nat)
    requires idx < |s| && s[idx].base < address < s[idx].End()
    ensures var me, empty := s[idx], Entry(address, 0, FREE);
            var t := Inserted(s[idx := RangeBefore(me, empty)], empty, idx + 1);
            Inserted(t, RangeAfter(me, empty), idx + 2) == EmptyFreed(s, idx, address)
  {
  }

  /** Compaction leaves a list of known types alone in which no neighbours can merge. */
  lemma {:induction false} CompactFixed(mask: Mask, t: seq<Entry>)
    requires t != [] && AllKnown(mask, t) && forall i :: 0 <= i < |t| - 1 ==> !Mergeable(t[i], t[i + 1])
    ensures Compacted(mask, t) == t
  {
    hide ResolveKind;
    if |t| > 1 {
      var n := |t| - 1;
      CompactFixed(mask, t[..n]);
      assert !Mergeable(t[n - 1], t[n]);
      assert t == t[..n] + [t[n]];
    }
  }

  /** One more entry of a known type that cannot merge. */
  lemma CompactSnoc(mask: Mask, t: seq<Entry>, u: seq<Entry>, e: Entry)
    requires t != [] && u != [] && Compacted(mask, t) == u && AllKnown(mask, u) && ResolveEntry(mask, e) == e
    ensures Compacted(mask, t + [e]) == Absorb(u, e)
  {
    hide ResolveKind, Absorb;
    assert (t + [e])[..|t|] == t && (t + [e])[|t|] == e;
    assert ResolveLast(mask, u) == u;
  }

  ghost predicate Apart(t: seq<Entry>) {
    forall i :: 0 <= i < |t| - 1 ==> !Mergeable(t[i], t[i + 1])
  }

  /** An empty entry that can merge into the one before it disappears. */
  lemma {:induction false} CompactSkips(mask: Mask, a: seq<Entry>, e: Entry, b: seq<Entry>)
    requires a != [] && e.size == 0 && Mergeable(a[|a| - 1], e) && AllKnown(mask, a + b) && ResolveEntry(mask, e) == e
    requires Apart(a + b)
    ensures Compacted(mask, a + [e] + b) == a + b
    decreases |b|
  {
    hide ResolveKind, Compacted, ResolveEntry, Mergeable;
    if b == [] {
      assert a + b == a && a + [e] + b == a + [e];
      CompactFixed(mask, a);
      CompactSnoc(mask, a, a, e);
      AbsorbEmpty(a, e);
    } else {
      var n := |b| - 1;
      var u := a + b[..n];
      assert a + b == u + [b[n]] && a + [e] + b == a + [e] + b[..n] + [b[n]];
      ApartPrefix(u, b[n]);
      KnownPrefix(mask, u, b[n]);
      CompactSkips(mask, a, e, b[..n]);
      CompactSnoc(mask, a + [e] + b[..n], u, b[n]);
    }
  }

  lemma AbsorbEmpty(a: seq<Entry>, e: Entry)
    requires a != [] && e.size == 0 && Mergeable(a[|a| - 1], e)
    ensures Absorb(a, e) == a
  {
    assert a == a[..|a| - 1] + [a[|a| - 1]];
  }

  lemma ApartPrefix(u: seq<Entry>, e: Entry)
    requires u != [] && Apart(u + [e])
    ensures Apart(u) && Absorb(u, e) == u + [e]
  {
    hide Mergeable;
    var t := u + [e];
    assert !Mergeable(t[|u| - 1], t[|u|]);
    forall i | 0 <= i < |u| - 1 ensures !Mergeable(u[i], u[i + 1]) { assert !Mergeable(t[i], t[i + 1]); }
  }

  lemma KnownPrefix(mask: Mask, u: seq<Entry>, e: Entry)
    requires AllKnown(mask, u + [e])
    ensures AllKnown(mask, u) && ResolveEntry(mask, e) == e
  {
    hide ResolveKind;
    var t := u + [e];
    assert t[|u|] == e;
    forall i | 0 <= i < |u| ensures ResolveKind(mask, u[i].kind) == u[i].kind { assert t[i] == u[i]; }
  }

  /** The fixup after an empty range at the start of entry `idx`. */
  lemma EmptyCompacts(mask: Mask, s: seq<Entry>, idx: nat, address: nat)
    requires ValidMask(mask) && Canonical(s) && AllKnown(mask, s) && Allotted(s, idx, address) && s[idx].base == address
    ensures var t := Inserted(s[idx := Entry(address, 0, FREE)], RangeAfter(s[idx], Entry(address, 0, FREE)), idx + 1);
            && InOrder(t) && SuffixStart(idx) < |t|
            && t[..SuffixStart(idx)] + Compacted(mask, t[SuffixStart(idx)..]) == EmptyFreed(s, idx, address)
  {
    var empty := Entry(address, 0, FREE);
    assert Inserted(s[idx := empty], RangeAfter(s[idx], empty), idx + 1) == s[..idx] + [empty] + s[idx..];
    hide Compacted, Canonical, AllKnown;
    InOrderAround(s, idx, empty);
    if idx > 0 && Mergeable(s[idx - 1], empty) {
      EmptyMerges(mask, s, idx, empty);
    } else {
      EmptyStays(mask, s, idx, empty);
    }
  }

  lemma EmptyMerges(mask: Mask, s: seq<Entry>, idx: nat, e: Entry)
    requires ValidMask(mask) && Canonical(s) && AllKnown(mask, s) && 0 < idx < |s| && e.size == 0 && e.kind == FREE
    requires Mergeable(s[idx - 1], e)
    ensures var t := s[..idx] + [e] + s[idx..];
            t[..SuffixStart(idx)] + Compacted(mask, t[SuffixStart(idx)..]) == s
  {
    hide Compacted, Mergeable, ResolveKind;
    var t, m := s[..idx] + [e] + s[idx..], SuffixStart(idx);
    var a, b := [s[idx - 1]], s[idx..];
    assert t[m..] == a + [e] + b && t[..m] == s[..m] && a + b == s[m..] && s == s[..m] + s[m..];
    forall i | 0 <= i < |a + b| - 1 ensures !Mergeable((a + b)[i], (a + b)[i + 1]) {
      assert !Mergeable(s[m + i], s[m + i + 1]);
    }
    assert ResolveEntry(mask, e) == e by { FreeIsKnown(mask); }
    CompactSkips(mask, a, e, b);
  }

  lemma FreeIsKnown(mask: Mask)
    requires ValidMask(mask)
    ensures ResolveKind(mask, FREE) == FREE
  {
  }

  lemma EmptyStays(mask: Mask, s: seq<Entry>, idx: nat, e: Entry)
    requires ValidMask(mask) && Canonical(s) && AllKnown(mask, s) && idx < |s| && e.kind == FREE != s[idx].kind
    requires idx > 0 ==> !Mergeable(s[idx - 1], e)
    ensures var t := s[..idx] + [e] + s[idx..];
            t[..SuffixStart(idx)] + Compacted(mask, t[SuffixStart(idx)..]) == t
  {
    hide Compacted, ResolveKind;
    var t, m := s[..idx] + [e] + s[idx..], SuffixStart(idx);
    NoneMerge(s, idx, e);
    hide Mergeable;
    FreeIsKnown(mask);
    forall i | 0 <= i < |t[m..]| - 1 ensures !Mergeable(t[m..][i], t[m..][i + 1]) {
      assert !Mergeable(t[m + i], t[m + i + 1]);
    }
    CompactFixed(mask, t[m..]);
    assert t == t[..m] + t[m..];
  }

  lemma InOrderAround(s: seq<Entry>, idx: nat, e: Entry)
    requires Canonical(s) && idx < |s| && e.base == s[idx].base && e.size == 0
    ensures InOrder(s[..idx] + [e] + s[idx..])
  {
  }

  lemma NoneMerge(s: seq<Entry>, idx: nat, e: Entry)
    requires Canonical(s) && idx < |s| && e.kind != s[idx].kind && (idx > 0 ==> !Mergeable(s[idx - 1], e))
    ensures var t := s[..idx] + [e] + s[idx..];
            forall i :: 0 <= i < |t| - 1 ==> !Mergeable(t[i], t[i + 1])
  {
    var t := s[..idx] + [e] + s[idx..];
    forall i | 0 <= i < |t| - 1 ensures !Mergeable(t[i], t[i + 1]) {
      if i + 1 < idx { assert !Mergeable(s[i], s[i + 1]); }
      if i > idx { assert !Mergeable(s[i - 1], s[i]); }
    }
  }

  ghost predicate LeavesEmpty(s: seq<Entry>, address: nat) {
    exists idx: nat :: Allotted(s, idx, address) && EmptyFreed(s, idx, address) != s
  }

  lemma EmptyFreedLonger(s: seq<Entry>, idx: nat, address: nat)
    requires idx < |s| && s[idx].Covers(address)
    ensures EmptyFreed(s, idx, address) == s || |EmptyFreed(s, idx, address)| > |s|
  {
  }

  /** A free of no bytes that changes nothing is a step like any other free. */
  lemma NothingFreed(s: seq<Entry>, address: nat)
    requires Canonical(s)
    ensures Freeable(s, address, 0) && Retyped(s, s, address, address, FREE)
  {
    assert AllOf(s, address, 0, RESERVED);
  }

  /** A free of no bytes keeps the type of every address, and keeps the map canonical only where it changes nothing. */
  lemma EmptyFreedMeaning(s: seq<Entry>, idx: nat, address: nat)
    requires Canonical(s) && Allotted(s, idx, address)
    ensures SameMeaning(EmptyFreed(s, idx, address), s)
    ensures Canonical(EmptyFreed(s, idx, address)) <==> EmptyFreed(s, idx, address) == s
  {
    hide TypeAt;
    var t, me, empty := EmptyFreed(s, idx, address), s[idx], Entry(address, 0, FREE);
    assert s == s[..idx] + [me] + s[idx + 1..];
    forall a: nat ensures TypeAt(t, a) == TypeAt(s, a) {
      EmptyFreedType(s, idx, address, a);
    }
    if me.base < address {
      assert t[idx + 1] == empty;
    } else if !(idx > 0 && Mergeable(s[idx - 1], empty)) {
      assert t[idx] == empty && |t| == |s| + 1;
    }
  }

  /** 2^20 pages count as no bytes, and freeing them at the start of an allocation leaves an empty entry there. */
  lemma EmptyFreeExample()
    ensures ByteCount(0x10_0000) == 0
    ensures var s := [Entry(0, PAGE_SIZE, LOADER_RECLAIMABLE)];
            Canonical(s) && LeavesEmpty(s, 0) && EmptyFreed(s, 0, 0) == [Entry(0, 0, FREE)] + s
  {
    var s := [Entry(0, PAGE_SIZE, LOADER_RECLAIMABLE)];
    assert Allotted(s, 0, 0) && EmptyFreed(s, 0, 0) == [Entry(0, 0, FREE)] + s;
    assert |EmptyFreed(s, 0, 0)| != |s|;
  }

  lemma EmptyFreedType(s: seq<Entry>, idx: nat, address: nat, a: nat)
    requires idx < |s| && s[idx].Covers(address)
    ensures TypeAt(EmptyFreed(s, idx, address), a) == TypeAt(s, a)
  {
    hide TypeAt;
    var me, empty := s[idx], Entry(address, 0, FREE);
    var rest := s[idx + 1..];
    assert s == s[..idx] + ([me] + rest);
    TypeAtConcat(s[..idx], [me] + rest, a);
    TypeAtConcat([me], rest, a);
    TypeAtOne(me, a);
    TypeAtOne(empty, a);
    if me.base < address {
      var before, after := RangeBefore(me, empty), RangeAfter(me, empty);
      assert EmptyFreed(s, idx, address) == s[..idx] + ([before] + ([empty] + ([after] + rest)));
      TypeAtConcat(s[..idx], [before] + ([empty] + ([after] + rest)), a);
      TypeAtConcat([before], [empty] + ([after] + rest), a);
      TypeAtConcat([empty], [after] + rest, a);
      TypeAtConcat([after], rest, a);
      TypeAtOne(before, a);
      TypeAtOne(after, a);
    } else if !(idx > 0 && Mergeable(s[idx - 1], empty)) {
      assert EmptyFreed(s, idx, address) == s[..idx] + ([empty] + ([me] + rest));
      TypeAtConcat(s[..idx], [empty] + ([me] + rest), a);
      TypeAtConcat([empty], [me] + rest, a);
    }
  }

  datatype Op =
    | Allocate(pageCount: nat, limit: nat, kind: nat)
    | AllocateAt(address: nat, pageCount: nat, kind: nat)
    | Free(address: nat, pageCount: nat)

  /** The map after a request that did not halt. */
  ghost predicate Stepped(op: Op, s: seq<Entry>, s': seq<Entry>) {
    match op
    case Allocate(pageCount, limit, kind) => exists r: nat :: TakesHighest(s, s', ByteCount(pageCount), limit, kind, r)
    case AllocateAt(address, pageCount, kind) =>
      exists r: nat :: TakesExactly(s, s', address, ByteCount(pageCount), kind, r)
    case Free(address, pageCount) =>
      Freeable(s, address, ByteCount(pageCount)) && Retyped(s, s', address, address + ByteCount(pageCount), FREE)
  }

  /** Requests the loader halts on: a reserved type, a bad size, a wrapping range, memory that is not allocated. */
  ghost predicate Refused(op: Op, s: seq<Entry>) {
    match op
    case Allocate(pageCount, limit, kind) => kind <= 9 || ByteCount(pageCount) <= pageCount
    case AllocateAt(address, pageCount, kind) =>
      kind <= 9 || ByteCount(pageCount) <= pageCount || address + ByteCount(pageCount) >= TWO_64
    case Free(address, pageCount) =>
      if ByteCount(pageCount) == 0 then forall idx: nat :: !Allotted(s, idx, address)
      else !Freeable(s, address, ByteCount(pageCount))
  }

  /** Requests the buffer has no free slots for. */
  ghost predicate NoRoom(op: Op, s: seq<Entry>, capacity: nat) {
    match op
    case Allocate(pageCount, limit, kind) => NoRoomHighest(s, capacity, ByteCount(pageCount), limit, kind)
    case AllocateAt(address, pageCount, kind) =>
      AllOf(s, address, ByteCount(pageCount), FREE) && !Room(s, capacity, Entry(address, ByteCount(pageCount), kind))
    case Free(address, pageCount) =>
      if ByteCount(pageCount) == 0 then !EmptyFree(s, address, capacity)
      else !Room(s, capacity, Entry(address, ByteCount(pageCount), FREE))
  }

  ghost predicate Halts(op: Op, s: seq<Entry>, capacity: nat) {
    Refused(op, s) || NoRoom(op, s, capacity)
  }

  /** How a list of requests can end: all done, halted, or with an empty entry in the map. */
  datatype RunEnd = Finished | Stopped | Spoiled

  ghost function EndOf(op: Op, s: seq<Entry>, capacity: nat): RunEnd {
    if Halts(op, s, capacity) then Stopped
    else if op.Free? && ByteCount(op.pageCount) == 0 && LeavesEmpty(s, op.address) then Spoiled
    else Finished
  }

  /** A request for a type the mask knows. */
  ghost predicate GoodOp(mask: Mask, op: Op) {
    match op
    case Allocate(pageCount, limit, kind) => pageCount < TWO_32 && ResolveKind(mask, kind) == kind
    case AllocateAt(address, pageCount, kind) =>
      pageCount < TWO_32 && address < TWO_64 && ResolveKind(mask, kind) == kind
    case Free(_, _) => true
  }

  /** A request at page boundaries. */
  predicate AlignedOp(op: Op) {
    match op
    case Allocate(pageCount, limit, kind) => limit % PAGE_SIZE == 0
    case AllocateAt(address, pageCount, kind) => address % PAGE_SIZE == 0
    case Free(address, pageCount) => address % PAGE_SIZE == 0
  }

  ghost predicate FreeAligned(s: seq<Entry>) {
    forall i :: 0 <= i < |s| && s[i].kind == FREE ==> PageAligned(s[i])
  }

  ghost predicate SameExtent(s: seq<Entry>, t: seq<Entry>) {
    forall a :: TypeAt(s, a).Some? == TypeAt(t, a).Some?
  }

  lemma SameExtentRefl(s: seq<Entry>)
    ensures SameExtent(s, s)
  {
  }

  lemma SameExtentTrans(s: seq<Entry>, t: seq<Entry>, u: seq<Entry>)
    requires SameExtent(s, t) && SameExtent(t, u)
    ensures SameExtent(s, u)
  {
    forall a
      ensures TypeAt(s, a).Some? == TypeAt(u, a).Some?
    {
      assert TypeAt(s, a).Some? == TypeAt(t, a).Some?;
    }
  }

  lemma AlignedBytes(pageCount: nat)
    ensures ByteCount(pageCount) % PAGE_SIZE == 0
  {
  }

  /** Once a range is taken it has the new type throughout. */
  lemma TakenRange(s: seq<Entry>, s': seq<Entry>, idx: nat, new_: Entry)
    requires CarvedOut(s, s', idx, new_)
    ensures AllOf(s', new_.base, new_.size, new_.kind)
  {
    forall x | new_.base <= x < new_.End()
      ensures TypeAt(s', x) == Some(new_.kind)
    {
      assert new_.Covers(x);
    }
  }

  /** The highest window below an aligned limit is aligned. */
  lemma HighestAligned(s: seq<Entry>, bytes: nat, limit: nat, address: nat)
    requires Canonical(s) && FreeAligned(s) && limit % PAGE_SIZE == 0 && bytes % PAGE_SIZE == 0 && bytes > 0
    requires FreeWindow(s, address, bytes, 0, limit)
    requires forall a: nat :: FreeWindow(s, a, bytes, 0, limit) ==> a <= address
    ensures address % PAGE_SIZE == 0
  {
    hide TypeAt, AllOf, Canonical;
    var i := InOneEntry(s, address, bytes, FREE);
    assert PageAligned(s[i]);
    CanonicalOrdered(s);
    if address + bytes < Min(s[i].End(), limit) {
      OneHigher(s, i, address, bytes, limit);
    }
    AlignedBefore(s[i], limit, address, bytes);
  }

  lemma OneHigher(s: seq<Entry>, i: nat, address: nat, bytes: nat, limit: nat)
    requires Ordered(s) && i < |s| && s[i].kind == FREE && s[i].base <= address
    requires address + bytes < Min(s[i].End(), limit)
    ensures FreeWindow(s, address + 1, bytes, 0, limit)
  {
    EntryIsAllOf(s, i, address + 1, bytes);
  }

  lemma CanonicalOrdered(s: seq<Entry>)
    requires Canonical(s)
    ensures Ordered(s)
  {
  }

  lemma AlignedBefore(e: Entry, limit: nat, address: nat, bytes: nat)
    requires PageAligned(e) && limit % PAGE_SIZE == 0 && bytes % PAGE_SIZE == 0
    requires address + bytes == Min(e.End(), limit)
    ensures address % PAGE_SIZE == 0
  {
    var pages := if e.End() <= limit then e.base / PAGE_SIZE + e.size / PAGE_SIZE else limit / PAGE_SIZE;
    assert address == PAGE_SIZE * (pages - bytes / PAGE_SIZE);
  }

  /** A page-aligned carving is a plain change of type, of bytes that were in the map. */
  lemma AlignedCarving(s: seq<Entry>, s': seq<Entry>, idx: nat, new_: Entry)
    requires Canonical(s) && FreeAligned(s) && CarvedOut(s, s', idx, new_) && PageAligned(new_)
    ensures Retyped(s, s', new_.base, new_.End(), new_.kind)
    ensures forall a: nat :: new_.Covers(a) ==> TypeAt(s, a).Some?
  {
    forall a: nat
      ensures TypeAt(s', a) == if new_.base <= a < new_.End() then Some(new_.kind) else TypeAt(s, a)
      ensures new_.Covers(a) ==> TypeAt(s, a).Some?
    {
      NothingLost(s, idx, new_, a);
      if s[idx].Covers(a) { TypeAtIndex(s, idx, a); }
    }
  }

  // ----- Page alignment over runs -----

  lemma BoundaryAligned(s: seq<Entry>, x: nat)
    requires Ordered(s) && FreeAligned(s) && x > 0
    requires (TypeAt(s, x) == Some(FREE)) != (TypeAt(s, x - 1) == Some(FREE))
    ensures x % PAGE_SIZE == 0
  {
    var inside := if TypeAt(s, x) == Some(FREE) then x else x - 1;
    var i := TypeAtCovered(s, inside);
    assert PageAligned(s[i]);
    var other := if inside == x then x - 1 else x;
    if s[i].Covers(other) { TypeAtIndex(s, i, other); }
    assert x == s[i].base || x == s[i].End();
    AlignedPieces(s[i], s[i]);
  }

  /** Free memory starts and stops at the edges of a free entry. */
  lemma FreeEdges(s: seq<Entry>, i: nat)
    requires Canonical(s) && i < |s| && s[i].kind == FREE
    ensures TypeAt(s, s[i].base) == Some(FREE) && TypeAt(s, s[i].End() - 1) == Some(FREE)
    ensures TypeAt(s, s[i].End()) != Some(FREE)
    ensures s[i].base > 0 ==> TypeAt(s, s[i].base - 1) != Some(FREE)
  {
    TypeAtIndex(s, i, s[i].base);
    TypeAtIndex(s, i, s[i].End() - 1);
    if TypeAt(s, s[i].End()) == Some(FREE) {
      var j := TypeAtCovered(s, s[i].End());
      NextEntry(s, i, j);
    }
    if s[i].base > 0 && TypeAt(s, s[i].base - 1) == Some(FREE) {
      var j := TypeAtCovered(s, s[i].base - 1);
      PreviousEnds(s, i, j);
      NextEntry(s, j, i);
    }
  }

  lemma PreviousEnds(s: seq<Entry>, i: nat, j: nat)
    requires Ordered(s) && i < |s| && j < |s| && s[i].base > 0 && s[j].Covers(s[i].base - 1)
    ensures s[j].End() == s[i].base
  {
  }

  lemma RetypedEdge(s: seq<Entry>, s': seq<Entry>, lo: nat, hi: nat, kind: nat, x: nat)
    requires Canonical(s) && FreeAligned(s) && Retyped(s, s', lo, hi, kind)
    requires lo % PAGE_SIZE == 0 && hi % PAGE_SIZE == 0 && x > 0
    requires (TypeAt(s', x) == Some(FREE)) != (TypeAt(s', x - 1) == Some(FREE))
    ensures x % PAGE_SIZE == 0
  {
    if x != lo && x != hi {
      assert TypeAt(s', x) == if lo <= x < hi then Some(kind) else TypeAt(s, x);
      assert TypeAt(s', x - 1) == if lo <= x - 1 < hi then Some(kind) else TypeAt(s, x - 1);
      BoundaryAligned(s, x);
    }
  }

  lemma RetypedEntryAligned(s: seq<Entry>, s': seq<Entry>, lo: nat, hi: nat, kind: nat, i: nat)
    requires Canonical(s) && FreeAligned(s) && Retyped(s, s', lo, hi, kind)
    requires lo % PAGE_SIZE == 0 && hi % PAGE_SIZE == 0
    requires i < |s'| && s'[i].kind == FREE
    ensures PageAligned(s'[i])
  {
    hide TypeAt, FreeAligned, AllOf, Canonical, Retyped;
    RetypedCanonical(s, s', lo, hi, kind, i);
    FreeEdges(s', i);
    if s'[i].base > 0 { RetypedEdge(s, s', lo, hi, kind, s'[i].base); }
    RetypedEdge(s, s', lo, hi, kind, s'[i].End());
    AlignedEnds(s'[i]);
  }

  lemma RetypedCanonical(s: seq<Entry>, s': seq<Entry>, lo: nat, hi: nat, kind: nat, i: nat)
    requires Retyped(s, s', lo, hi, kind) && i < |s'|
    ensures Canonical(s') && s'[i].size > 0
  {
  }

  lemma AlignedEnds(e: Entry)
    requires e.base % PAGE_SIZE == 0 && e.End() % PAGE_SIZE == 0
    ensures PageAligned(e)
  {
  }

  /** Retyping a page-aligned range keeps free entries page aligned and the extent of the map. */
  lemma RetypedKeeps(s: seq<Entry>, s': seq<Entry>, lo: nat, hi: nat, kind: nat)
    requires Canonical(s) && FreeAligned(s) && Retyped(s, s', lo, hi, kind)
    requires lo % PAGE_SIZE == 0 && hi % PAGE_SIZE == 0
    requires forall a: nat :: lo <= a < hi ==> TypeAt(s, a).Some?
    ensures FreeAligned(s') && SameExtent(s, s')
  {
    hide TypeAt, PageAligned, Canonical;
    forall i | 0 <= i < |s'| && s'[i].kind == FREE
      ensures PageAligned(s'[i])
    {
      RetypedEntryAligned(s, s', lo, hi, kind, i);
    }
    forall a: nat
      ensures TypeAt(s, a).Some? == TypeAt(s', a).Some?
    {
      assert TypeAt(s', a) == if lo <= a < hi then Some(kind) else TypeAt(s, a);
    }
  }

  /** With page-aligned free entries and a page-aligned range no remainder is short, so nothing is lost. */
  lemma NothingLost(s: seq<Entry>, idx: nat, new_: Entry, a: nat)
    requires FreeAligned(s) && idx < |s| && CanCarve(s[idx], new_) && PageAligned(new_)
    ensures !Lost(s[idx], new_, a)
  {
    if s[idx].kind == FREE {
      assert PageAligned(s[idx]);
      AlignedPieces(s[idx], new_);
      WholePages(new_.base - s[idx].base);
      WholePages(s[idx].End() - new_.End());
    }
  }

  lemma WholePages(n: nat)
    requires n % PAGE_SIZE == 0
    ensures n == 0 || n >= PAGE_SIZE
  {
  }

  lemma NothingLostAnywhere(s: seq<Entry>, s': seq<Entry>, idx: nat, new_: Entry)
    requires FreeAligned(s) && CarvedOut(s, s', idx, new_) && PageAligned(new_)
    ensures forall a: nat :: !Lost(s[idx], new_, a)
  {
    forall a: nat
      ensures !Lost(s[idx], new_, a)
    {
      NothingLost(s, idx, new_, a);
    }
  }

  lemma TakenFromFree(s: seq<Entry>, s': seq<Entry>, idx: nat, new_: Entry)
    requires Canonical(s) && CarvedOut(s, s', idx, new_) && AllOf(s, new_.base, new_.size, FREE)
    ensures s[idx].kind == FREE
  {
    TypeAtIndex(s, idx, new_.base);
    assert TypeAt(s, new_.base) == Some(FREE);
  }

  lemma CarvingKeeps(s: seq<Entry>, s': seq<Entry>, idx: nat, new_: Entry)
    requires Canonical(s) && FreeAligned(s) && CarvedOut(s, s', idx, new_) && PageAligned(new_)
    ensures FreeAligned(s') && SameExtent(s, s')
  {
    AlignedCarving(s, s', idx, new_);
    AlignedPieces(new_, new_);
    RetypedKeeps(s, s', new_.base, new_.End(), new_.kind);
  }

  /** Freeing a range just allocated restores the array exactly when no remainder was lost. */
  lemma FreeRestores(s: seq<Entry>, s1: seq<Entry>, s2: seq<Entry>, idx: nat, new_: Entry)
    requires Canonical(s) && CarvedOut(s, s1, idx, new_) && s[idx].kind == FREE
    requires Retyped(s1, s2, new_.base, new_.End(), FREE)
    ensures s2 == s <==> forall a: nat :: !Lost(s[idx], new_, a)
  {
    forall a: nat | s[idx].Covers(a)
      ensures TypeAt(s, a) == Some(FREE)
    {
      TypeAtIndex(s, idx, a);
    }
    if forall a: nat :: !Lost(s[idx], new_, a) {
      forall a: nat
        ensures TypeAt(s2, a) == TypeAt(s, a)
      {
        assert TypeAt(s1, a) == CarvedType(s[idx], new_, a, TypeAt(s, a));
      }
      CanonicalUnique(s2, s);
    } else {
      var a: nat :| Lost(s[idx], new_, a);
      assert TypeAt(s1, a) == None && TypeAt(s2, a) == None;
    }
  }

  lemma TwoEntries(e: Entry, g: Entry, a: nat)
    ensures TypeAt([e, g], a) == if e.Covers(a) then Some(e.kind) else if g.Covers(a) then Some(g.kind) else None
  {
    assert [e, g] == [e] + [g];
    TypeAtOne(e, a);
    TypeAtAppend([e], g, a);
  }

  /** One page below the limit 0x2800 leaves half a page above it, which is gone after the free. */
  lemma FreeLosesExample()
    ensures var s := [Entry(0, 0x3000, FREE)];
            var s1 := [Entry(0, 0x1800, FREE), Entry(0x1800, PAGE_SIZE, LOADER_RECLAIMABLE)];
            && TakesHighest(s, s1, PAGE_SIZE, 0x2800, LOADER_RECLAIMABLE, 0x1800)
            && Retyped(s1, [Entry(0, 0x2800, FREE)], 0x1800, 0x2800, FREE)
  {
    var s, new_ := [Entry(0, 0x3000, FREE)], Entry(0x1800, PAGE_SIZE, LOADER_RECLAIMABLE);
    var s1 := [Entry(0, 0x1800, FREE), new_];
    forall a: nat
      ensures TypeAt(s1, a) == CarvedType(s[0], new_, a, TypeAt(s, a))
      ensures TypeAt([Entry(0, 0x2800, FREE)], a) == if 0x1800 <= a < 0x2800 then Some(FREE) else TypeAt(s1, a)
    {
      TypeAtOne(s[0], a);
      TypeAtOne(Entry(0, 0x2800, FREE), a);
      TwoEntries(s1[0], new_, a);
    }
    assert CarvedOut(s, s1, 0, new_);
    EntryIsAllOf(s, 0, 0x1800, PAGE_SIZE);
    assert FreeWindow(s, 0x1800, PAGE_SIZE, 0, 0x2800);
  }

  /** Carving this range out of the entry it lies in drops a free remainder below a page. */
  ghost predicate Drops(s: seq<Entry>, new_: Entry) {
    exists idx: nat, a: nat :: idx < |s| && CanCarve(s[idx], new_) && Lost(s[idx], new_, a)
  }

  lemma DropsAt(s: seq<Entry>, s': seq<Entry>, idx: nat, new_: Entry)
    requires Canonical(s) && CarvedOut(s, s', idx, new_)
    ensures Drops(s, new_) <==> exists a: nat :: Lost(s[idx], new_, a)
  {
    hide Lost;
    forall i: nat | i < |s| && CanCarve(s[i], new_) ensures i == idx {}
  }

  ghost predicate TakesExactly(s: seq<Entry>, s': seq<Entry>, address: nat, bytes: nat, kind: nat, r: nat) {
    if AllOf(s, address, bytes, FREE) then
      r == address && (exists idx: nat :: CarvedOut(s, s', idx, Entry(address, bytes, kind)))
    else r == 0 && s' == s
  }

  /** The map is canonical and `lo..hi` now has the given type; every other byte is as before. */
  ghost predicate Retyped(s: seq<Entry>, s': seq<Entry>, lo: nat, hi: nat, kind: nat) {
    && Canonical(s')
    && (forall a: nat :: TypeAt(s', a) == if lo <= a < hi then Some(kind) else TypeAt(s, a))
  }

  /** The whole range has one type, and that type is not free. */
  ghost predicate Freeable(s: seq<Entry>, address: nat, bytes: nat) {
    exists kind: nat :: kind != FREE && AllOf(s, address, bytes, kind)
  }

  lemma FreeableIsMapped(s: seq<Entry>, address: nat, bytes: nat)
    requires Freeable(s, address, bytes)
    ensures forall a: nat :: address <= a < address + bytes ==> TypeAt(s, a).Some?
  {
    var kind: nat :| kind != FREE && AllOf(s, address, bytes, kind);
  }

  lemma NotInAnyEntry(s: seq<Entry>, freed: Entry)
    requires freed.size > 0 && FindsFirst(s, freed.base, false, -1)
    ensures !Freeable(s, freed.base, freed.size)
  {
    TypeAtNone(s, freed.base);
    forall kind
      ensures !AllOf(s, freed.base, freed.size, kind)
    {
      assert TypeAt(s, freed.base) == None;
    }
  }

  /** A range can be freed exactly when it has one non-free type throughout. */
  lemma FreeableInEntry(s: seq<Entry>, idx: nat, freed: Entry)
    requires Canonical(s) && idx < |s| && s[idx].Covers(freed.base) && freed.size > 0 && freed.kind == FREE
    ensures CanCarve(s[idx], freed) <==> Freeable(s, freed.base, freed.size)
  {
    if CanCarve(s[idx], freed) {
      EntryIsAllOf(s, idx, freed.base, freed.size);
    }
    if kind: nat :| kind != FREE && AllOf(s, freed.base, freed.size, kind) {
      var i := InOneEntry(s, freed.base, freed.size, kind);
      TypeAtIndex(s, i, freed.base);
      TypeAtIndex(s, idx, freed.base);
    }
  }

  lemma FreedMeaning(s: seq<Entry>, s': seq<Entry>, idx: nat, freed: Entry)
    requires CarvedOut(s, s', idx, freed) && freed.kind == FREE
    ensures Retyped(s, s', freed.base, freed.End(), FREE)
  {
    forall a: nat
      ensures TypeAt(s', a) == if freed.base <= a < freed.End() then Some(FREE) else TypeAt(s, a)
    {
      assert !Lost(s[idx], freed, a);
    }
  }

  lemma WindowInEntry(s: seq<Entry>, i: nat, a: nat, bytes: nat)
    requires Canonical(s) && i < |s| && s[i].kind == FREE && s[i].base <= a && a + bytes <= s[i].End()
    ensures AllOf(s, a, bytes, FREE)
  {
    EntryIsAllOf(s, i, a, bytes);
  }

  datatype Outcome = Halted | Done(address: nat)

  /** `Emptied` is a free of no bytes that left an empty entry in the map. */
  datatype FreeResult = NotFreed | Freed | Emptied

  /** `page_count * PAGE_SIZE` in the 32-bit `size_t` of the BIOS loader. */
  function ByteCount(pageCount: nat): nat {
    (pageCount * PAGE_SIZE) % TWO_32
  }

  /** The size check `bytes <= page_count` admits exactly the right sizes only below 2^20 pages. */
  lemma SizeCheckExact(pageCount: nat)
    requires pageCount < TWO_32
    ensures ByteCount(pageCount) > pageCount && ByteCount(pageCount) == pageCount * PAGE_SIZE
       <==> 0 < pageCount < 0x10_0000
  {
  }

  /** 2^20 + 257 pages pass the check as 257 pages. */
  lemma SizeCheckMissesOverflow()
    ensures ByteCount(0x10_0101) == 257 * PAGE_SIZE > 0x10_0101
  {
  }

  // ----- Windows of free memory -----

  ghost predicate AllOf(s: seq<Entry>, a: nat, bytes: nat, kind: nat) {
    forall x :: a <= x < a + bytes ==> TypeAt(s, x) == Some(kind)
  }

  lemma OneOf(s: seq<Entry>, a: nat, bytes: nat, kind: nat, x: nat)
    requires AllOf(s, a, bytes, kind) && a <= x < a + bytes
    ensures TypeAt(s, x) == Some(kind)
  {
  }

  ghost predicate FreeWindow(s: seq<Entry>, a: nat, bytes: nat, lower: nat, upper: nat) {
    lower <= a && a + bytes <= upper && AllOf(s, a, bytes, FREE)
  }

  predicate FitsBelow(e: Entry, bytes: nat, limit: nat) {
    e.base < limit && e.kind == FREE && Min(e.End(), limit) - e.base >= bytes
  }

  predicate FitsWithin(e: Entry, bytes: nat, lower: nat, upper: nat) {
    e.kind == FREE && Min(e.End(), upper) - Max(e.base, lower) >= bytes
  }

  ghost predicate TakesHighest(s: seq<Entry>, s': seq<Entry>, bytes: nat, limit: nat, kind: nat, address: nat) {
    if exists a: nat :: FreeWindow(s, a, bytes, 0, limit) then
      && FreeWindow(s, address, bytes, 0, limit)
      && (forall a: nat :: FreeWindow(s, a, bytes, 0, limit) ==> a <= address)
      && (exists idx: nat :: CarvedOut(s, s', idx, Entry(address, bytes, kind)))
    else address == 0 && s' == s
  }

  ghost predicate IsHighest(s: seq<Entry>, a: nat, bytes: nat, limit: nat) {
    FreeWindow(s, a, bytes, 0, limit) && forall b: nat :: FreeWindow(s, b, bytes, 0, limit) ==> b <= a
  }

  ghost predicate IsLowest(s: seq<Entry>, a: nat, bytes: nat, lower: nat, upper: nat) {
    FreeWindow(s, a, bytes, lower, upper) && forall b: nat :: FreeWindow(s, b, bytes, lower, upper) ==> a <= b
  }

  /** There is a free window below the limit, but no slots to carve the highest one. */
  ghost predicate NoRoomHighest(s: seq<Entry>, capacity: nat, bytes: nat, limit: nat, kind: nat) {
    exists a: nat :: IsHighest(s, a, bytes, limit) && !Room(s, capacity, Entry(a, bytes, kind))
  }

  /** There is a free window between the limits, but no slots to carve the lowest one. */
  ghost predicate NoRoomLowest(s: seq<Entry>, capacity: nat, bytes: nat, lower: nat, upper: nat, kind: nat) {
    exists a: nat :: IsLowest(s, a, bytes, lower, upper) && !Room(s, capacity, Entry(a, bytes, kind))
  }

  lemma NoneHighest(s: seq<Entry>, capacity: nat, bytes: nat, limit: nat, kind: nat)
    requires forall a: nat :: !FreeWindow(s, a, bytes, 0, limit)
    ensures !NoRoomHighest(s, capacity, bytes, limit, kind)
  {
    hide FreeWindow, Room;
  }

  lemma NoneLowest(s: seq<Entry>, capacity: nat, bytes: nat, lower: nat, upper: nat, kind: nat)
    requires forall a: nat :: !FreeWindow(s, a, bytes, lower, upper)
    ensures !NoRoomLowest(s, capacity, bytes, lower, upper, kind)
  {
    hide FreeWindow, Room;
  }

  ghost predicate TakesLowest(s: seq<Entry>, s': seq<Entry>, bytes: nat, lower: nat, upper: nat, kind: nat,
                              address: nat) {
    if exists a: nat :: FreeWindow(s, a, bytes, lower, upper) then
      && FreeWindow(s, address, bytes, lower, upper)
      && (forall a: nat :: FreeWindow(s, a, bytes, lower, upper) ==> address <= a)
      && (exists idx: nat :: CarvedOut(s, s', idx, Entry(address, bytes, kind)))
    else address == 0 && s' == s
  }

  lemma NextEntry(s: seq<Entry>, i: nat, j: nat)
    requires Canonical(s) && i < |s| && j < |s| && s[j].Covers(s[i].End())
    ensures s[j].base == s[i].End() && s[j].kind != s[i].kind
  {
    if i + 1 < |s| {
      assert s[i].End() <= s[i + 1].base && s[i + 1].size > 0 && !Mergeable(s[i], s[i + 1]);
    }
  }

  /** A stretch of one type never straddles two entries of a compressed map. */
  lemma InOneEntry(s: seq<Entry>, a: nat, bytes: nat, kind: nat) returns (i: nat)
    requires Canonical(s) && bytes > 0 && AllOf(s, a, bytes, kind)
    ensures i < |s| && s[i].kind == kind && s[i].base <= a && a + bytes <= s[i].End()
  {
    assert TypeAt(s, a) == Some(kind);
    i := TypeAtCovered(s, a);
    if s[i].End() < a + bytes {
      var x := s[i].End();
      assert TypeAt(s, x) == Some(kind);
      var j := TypeAtCovered(s, x);
      NextEntry(s, i, j);
      assert false;
    }
  }

  lemma EntryIsAllOf(s: seq<Entry>, i: nat, a: nat, bytes: nat)
    requires Ordered(s) && i < |s| && s[i].base <= a && a + bytes <= s[i].End()
    ensures AllOf(s, a, bytes, s[i].kind)
  {
    forall x | a <= x < a + bytes
      ensures TypeAt(s, x) == Some(s[i].kind)
    {
      TypeAtIndex(s, i, x);
    }
  }

  lemma NoWindowBelow(s: seq<Entry>, bytes: nat, limit: nat)
    requires Canonical(s) && bytes > 0
    requires forall k :: 0 <= k < |s| ==> !FitsBelow(s[k], bytes, limit)
    ensures forall a: nat :: !FreeWindow(s, a, bytes, 0, limit)
  {
    forall a: nat
      ensures !FreeWindow(s, a, bytes, 0, limit)
    {
      if FreeWindow(s, a, bytes, 0, limit) {
        var i := InOneEntry(s, a, bytes, FREE);
      }
    }
  }

  lemma HighestWindow(s: seq<Entry>, i: nat, bytes: nat, limit: nat)
    requires Canonical(s) && bytes > 0 && i < |s| && FitsBelow(s[i], bytes, limit)
    requires forall k :: i < k < |s| ==> !FitsBelow(s[k], bytes, limit)
    ensures FreeWindow(s, Min(s[i].End(), limit) - bytes, bytes, 0, limit)
    ensures forall a: nat :: FreeWindow(s, a, bytes, 0, limit) ==> a <= Min(s[i].End(), limit) - bytes
  {
    EntryIsAllOf(s, i, Min(s[i].End(), limit) - bytes, bytes);
    forall a: nat | FreeWindow(s, a, bytes, 0, limit)
      ensures a <= Min(s[i].End(), limit) - bytes
    {
      var k := InOneEntry(s, a, bytes, FREE);
      assert FitsBelow(s[k], bytes, limit);
      if k < i { assert s[k].End() <= s[i].base; }
    }
  }

  lemma StartsSearch(s: seq<Entry>, lower: nat, idx: int)
    requires Canonical(s) && FindsFirst(s, lower, true, idx)
    ensures -1 <= idx < |s|
    ensures forall k :: 0 <= k < (if idx < 0 then |s| else idx) ==> s[k].End() <= lower
    ensures idx >= 0 ==> forall k :: idx <= k < |s| ==> lower < s[k].End()
  {
  }

  lemma NoWindowFrom(s: seq<Entry>, n: nat, bytes: nat, lower: nat, upper: nat)
    requires Canonical(s) && bytes > 0 && n == |s|
    requires forall k :: 0 <= k < n ==> !FitsWithin(s[k], bytes, lower, upper)
    ensures forall a: nat :: !FreeWindow(s, a, bytes, lower, upper)
  {
    forall a: nat
      ensures !FreeWindow(s, a, bytes, lower, upper)
    {
      if FreeWindow(s, a, bytes, lower, upper) {
        var i := InOneEntry(s, a, bytes, FREE);
      }
    }
  }

  /** Once an entry starts or ends too high, no later entry can hold the window. */
  lemma NothingLater(s: seq<Entry>, idx: nat, bytes: nat, lower: nat, upper: nat)
    requires Canonical(s) && bytes > 0 && idx < |s|
    requires forall k :: 0 <= k < idx ==> !FitsWithin(s[k], bytes, lower, upper)
    requires s[idx].base > upper || (!FitsWithin(s[idx], bytes, lower, upper) && upper < s[idx].End() + bytes)
    ensures forall a: nat :: !FreeWindow(s, a, bytes, lower, upper)
  {
    forall k | idx <= k < |s|
      ensures !FitsWithin(s[k], bytes, lower, upper)
    {
      if k > idx { assert s[idx].End() <= s[k].base; }
    }
    NoWindowFrom(s, |s|, bytes, lower, upper);
  }

  lemma LowestWindow(s: seq<Entry>, i: nat, bytes: nat, lower: nat, upper: nat)
    requires Canonical(s) && bytes > 0 && i < |s| && FitsWithin(s[i], bytes, lower, upper)
    requires forall k :: 0 <= k < i ==> !FitsWithin(s[k], bytes, lower, upper)
    ensures FreeWindow(s, Max(lower, s[i].base), bytes, lower, upper)
    ensures forall a: nat :: FreeWindow(s, a, bytes, lower, upper) ==> Max(lower, s[i].base) <= a
  {
    EntryIsAllOf(s, i, Max(lower, s[i].base), bytes);
    forall a: nat | FreeWindow(s, a, bytes, lower, upper)
      ensures Max(lower, s[i].base) <= a
    {
      var k := InOneEntry(s, a, bytes, FREE);
      assert FitsWithin(s[k], bytes, lower, upper);
      if k > i { assert s[i].End() <= s[k].base; }
    }
  }

  lemma SameMeaningRefl(s: seq<Entry>)
    ensures SameMeaning(s, s)
  {
  }
}
