/**
 The in-place passes of loader/memory_services.c over an entry array: compaction, sorting plus
 compaction, insertion, search, and the resolution of one overlapping pair.
 */
module MemoryFixup {
  import opened Arith
  import opened MemoryMap

  // ----- Compaction in place -----

  /** One round of the loop: entry `i` is merged into entry `j` or becomes entry `j + 1`. */
  method FixupStep(buf: array<Entry>, lo: nat, j: nat, i: nat, mask: Mask) returns (j': nat)
    requires j < i && lo + i < buf.Length
    modifies buf
    ensures j <= j' <= j + 1
    ensures buf[lo..lo + j' + 1]
         == Absorb(ResolveLast(mask, old(buf[lo..lo + j + 1])), ResolveEntry(mask, old(buf[lo + i])))
    ensures forall k :: 0 <= k < buf.Length && !(lo <= k <= lo + i) ==> buf[k] == old(buf[k])
  {
    ghost var d := buf[lo..lo + j + 1];
    var thisEnd := buf[lo + j].End();
    buf[lo + j] := ResolveEntry(mask, buf[lo + j]);
    buf[lo + i] := ResolveEntry(mask, buf[lo + i]);
    var next := buf[lo + i];
    ghost var r := buf[lo..lo + j + 1];
    assert r == ResolveLast(mask, d);
    if buf[lo + j].kind != next.kind || thisEnd != next.base {
      j' := j + 1;
      if j' != i {
        buf[lo + j'] := next;
      }
      assert buf[lo..lo + j' + 1] == r + [next];
    } else {
      j' := j;
      buf[lo + j] := buf[lo + j].(size := buf[lo + j].size + next.size);
      assert buf[lo..lo + j + 1] == r[..j] + [r[j].(size := r[j].size + next.size)];
    }
  }

  /** Each entry ends by the start of the next one; empty entries are allowed. */
  ghost predicate InOrder(s: seq<Entry>) {
    forall i :: 0 <= i < |s| - 1 ==> s[i].End() <= s[i + 1].base
  }

  lemma CompactOne(mask: Mask, s: seq<Entry>)
    requires s != []
    ensures Compacted(mask, s[..1]) == s[..1] == [s[0]]
  {
  }

  lemma CompactNext(mask: Mask, s: seq<Entry>, i: nat)
    requires 0 < i < |s|
    ensures Compacted(mask, s[..i + 1])
         == Absorb(ResolveLast(mask, Compacted(mask, s[..i])), ResolveEntry(mask, s[i]))
  {
    assert s[..i + 1][..i] == s[..i];
  }

  /** `mm_do_fixup` over `buf[lo..hi]` when no entries overlap; returns the number of entries left. */
  method DoFixup(buf: array<Entry>, lo: nat, hi: nat, mask: Mask) returns (n: nat)
    requires lo < hi <= buf.Length
    requires InOrder(buf[lo..hi])
    modifies buf
    ensures 0 < n <= hi - lo
    ensures buf[lo..lo + n] == Compacted(mask, old(buf[lo..hi]))
    ensures forall k :: 0 <= k < buf.Length && !(lo <= k < hi) ==> buf[k] == old(buf[k])
  {
    hide Absorb, ResolveLast, ResolveEntry, Compacted;
    ghost var s := buf[lo..hi];
    var j, i := 0, 1;
    assert buf[lo..lo + 1] == Compacted(mask, s[..1]) by { CompactOne(mask, s); }
    while i < hi - lo
      invariant 0 <= j < i <= hi - lo
      invariant buf[lo..lo + j + 1] == Compacted(mask, s[..i])
      invariant forall k :: i <= k < hi - lo ==> buf[lo + k] == s[k]
      invariant forall k :: 0 <= k < buf.Length && !(lo <= k < hi) ==> buf[k] == old(buf[k])
    {
      CompactNext(mask, s, i);
      j := FixupStep(buf, lo, j, i, mask);
      i := i + 1;
    }
    assert s[..i] == s;
    n := j + 1;
  }

  // ----- Sorting and compaction -----

  lemma {:induction false} MultisetAtLeastTwo(s: seq<Entry>, i: nat, j: nat)
    requires i < j < |s| && s[i] == s[j]
    ensures multiset(s)[s[i]] >= 2
  {
    assert s == s[..j] + [s[j]] + s[j + 1..];
    assert s[i] in s[..j];
  }

  lemma {:induction false} TwoPositions(s: seq<Entry>, x: Entry) returns (i: nat, j: nat)
    requires multiset(s)[x] >= 2
    ensures i < j < |s| && s[i] == x && s[j] == x
  {
    assert s == [s[0]] + s[1..];
    if s[0] == x {
      assert x in multiset(s[1..]);
      var k :| 0 <= k < |s[1..]| && s[1..][k] == x;
      i, j := 0, k + 1;
    } else {
      i, j := TwoPositions(s[1..], x);
      i, j := i + 1, j + 1;
    }
  }

  /** Disjointness does not depend on the order of entries. */
  lemma PermutedDisjoint(s: seq<Entry>, t: seq<Entry>)
    requires Disjoint(s) && NonEmpty(s) && multiset(s) == multiset(t)
    ensures Disjoint(t) && NonEmpty(t)
  {
    forall i | 0 <= i < |t|
      ensures t[i] in s && t[i].size > 0
    {
      assert t[i] in multiset(s);
    }
    forall i, j | 0 <= i < j < |t|
      ensures t[i].End() <= t[j].base || t[j].End() <= t[i].base
    {
      if t[i] == t[j] {
        MultisetAtLeastTwo(t, i, j);
        var p, q := TwoPositions(s, t[i]);
        assert false;
      } else {
        var p :| 0 <= p < |s| && s[p] == t[i];
        var q :| 0 <= q < |s| && s[q] == t[j];
      }
    }
  }

  lemma {:induction false} TypeAtDisjoint(s: seq<Entry>, i: nat, a: nat)
    requires Disjoint(s) && i < |s| && s[i].Covers(a)
    ensures TypeAt(s, a) == Some(s[i].kind)
  {
    if i > 0 {
      TypeAtDisjoint(s[1..], i - 1, a);
    }
  }

  /** Nor does the meaning of a disjoint list. */
  lemma PermutedMeaning(s: seq<Entry>, t: seq<Entry>)
    requires Disjoint(s) && NonEmpty(s) && multiset(s) == multiset(t)
    ensures SameMeaning(s, t)
  {
    PermutedDisjoint(s, t);
    forall a: nat
      ensures TypeAt(s, a) == TypeAt(t, a)
    {
      if TypeAt(s, a).Some? {
        var i := TypeAtCovered(s, a);
        assert s[i] in multiset(t);
        var j :| 0 <= j < |t| && t[j] == s[i];
        TypeAtDisjoint(t, j, a);
      } else if TypeAt(t, a).Some? {
        var i := TypeAtCovered(t, a);
        assert t[i] in multiset(s);
        var j :| 0 <= j < |s| && s[j] == t[i];
        TypeAtDisjoint(s, j, a);
        assert false;
      }
    }
  }

  /**
   The type of a byte before and after a fixup, in the numbers of section 15.1 of ACPI 6.4. `known` are the known
   types; loader memory is 0xFFFEFFFF, given up unless `keepsLoader`, and protocol types start at 0xFFFF0000.
   */
  ghost predicate FixedUp(known: set<nat>, keepsLoader: bool, was: Option<nat>, is_: Option<nat>) {
    && (is_.None? <==> was.None?)
    && (is_ == Some(1) <==> was == Some(1) || (was == Some(0xFFFE_FFFF) && !keepsLoader))
    && (was.Some? && was.value <= 9 && was.value !in known ==> is_ == Some(2))
    && (was.Some? && was.value <= 9 && was.value in known ==> is_ == was)
    && (was.Some? && was.value >= 0xFFFF_0000 ==> is_ == was)
    && (was == Some(0xFFFE_FFFF) && keepsLoader ==> is_ == was)
  }

  /** The mask `mm_fixup` works with: loader-reclaimable stays known unless it is being given up. */
  function FixupMask(mask: Mask, preserveReclaim: bool): Mask {
    if preserveReclaim then mask + {RECLAIM_BIT} else mask
  }

  /**
   `mm_fixup` on an unsorted list without overlaps: the result is the canonical map whose meaning
   is the old meaning with every type resolved.
   */
  method SortAndFixup(buf: array<Entry>, count: nat, mask: Mask, preserveReclaim: bool) returns (n: nat)
    requires 2 <= count <= buf.Length && ValidMask(mask)
    requires Disjoint(buf[..count]) && NonEmpty(buf[..count])
    modifies buf
    ensures 0 < n <= count
    ensures Canonical(buf[..n])
    ensures forall a ::
              TypeAt(buf[..n], a) == ResolveType(FixupMask(mask, preserveReclaim), TypeAt(old(buf[..count]), a))
    ensures forall a: nat ::
              FixedUp(mask, preserveReclaim || 31 in mask, TypeAt(old(buf[..count]), a), TypeAt(buf[..n], a))
  {
    ghost var s := buf[..count];
    Sort(buf, count);
    ghost var t := buf[0..count];
    assert t == buf[..count];
    PermutedDisjoint(s, t);
    PermutedMeaning(s, t);
    var known := FixupMask(mask, preserveReclaim);
    n := DoFixup(buf, 0, count, known);
    assert buf[0..0 + n] == buf[..n];
    CompactedMeaning(known, t);
    forall a: nat ensures FixedUp(mask, preserveReclaim || 31 in mask, TypeAt(s, a), TypeAt(buf[..n], a)) {
      ResolvedTypes(known, TypeAt(s, a));
    }
  }

  // ----- Insertion -----

  function Inserted(s: seq<Entry>, e: Entry, idx: nat): seq<Entry>
    requires idx <= |s|
  {
    s[..idx] + [e] + s[idx..]
  }

  /** `mme_insert`. */
  method Insert(buf: array<Entry>, e: Entry, idx: nat, count: nat)
    requires idx <= count < buf.Length
    modifies buf
    ensures buf[..count + 1] == Inserted(old(buf[..count]), e, idx)
  {
    var k := count;
    while k > idx
      invariant idx <= k <= count
      invariant forall i :: 0 <= i < k ==> buf[i] == old(buf[i])
      invariant forall i :: k < i <= count ==> buf[i] == old(buf[i - 1])
    {
      buf[k] := buf[k - 1];
      k := k - 1;
    }
    buf[idx] := e;
  }

  // ----- Search -----

  /** The entry holding `value`; failing that, when allowed, the first entry above it. */
  ghost predicate FindsFirst(s: seq<Entry>, value: nat, oneAbove: bool, r: int) {
    if exists i :: 0 <= i < |s| && s[i].Covers(value) then 0 <= r < |s| && s[r].Covers(value)
    else if oneAbove && exists i :: 0 <= i < |s| && value < s[i].base then
      && 0 <= r < |s| && value < s[r].base
      && (forall i :: 0 <= i < r ==> s[i].base < value)
    else r == -1
  }

  /** `mm_find_first_that_contains`: binary search over an ordered map. */
  method FindFirstThatContains(buf: array<Entry>, count: nat, value: nat, oneAbove: bool) returns (r: int)
    requires count <= buf.Length && Ordered(buf[..count])
    ensures FindsFirst(buf[..count], value, oneAbove, r)
  {
    hide Ordered;
    ghost var s := buf[..count];
    var left: int := 0;
    var right: int := count - 1;
    while left <= right
      invariant 0 <= left <= right + 1 <= count
      invariant forall i :: 0 <= i < left ==> s[i].base < value
      invariant forall i :: right < i < count ==> value < s[i].base
      decreases right - left
    {
      var middle := left + (right - left) / 2;
      if buf[middle].base < value {
        left := middle + 1;
        BasesBelow(s, middle, value);
      } else if value < buf[middle].base {
        right := middle - 1;
        BasesAbove(s, middle, value);
      } else {
        StartsHere(s, middle);
        return middle;
      }
    }
    if right >= 0 && buf[right].base < value && value < buf[right].End() {
      assert s[right].Covers(value);
      return right;
    }
    Uncovered(s, left, value);
    if left == count {
      left := -1;
    } else {
      assert value < s[left].base;
    }
    r := if oneAbove then left else -1;
  }

  lemma BasesBelow(s: seq<Entry>, m: nat, value: nat)
    requires Ordered(s) && m < |s| && s[m].base < value
    ensures forall i :: 0 <= i <= m ==> s[i].base < value
  {
    assert forall i :: 0 <= i < m ==> s[i].End() <= s[m].base;
  }

  lemma BasesAbove(s: seq<Entry>, m: nat, value: nat)
    requires Ordered(s) && m < |s| && value < s[m].base
    ensures forall i :: m <= i < |s| ==> value < s[i].base
  {
    assert forall i :: m < i < |s| ==> s[m].End() <= s[i].base;
  }

  lemma StartsHere(s: seq<Entry>, m: nat)
    requires Ordered(s) && m < |s|
    ensures s[m].Covers(s[m].base)
  {
  }

  /** With the entries split at `value` and the last one below it ending before it, none holds it. */
  lemma Uncovered(s: seq<Entry>, left: nat, value: nat)
    requires Ordered(s) && left <= |s| && (left > 0 ==> s[left - 1].End() <= value)
    requires forall i :: left <= i < |s| ==> value < s[i].base
    ensures forall i :: 0 <= i < |s| ==> !s[i].Covers(value)
  {
    assert left > 0 ==> forall i :: 0 <= i < left - 1 ==> s[i].End() <= s[left - 1].base;
  }

  // ----- One overlapping pair -----

  /** `mme_align_if_needed`: free ranges get a page-aligned base (rounded down) and size. */
  function AlignIfNeeded(e: Entry): Entry {
    if e.kind != FREE then e
    else
      var begin := AlignDown(e.base, PAGE_SIZE);
      Entry(begin, AlignDown(e.size - Min(e.size, e.base - begin), PAGE_SIZE), e.kind)
  }

  ghost predicate Inside(inner: Entry, outer: Entry) {
    forall a :: inner.Covers(a) ==> outer.Covers(a)
  }

  /** Rounding the base down leaves the range it was given unless the base was aligned or nothing is left. */
  lemma AlignStaysInside(e: Entry)
    requires e.kind == FREE
    ensures Inside(AlignIfNeeded(e), e)
       <==> e.base % PAGE_SIZE == 0 || e.size - Min(e.size, e.base % PAGE_SIZE) < PAGE_SIZE
  {
    var r := AlignIfNeeded(e);
    if e.base % PAGE_SIZE != 0 && r.size > 0 {
      assert r.Covers(r.base) && !e.Covers(r.base);
    }
  }

  lemma AlignLeavesRangeExample()
    ensures !Inside(AlignIfNeeded(Entry(0x800, 0x2000, FREE)), Entry(0x800, 0x2000, FREE))
  {
    AlignStaysInside(Entry(0x800, 0x2000, FREE));
  }

  function IfValid(e: Entry): seq<Entry> {
    if e.IsValid() then [e] else []
  }

  /** `do_resolve_overlap` on a pair in order of base: the pieces that replace it. */
  function ResolveOverlap(lhs: Entry, rhs: Entry): seq<Entry>
    requires lhs.base <= rhs.base
  {
    if rhs.kind < lhs.kind then
      var after := AlignIfNeeded(Entry(lhs.End(), if lhs.End() < rhs.End() then rhs.End() - lhs.End() else 0,
                                       rhs.kind));
      [lhs] + IfValid(after)
    else
      var before := AlignIfNeeded(Entry(lhs.base, rhs.base - lhs.base, lhs.kind));
      var after := AlignIfNeeded(Entry(rhs.End(), if lhs.End() > rhs.End() then lhs.End() - rhs.End() else 0,
                                       lhs.kind));
      IfValid(before) + [rhs] + IfValid(after)
  }

  /** The type the firmware entries give an address when the higher type wins. */
  function Winner(lhs: Entry, rhs: Entry, a: nat): Option<nat> {
    if lhs.Covers(a) && rhs.Covers(a) then Some(Max(lhs.kind, rhs.kind))
    else if lhs.Covers(a) then Some(lhs.kind)
    else if rhs.Covers(a) then Some(rhs.kind)
    else None
  }

  predicate PageAligned(e: Entry) {
    e.base % PAGE_SIZE == 0 && e.size % PAGE_SIZE == 0
  }

  /** An aligned piece survives as it is, and is dropped only when empty. */
  lemma AlignedPiece(e: Entry, a: nat)
    requires e.kind == FREE ==> PageAligned(e)
    ensures IfValid(AlignIfNeeded(e)) == if e.size > 0 then [e] else []
    ensures TypeAt(IfValid(AlignIfNeeded(e)), a) == if e.Covers(a) then Some(e.kind) else None
  {
    if e.size > 0 { TypeAtOne(e, a); }
  }

  lemma LhsWins(lhs: Entry, rhs: Entry, a: nat)
    requires lhs.base <= rhs.base < lhs.End() && rhs.size > 0 && rhs.kind < lhs.kind
    requires rhs.kind == FREE ==> PageAligned(lhs) && PageAligned(rhs)
    ensures Ordered(ResolveOverlap(lhs, rhs)) && 1 <= |ResolveOverlap(lhs, rhs)| <= 2
    ensures TypeAt(ResolveOverlap(lhs, rhs), a) == Winner(lhs, rhs, a)
  {
    hide AlignIfNeeded, IfValid;
    var after := Entry(lhs.End(), if lhs.End() < rhs.End() then rhs.End() - lhs.End() else 0, rhs.kind);
    assert rhs.kind == FREE ==> PageAligned(after) by { AlignedPieces(lhs, rhs); }
    AlignedPiece(after, a);
    TypeAtConcat([lhs], IfValid(AlignIfNeeded(after)), a);
    TypeAtOne(lhs, a);
  }

  lemma RhsWins(lhs: Entry, rhs: Entry, a: nat)
    requires lhs.base <= rhs.base < lhs.End() && rhs.size > 0 && rhs.kind >= lhs.kind
    requires lhs.kind == FREE ==> PageAligned(lhs) && PageAligned(rhs)
    ensures Ordered(ResolveOverlap(lhs, rhs)) && 1 <= |ResolveOverlap(lhs, rhs)| <= 3
    ensures TypeAt(ResolveOverlap(lhs, rhs), a) == Winner(lhs, rhs, a)
  {
    hide AlignIfNeeded, IfValid;
    var before := Entry(lhs.base, rhs.base - lhs.base, lhs.kind);
    var after := Entry(rhs.End(), if lhs.End() > rhs.End() then lhs.End() - rhs.End() else 0, lhs.kind);
    assert lhs.kind == FREE ==> PageAligned(before) && PageAligned(after) by { AlignedPieces(lhs, rhs); }
    AlignedPiece(before, a);
    AlignedPiece(after, a);
    TypeAtAppend(IfValid(AlignIfNeeded(before)), rhs, a);
    TypeAtConcat(IfValid(AlignIfNeeded(before)) + [rhs], IfValid(AlignIfNeeded(after)), a);
  }

  lemma AlignedPieces(lhs: Entry, rhs: Entry)
    requires lhs.base <= rhs.base
    ensures PageAligned(lhs) && PageAligned(rhs) ==>
              && lhs.End() % PAGE_SIZE == 0 && rhs.End() % PAGE_SIZE == 0
              && (rhs.base - lhs.base) % PAGE_SIZE == 0
              && (lhs.End() <= rhs.End() ==> (rhs.End() - lhs.End()) % PAGE_SIZE == 0)
              && (rhs.End() <= lhs.End() ==> (lhs.End() - rhs.End()) % PAGE_SIZE == 0)
  {
    if PageAligned(lhs) && PageAligned(rhs) {
      var l, m := lhs.base / PAGE_SIZE, lhs.size / PAGE_SIZE;
      var r, n := rhs.base / PAGE_SIZE, rhs.size / PAGE_SIZE;
      assert lhs.End() == PAGE_SIZE * (l + m) && rhs.End() == PAGE_SIZE * (r + n);
      assert rhs.base - lhs.base == PAGE_SIZE * (r - l);
      assert rhs.End() - lhs.End() == PAGE_SIZE * (r + n - l - m);
      assert lhs.End() - rhs.End() == PAGE_SIZE * (l + m - r - n);
    }
  }

  /** For an overlapping pair the higher type wins at every address, and the pieces are in order. */
  lemma OverlapHigherWins(lhs: Entry, rhs: Entry)
    requires lhs.base <= rhs.base < lhs.End() && rhs.size > 0
    requires lhs.kind == FREE || rhs.kind == FREE ==> PageAligned(lhs) && PageAligned(rhs)
    ensures Ordered(ResolveOverlap(lhs, rhs)) && 1 <= |ResolveOverlap(lhs, rhs)| <= 3
    ensures forall a :: TypeAt(ResolveOverlap(lhs, rhs), a) == Winner(lhs, rhs, a)
  {
    forall a: nat
      ensures Ordered(ResolveOverlap(lhs, rhs)) && 1 <= |ResolveOverlap(lhs, rhs)| <= 3
      ensures TypeAt(ResolveOverlap(lhs, rhs), a) == Winner(lhs, rhs, a)
    {
      if rhs.kind < lhs.kind { LhsWins(lhs, rhs, a); } else { RhsWins(lhs, rhs, a); }
    }
    assert TypeAt(ResolveOverlap(lhs, rhs), 0) == Winner(lhs, rhs, 0);
  }
}
