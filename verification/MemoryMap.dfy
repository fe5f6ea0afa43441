/**
 Memory map entries (loader/include/memory_services.h, loader/memory_services.c). The meaning of
 a map is the function from address to type; a canonical map is the only one with its meaning.
 */
module MemoryMap {
  import opened Arith

  // Values of section 15.1 of ACPI 6.4, then the loader's own range.
  const FREE: nat := 1
  const RESERVED: nat := 2
  const ACPI_RECLAIMABLE: nat := 3
  const ACPI_NVS: nat := 4
  const TYPE_MAX: nat := 9
  const LOADER_RECLAIMABLE: nat := 0xFFFE_FFFF
  const PROTO_SPECIFIC_BASE: nat := 0xFFFF_0000

  datatype Entry = Entry(base: nat, size: nat, kind: nat) {
    function End(): nat {
      base + size
    }

    predicate Covers(a: nat) {
      base <= a < End()
    }

    /** `mme_is_valid`: non-empty, and at least a page when free. */
    predicate IsValid() {
      size > 0 && (kind != FREE || size >= PAGE_SIZE)
    }
  }

  /** Ascending, non-empty and free of overlaps. */
  ghost predicate Ordered(s: seq<Entry>) {
    && (forall i :: 0 <= i < |s| ==> s[i].size > 0)
    && (forall i, j :: 0 <= i < j < |s| ==> s[i].End() <= s[j].base)
  }

  /** Touching entries of one type. */
  predicate Mergeable(a: Entry, b: Entry) {
    a.End() == b.base && a.kind == b.kind
  }

  /** Ordered and compressed. */
  ghost predicate Canonical(s: seq<Entry>) {
    Ordered(s) && forall i :: 0 <= i < |s| - 1 ==> !Mergeable(s[i], s[i + 1])
  }

  function TypeAt(s: seq<Entry>, a: nat): Option<nat> {
    if s == [] then None
    else if s[0].Covers(a) then Some(s[0].kind)
    else TypeAt(s[1..], a)
  }

  ghost predicate SameMeaning(s: seq<Entry>, t: seq<Entry>) {
    forall a :: TypeAt(s, a) == TypeAt(t, a)
  }

  // ----- Meaning of entry lists -----

  lemma {:induction false} TypeAtConcat(s: seq<Entry>, t: seq<Entry>, a: nat)
    ensures TypeAt(s + t, a) == if TypeAt(s, a).Some? then TypeAt(s, a) else TypeAt(t, a)
  {
    if s == [] {
      assert s + t == t;
    } else {
      assert (s + t)[1..] == s[1..] + t;
      TypeAtConcat(s[1..], t, a);
    }
  }

  lemma TypeAtOne(e: Entry, a: nat)
    ensures TypeAt([e], a) == if e.Covers(a) then Some(e.kind) else None
  {
    assert [e][1..] == [];
  }

  /** Appending one entry. */
  lemma TypeAtAppend(s: seq<Entry>, e: Entry, a: nat)
    ensures TypeAt(s + [e], a)
         == if TypeAt(s, a).Some? then TypeAt(s, a) else if e.Covers(a) then Some(e.kind) else None
  {
    TypeAtConcat(s, [e], a);
    TypeAtOne(e, a);
  }

  /** In an ordered list the covering entry decides the type, and there is at most one. */
  lemma {:induction false} TypeAtIndex(s: seq<Entry>, i: nat, a: nat)
    requires Ordered(s) && i < |s| && s[i].Covers(a)
    ensures TypeAt(s, a) == Some(s[i].kind)
  {
    if i > 0 {
      assert s[0].End() <= s[i].base;
      TypeAtIndex(s[1..], i - 1, a);
    }
  }

  lemma {:induction false} TypeAtNone(s: seq<Entry>, a: nat)
    requires forall i :: 0 <= i < |s| ==> !s[i].Covers(a)
    ensures TypeAt(s, a) == None
  {
    if s != [] { TypeAtNone(s[1..], a); }
  }

  lemma {:induction false} TypeAtCovered(s: seq<Entry>, a: nat) returns (i: nat)
    requires TypeAt(s, a).Some?
    ensures i < |s| && s[i].Covers(a) && TypeAt(s, a) == Some(s[i].kind)
  {
    if s[0].Covers(a) {
      i := 0;
    } else {
      i := TypeAtCovered(s[1..], a);
      i := i + 1;
    }
  }

  /** The first entries of two canonical maps with one meaning agree, from one side. */
  lemma FirstEntryReaches(s: seq<Entry>, t: seq<Entry>)
    requires Canonical(s) && Canonical(t) && SameMeaning(s, t) && s != []
    ensures t != [] && t[0].base <= s[0].base
    ensures t[0].base == s[0].base ==> t[0].kind == s[0].kind && t[0].End() <= s[0].End()
  {
    assert s[0].Covers(s[0].base);
    assert TypeAt(t, s[0].base) == TypeAt(s, s[0].base) == Some(s[0].kind);
    var i := TypeAtCovered(t, s[0].base);
    if i > 0 { assert t[0].End() <= t[i].base; }
    if t[0].base == s[0].base {
      assert t[0].Covers(t[0].base);
      if s[0].End() < t[0].End() {
        var a := s[0].End();
        assert t[0].Covers(a) && TypeAt(s, a) == TypeAt(t, a) == Some(s[0].kind);
        var j := TypeAtCovered(s, a);
        assert Mergeable(s[0], s[1]);
        assert false;
      }
    }
  }

  /** A canonical map is determined by its meaning. */
  lemma {:induction false} CanonicalUnique(s: seq<Entry>, t: seq<Entry>)
    requires Canonical(s) && Canonical(t) && SameMeaning(s, t)
    ensures s == t
    decreases |s|
  {
    if s == [] {
      if t != [] {
        FirstEntryReaches(t, s);
        assert false;
      }
    } else {
      FirstEntryReaches(s, t);
      FirstEntryReaches(t, s);
      assert s[0] == t[0];
      forall a
        ensures TypeAt(s[1..], a) == TypeAt(t[1..], a)
      {
        assert TypeAt(s, a) == TypeAt(t, a);
        if s[0].Covers(a) {
          TypeAtNone(s[1..], a);
          TypeAtNone(t[1..], a);
        }
      }
      CanonicalUnique(s[1..], t[1..]);
    }
  }

  // ----- Type resolution -----

  /** The known-type mask, as the set of its bit positions; bit 31 stands for loader-reclaimable. */
  type Mask = set<nat>

  const RECLAIM_BIT: nat := 31

  /** `mme_resolve_type`. */
  function ResolveKind(mask: Mask, kind: nat): nat {
    if kind >= PROTO_SPECIFIC_BASE then kind
    else if kind == LOADER_RECLAIMABLE then if RECLAIM_BIT in mask then kind else FREE
    else if kind in mask then kind else RESERVED
  }

  function ResolveEntry(mask: Mask, e: Entry): Entry {
    e.(kind := ResolveKind(mask, e.kind))
  }

  function ResolveType(mask: Mask, t: Option<nat>): Option<nat> {
    match t
    case None => None
    case Some(kind) => Some(ResolveKind(mask, kind))
  }

  predicate ValidMask(mask: Mask) {
    FREE in mask && RESERVED in mask
  }

  /** Types the mask leaves alone. */
  predicate AllKnown(mask: Mask, s: seq<Entry>) {
    forall i :: 0 <= i < |s| ==> ResolveKind(mask, s[i].kind) == s[i].kind
  }

  lemma ResolveTwice(mask: Mask, kind: nat)
    requires ValidMask(mask)
    ensures ResolveKind(mask, ResolveKind(mask, kind)) == ResolveKind(mask, kind)
  {
  }

  /**
   What resolution does to the type of a byte, in the numbers of section 15.1 of ACPI 6.4: free memory comes from
   free memory or from loader memory that is given up, an unknown type becomes reserved, and every other type stays.
   */
  lemma ResolvedTypes(mask: Mask, was: Option<nat>)
    requires 1 in mask && 2 in mask
    ensures var is_ := ResolveType(mask, was);
            && (is_.None? <==> was.None?)
            && (is_ == Some(1) <==> was == Some(1) || (was == Some(0xFFFE_FFFF) && 31 !in mask))
            && (was.Some? && was.value <= 9 && was.value !in mask ==> is_ == Some(2))
            && (was.Some? && was.value <= 9 && was.value in mask ==> is_ == was)
            && (was.Some? && was.value >= 0xFFFF_0000 ==> is_ == was)
            && (was == Some(0xFFFE_FFFF) && 31 in mask ==> is_ == was)
  {
  }

  // ----- Compaction -----

  /** One step of the two-index loop: the next entry joins the last one or follows it. */
  function Absorb(done: seq<Entry>, next: Entry): (r: seq<Entry>)
    requires done != []
    ensures r != []
  {
    var last := done[|done| - 1];
    if Mergeable(last, next) then done[..|done| - 1] + [last.(size := last.size + next.size)] else done + [next]
  }

  function ResolveLast(mask: Mask, s: seq<Entry>): (r: seq<Entry>)
    requires s != []
    ensures |r| == |s|
  {
    s[|s| - 1 := ResolveEntry(mask, s[|s| - 1])]
  }

  /** The entries left by the non-overlapping path of `mm_do_fixup`. */
  function Compacted(mask: Mask, s: seq<Entry>): (r: seq<Entry>)
    requires s != []
    ensures 0 < |r| <= |s|
  {
    if |s| == 1 then s
    else Absorb(ResolveLast(mask, Compacted(mask, s[..|s| - 1])), ResolveEntry(mask, s[|s| - 1]))
  }

  /** Absorbing an entry that starts at or after the end keeps a map canonical and adds its bytes. */
  lemma AbsorbMeaning(done: seq<Entry>, next: Entry)
    requires Canonical(done) && done != [] && next.size > 0 && done[|done| - 1].End() <= next.base
    ensures Canonical(Absorb(done, next))
    ensures Absorb(done, next)[|Absorb(done, next)| - 1].End() == next.End()
    ensures Absorb(done, next)[0].base == done[0].base && Absorb(done, next)[0].kind == done[0].kind
    ensures forall a :: TypeAt(Absorb(done, next), a) == TypeAt(done + [next], a)
  {
    hide TypeAt, Canonical, Absorb;
    AbsorbCanonical(done, next);
    forall a ensures TypeAt(Absorb(done, next), a) == TypeAt(done + [next], a) { AbsorbTypes(done, next, a); }
  }

  lemma AbsorbCanonical(done: seq<Entry>, next: Entry)
    requires Canonical(done) && done != [] && next.size > 0 && done[|done| - 1].End() <= next.base
    ensures Canonical(Absorb(done, next))
    ensures Absorb(done, next)[|Absorb(done, next)| - 1].End() == next.End()
    ensures Absorb(done, next)[0].base == done[0].base && Absorb(done, next)[0].kind == done[0].kind
  {
    hide Canonical;
    if Mergeable(done[|done| - 1], next) {
      GrowLast(done, next.size);
    } else {
      AppendAfter(done, next);
    }
  }

  lemma GrowLast(s: seq<Entry>, more: nat)
    requires Canonical(s) && s != []
    ensures var last := s[|s| - 1]; Canonical(s[..|s| - 1] + [last.(size := last.size + more)])
  {
    var n := |s| - 1;
    var r := s[..n] + [s[n].(size := s[n].size + more)];
    forall i: nat | i < n
      ensures r[i] == s[i] && r[i].End() <= r[n].base && r[n].kind == s[n].kind && r[n].base == s[n].base
    {}
    forall i | 0 <= i < |r| - 1 ensures !Mergeable(r[i], r[i + 1]) {
      assert !Mergeable(s[i], s[i + 1]);
    }
  }

  lemma AppendAfter(s: seq<Entry>, next: Entry)
    requires Canonical(s) && s != [] && next.size > 0 && s[|s| - 1].End() <= next.base && !Mergeable(s[|s| - 1], next)
    ensures Canonical(s + [next])
  {
    var r, n := s + [next], |s|;
    forall i: nat | i < n ensures r[i] == s[i] && r[i].End() <= r[n].base {
      if i < n - 1 { assert s[i].End() <= s[n - 1].base; }
    }
    forall i | 0 <= i < |r| - 1 ensures !Mergeable(r[i], r[i + 1]) {
      if i < n - 1 { assert !Mergeable(s[i], s[i + 1]); }
    }
  }

  lemma AbsorbTypes(done: seq<Entry>, next: Entry, a: nat)
    requires done != []
    ensures TypeAt(Absorb(done, next), a) == TypeAt(done + [next], a)
  {
    hide TypeAt;
    var n := |done| - 1;
    var last := done[n];
    if Mergeable(last, next) {
      assert done == done[..n] + [last];
      TypeAtAppend(done[..n], last.(size := last.size + next.size), a);
      TypeAtAppend(done[..n], last, a);
      TypeAtAppend(done, next, a);
    }
  }

  /** What compaction establishes on an ordered list, also while the last entry is still unresolved. */
  ghost predicate CompactsTo(mask: Mask, s: seq<Entry>, d: seq<Entry>)
    requires s != [] && d != []
  {
    var r := ResolveLast(mask, d);
    && Canonical(r)
    && r[0].base == s[0].base
    && r[|r| - 1].End() == s[|s| - 1].End()
    && (|s| >= 2 ==> r == d)
    && (forall a :: TypeAt(r, a) == ResolveType(mask, TypeAt(s, a)))
  }

  lemma {:induction false} CompactedMeaning(mask: Mask, s: seq<Entry>)
    requires ValidMask(mask) && Ordered(s) && s != []
    ensures CompactsTo(mask, s, Compacted(mask, s))
    decreases |s|
  {
    hide ResolveKind, Absorb, ValidMask;
    var n := |s| - 1;
    if n == 0 {
      assert s == [s[0]] && ResolveLast(mask, s) == [ResolveEntry(mask, s[0])];
      forall a
        ensures TypeAt(ResolveLast(mask, s), a) == ResolveType(mask, TypeAt(s, a))
      {
        TypeAtOne(s[0], a);
        TypeAtOne(ResolveEntry(mask, s[0]), a);
      }
    } else {
      assert s == s[..n] + [s[n]];
      CompactedMeaning(mask, s[..n]);
      CompactStep(mask, s[..n], Compacted(mask, s[..n]), s[n]);
    }
  }

  lemma CompactStep(mask: Mask, s: seq<Entry>, d: seq<Entry>, e: Entry)
    requires ValidMask(mask) && s != [] && d != [] && Ordered(s + [e])
    requires CompactsTo(mask, s, d)
    ensures CompactsTo(mask, s + [e], Absorb(ResolveLast(mask, d), ResolveEntry(mask, e)))
  {
    hide ResolveKind, Absorb, ValidMask, Canonical, Mergeable;
    var r, next := ResolveLast(mask, d), ResolveEntry(mask, e);
    assert (s + [e])[|s|] == e && (s + [e])[|s| - 1] == s[|s| - 1] && (s + [e])[0] == s[0];
    AbsorbMeaning(r, next);
    AbsorbResolved(mask, d, e);
    forall a
      ensures TypeAt(Absorb(r, next), a) == ResolveType(mask, TypeAt(s + [e], a))
    {
      assert TypeAt(r, a) == ResolveType(mask, TypeAt(s, a));
      TypeAtAppend(r, next, a);
      TypeAtAppend(s, e, a);
    }
  }

  /** After a step the last entry has its resolved type. */
  lemma AbsorbResolved(mask: Mask, d: seq<Entry>, e: Entry)
    requires ValidMask(mask) && d != []
    ensures var c := Absorb(ResolveLast(mask, d), ResolveEntry(mask, e)); ResolveLast(mask, c) == c
  {
    ResolveTwice(mask, e.kind);
    ResolveTwice(mask, d[|d| - 1].kind);
  }

  // ----- Sorting -----

  ghost predicate SortedByBase(s: seq<Entry>) {
    forall i, j :: 0 <= i < j < |s| ==> s[i].base <= s[j].base
  }

  ghost predicate Disjoint(s: seq<Entry>) {
    forall i, j :: 0 <= i < |s| && 0 <= j < |s| && i != j ==> s[i].End() <= s[j].base || s[j].End() <= s[i].base
  }

  ghost predicate NonEmpty(s: seq<Entry>) {
    forall i :: 0 <= i < |s| ==> s[i].size > 0
  }

  method Swap(buf: array<Entry>, n: nat, j: nat)
    requires 0 < j < n <= buf.Length
    modifies buf
    ensures buf[j] == old(buf[j - 1]) && buf[j - 1] == old(buf[j])
    ensures forall k :: 0 <= k < buf.Length && k != j && k != j - 1 ==> buf[k] == old(buf[k])
    ensures multiset(buf[..n]) == old(multiset(buf[..n]))
  {
    ghost var s := buf[..n];
    buf[j], buf[j - 1] := buf[j - 1], buf[j];
    assert buf[..n] == s[j := s[j - 1]][j - 1 := s[j]];
  }

  /** `mm_sort`: ascending by base, the same entries, nothing else touched. */
  method Sort(buf: array<Entry>, n: nat)
    requires n <= buf.Length
    modifies buf
    ensures SortedByBase(buf[..n])
    ensures multiset(buf[..n]) == old(multiset(buf[..n]))
    ensures forall k :: n <= k < buf.Length ==> buf[k] == old(buf[k])
  {
    var i := 0;
    while i < n
      invariant 0 <= i <= n
      invariant forall a, b :: 0 <= a < b < i ==> buf[a].base <= buf[b].base
      invariant multiset(buf[..n]) == old(multiset(buf[..n]))
      invariant forall k :: n <= k < buf.Length ==> buf[k] == old(buf[k])
    {
      var j := i;
      while j > 0
        invariant 0 <= j <= i
        invariant forall a, b :: 0 <= a < b <= i && b != j ==> buf[a].base <= buf[b].base
        invariant multiset(buf[..n]) == old(multiset(buf[..n]))
        invariant forall k :: n <= k < buf.Length ==> buf[k] == old(buf[k])
      {
        if buf[j - 1].base <= buf[j].base {
          break;
        }
        Swap(buf, n, j);
        j := j - 1;
      }
      i := i + 1;
    }
  }
}
