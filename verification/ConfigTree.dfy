/**
 The flat configuration tree of loader/config.c: entries in pre-order with relative links to the
 next sibling, and the table of last entries by depth that `cfg_emplace` keeps.
 */
module ConfigTree {
  import opened Arith

  const MAX_DEPTH: nat := 16

  datatype Kind = Null | Boolean | Unsigned | Signed | Text | Object

  /** A named section, or a key with a value of some kind; an object's value is what is nested in it. */
  datatype Item = Loadable(key: string) | Value(key: string, kind: Kind, text: string) {
    predicate Container() {
      Loadable? || kind.Object?
    }
  }

  /** `struct config_entry`: `next` is relative, 0 for the last sibling. */
  datatype Entry = Entry(item: Item, next: nat, cfgOff: nat)

  /** An item with its nesting depth. */
  datatype Slot = Slot(depth: nat, item: Item)

  // ----- The nesting tree -----

  /** The tree in first-child, next-sibling form. */
  datatype Forest = Nil | Cons(item: Item, children: Forest, rest: Forest)

  /** Pre-order listing with depths. */
  function Flatten(f: Forest, depth: nat): seq<Slot> {
    match f
    case Nil => []
    case Cons(item, children, rest) => [Slot(depth, item)] + Flatten(children, depth + 1) + Flatten(rest, depth)
  }

  /** What a reader of the array sees: children start at the next slot, siblings follow the links. */
  function Decode(es: seq<Entry>, i: nat): Forest
    requires i < |es|
    decreases |es| - i
  {
    var e := es[i];
    Cons(e.item,
         if e.item.Container() && i + 1 < |es| && es[i + 1].item.Value? then Decode(es, i + 1) else Nil,
         if e.next != 0 && i + e.next < |es| then Decode(es, i + e.next) else Nil)
  }

  lemma {:induction false} FlattenDepths(f: Forest, depth: nat)
    ensures forall s <- Flatten(f, depth) :: s.depth >= depth
    ensures f.Cons? ==> Flatten(f, depth) != [] && Flatten(f, depth)[0] == Slot(depth, f.item)
  {
    if f.Cons? {
      FlattenDepths(f.children, depth + 1);
      FlattenDepths(f.rest, depth);
    }
  }

  /** The listing determines the tree. */
  lemma {:induction false} FlattenInjective(f: Forest, g: Forest, depth: nat)
    requires Flatten(f, depth) == Flatten(g, depth)
    ensures f == g
    decreases f
  {
    FlattenDepths(f, depth);
    FlattenDepths(g, depth);
    if f.Cons? {
      SplitForest(f, g, depth);
      FlattenInjective(f.children, g.children, depth + 1);
      FlattenInjective(f.rest, g.rest, depth);
    }
  }

  lemma SplitForest(f: Forest, g: Forest, depth: nat)
    requires f.Cons? && g.Cons? && Flatten(f, depth) == Flatten(g, depth)
    ensures f.item == g.item
    ensures Flatten(f.children, depth + 1) == Flatten(g.children, depth + 1)
    ensures Flatten(f.rest, depth) == Flatten(g.rest, depth)
  {
    hide Flatten;
    FlattenParts(f, depth);
    FlattenParts(g, depth);
    SplitAtDepth(Flatten(f.children, depth + 1), Flatten(f.rest, depth),
                 Flatten(g.children, depth + 1), Flatten(g.rest, depth), depth);
  }

  lemma FlattenParts(f: Forest, depth: nat)
    requires f.Cons?
    ensures var s, a, b := Flatten(f, depth), Flatten(f.children, depth + 1), Flatten(f.rest, depth);
            && s != [] && s[0] == Slot(depth, f.item) && s[1..] == a + b
            && Deeper(a, depth) && (b != [] ==> b[0].depth == depth)
  {
    FlattenDepths(f.children, depth + 1);
    FlattenDepths(f.rest, depth);
  }

  ghost predicate Deeper(ss: seq<Slot>, depth: nat) {
    forall s <- ss :: s.depth > depth
  }

  lemma FirstAfter(a: seq<Slot>, b: seq<Slot>, c: seq<Slot>, d: seq<Slot>)
    requires a + b == c + d && |a| < |c|
    ensures b != [] && b[0] == c[|a|] && b[0] in c
  {
    assert b[0] == (a + b)[|a|] && c[|a|] == (c + d)[|a|];
  }

  lemma SplitAtDepth(a: seq<Slot>, b: seq<Slot>, c: seq<Slot>, d: seq<Slot>, depth: nat)
    requires a + b == c + d
    requires Deeper(a, depth) && Deeper(c, depth)
    requires b != [] ==> b[0].depth == depth
    requires d != [] ==> d[0].depth == depth
    ensures a == c && b == d
  {
    if |a| < |c| {
      FirstAfter(a, b, c, d);
    } else if |c| < |a| {
      FirstAfter(c, d, a, b);
    }
    assert a == (a + b)[..|a|] && c == (c + d)[..|c|];
    assert b == (a + b)[|a|..] && d == (c + d)[|c|..];
  }

  // ----- Links -----

  /** `j` is the next sibling of `i`: at the same depth, with only deeper slots between. */
  ghost predicate IsNext(ss: seq<Slot>, i: nat, j: nat) {
    && i < j < |ss| && ss[j].depth == ss[i].depth
    && (forall k: nat :: i < k < j ==> ss[k].depth > ss[i].depth)
  }

  /** The entry's link leads to the next sibling, and is 0 exactly when there is none. */
  ghost predicate LinkIs(es: seq<Entry>, ss: seq<Slot>, i: nat)
    requires i < |es|
  {
    if es[i].next == 0 then forall j: nat :: !IsNext(ss, i, j) else IsNext(ss, i, i + es[i].next)
  }

  /** The array holds these slots. */
  ghost predicate Encodes(es: seq<Entry>, ss: seq<Slot>) {
    && |es| == |ss|
    && (forall i: nat :: i < |es| ==> es[i].item == ss[i].item)
    && (forall i: nat :: i < |es| ==> LinkIs(es, ss, i))
    && (forall i: nat :: i < |es| && es[i].item.Value? ==> es[i].cfgOff == i % 65536)
  }

  /** The 16-bit offset kept in a value is its index exactly while no value sits at index 65536 or above. */
  lemma OffsetsExact(es: seq<Entry>, ss: seq<Slot>)
    requires Encodes(es, ss)
    ensures (forall i: nat :: i < |es| && es[i].item.Value? ==> es[i].cfgOff == i)
       <==> (forall i: nat :: 65536 <= i < |es| ==> !es[i].item.Value?)
  {
    forall i: nat | i < |es| && es[i].item.Value?
      ensures es[i].cfgOff == i <==> i < 65536
    {
    }
  }

  /** A list of `n` equal values. */
  function Flat(n: nat, item: Item): seq<Slot> {
    seq(n, i => Slot(0, item))
  }

  function FlatEntries(n: nat, item: Item): seq<Entry> {
    seq(n, i => Entry(item, if i + 1 < n then 1 else 0, i % 65536))
  }

  /** In a list of 65537 values the last one, at index 65536, keeps offset 0. */
  lemma OffsetWrapsExample(item: Item)
    requires item.Value?
    ensures var es := FlatEntries(65537, item);
            Encodes(es, Flat(65537, item)) && es[65536].cfgOff == 0
  {
    var es, ss := FlatEntries(65537, item), Flat(65537, item);
    forall i: nat | i < |es| ensures LinkIs(es, ss, i) {
      if i + 1 < |es| { assert IsNext(ss, i, i + 1); }
    }
  }

  /** A slot is one deeper than the slot before exactly when it is a value first in a container. */
  ghost predicate Follows(prev: Slot, s: Slot) {
    && s.depth <= prev.depth + 1
    && (s.depth == prev.depth + 1 <==> prev.item.Container() && s.item.Value?)
  }

  ghost predicate WellNested(ss: seq<Slot>) {
    && (ss != [] ==> ss[0].depth == 0)
    && (forall i: nat :: i + 1 < |ss| ==> Follows(ss[i], ss[i + 1]))
  }

  /** Slots `lo..hi` are a whole list of siblings with what is nested in them. */
  ghost predicate SiblingList(ss: seq<Slot>, lo: nat, hi: nat) {
    && lo < hi <= |ss|
    && (forall k: nat :: lo <= k < hi ==> ss[k].depth >= ss[lo].depth)
    && (hi < |ss| ==> ss[hi].depth < ss[lo].depth)
  }

  /** Where what is nested in `lo` ends. */
  function SubtreeEnd(es: seq<Entry>, lo: nat, hi: nat): nat
    requires lo < |es|
  {
    if es[lo].next == 0 then hi else lo + es[lo].next
  }

  lemma {:induction false} NoNextMeansDeeper(ss: seq<Slot>, lo: nat, hi: nat, k: nat)
    requires SiblingList(ss, lo, hi) && (forall j: nat :: !IsNext(ss, lo, j))
    requires lo < k <= hi
    ensures forall m: nat :: lo < m < k ==> ss[m].depth > ss[lo].depth
    decreases k
  {
    if k > lo + 1 {
      NoNextMeansDeeper(ss, lo, hi, k - 1);
      assert !IsNext(ss, lo, k - 1);
    }
  }

  /** The first sibling's subtree, and the siblings after it if there are any. */
  lemma SplitSiblings(es: seq<Entry>, ss: seq<Slot>, lo: nat, hi: nat)
    requires Encodes(es, ss) && WellNested(ss) && SiblingList(ss, lo, hi)
    ensures var mid := SubtreeEnd(es, lo, hi);
            && lo < mid <= hi
            && (mid < hi <==> es[lo].next != 0)
            && (mid < hi ==> ss[mid].depth == ss[lo].depth && SiblingList(ss, mid, hi))
            && (if mid == lo + 1 then !(lo + 1 < |es| && es[lo].item.Container() && es[lo + 1].item.Value?)
                else lo + 1 < mid && ss[lo + 1].depth == ss[lo].depth + 1 && SiblingList(ss, lo + 1, mid)
                     && es[lo].item.Container() && es[lo + 1].item.Value?)
  {
    assert LinkIs(es, ss, lo);
    var mid := SubtreeEnd(es, lo, hi);
    if es[lo].next == 0 {
      NoNextMeansDeeper(ss, lo, hi, hi);
    }
    assert lo + 1 < |ss| ==> Follows(ss[lo], ss[lo + 1]);
  }

  /** Reading a whole list of siblings through the links gives back its slots. */
  lemma {:induction false} DecodeFlattens(es: seq<Entry>, ss: seq<Slot>, lo: nat, hi: nat)
    requires Encodes(es, ss) && WellNested(ss) && SiblingList(ss, lo, hi)
    ensures Flatten(Decode(es, lo), ss[lo].depth) == ss[lo..hi]
    decreases hi - lo
  {
    hide Encodes, WellNested, SiblingList;
    ListInRange(es, ss, lo, hi);
    var mid, d := SubtreeEnd(es, lo, hi), ss[lo].depth;
    SplitSiblings(es, ss, lo, hi);
    var f := Decode(es, lo);
    assert Flatten(f.children, d + 1) == ss[lo + 1..mid] by {
      if mid > lo + 1 { DecodeFlattens(es, ss, lo + 1, mid); }
    }
    assert Flatten(f.rest, d) == ss[mid..hi] by {
      if mid < hi { DecodeFlattens(es, ss, mid, hi); }
    }
    assert ss[lo..hi] == [ss[lo]] + ss[lo + 1..mid] + ss[mid..hi];
  }

  lemma ListInRange(es: seq<Entry>, ss: seq<Slot>, lo: nat, hi: nat)
    requires Encodes(es, ss) && SiblingList(ss, lo, hi)
    ensures lo < hi <= |ss| == |es| && es[lo].item == ss[lo].item
  {
  }

  /** The array encodes the nesting tree: reading it gives the one tree whose listing is the slots. */
  lemma ArrayIsTree(es: seq<Entry>, ss: seq<Slot>)
    requires Encodes(es, ss) && WellNested(ss) && ss != []
    ensures Flatten(Decode(es, 0), 0) == ss
    ensures forall f :: Flatten(f, 0) == ss ==> f == Decode(es, 0)
  {
    assert SiblingList(ss, 0, |ss|);
    DecodeFlattens(es, ss, 0, |ss|);
    forall f | Flatten(f, 0) == ss
      ensures f == Decode(es, 0)
    {
      FlattenInjective(f, Decode(es, 0), 0);
    }
  }

  // ----- Emplacing -----

  /** `p` is the last slot at this depth, with only deeper slots after it. */
  ghost predicate IsLast(ss: seq<Slot>, depth: nat, p: nat) {
    && p < |ss| && ss[p].depth == depth
    && (forall k: nat :: p < k < |ss| ==> ss[k].depth > depth)
  }

  /** A new slot is the next sibling of the last slot at its depth, and of nothing else. */
  lemma NextGrows(ss: seq<Slot>, s: Slot, i: nat, j: nat)
    ensures IsNext(ss + [s], i, j) <==> IsNext(ss, i, j) || (j == |ss| && IsLast(ss, s.depth, i))
  {
    var ss' := ss + [s];
    if i < |ss| && j <= |ss| {
      assert forall k: nat :: k < |ss| ==> ss'[k] == ss[k];
    }
  }

  lemma LastUnique(ss: seq<Slot>, depth: nat, p: nat, q: nat)
    requires IsLast(ss, depth, p) && IsLast(ss, depth, q)
    ensures p == q
  {
  }

  /** The links once a slot is added, where `p` is the last slot at its depth. */
  function WithEntry(es: seq<Entry>, item: Item, p: Option<nat>): seq<Entry>
    requires p.Some? ==> p.value < |es|
  {
    var new_ := Entry(item, 0, if item.Value? then |es| % 65536 else 0);
    match p
    case None => es + [new_]
    case Some(i) => es[i := es[i].(next := |es| - i)] + [new_]
  }

  lemma EntryAdded(es: seq<Entry>, ss: seq<Slot>, s: Slot, p: Option<nat>)
    requires Encodes(es, ss)
    requires match p case Some(i) => IsLast(ss, s.depth, i) case None => forall i: nat :: !IsLast(ss, s.depth, i)
    ensures Encodes(WithEntry(es, s.item, p), ss + [s])
  {
    var es', ss' := WithEntry(es, s.item, p), ss + [s];
    forall i: nat | i < |es'|
      ensures LinkIs(es', ss', i)
    {
      LinkAdded(es, ss, s, p, i);
    }
  }

  lemma LinkAdded(es: seq<Entry>, ss: seq<Slot>, s: Slot, p: Option<nat>, i: nat)
    requires Encodes(es, ss) && i <= |es|
    requires match p case Some(q) => IsLast(ss, s.depth, q) case None => forall q: nat :: !IsLast(ss, s.depth, q)
    ensures LinkIs(WithEntry(es, s.item, p), ss + [s], i)
  {
    hide IsNext;
    var es', ss' := WithEntry(es, s.item, p), ss + [s];
    if i == |es| {
      forall j: nat ensures !IsNext(ss', i, j) { NothingAfter(ss', i, j); }
    } else if p == Some(i) {
      NextGrows(ss, s, i, |ss|);
    } else {
      assert LinkIs(es, ss, i);
      assert !IsLast(ss, s.depth, i) by {
        if p.Some? && IsLast(ss, s.depth, i) { LastUnique(ss, s.depth, i, p.value); }
      }
      forall j: nat ensures IsNext(ss', i, j) <==> IsNext(ss, i, j) { NextGrows(ss, s, i, j); }
    }
  }

  lemma NothingAfter(ss: seq<Slot>, i: nat, j: nat)
    requires i + 1 == |ss|
    ensures !IsNext(ss, i, j)
  {
  }

  /** Entry `d` is one past the last slot at depth `d`, or 0 beyond the last slot's depth. */
  ghost predicate TableIs(t: seq<nat>, ss: seq<Slot>) {
    && |t| == MAX_DEPTH
    && (forall d: nat :: d < MAX_DEPTH ==>
          if t[d] == 0 then ss == [] || d > ss[|ss| - 1].depth else IsLast(ss, d, t[d] - 1))
  }

  /** The table after a slot is added: its depth points at it, and deeper ones are cleared. */
  ghost predicate TableStep(t: seq<nat>, t': seq<nat>, depth: nat, n: nat) {
    && |t| == |t'| == MAX_DEPTH
    && (forall d: nat :: d < MAX_DEPTH ==> t'[d] == if d < depth then t[d] else if d == depth then n + 1 else 0)
  }

  lemma TableGrows(t: seq<nat>, t': seq<nat>, ss: seq<Slot>, s: Slot)
    requires TableIs(t, ss) && TableStep(t, t', s.depth, |ss|)
    requires if ss == [] then s.depth == 0 else s.depth <= ss[|ss| - 1].depth + 1
    ensures TableIs(t', ss + [s])
  {
    var ss' := ss + [s];
    forall d: nat | d < MAX_DEPTH
      ensures if t'[d] == 0 then d > s.depth else IsLast(ss', d, t'[d] - 1)
    {
      assert d < s.depth ==> t[d] != 0 && IsLast(ss, d, t[d] - 1);
    }
  }

  /** No entry of the table says that no slot at this depth could be last. */
  lemma NoLast(t: seq<nat>, ss: seq<Slot>, d: nat)
    requires TableIs(t, ss) && d < MAX_DEPTH && t[d] == 0
    ensures forall p: nat :: !IsLast(ss, d, p)
  {
    forall p: nat
      ensures !IsLast(ss, d, p)
    {
      if p + 1 < |ss| { assert ss[|ss| - 1].depth < d; }
    }
  }

  /** Sections are at the top, after all top-level values; `first` and `last` are one past the outermost ones. */
  ghost predicate SectionsAre(ss: seq<Slot>, first: nat, last: nat) {
    && (forall i: nat :: i < |ss| && ss[i].item.Loadable? ==> ss[i].depth == 0 && 0 < first <= i + 1 <= last)
    && (first == 0 <==> last == 0)
    && (first > 0 ==> first <= last <= |ss| && ss[first - 1].item.Loadable? && ss[last - 1].item.Loadable?)
    && (forall i: nat :: 0 < first <= i < |ss| && ss[i].depth == 0 ==> ss[i].item.Loadable?)
  }

  /** What the parser's rules say of the next slot. */
  ghost predicate MayFollow(ss: seq<Slot>, s: Slot, sections: bool) {
    && s.depth < MAX_DEPTH
    && (if ss == [] then s.depth == 0 else Follows(ss[|ss| - 1], s))
    && (s.item.Loadable? ==> s.depth == 0)
    && (s.item.Value? && s.depth == 0 ==> !sections)
  }

  lemma NestingGrows(ss: seq<Slot>, s: Slot, sections: bool)
    requires WellNested(ss) && MayFollow(ss, s, sections)
    ensures WellNested(ss + [s])
  {
    var ss' := ss + [s];
    forall i: nat | i + 1 < |ss'|
      ensures Follows(ss'[i], ss'[i + 1])
    {
      if i + 1 < |ss| { assert Follows(ss[i], ss[i + 1]); }
    }
  }

  lemma SectionsGrow(ss: seq<Slot>, s: Slot, first: nat, last: nat, first': nat, last': nat)
    requires SectionsAre(ss, first, last) && MayFollow(ss, s, first > 0)
    requires if s.item.Loadable? then first' == (if first == 0 then |ss| + 1 else first) && last' == |ss| + 1
             else first' == first && last' == last
    ensures SectionsAre(ss + [s], first', last')
  {
  }

  /** `struct config` with the parser's depth table. */
  class Config {
    var entries: seq<Entry>
    const table: array<nat>
    var firstLoadable: nat
    var lastLoadable: nat
    /** What was emplaced, in order. */
    ghost var slots: seq<Slot>

    ghost predicate Valid()
      reads this, table
    {
      && Encodes(entries, slots) && WellNested(slots)
      && TableIs(table[..], slots) && SectionsAre(slots, firstLoadable, lastLoadable)
    }

    constructor ()
      ensures Valid() && slots == [] && fresh(table)
    {
      entries, slots, firstLoadable, lastLoadable := [], [], 0, 0;
      table := new nat[MAX_DEPTH](_ => 0);
    }

    /** The depth table's part of `cfg_emplace`: the clearing loop stops at the first depth not in use. */
    method SetDepth(depth: nat)
      requires table.Length == MAX_DEPTH && depth < MAX_DEPTH && entries != []
      requires forall d: nat, e: nat :: depth < d < e < MAX_DEPTH && table[d] == 0 ==> table[e] == 0
      modifies table
      ensures TableStep(old(table[..]), table[..], depth, |entries| - 1)
    {
      table[depth] := |entries|;
      var i := depth + 1;
      while i < MAX_DEPTH && table[i] != 0
        invariant depth < i <= MAX_DEPTH
        invariant forall d: nat :: d < MAX_DEPTH ==>
                    table[d] == if d == depth then |entries| else if depth < d < i then 0 else old(table[d])
      {
        table[i] := 0;
        i := i + 1;
      }
    }

    /** `cfg_emplace`, for a slot the parser's depth rules allow. */
    method Emplace(item: Item, depth: nat)
      requires Valid() && MayFollow(slots, Slot(depth, item), firstLoadable > 0)
      modifies this, table
      ensures Valid() && slots == old(slots) + [Slot(depth, item)]
      ensures firstLoadable > 0 <==> old(firstLoadable) > 0 || item.Loadable?
    {
      hide Encodes, WellNested, IsLast, SectionsAre;
      ghost var s := Slot(depth, item);
      EncodedLength(entries, slots);
      var n := |entries|;
      var p := if table[depth] != 0 then Some(table[depth] - 1) else None;
      LastOfTable(table[..], slots, depth);
      EntryAdded(entries, slots, s, p);
      NestingGrows(slots, s, firstLoadable > 0);
      ghost var first, last, t := firstLoadable, lastLoadable, table[..];
      ClearedAbove(table[..], slots);
      entries := entries + [Entry(item, 0, if item.Value? then n % 65536 else 0)];
      if item.Loadable? {
        if firstLoadable == 0 {
          firstLoadable := |entries|;
        }
        lastLoadable := |entries|;
      }
      if table[depth] != 0 {
        var oldIdx := table[depth] - 1;
        entries := entries[oldIdx := entries[oldIdx].(next := (|entries| - 1) - oldIdx)];
      }
      assert entries == WithEntry(old(entries), item, p);
      SetDepth(depth);
      SectionsGrow(slots, s, first, last, firstLoadable, lastLoadable);
      TableGrows(t, table[..], slots, s);
      slots := slots + [s];
    }

    /** `cfg_next_entry`. */
    function NextEntry(i: nat): Option<nat>
      requires i < |entries|
      reads this
    {
      if entries[i].next == 0 then None else Some(i + entries[i].next)
    }

    lemma EntriesLinked(i: nat)
      requires Valid() && i < |entries|
      ensures i + entries[i].next < |entries|
    {
      LinkInRange(entries, slots, i);
    }

    /**
     `cfg_find`: the first match among the siblings from `offset` on, the last one looked at, and
     their number up to `max`.
     */
    method Find(offset: nat, key: string, max: nat) returns (first: nat, last: nat, count: nat)
      requires Valid() && offset < |entries|
      ensures Finds(Matches(entries, offset, key), max, first, last, count)
    {
      hide Matches, Finds, Searched, Config.Valid;
      ghost var seen: seq<nat> := [];
      first, last, count := 0, 0, 0;
      NoneSearched(entries, offset, key);
      var i := offset;
      while true
        invariant i < |entries| && Searched(entries, offset, key, i, seen, first, last)
        invariant count == |seen| && (count == 0 || count < max)
        decreases |entries| - i
      {
        SearchStep(entries, offset, key, i, seen, first, last, max);
        if entries[i].item.Loadable? {
          return;
        }
        if entries[i].item.key == key {
          last := i;
          if count == 0 {
            first := i;
          }
          count := count + 1;
          seen := seen + [i];
          if count >= max {
            return;
          }
        }
        if entries[i].next == 0 {
          return;
        }
        EntriesLinked(i);
        i := i + entries[i].next;
      }
    }

    /** `cfg_get_loadable_entry`: the first section with this name, over the whole configuration. */
    method GetLoadableEntry(key: string) returns (r: Option<nat>)
      requires Valid()
      ensures match r
              case Some(i) =>
                i < |slots| && slots[i].item == Loadable(key)
                && (forall j: nat :: j < i ==> slots[j].item != Loadable(key))
              case None => forall s <- slots :: s.item != Loadable(key)
    {
      hide WellNested, TableIs;
      if firstLoadable == 0 {
        return None;
      }
      var i := firstLoadable - 1;
      while true
        invariant i < |entries| && slots[i].item.Loadable?
        invariant forall j: nat :: j < i ==> slots[j].item != Loadable(key)
        decreases |entries| - i
      {
        assert LinkIs(entries, slots, i);
        if entries[i].item.key == key {
          return Some(i);
        }
        var next := NextEntry(i);
        if next.None? {
          NoMoreSections(slots, firstLoadable, lastLoadable, i);
          return None;
        }
        i := next.value;
      }
    }

    /**
     `cfg_get_next_one_of`: the next sibling with the same key and a type in `mask`. A section's
     value is zeroed, and a zero type passes every mask.
     */
    method GetNextOneOf(i: nat, mask: set<Kind>, oops: bool) returns (r: NextResult)
      requires Valid() && i < |entries|
      ensures match r
              case Next(j) => NextHit(slots, i, j, mask) && (oops ==> NextNamed(slots, i, j))
              case Oops(j) => oops && NextNamed(slots, i, j) && !OfType(slots[j].item, mask)
              case NoMore => forall j: nat :: !NextHit(slots, i, j, mask)
    {
      hide WellNested, TableIs, SectionsAre, OfType;
      var at := i;
      while true
        invariant i <= at < |entries| && SameList(slots, i, at)
        invariant forall j: nat :: i < j <= at && SameList(slots, i, j) && slots[j].item.key == slots[i].item.key ==>
                    !oops && !OfType(slots[j].item, mask)
        decreases |entries| - at
      {
        assert LinkIs(entries, slots, at);
        var next := NextEntry(at);
        if next.None? {
          forall j: nat ensures !NextHit(slots, i, j, mask) { if j > at { EndOfList(slots, i, at, j); } }
          return NoMore;
        }
        forall j: nat | j > at
          ensures SameList(slots, i, j) ==> j >= next.value
        {
          ListSteps(slots, i, at, next.value, j);
        }
        ListSteps(slots, i, at, next.value, next.value);
        at := next.value;
        if entries[at].item.key == entries[i].item.key {
          if OfType(entries[at].item, mask) {
            return Next(at);
          }
          if oops {
            return Oops(at);
          }
        }
      }
    }
  }

  // ----- Following links -----

  /** The slots a walk along the links visits. */
  function Siblings(es: seq<Entry>, i: nat): seq<nat>
    requires i < |es|
    decreases |es| - i
  {
    [i] + if es[i].next != 0 && i + es[i].next < |es| then Siblings(es, i + es[i].next) else []
  }

  /** `j` is in the list of siblings that `i` is in, at or after it. */
  ghost predicate SameList(ss: seq<Slot>, i: nat, j: nat) {
    && i <= j < |ss| && ss[j].depth == ss[i].depth
    && (forall k: nat :: i < k < j ==> ss[k].depth >= ss[i].depth)
  }

  ghost predicate IsChild(ss: seq<Slot>, p: nat, j: nat) {
    && p < j < |ss| && ss[j].depth == ss[p].depth + 1
    && (forall k: nat :: p < k < j ==> ss[k].depth > ss[p].depth)
  }

  ghost predicate Increasing(s: seq<nat>) {
    forall a: nat, b: nat :: a < b < |s| ==> s[a] < s[b]
  }

  lemma ListSteps(ss: seq<Slot>, i: nat, at: nat, next: nat, j: nat)
    requires SameList(ss, i, at) && IsNext(ss, at, next) && j > at
    ensures SameList(ss, i, next)
    ensures SameList(ss, i, j) <==> SameList(ss, next, j)
  {
  }

  lemma EndOfList(ss: seq<Slot>, i: nat, at: nat, j: nat)
    requires SameList(ss, i, at) && j > at && (forall k: nat :: !IsNext(ss, at, k))
    ensures !SameList(ss, i, j)
  {
    if SameList(ss, i, j) {
      SiblingAfter(ss, at, j);
    }
  }

  lemma {:induction false} SiblingAfter(ss: seq<Slot>, i: nat, j: nat)
    requires SameList(ss, i, j) && i < j
    ensures exists k: nat :: IsNext(ss, i, k)
    decreases j
  {
    if !IsNext(ss, i, j) {
      var k: nat :| i < k < j && ss[k].depth <= ss[i].depth;
      SiblingAfter(ss, i, k);
    }
  }

  /** A walk along the links visits exactly the later siblings, in order. */
  lemma {:induction false} SiblingsListed(es: seq<Entry>, ss: seq<Slot>, i: nat)
    requires Encodes(es, ss) && i < |es|
    ensures Increasing(Siblings(es, i)) && Siblings(es, i)[0] == i
    ensures forall j: nat :: j in Siblings(es, i) <==> SameList(ss, i, j)
    decreases |es| - i
  {
    assert LinkIs(es, ss, i);
    var l := Siblings(es, i);
    if es[i].next == 0 {
      forall j: nat ensures j in l <==> SameList(ss, i, j) {
        if j > i { EndOfList(ss, i, i, j); }
      }
    } else {
      var n := i + es[i].next;
      SiblingsListed(es, ss, n);
      forall j: nat ensures j in l <==> SameList(ss, i, j) {
        if j > i { ListSteps(ss, i, i, n, j); }
      }
    }
  }

  /** From the slot after a container, the walk lists exactly its children, in order. */
  lemma ChildrenListed(es: seq<Entry>, ss: seq<Slot>, p: nat)
    requires Encodes(es, ss) && WellNested(ss) && p + 1 < |es|
    requires es[p].item.Container() && es[p + 1].item.Value?
    ensures Increasing(Siblings(es, p + 1))
    ensures forall j: nat :: j in Siblings(es, p + 1) <==> IsChild(ss, p, j)
  {
    SiblingsListed(es, ss, p + 1);
    assert Follows(ss[p], ss[p + 1]);
    forall j: nat ensures SameList(ss, p + 1, j) <==> IsChild(ss, p, j) {
    }
  }

  function Hit(es: seq<Entry>, i: nat, key: string): seq<nat>
    requires i < |es|
  {
    if es[i].item.Value? && es[i].item.key == key then [i] else []
  }

  /** The slots `cfg_find` counts: siblings with the key, up to the first section. */
  function Matches(es: seq<Entry>, i: nat, key: string): seq<nat>
    requires i < |es|
    decreases |es| - i
  {
    Hit(es, i, key)
    + if es[i].item.Value? && es[i].next != 0 && i + es[i].next < |es| then Matches(es, i + es[i].next, key) else []
  }

  /** What is left of the matches after slot `i`. */
  lemma NextMatches(es: seq<Entry>, i: nat, key: string, all: seq<nat>, seen: seq<nat>) returns (rest: seq<nat>)
    requires i < |es| && all == seen + Matches(es, i, key)
    ensures if es[i].item.Value? && es[i].item.key == key then all == seen + [i] + rest else all == seen + rest
    ensures rest
         == if es[i].item.Value? && es[i].next != 0 && i + es[i].next < |es|
            then Matches(es, i + es[i].next, key) else []
  {
    hide Matches, Hit;
    MatchesUnfold(es, i, key);
    var n := i + es[i].next;
    rest := if es[i].item.Value? && es[i].next != 0 && n < |es| then Matches(es, n, key) else [];
    Regroup(seen, Hit(es, i, key), rest);
  }

  lemma Regroup(a: seq<nat>, b: seq<nat>, c: seq<nat>)
    ensures a + (b + c) == a + b + c && (b == [] ==> a + (b + c) == a + c)
  {
    if b == [] { assert b + c == c; }
  }

  /** First and last of the matches looked at, 0 without any. */
  ghost predicate Ends(seen: seq<nat>, first: nat, last: nat) {
    if seen == [] then first == last == 0 else first == seen[0] && last == seen[|seen| - 1]
  }

  /** The result of a search that stops at `max` matches: their number, the first and the last one counted. */
  ghost predicate Finds(m: seq<nat>, max: nat, first: nat, last: nat, count: nat) {
    count == Min(|m|, Max(max, 1)) && Ends(m[..count], first, last)
  }

  /** Before slot `i` the matches `seen` were met. */
  ghost predicate Searched(es: seq<Entry>, offset: nat, key: string, i: nat, seen: seq<nat>, first: nat, last: nat)
    requires offset < |es| && i < |es|
  {
    Matches(es, offset, key) == seen + Matches(es, i, key) && Ends(seen, first, last)
  }

  lemma NoneSearched(es: seq<Entry>, offset: nat, key: string)
    requires offset < |es|
    ensures Searched(es, offset, key, offset, [], 0, 0)
  {
    assert [] + Matches(es, offset, key) == Matches(es, offset, key);
  }

  /** One slot of the search: where it may stop, and where it goes on. */
  lemma SearchStep(es: seq<Entry>, offset: nat, key: string, i: nat, seen: seq<nat>, first: nat, last: nat, max: nat)
    requires offset < |es| && i < |es| && Searched(es, offset, key, i, seen, first, last)
    requires seen == [] || |seen| < max
    ensures es[i].item.Loadable? ==> Finds(Matches(es, offset, key), max, first, last, |seen|)
    ensures var hit := es[i].item.Value? && es[i].item.key == key;
            var seen' := if hit then seen + [i] else seen;
            var first', last' := if hit && seen == [] then i else first, if hit then i else last;
            && (hit && |seen'| >= max ==> Finds(Matches(es, offset, key), max, first', last', |seen'|))
            && (es[i].item.Value? && es[i].next == 0 ==> Finds(Matches(es, offset, key), max, first', last', |seen'|))
            && (es[i].item.Value? && es[i].next != 0 && i + es[i].next < |es| ==>
                  Searched(es, offset, key, i + es[i].next, seen', first', last'))
  {
    hide Matches, Finds, Ends, Hit;
    var all := Matches(es, offset, key);
    var rest := NextMatches(es, i, key, all, seen);
    var hit := es[i].item.Value? && es[i].item.key == key;
    if hit { OneFound(seen, first, last, i); }
    var seen' := if hit then seen + [i] else seen;
    var first', last' := if hit && seen == [] then i else first, if hit then i else last;
    if rest == [] || (hit && |seen'| >= max) {
      Conclude(all, seen', rest, max, first', last');
    }
  }

  lemma OneFound(seen: seq<nat>, first: nat, last: nat, i: nat)
    requires Ends(seen, first, last)
    ensures Ends(seen + [i], if seen == [] then i else first, i)
  {
  }

  lemma Conclude(all: seq<nat>, seen: seq<nat>, rest: seq<nat>, max: nat, first: nat, last: nat)
    requires all == seen + rest && Ends(seen, first, last)
    requires if rest == [] then |seen| <= Max(max, 1) else |seen| == Max(max, 1)
    ensures Finds(all, max, first, last, |seen|)
  {
    assert all[..|seen|] == seen;
  }

  /** They are all the values with the key in the list, each once and in order. */
  lemma {:induction false} MatchesAre(es: seq<Entry>, ss: seq<Slot>, first: nat, last: nat, i: nat, key: string, j: nat)
    requires Encodes(es, ss) && SectionsAre(ss, first, last) && i < |es|
    ensures Increasing(Matches(es, i, key))
    ensures j in Matches(es, i, key) <==> SameList(ss, i, j) && ss[j].item.Value? && ss[j].item.key == key
    decreases |es| - i
  {
    hide SectionsAre, SameList, IsNext, Increasing, Matches, Hit;
    MatchesOrdered(es, i, key);
    MatchesUnfold(es, i, key);
    assert LinkIs(es, ss, i) && es[i].item == ss[i].item;
    AtStart(ss, i, j);
    if es[i].item.Loadable? {
      AfterSection(ss, first, last, i, j);
    } else if es[i].next == 0 {
      if j > i { EndOfList(ss, i, i, j); }
    } else {
      var n := i + es[i].next;
      NextInRange(ss, i, n);
      MatchesAre(es, ss, first, last, n, key, j);
      if j > i { ListSteps(ss, i, i, n, j); }
    }
  }

  lemma {:induction false} MatchesOrdered(es: seq<Entry>, i: nat, key: string)
    requires i < |es|
    ensures Increasing(Matches(es, i, key)) && From(Matches(es, i, key), i)
    decreases |es| - i
  {
    hide Increasing, From, Matches, Hit;
    var n := i + es[i].next;
    MatchesUnfold(es, i, key);
    if es[i].item.Value? && es[i].next != 0 && n < |es| {
      MatchesOrdered(es, n, key);
      IncreasingCons(i, n, Hit(es, i, key), Matches(es, n, key));
    } else {
      NothingIncreasing(i + 1);
      IncreasingCons(i, i + 1, Hit(es, i, key), []);
    }
  }

  lemma MatchesUnfold(es: seq<Entry>, i: nat, key: string)
    requires i < |es|
    ensures var n := i + es[i].next;
            Matches(es, i, key) == Hit(es, i, key)
              + if es[i].item.Value? && es[i].next != 0 && n < |es| then Matches(es, n, key) else []
    ensures Hit(es, i, key) == if es[i].item.Value? && es[i].item.key == key then [i] else []
  {
  }

  lemma NothingIncreasing(n: nat)
    ensures Increasing([]) && From([], n)
  {
  }

  ghost predicate From(s: seq<nat>, i: nat) {
    forall k: nat :: k < |s| ==> s[k] >= i
  }

  lemma IncreasingCons(i: nat, n: nat, a: seq<nat>, b: seq<nat>)
    requires i < n && (a == [] || a == [i]) && Increasing(b) && From(b, n)
    ensures Increasing(a + b) && From(a + b, i)
  {
    assert a + b == if a == [] then b else [i] + b;
  }

  lemma NextInRange(ss: seq<Slot>, i: nat, n: nat)
    requires IsNext(ss, i, n)
    ensures i < n < |ss|
  {
  }

  lemma AtStart(ss: seq<Slot>, i: nat, j: nat)
    requires i < |ss|
    ensures SameList(ss, i, i) && (SameList(ss, i, j) ==> i <= j < |ss|)
  {
  }

  lemma AfterSection(ss: seq<Slot>, first: nat, last: nat, i: nat, j: nat)
    requires SectionsAre(ss, first, last) && i < |ss| && ss[i].item.Loadable?
    ensures SameList(ss, i, j) ==> ss[j].item.Loadable?
  {
  }

  lemma NoMoreSections(ss: seq<Slot>, first: nat, last: nat, i: nat)
    requires SectionsAre(ss, first, last) && i < |ss| && ss[i].item.Loadable? && (forall j: nat :: !IsNext(ss, i, j))
    ensures forall j: nat :: i < j < |ss| ==> !ss[j].item.Loadable?
  {
    forall j: nat | i < j < |ss| && ss[j].item.Loadable?
      ensures false
    {
      EndOfList(ss, i, i, j);
    }
  }

  datatype NextResult = Next(index: nat) | Oops(index: nat) | NoMore

  /** `is_of_type` on an entry's value. */
  predicate OfType(item: Item, mask: set<Kind>) {
    item.Loadable? || item.kind in mask
  }

  /** `j` is a later sibling of `i` with its key. */
  ghost predicate Named(ss: seq<Slot>, i: nat, j: nat) {
    SameList(ss, i, j) && i < j && ss[j].item.key == ss[i].item.key
  }

  ghost predicate NextNamed(ss: seq<Slot>, i: nat, j: nat) {
    Named(ss, i, j) && forall k: nat :: k < j ==> !Named(ss, i, k)
  }

  ghost predicate NextHit(ss: seq<Slot>, i: nat, j: nat, mask: set<Kind>) {
    && Named(ss, i, j) && OfType(ss[j].item, mask)
    && (forall k: nat :: k < j && Named(ss, i, k) ==> !OfType(ss[k].item, mask))
  }

  /** Some later value has the key and a type in the mask. */
  ghost predicate HasValue(ss: seq<Slot>, i: nat, mask: set<Kind>) {
    exists j: nat :: Named(ss, i, j) && ss[j].item.Value? && ss[j].item.kind in mask
  }

  /**
   The search for a next value strays into a section exactly at the top level, when a section has
   the key and no later value answers.
   */
  lemma StraysIntoSection(ss: seq<Slot>, first: nat, last: nat, i: nat, j: nat, mask: set<Kind>)
    requires SectionsAre(ss, first, last) && i < |ss| && ss[i].item.Value? && NextHit(ss, i, j, mask)
    ensures ss[j].item.Loadable? <==> !HasValue(ss, i, mask)
    ensures ss[j].item.Loadable? ==> ss[i].depth == 0
  {
    if ss[j].item.Loadable? {
      forall k: nat | Named(ss, i, k) && ss[k].item.Value? && ss[k].item.kind in mask
        ensures false
      {
        AfterSection(ss, first, last, j, k);
      }
    }
  }

  lemma StrayExample()
    ensures var ss := [Slot(0, Value("a", Text, "x")), Slot(0, Loadable("a")), Slot(1, Value("k", Text, "y"))];
            WellNested(ss) && SectionsAre(ss, 2, 2) && NextHit(ss, 0, 1, {Text})
  {
    var ss := [Slot(0, Value("a", Text, "x")), Slot(0, Loadable("a")), Slot(1, Value("k", Text, "y"))];
    assert Named(ss, 0, 1);
  }

  lemma LinkInRange(es: seq<Entry>, ss: seq<Slot>, i: nat)
    requires Encodes(es, ss) && i < |es|
    ensures i + es[i].next < |es|
  {
    assert LinkIs(es, ss, i);
  }

  lemma EncodedLength(es: seq<Entry>, ss: seq<Slot>)
    requires Encodes(es, ss)
    ensures |es| == |ss|
  {
  }

  lemma LastOfTable(t: seq<nat>, ss: seq<Slot>, d: nat)
    requires TableIs(t, ss) && d < MAX_DEPTH
    ensures if t[d] == 0 then forall p: nat :: !IsLast(ss, d, p) else t[d] <= |ss| && IsLast(ss, d, t[d] - 1)
  {
    if t[d] == 0 { NoLast(t, ss, d); }
  }

  lemma ClearedAbove(t: seq<nat>, ss: seq<Slot>)
    requires TableIs(t, ss)
    ensures forall d: nat, e: nat :: d < e < MAX_DEPTH && t[d] == 0 ==> t[e] == 0
  {
  }
}
