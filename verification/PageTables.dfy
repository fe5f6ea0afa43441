/**
 The table tree of the page-table builder (loader/virtual_memory.c): entries, walks along slot
 indices, and what linking a table or filling leaf slots does to every walk.
 */
module PageTables {
  import opened Arith

  /** Entry layout. On AArch64 the leaf attributes (access flag, shareability) are fixed per boot. */
  datatype Arch = X86 | Aarch64(attributes: nat)

  /**
   The constants of one `struct page_table`. `entryBits` is 8 times the slot width;
   `maskBits` is the upper bound of the address field in an entry.
   */
  datatype Format = Format(arch: Arch, levels: nat, width: nat, entryBits: nat, maskBits: nat)

  ghost predicate ValidFormat(f: Format) {
    && 2 <= f.levels <= 6
    && 1 <= f.width
    && 12 <= f.maskBits
    && 12 <= f.entryBits
    && (f.arch.Aarch64? ==> 4 <= f.width && f.arch.attributes < 16)
  }

  datatype PageKind = Normal | Huge

  // ----- Entries -----

  function TableFlags(f: Format): nat {
    match f.arch
    case X86 => 3
    case Aarch64(attributes) => 3 + 256 * attributes
  }

  function LeafFlags(f: Format, kind: PageKind): nat {
    match f.arch
    case X86 => if kind.Huge? then 131 else 3
    case Aarch64(attributes) => (if kind.Huge? then 1 else 3) + 256 * attributes
  }

  predicate Present(e: nat) {
    e % 2 == 1
  }

  predicate IsHuge(f: Format, e: nat) {
    match f.arch
    case X86 => (e / 128) % 2 == 1
    case Aarch64(_) => (e / 2) % 2 == 0
  }

  function Address(f: Format, e: nat): nat {
    AlignDown(e % Pow2(f.maskBits), PAGE_SIZE)
  }

  /** A write to a slot keeps only as many bits as the slot has. */
  function Stored(f: Format, e: nat): nat {
    e % Pow2(f.entryBits)
  }

  function AddressBits(f: Format): nat {
    Min(f.entryBits, f.maskBits)
  }

  /** Present, and pointing at a lower-level table. */
  predicate IsLink(f: Format, e: nat) {
    Present(e) && !IsHuge(f, e)
  }

  lemma FlagsBelowPage(p: nat, flags: nat, m: nat)
    requires p % PAGE_SIZE == 0 && flags < PAGE_SIZE && m >= 12
    ensures (p + flags) % Pow2(m) == p % Pow2(m) + flags
    ensures (p % Pow2(m)) % PAGE_SIZE == 0
  {
    hide Pow2;
    Pow2Twelve();
    Pow2Add(12, m - 12);
    DivPow2(p, 12, m - 12);
    var q := (p / Pow2(12)) % Pow2(m - 12);
    MulMonotone(q + 1, Pow2(m - 12), PAGE_SIZE);
    assert p % Pow2(m) == q * PAGE_SIZE;
    DivAddUnits(0, q, PAGE_SIZE);
    DivModRebuild(p, Pow2(m));
    DivModUnique(p + flags, Pow2(m), p / Pow2(m), p % Pow2(m) + flags);
  }

  lemma FlagBits(f: Format, e: nat, flags: nat)
    requires flags < PAGE_SIZE && e % PAGE_SIZE == flags
    ensures Present(e) == Present(flags) && IsHuge(f, e) == IsHuge(f, flags)
  {
    var q := e / PAGE_SIZE;
    DivAddUnits(flags, 32 * q, 128);
    DivAddUnits(flags / 128, 16 * q, 2);
    DivAddUnits(flags, 2048 * q, 2);
    DivAddUnits(flags / 2, 1024 * q, 2);
  }

  /** Flags survive a slot write, and the address read back is the address that fits the entry. */
  lemma EntryRoundTrip(f: Format, p: nat, flags: nat)
    requires ValidFormat(f)
    requires p % PAGE_SIZE == 0 && flags < PAGE_SIZE
    ensures var e := Stored(f, p + flags);
            && Present(e) == Present(flags)
            && IsHuge(f, e) == IsHuge(f, flags)
            && Address(f, e) == p % Pow2(AddressBits(f))
  {
    hide Pow2, Present, IsHuge;
    var e, m := Stored(f, p + flags), AddressBits(f);
    FlagsBelowPage(p, flags, f.entryBits);
    FlagsBelowPage(p, flags, m);
    DropFlags(p % Pow2(f.entryBits), flags);
    DropFlags(p % Pow2(m), flags);
    FlagBits(f, e, flags);
    MaskedEntry(f, p + flags);
  }

  lemma DropFlags(x: nat, flags: nat)
    requires x % PAGE_SIZE == 0 && flags < PAGE_SIZE
    ensures (x + flags) % PAGE_SIZE == flags && AlignDown(x + flags, PAGE_SIZE) == x
  {
    DivAddUnits(flags, x / PAGE_SIZE, PAGE_SIZE);
  }

  /** Truncating to the slot and then masking keeps the smaller number of bits. */
  lemma MaskedEntry(f: Format, x: nat)
    ensures Stored(f, x) % Pow2(f.maskBits) == x % Pow2(AddressBits(f))
  {
    hide Pow2;
    if f.entryBits < f.maskBits {
      Pow2Monotone(f.entryBits, f.maskBits);
      DivModUnique(Stored(f, x), Pow2(f.maskBits), 0, Stored(f, x));
    } else {
      ModModPow2(x, f.maskBits, f.entryBits);
    }
  }

  // ----- The tree -----

  type Tables = map<nat, seq<nat>>
  type Places = map<nat, seq<nat>>

  /** A present leaf entry, and the level of the table that holds it. */
  datatype Found = Found(entry: nat, level: nat)

  /** Follows slot indices down from `table`, one per level, to a leaf entry. */
  function Walk(f: Format, tables: Tables, table: nat, path: seq<nat>): Option<Found>
    decreases |path|
  {
    if path == [] || table !in tables || path[0] >= |tables[table]| then None
    else
      var e := tables[table][path[0]];
      if !Present(e) then None
      else if |path| == 1 || IsHuge(f, e) then Some(Found(e, |path| - 1))
      else Walk(f, tables, Address(f, e), path[1..])
  }

  /** The table reached by following a link for every index in `path`. */
  function Descend(f: Format, tables: Tables, table: nat, path: seq<nat>): Option<nat>
    decreases |path|
  {
    if path == [] then Some(table)
    else if table !in tables || path[0] >= |tables[table]| || !IsLink(f, tables[table][path[0]]) then None
    else Descend(f, tables, Address(f, tables[table][path[0]]), path[1..])
  }

  /**
   The unshared tree: `place` gives each table page the one index path it is reached by, so no
   table can be entered from two places.
   */
  ghost predicate Unshared(f: Format, tables: Tables, root: nat, place: Places) {
    && place.Keys == tables.Keys
    && root in tables
    && place[root] == []
    && (forall t :: t in tables ==> TableOk(f, tables, place, t))
  }

  ghost predicate TableOk(f: Format, tables: Tables, place: Places, t: nat)
    requires t in tables && place.Keys == tables.Keys
  {
    && |tables[t]| == Pow2(f.width)
    && |place[t]| < f.levels
    && (forall i :: 0 <= i < |tables[t]| && |place[t]| + 1 < f.levels && IsLink(f, tables[t][i])
          ==> Address(f, tables[t][i]) in tables
              && place[Address(f, tables[t][i])] == place[t] + [i])
  }

  lemma {:induction false} DescendThenWalk(f: Format, tables: Tables, t: nat, path: seq<nat>, rest: seq<nat>)
    requires Descend(f, tables, t, path).Some? && rest != []
    ensures Walk(f, tables, t, path + rest) == Walk(f, tables, Descend(f, tables, t, path).value, rest)
    decreases |path|
  {
    hide Address, IsHuge, Present;
    if path == [] {
      assert path + rest == rest;
    } else {
      assert (path + rest)[1..] == path[1..] + rest;
      DescendThenWalk(f, tables, Address(f, tables[t][path[0]]), path[1..], rest);
    }
  }

  lemma {:induction false} DescendMore(f: Format, tables: Tables, t: nat, path: seq<nat>, i: nat)
    requires Descend(f, tables, t, path).Some?
    requires var mid := Descend(f, tables, t, path).value;
             mid in tables && i < |tables[mid]| && IsLink(f, tables[mid][i])
    ensures Descend(f, tables, t, path + [i])
         == Some(Address(f, tables[Descend(f, tables, t, path).value][i]))
    decreases |path|
  {
    hide Address, IsHuge, Present;
    if path == [] {
      assert path + [i] == [i];
    } else {
      assert (path + [i])[1..] == path[1..] + [i];
      DescendMore(f, tables, Address(f, tables[t][path[0]]), path[1..], i);
    }
  }

  /** A descent in an unshared tree ends in the table placed at its path. */
  lemma {:induction false} DescendPlace(f: Format, tables: Tables, root: nat, place: Places, t: nat, path: seq<nat>)
    requires Unshared(f, tables, root, place) && t in tables && |place[t]| + |path| < f.levels
    ensures var d := Descend(f, tables, t, path);
            d.Some? ==> d.value in tables && place[d.value] == place[t] + path
    decreases |path|
  {
    hide Address, IsHuge, Present;
    if path == [] {
      assert place[t] + path == place[t];
    } else {
      assert TableOk(f, tables, place, t);
      if path[0] < |tables[t]| && IsLink(f, tables[t][path[0]]) {
        DescendPlace(f, tables, root, place, Address(f, tables[t][path[0]]), path[1..]);
        assert place[t] + [path[0]] + path[1..] == place[t] + path;
      }
    }
  }

  // ----- Linking in an empty table -----

  function Zeros(f: Format): (s: seq<nat>)
    ensures |s| == Pow2(f.width) && forall i :: 0 <= i < |s| ==> s[i] == 0
  {
    seq(Pow2(f.width), _ => 0)
  }

  /** A zeroed page can be linked behind absent slot `idx` of `t` through entry `e`. */
  ghost predicate CanLink(f: Format, tables: Tables, place: Places, t: nat, idx: nat, e: nat) {
    && t in tables && t in place
    && |place[t]| + 1 < f.levels
    && idx < |tables[t]|
    && !Present(tables[t][idx])
    && IsLink(f, e)
    && Address(f, e) !in tables
  }

  function WithTable(f: Format, tables: Tables, t: nat, idx: nat, e: nat): Tables
    requires t in tables && idx < |tables[t]|
  {
    var slots: seq<nat> := tables[t][idx := e];
    tables[t := slots][Address(f, e) := Zeros(f)]
  }

  lemma LinkKeepsUnshared(f: Format, tables: Tables, root: nat, place: Places, t: nat, idx: nat, e: nat)
    requires Unshared(f, tables, root, place)
    requires CanLink(f, tables, place, t, idx, e)
    ensures Unshared(f, WithTable(f, tables, t, idx, e), root, place[Address(f, e) := place[t] + [idx]])
  {
    hide Address, IsHuge;
    var tables', place' := WithTable(f, tables, t, idx, e), place[Address(f, e) := place[t] + [idx]];
    forall u | u in tables'
      ensures TableOk(f, tables', place', u)
    {
      if u in tables { assert TableOk(f, tables, place, u); }
    }
  }

  lemma {:induction false} LinkKeepsWalks(f: Format, tables: Tables, root: nat, place: Places, t: nat, idx: nat, e: nat,
                                          u: nat, path: seq<nat>)
    requires Unshared(f, tables, root, place)
    requires CanLink(f, tables, place, t, idx, e)
    requires u in tables && |place[u]| + |path| == f.levels
    ensures Walk(f, WithTable(f, tables, t, idx, e), u, path) == Walk(f, tables, u, path)
    decreases |path|
  {
    hide Address, IsHuge;
    assert TableOk(f, tables, place, u);
    if path != [] && path[0] < |tables[u]| && !(u == t && path[0] == idx) {
      if |path| > 1 && IsLink(f, tables[u][path[0]]) {
        LinkKeepsWalks(f, tables, root, place, t, idx, e, Address(f, tables[u][path[0]]), path[1..]);
      }
    }
  }

  lemma {:induction false} LinkKeepsDescents(f: Format, tables: Tables, root: nat, place: Places, t: nat, idx: nat,
                                             e: nat, u: nat, path: seq<nat>)
    requires Unshared(f, tables, root, place)
    requires CanLink(f, tables, place, t, idx, e)
    requires u in tables && |place[u]| + |path| < f.levels
    requires Descend(f, tables, u, path).Some?
    ensures Descend(f, WithTable(f, tables, t, idx, e), u, path) == Descend(f, tables, u, path)
    decreases |path|
  {
    hide Address, IsHuge, Present;
    assert TableOk(f, tables, place, u);
    if path != [] {
      LinkKeepsDescents(f, tables, root, place, t, idx, e, Address(f, tables[u][path[0]]), path[1..]);
    }
  }

  // ----- Filling leaf slots -----

  /** `slots` differs from table `t` only in leaf entries at indices `idx..idx + n`. */
  ghost predicate FillsLeaves(f: Format, tables: Tables, place: Places, t: nat, slots: seq<nat>, idx: nat, n: nat) {
    && t in tables && t in place
    && |slots| == |tables[t]|
    && |place[t]| < f.levels
    && idx + n <= |slots|
    && (forall i :: 0 <= i < |slots| && !(idx <= i < idx + n) ==> slots[i] == tables[t][i])
    && (forall i :: idx <= i < idx + n ==> Present(slots[i]) && (|place[t]| + 1 == f.levels || IsHuge(f, slots[i])))
  }

  /** A whole-tree path selects one of slots `idx..idx + n` of the table placed at `at`. */
  predicate Passes(full: seq<nat>, at: seq<nat>, idx: nat, n: nat) {
    |at| < |full| && full[..|at|] == at && idx <= full[|at|] < idx + n
  }

  lemma FillKeepsUnshared(f: Format, tables: Tables, root: nat, place: Places, t: nat, slots: seq<nat>, idx: nat,
                          n: nat)
    requires Unshared(f, tables, root, place)
    requires FillsLeaves(f, tables, place, t, slots, idx, n)
    ensures Unshared(f, tables[t := slots], root, place)
  {
    hide Address, IsHuge, Present;
    forall u | u in tables
      ensures TableOk(f, tables[t := slots], place, u)
    {
      assert TableOk(f, tables, place, u);
    }
  }

  /** A walk that never meets one of the rewritten slots ends where it used to. */
  lemma {:induction false} FillKeepsOtherWalks(f: Format, tables: Tables, root: nat, place: Places, t: nat,
                                               slots: seq<nat>, idx: nat, n: nat, u: nat, path: seq<nat>)
    requires Unshared(f, tables, root, place)
    requires FillsLeaves(f, tables, place, t, slots, idx, n)
    requires u in tables && |place[u]| + |path| == f.levels
    requires !Passes(place[u] + path, place[t], idx, n)
    ensures Walk(f, tables[t := slots], u, path) == Walk(f, tables, u, path)
    decreases |path|
  {
    hide Address, IsHuge, Present;
    assert TableOk(f, tables, place, u);
    if path != [] && path[0] < |tables[u]| {
      if u == t {
        assert (place[u] + path)[..|place[t]|] == place[t] && (place[u] + path)[|place[t]|] == path[0];
      }
      if |path| > 1 && IsLink(f, tables[u][path[0]]) {
        assert place[u] + [path[0]] + path[1..] == place[u] + path;
        FillKeepsOtherWalks(f, tables, root, place, t, slots, idx, n, Address(f, tables[u][path[0]]), path[1..]);
      }
    }
  }

  /** Rewriting a table does not disturb the way down to it. */
  lemma {:induction false} FillKeepsDescent(f: Format, tables: Tables, root: nat, place: Places, t: nat,
                                            slots: seq<nat>, u: nat, path: seq<nat>)
    requires Unshared(f, tables, root, place)
    requires u in tables && t in tables && |place[u]| + |path| == |place[t]|
    ensures Descend(f, tables[t := slots], u, path) == Descend(f, tables, u, path)
    decreases |path|
  {
    hide Address, IsHuge, Present;
    assert TableOk(f, tables, place, u);
    assert TableOk(f, tables, place, t);
    if path != [] && path[0] < |tables[u]| && IsLink(f, tables[u][path[0]]) {
      FillKeepsDescent(f, tables, root, place, t, slots, Address(f, tables[u][path[0]]), path[1..]);
    }
  }
}
