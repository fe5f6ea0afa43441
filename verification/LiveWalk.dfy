/**
 The direct map built while the memory map itself changes. On BIOS `mm_foreach_entry` walks the live
 entry buffer, and every table page the builder takes is carved out of that same buffer.
 */
module LiveWalk {
  import opened MemoryMap
  import opened RamRuns

  // ----- Walks over a changing map -----

  ghost predicate SameRam(s: seq<Entry>, t: seq<Entry>) {
    forall pa: nat :: Ram(s, pa) <==> Ram(t, pa)
  }

  /** The first `n` entries, or all of them. */
  function Below(s: seq<Entry>, n: nat): (p: seq<Entry>)
    ensures p <= s
  {
    if n <= |s| then s[..n] else s
  }

  /**
   `maps[k]` is the map when index `k` is looked at and `v[k]` the entry found there. A visit keeps the RAM
   bytes as a whole, and one of an entry that is not RAM changes nothing.
   */
  ghost predicate Walking(maps: seq<seq<Entry>>, v: seq<Entry>) {
    && |maps| == |v| + 1
    && (forall k: nat :: k < |maps| ==> Ordered(maps[k]))
    && (forall k: nat :: k < |v| ==> k < |maps[k]| && v[k] == maps[k][k] && SameRam(maps[k], maps[k + 1]))
    && (forall k: nat :: k < |v| && !IsRamType(v[k].kind) ==> maps[k + 1] == maps[k])
  }

  /** A walk that went through to the end of the map as it then was. */
  ghost predicate Walked(maps: seq<seq<Entry>>, v: seq<Entry>) {
    |maps| == |v| + 1 && Walking(maps, v) && |maps[|v|]| <= |v|
  }

  /** The pages taken while entry `k` is visited leave the RAM at indices up to `k` as it was. */
  ghost predicate Kept(maps: seq<seq<Entry>>, k: nat)
    requires k + 1 < |maps|
  {
    SameRam(Below(maps[k], k + 1), Below(maps[k + 1], k + 1))
  }

  ghost predicate AllKept(maps: seq<seq<Entry>>, v: seq<Entry>) {
    |maps| == |v| + 1 && forall k: nat :: k < |v| ==> Kept(maps, k)
  }

  /** The entries visited are the RAM of the map at the start, in order. */
  ghost predicate Exact(maps: seq<seq<Entry>>, v: seq<Entry>)
    requires |maps| > 0
  {
    OrderedRam(v) && SameRam(v, maps[0])
  }

  /** A walk over a changing map sees exactly the RAM if and only if no visit disturbs what is behind it. */
  lemma ExactIff(maps: seq<seq<Entry>>, v: seq<Entry>)
    requires Walked(maps, v)
    ensures Exact(maps, v) <==> forall k: nat :: k < |v| ==> Kept(maps, k)
  {
    hide Kept, SameRam, OrderedRam, Walking, Exact;
    if forall k: nat :: k < |v| ==> Kept(maps, k) {
      KeptIsExact(maps, v);
    }
    if Exact(maps, v) {
      ExactIsKept(maps, v, |v|);
    }
  }

  // ----- Undisturbed walks are exact -----

  lemma {:induction false} RamThroughout(maps: seq<seq<Entry>>, v: seq<Entry>, k: nat)
    requires Walking(maps, v) && k <= |v|
    ensures SameRam(maps[0], maps[k])
  {
    hide Ram;
    if k > 0 { RamThroughout(maps, v, k - 1); }
  }

  lemma SameRamSnoc(s: seq<Entry>, t: seq<Entry>, e: Entry)
    requires SameRam(s, t)
    ensures SameRam(s + [e], t + [e])
  {
    hide Ram;
    forall pa: nat ensures Ram(s + [e], pa) <==> Ram(t + [e], pa) {
      RamSnoc(s, e, pa);
      RamSnoc(t, e, pa);
    }
  }

  /** As long as no visit disturbed what is behind it, the RAM visited is the RAM behind the cursor. */
  lemma {:induction false} SeenIsBelow(maps: seq<seq<Entry>>, v: seq<Entry>, k: nat)
    requires Walking(maps, v) && k <= |v| && forall j: nat :: j < k ==> Kept(maps, j)
    ensures SameRam(v[..k], Below(maps[k], k))
    ensures k < |v| ==> SameRam(v[..k + 1], Below(maps[k], k + 1))
  {
    hide Ram, Ordered;
    if k > 0 {
      SeenIsBelow(maps, v, k - 1);
      assert Kept(maps, k - 1);
    }
    if k < |v| {
      SameRamSnoc(v[..k], Below(maps[k], k), v[k]);
      assert v[..k + 1] == v[..k] + [v[k]];
      assert Below(maps[k], k + 1) == Below(maps[k], k) + [v[k]];
    }
  }

  /** What has been visited lies below the entry about to be visited. */
  lemma SeenInOrder(maps: seq<seq<Entry>>, v: seq<Entry>, i: nat, j: nat)
    requires Walking(maps, v) && i < j < |v| && IsRamType(v[i].kind)
    requires SameRam(v[..j], Below(maps[j], j))
    ensures v[i].size > 0 && v[i].End() <= v[j].base
  {
    assert Ordered(maps[i]) && Ordered(maps[j]);
    var x := v[i].End() - 1;
    assert Ram(v[..j], x) by { assert v[..j][i] == v[i]; }
    var a: nat :| a < j && IsRam(Below(maps[j], j)[a], x);
    assert maps[j][a].Covers(x) && maps[j][a].End() <= maps[j][j].base;
  }

  /** Undisturbed so far, the RAM visited is in order. */
  lemma KeptIsOrdered(maps: seq<seq<Entry>>, v: seq<Entry>)
    requires Walking(maps, v) && forall k: nat :: k < |v| ==> Kept(maps, k)
    ensures OrderedRam(v)
  {
    hide Kept, SameRam;
    forall i: nat, j: nat | i < j < |v| && IsRamType(v[i].kind) && IsRamType(v[j].kind)
      ensures v[i].End() <= v[j].base
    {
      SeenIsBelow(maps, v, j);
      SeenInOrder(maps, v, i, j);
    }
    forall i: nat | i < |v| ensures v[i].size > 0 {
      assert Ordered(maps[i]);
    }
  }

  lemma KeptIsExact(maps: seq<seq<Entry>>, v: seq<Entry>)
    requires Walked(maps, v) && forall k: nat :: k < |v| ==> Kept(maps, k)
    ensures Exact(maps, v)
  {
    hide Kept, SameRam, OrderedRam;
    KeptIsOrdered(maps, v);
    SeenIsBelow(maps, v, |v|);
    assert v[..|v|] == v && Below(maps[|v|], |v|) == maps[|v|];
    RamThroughout(maps, v, |v|);
    SameRamVia(v, maps[|v|], maps[0]);
  }

  lemma SameRamRefl(s: seq<Entry>)
    ensures SameRam(s, s)
  {
  }

  lemma SameRamTrans(s: seq<Entry>, t: seq<Entry>, u: seq<Entry>)
    requires SameRam(s, t) && SameRam(t, u)
    ensures SameRam(s, u)
  {
    hide Ram;
  }

  lemma StartWalking(s: seq<Entry>)
    requires Ordered(s)
    ensures Walking([s], [])
  {
  }

  /** One more visit. */
  lemma WalkOn(maps: seq<seq<Entry>>, v: seq<Entry>, s: seq<Entry>)
    requires Walking(maps, v) && |v| < |maps[|v|]| && Ordered(s) && SameRam(maps[|v|], s)
    requires !IsRamType(maps[|v|][|v|].kind) ==> s == maps[|v|]
    ensures Walking(maps + [s], v + [maps[|v|][|v|]])
  {
    hide SameRam, Ordered;
  }

  lemma SameRamVia(s: seq<Entry>, t: seq<Entry>, u: seq<Entry>)
    requires SameRam(s, t) && SameRam(u, t)
    ensures SameRam(s, u)
  {
    hide Ram;
  }

  // ----- Exact walks are undisturbed -----

  lemma FirstRam(s: seq<Entry>, begin: nat, b: nat) returns (m: nat)
    requires begin <= b < |s| && IsRamType(s[b].kind)
    ensures begin <= m <= b && IsRamType(s[m].kind) && forall q: nat :: begin <= q < m ==> !IsRamType(s[q].kind)
  {
    m := begin;
    while !IsRamType(s[m].kind)
      invariant begin <= m <= b && forall q: nat :: begin <= q < m ==> !IsRamType(s[q].kind)
      decreases b - m
    {
      m := m + 1;
    }
  }

  /** Visits of entries that are not RAM leave the map alone. */
  lemma {:induction false} Idle(maps: seq<seq<Entry>>, v: seq<Entry>, k: nat, m: nat)
    requires Walking(maps, v) && k <= m <= |v|
    requires forall q: nat :: k <= q < m ==> !IsRamType(v[q].kind)
    ensures maps[m] == maps[k]
    decreases m
  {
    if k < m { Idle(maps, v, k, m - 1); }
  }

  /** A walk reaches the next RAM entry of the map before it. */
  lemma {:induction false} Reaches(maps: seq<seq<Entry>>, v: seq<Entry>, k: nat, m: nat)
    requires Walked(maps, v) && k <= |v| && k <= m < |maps[k]|
    requires forall q: nat :: k <= q < m ==> !IsRamType(maps[k][q].kind)
    ensures m < |v| && maps[m] == maps[k] && v[m] == maps[k][m]
    decreases m
  {
    if k < m { Reaches(maps, v, k, m - 1); }
  }

  /** What is visited from now on lies above what is behind the cursor. */
  lemma AheadIsAbove(maps: seq<seq<Entry>>, v: seq<Entry>, k: nat, a: nat, j: nat)
    requires Walked(maps, v) && OrderedRam(v) && k < j < |v| && IsRamType(v[j].kind)
    requires a <= k && a < |maps[k + 1]|
    ensures maps[k + 1][a].End() <= v[j].base
  {
    hide SameRam;
    var m := FirstRam(v, k + 1, j);
    Idle(maps, v, k + 1, m);
    assert Ordered(maps[m]) && v[m] == maps[m][m];
  }

  /** What has been visited lies below what is ahead of the cursor. */
  lemma SeenIsUnder(maps: seq<seq<Entry>>, v: seq<Entry>, k: nat, i: nat, b: nat)
    requires Walked(maps, v) && OrderedRam(v) && i <= k < |v| && IsRamType(v[i].kind)
    requires k < b < |maps[k + 1]| && IsRamType(maps[k + 1][b].kind)
    ensures v[i].End() <= maps[k + 1][b].base
  {
    hide SameRam;
    var m := FirstRam(maps[k + 1], k + 1, b);
    Reaches(maps, v, k + 1, m);
    assert Ordered(maps[k + 1]);
  }

  lemma RamIn(s: seq<Entry>, pa: nat) returns (i: nat)
    requires Ram(s, pa)
    ensures i < |s| && IsRam(s[i], pa)
  {
    i :| i < |s| && IsRam(s[i], pa);
  }

  lemma RamHere(s: seq<Entry>, i: nat, pa: nat)
    requires i < |s| && IsRam(s[i], pa)
    ensures Ram(s, pa)
  {
  }

  lemma RamBelowIs(s: seq<Entry>, n: nat, i: nat, pa: nat)
    requires i < n && i < |s| && IsRam(s[i], pa)
    ensures Ram(Below(s, n), pa)
  {
    assert Below(s, n)[i] == s[i];
  }

  /** In an exact walk all RAM behind the cursor has been visited. */
  lemma NotMissed(maps: seq<seq<Entry>>, v: seq<Entry>, k: nat, pa: nat)
    requires Walked(maps, v) && Exact(maps, v) && k < |v|
    requires Ram(Below(maps[k + 1], k + 1), pa)
    ensures Ram(Below(v, k + 1), pa)
  {
    hide Ram, Walking, OrderedRam;
    var a := RamIn(Below(maps[k + 1], k + 1), pa);
    RamHere(maps[k + 1], a, pa);
    RamThroughout(maps, v, k + 1);
    var j := RamIn(v, pa);
    if j <= k {
      RamBelowIs(v, k + 1, j, pa);
    } else {
      AheadIsAbove(maps, v, k, a, j);
    }
  }

  /** In an exact walk nothing visited is ahead of the cursor again. */
  lemma NotRepeated(maps: seq<seq<Entry>>, v: seq<Entry>, k: nat, pa: nat)
    requires Walked(maps, v) && Exact(maps, v) && k < |v|
    requires Ram(Below(v, k + 1), pa)
    ensures Ram(Below(maps[k + 1], k + 1), pa)
  {
    hide Ram, Walking, OrderedRam;
    var i := RamIn(Below(v, k + 1), pa);
    RamHere(v, i, pa);
    RamThroughout(maps, v, k + 1);
    var b := RamIn(maps[k + 1], pa);
    if b <= k {
      RamBelowIs(maps[k + 1], k + 1, b, pa);
    } else {
      SeenIsUnder(maps, v, k, i, b);
    }
  }

  lemma {:induction false} ExactIsKept(maps: seq<seq<Entry>>, v: seq<Entry>, n: nat)
    requires Walked(maps, v) && Exact(maps, v) && n <= |v|
    ensures forall k: nat :: k < n ==> Kept(maps, k)
  {
    if n > 0 {
      var k := n - 1;
      ExactIsKept(maps, v, k);
      KeptNext(maps, v, k);
    }
  }

  lemma KeptNext(maps: seq<seq<Entry>>, v: seq<Entry>, k: nat)
    requires Walked(maps, v) && Exact(maps, v) && k < |v| && forall j: nat :: j < k ==> Kept(maps, j)
    ensures Kept(maps, k)
  {
    hide Ram, Walking, Exact;
    SeenIsBelow(maps, v, k);
    assert Below(v, k + 1) == v[..k + 1];
    var before, after := Below(maps[k], k + 1), Below(maps[k + 1], k + 1);
    forall pa: nat
      ensures Ram(before, pa) <==> Ram(after, pa)
    {
      if Ram(after, pa) { NotMissed(maps, v, k, pa); }
      if Ram(Below(v, k + 1), pa) { NotRepeated(maps, v, k, pa); }
    }
  }
}
