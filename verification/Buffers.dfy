/** Byte buffers: what a read leaves in one, and block arithmetic by name. */
module Buffers {
  type Bytes = seq<nat>

  type Pos = n: nat | n > 0 witness 1

  function Quot(x: nat, b: Pos): nat {
    x / b
  }

  function Rem(x: nat, b: Pos): (r: nat)
    ensures r < b
  {
    x % b
  }

  function Times(n: nat, b: nat): nat {
    n * b
  }

  /** `buf[pos..pos + n]` holds the bytes of `disk` from `at` on. */
  ghost predicate Copied(disk: Bytes, buf: seq<nat>, pos: nat, at: nat, n: nat) {
    && pos + n <= |buf| && at + n <= |disk|
    && buf[pos..pos + n] == disk[at..at + n]
  }

  /** Only `pos..pos + n` may differ. */
  ghost predicate OnlyChanged(before: seq<nat>, after: seq<nat>, pos: nat, n: nat) {
    && |after| == |before| && pos + n <= |after|
    && after[..pos] == before[..pos] && after[pos + n..] == before[pos + n..]
  }

  lemma NoneChanged(buf: seq<nat>, pos: nat, n: nat)
    requires pos + n <= |buf|
    ensures OnlyChanged(buf, buf, pos, n)
  {
  }

  lemma ChangedMore(start: seq<nat>, before: seq<nat>, buf: seq<nat>, pos: nat, m: nat, n: nat, total: nat)
    requires OnlyChanged(start, before, pos, total) && OnlyChanged(before, buf, pos + m, n) && m + n <= total
    ensures OnlyChanged(start, buf, pos, total)
  {
    assert buf[..pos] == buf[..pos + m][..pos] && before[..pos] == before[..pos + m][..pos];
    assert buf[pos + total..] == buf[pos + m + n..][total - m - n..];
    assert before[pos + total..] == before[pos + m + n..][total - m - n..];
  }

  lemma CopiedMore(disk: Bytes, before: seq<nat>, buf: seq<nat>, pos: nat, at: nat, m: nat, n: nat)
    requires Copied(disk, before, pos, at, m)
    requires OnlyChanged(before, buf, pos + m, n) && Copied(disk, buf, pos + m, at + m, n)
    ensures Copied(disk, buf, pos, at, m + n)
  {
    assert buf[pos..pos + m] == buf[..pos + m][pos..] == before[..pos + m][pos..] == before[pos..pos + m];
    assert buf[pos..pos + (m + n)] == buf[pos..pos + m] + buf[pos + m..pos + m + n];
    assert disk[at..at + (m + n)] == disk[at..at + m] + disk[at + m..at + m + n];
  }

  lemma SubSlice(s: Bytes, a: nat, n: nat, from: nat, m: nat)
    requires a + n <= |s| && from + m <= n
    ensures s[a..a + n][from..from + m] == s[a + from..a + from + m]
  {
    var t := s[a..a + n];
    var inner, outer := t[from..from + m], s[a + from..a + from + m];
    forall i: nat | i < m
      ensures inner[i] == outer[i]
    {
      assert t[from + i] == s[a + (from + i)];
    }
  }
}
