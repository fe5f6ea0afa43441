/**
 The arithmetic of loader/filesystem/bulk_read.c: how many blocks a round asks for, how many bytes it
 takes, how a request is cut into head, body and tail, and where the fixed widths of these numbers show.
 */
module ReadProgress {
  import opened Arith
  import opened Buffers

  // ----- Block sizes -----

  /** The 16-bit block mask of a block size given by its shift. */
  function BlockMask(shift: nat): nat {
    (Pow2(shift) - 1) % 65536
  }

  lemma Pow2Sixteen()
    ensures Pow2(16) == 65536
  {
    Pow2Twelve();
    Pow2Add(12, 4);
    assert Pow2(4) == 16;
  }

  lemma MaskValue(shift: nat)
    ensures if shift <= 16 then BlockMask(shift) + 1 == Pow2(shift) else BlockMask(shift) + 1 < Pow2(shift)
  {
    Pow2Sixteen();
    if shift <= 16 {
      Pow2Monotone(shift, 16);
      DivModUnique(Pow2(shift) - 1, 65536, 0, Pow2(shift) - 1);
    } else {
      Pow2Monotone(17, shift);
    }
  }

  /** The mask gives the offset within a block exactly for shifts up to 16. */
  lemma MaskExact(shift: nat)
    ensures (forall off: nat :: Rem(off, BlockMask(shift) + 1) == Rem(off, Pow2(shift))) <==> shift <= 16
  {
    hide BlockMask, Pow2;
    MaskValue(shift);
    if shift > 16 {
      var n := BlockMask(shift) + 1;
      DivModUnique(n, Pow2(shift), 0, n);
      DivModUnique(n, n, 1, 0);
      assert Rem(n, BlockMask(shift) + 1) != Rem(n, Pow2(shift));
    }
  }

  /** In a 128 KiB cluster, offset 65536 is taken for the start of a cluster. */
  lemma MaskWrapsExample()
    ensures Rem(65536, BlockMask(17) + 1) == 0 && Rem(65536, Pow2(17)) == 65536
  {
    Pow2Sixteen();
    assert Pow2(17) == 2 * Pow2(16);
  }

  /** A block size whose mask is exact. */
  ghost predicate BlockSize(b: Pos) {
    exists shift: nat :: shift <= 16 && b == Pow2(shift)
  }

  lemma Pow2Divides(a: nat, b: nat)
    requires a <= b
    ensures Pow2(b) % Pow2(a) == 0
  {
    hide Pow2;
    Pow2Add(b - a, a);
    DivModUnique(Pow2(b), Pow2(a), Pow2(b - a), 0);
  }

  lemma BlockSizeFacts(b: Pos)
    requires BlockSize(b)
    ensures b <= 65536 && Rem(TWO_32, b) == 0
  {
    hide Pow2;
    var shift: nat :| shift <= 16 && b == Pow2(shift);
    Pow2Sixteen();
    Pow2Monotone(shift, 16);
    Pow2ThirtyTwo();
    Pow2Divides(shift, 32);
  }

  lemma SmallerDivides(a: Pos, b: Pos)
    requires BlockSize(a) && BlockSize(b) && a <= b
    ensures Rem(b, a) == 0
  {
    hide Pow2;
    var s: nat :| s <= 16 && a == Pow2(s);
    var t: nat :| t <= 16 && b == Pow2(t);
    if t < s {
      Pow2Monotone(t, s);
      Pow2Divides(s, s);
    } else {
      Pow2Divides(s, t);
    }
  }

  /** A remainder by a multiple keeps the remainder by its divisor. */
  lemma RemOfRem(x: nat, a: Pos, b: Pos)
    requires Rem(b, a) == 0
    ensures Rem(Rem(x, b), a) == Rem(x, a)
  {
    DivModRebuild(x, b);
    DivModRebuild(b, a);
    var q, k := x / b, b / a;
    MulAssoc(q, k, a);
    DivAddUnits(x % b, q * k, a);
  }

  lemma RemAdd(x: nat, y: nat, b: Pos)
    ensures Rem(x, b) == 0 ==> Rem(x + y, b) == Rem(y, b)
    ensures Rem(Rem(x, b) + y, b) == Rem(x + y, b)
  {
    DivModRebuild(x, b);
    DivAddUnits(y, x / b, b);
    DivAddUnits(x % b + y, x / b, b);
  }

  lemma RemSub(x: nat, y: nat, b: Pos)
    requires y <= x && Rem(x, b) == 0 && Rem(y, b) == 0
    ensures Rem(x - y, b) == 0
  {
    DivModRebuild(y, b);
    DivAddUnits(x - y, y / b, b);
  }

  lemma RemTimes(n: nat, b: Pos)
    ensures Rem(Times(n, b), b) == 0
  {
    DivModUnique(n * b, b, n, 0);
  }

  // ----- One round -----

  /** Whole blocks around the bytes still wanted. */
  function Span(rem: nat, bytes: nat, b: Pos): nat {
    AlignUp(rem + bytes, b)
  }

  /** `br_wanted_block_count`, in the size type of the platform: `word` is 2^32 or 2^64. */
  function Wanted(word: Pos, rem: nat, bytes: nat, b: Pos): nat {
    Quot(Rem(AlignUp(Rem(rem + bytes, word), b), word), b)
  }

  predicate Word(word: nat) {
    word == TWO_32 || word == TWO_64
  }

  /** Bytes of a round: a range of `size` bytes less the offset into its first block, in 32 bits. */
  function Taken(size: nat, rem: nat, bytes: nat): (n: nat)
    requires rem <= size
    ensures n <= bytes && n <= size - rem
  {
    Min((size - rem) % TWO_32, bytes)
  }

  /** A request as one round or more may see it. */
  ghost predicate Round(rem: nat, bytes: nat, b: Pos) {
    BlockSize(b) && rem < b && bytes < TWO_32
  }

  /** The span of a request passes 2^32 by one block at most. */
  lemma SpanFacts(rem: nat, bytes: nat, b: Pos)
    requires Round(rem, bytes, b)
    ensures Rem(Span(rem, bytes, b), b) == 0
    ensures rem + bytes <= Span(rem, bytes, b) < rem + bytes + b
    ensures Span(rem, bytes, b) <= TWO_32 + b
    ensures Span(rem, bytes, b) > TWO_32 ==> Span(rem, bytes, b) == TWO_32 + b
    ensures Span(rem, bytes, b) < TWO_32 ==> Span(rem, bytes, b) + b <= TWO_32
  {
    BlockSizeFacts(b);
    AlignFacts(rem + bytes, b);
    RemAdd(TWO_32, b, b);
    DivModUnique(b, b, 1, 0);
    var t := Span(rem, bytes, b);
    hide AlignUp;
    MultiplesStep(t, TWO_32, b);
    MultiplesStep(t, TWO_32 + b, b);
  }

  lemma WantedFacts(word: Pos, rem: nat, bytes: nat, b: Pos)
    requires Round(rem, bytes, b) && Word(word)
    ensures var t := Span(rem, bytes, b);
            Times(Wanted(word, rem, bytes, b), b)
            == if word == TWO_64 || t < TWO_32 then t else if t == TWO_32 then 0 else b
  {
    hide Quot, Rem, Times, AlignUp, BlockSize;
    SpanFacts(rem, bytes, b);
    var x := rem + bytes;
    BlockSizeFacts(b);
    WordRem(word, x);
    if !(word == TWO_64 || x < TWO_32) { ShiftedSpan(x - TWO_32, b); }
    AlignsToZero(Rem(x, word), b);
    WholeWanted(word, AlignUp(Rem(x, word), b), b);
  }

  lemma WordRem(word: Pos, x: nat)
    requires Word(word) && x < TWO_32 + TWO_32
    ensures Rem(x, word) == if x < word then x else x - TWO_32
  {
    DivModUnique(x, word, if x < word then 0 else 1, if x < word then x else x - TWO_32);
  }

  lemma AlignsToZero(x: nat, b: Pos)
    ensures Rem(AlignUp(x, b), b) == 0
  {
    AlignFacts(x, b);
  }

  lemma ShiftedSpan(x: nat, b: Pos)
    requires BlockSize(b) && x < b
    ensures AlignUp(x, b) == if x == 0 then 0 else b
    ensures AlignUp(TWO_32 + x, b) == TWO_32 + if x == 0 then 0 else b
  {
    BlockSizeFacts(b);
    if x == 0 {
      AlignFacts(0, b);
      AlignFacts(TWO_32, b);
      DivModUnique(0, b, 0, 0);
    } else {
      DivModUnique(x + (b - 1), b, 1, x - 1);
      RemAdd(TWO_32, x + (b - 1), b);
    }
  }

  lemma WholeWanted(word: Pos, t: nat, b: Pos)
    requires BlockSize(b) && Word(word) && Rem(t, b) == 0 && t <= TWO_32 + b
    ensures Times(Quot(Rem(t, word), b), b) == if t < word then t else t - TWO_32
  {
    BlockSizeFacts(b);
    if t < word {
      DivModUnique(t, word, 0, t);
    } else {
      DivModUnique(t, word, 1, t - TWO_32);
      RemSub(t, TWO_32, b);
    }
    DivModRebuild(Rem(t, word), b);
  }

  /** No round of the request runs into 2^32: neither the wanted count nor the bytes taken become 0. */
  predicate NoWrap(word: nat, rem: nat, bytes: nat, b: Pos) {
    var t := Span(rem, bytes, b);
    t < TWO_32 || (t == TWO_32 && rem != 0 && word == TWO_64)
  }

  lemma NothingLeft(word: nat, rem: nat, b: Pos)
    requires BlockSize(b) && rem < b
    ensures NoWrap(word, rem, 0, b)
  {
    BlockSizeFacts(b);
    SpanFacts(rem, 0, b);
  }

  /** A round that does not finish the request ends at a block boundary. */
  lemma TakenAligned(size: nat, rem: nat, bytes: nat, b: Pos)
    requires Round(rem, bytes, b) && rem <= size && Rem(size, b) == 0
    ensures Taken(size, rem, bytes) < bytes ==> Rem(rem + Taken(size, rem, bytes), b) == 0
  {
    var n := (size - rem) % TWO_32;
    var k := (size - rem) / TWO_32;
    DivModRebuild(size - rem, TWO_32);
    BlockSizeFacts(b);
    DivModRebuild(TWO_32, b);
    MulAssoc(k, TWO_32 / b, b);
    RemTimes(k * (TWO_32 / b), b);
    RemSub(size, k * TWO_32, b);
  }

  /** From a request that does not wrap, a round with a moderate answer makes progress to another one. */
  lemma RoundKeeps(word: Pos, rem: nat, bytes: nat, b: Pos, size: nat)
    requires Round(rem, bytes, b) && Word(word) && bytes > 0 && NoWrap(word, rem, bytes, b)
    requires Rem(size, b) == 0 && b <= size && (size < TWO_32 || size <= Times(Wanted(word, rem, bytes, b), b))
    ensures Taken(size, rem, bytes) > 0
    ensures Taken(size, rem, bytes) < bytes ==> NoWrap(word, 0, bytes - Taken(size, rem, bytes), b)
  {
    hide Times, Wanted, AlignUp, Rem, BlockSize;
    WantedFacts(word, rem, bytes, b);
    SpanFacts(rem, bytes, b);
    assert size <= TWO_32;
    SmallRem(size - rem);
    if Taken(size, rem, bytes) < bytes { ShorterSpan(rem, bytes, b, size); }
  }

  lemma SmallRem(x: nat)
    requires x < TWO_32
    ensures x % TWO_32 == x
  {
  }

  /** Taking whole blocks takes that much off the span. */
  lemma ShorterSpan(rem: nat, bytes: nat, b: Pos, size: nat)
    requires Rem(size, b) == 0 && rem <= size <= rem + bytes
    ensures Span(0, bytes - (size - rem), b) + size == Span(rem, bytes, b)
  {
    var y := rem + bytes - size + (b - 1);
    RemAdd(size, y, b);
  }

  lemma NonzeroWanted(word: Pos, rem: nat, bytes: nat, b: Pos)
    requires Round(rem, bytes, b) && Word(word) && bytes > 0 && NoWrap(word, rem, bytes, b)
    ensures Wanted(word, rem, bytes, b) > 0
  {
    hide Wanted, AlignUp, Rem, BlockSize;
    WantedFacts(word, rem, bytes, b);
    SpanFacts(rem, bytes, b);
  }

  /** With a full answer, a request that wraps stays one that wraps, until it makes no progress. */
  lemma RoundStays(word: Pos, rem: nat, bytes: nat, b: Pos)
    requires Round(rem, bytes, b) && Word(word) && bytes > 0 && !NoWrap(word, rem, bytes, b)
    requires Wanted(word, rem, bytes, b) > 0
    ensures var size := Times(Wanted(word, rem, bytes, b), b);
            && rem <= size
            && (Taken(size, rem, bytes) > 0 ==>
                  && Taken(size, rem, bytes) < bytes
                  && Rem(rem + Taken(size, rem, bytes), b) == 0
                  && !NoWrap(word, 0, bytes - Taken(size, rem, bytes), b))
  {
    hide Wanted, AlignUp, Rem, BlockSize, Times;
    WantedFacts(word, rem, bytes, b);
    SpanFacts(rem, bytes, b);
    BlockSizeFacts(b);
    OneBlockAtLeast(Wanted(word, rem, bytes, b), b);
    var size := Times(Wanted(word, rem, bytes, b), b);
    if Span(rem, bytes, b) == TWO_32 + b {
      OverOne(size, rem, b);
      OneBlockAligned(b);
      ShorterSpan(rem, bytes, b, b);
    }
  }

  lemma OneBlockAligned(b: Pos)
    ensures Rem(b, b) == 0
  {
    DivModUnique(b, b, 1, 0);
  }

  lemma OneBlockAtLeast(n: nat, b: Pos)
    requires n > 0
    ensures b <= Times(n, b)
  {
    MulMonotone(1, n, b);
  }

  lemma OverOne(size: nat, rem: nat, b: Pos)
    requires rem < b <= 65536 && (size == TWO_32 + b || size == b)
    ensures (size - rem) % TWO_32 == b - rem
  {
    DivModUnique(size - rem, TWO_32, if size == b then 0 else 1, b - rem);
  }

  // ----- Head, body and tail -----

  /** Bytes up to the next block boundary, or all of them; a 64 KiB block size wraps to 0 in its 16-bit variable. */
  function Head(inBlock: nat, bytes: nat, b: Pos): (n: nat)
    ensures n <= bytes
  {
    if inBlock == 0 then 0 else Min((b % 65536 - inBlock) % TWO_64, bytes)
  }

  /** The head, body and tail sizes for block size `b`. */
  function Parts(offset: nat, bytes: nat, b: Pos): (p: seq<nat>)
    requires b <= 65536
    ensures |p| == 3
  {
    var inBlock := Rem(offset, b);
    var head := Head(inBlock, bytes, b);
    var tail := Min(Rem(bytes - head, b), bytes - head);
    [head, bytes - head - tail, tail]
  }

  function PartStart(parts: seq<nat>, i: nat): nat
    requires i <= |parts| == 3
  {
    (if i > 0 then parts[0] else 0) + (if i > 1 then parts[1] else 0) + (if i > 2 then parts[2] else 0)
  }

  /** The cut works out: below 64 KiB, or at a block boundary. */
  predicate CutExact(offset: nat, b: Pos) {
    b < 65536 || Rem(offset, b) == 0
  }

  /**
   The parts cover the request once. Where the cut is exact the body is whole blocks at a block boundary and the
   edges are less than a block; otherwise all of the request is head.
   */
  lemma PartsCover(offset: nat, bytes: nat, b: Pos)
    requires b <= 65536 && bytes < TWO_32
    ensures PartStart(Parts(offset, bytes, b), 3) == bytes
    ensures var p := Parts(offset, bytes, b);
            if CutExact(offset, b) then
              && p[0] < b && p[2] < b
              && (p[1] > 0 || p[2] > 0 ==> Rem(offset + p[0], b) == 0 && Rem(p[1], b) == 0)
            else p == [bytes, 0, 0]
  {
    hide Rem;
    var p := Parts(offset, bytes, b);
    HeadIs(Rem(offset, b), bytes, b);
    if CutExact(offset, b) {
      if p[0] < bytes { BoundaryAfter(offset, p[0], b); }
      WholePart(bytes - p[0], b);
    } else {
      ZeroRem(b);
    }
  }

  lemma HeadIs(inBlock: nat, bytes: nat, b: Pos)
    requires inBlock < b <= 65536 && bytes < TWO_32
    ensures Head(inBlock, bytes, b)
         == if inBlock == 0 then 0 else if b < 65536 then Min(b - inBlock, bytes) else bytes
  {
    if b == 65536 && inBlock != 0 {
      DivModUnique(0 - inBlock, TWO_64, -1, TWO_64 - inBlock);
    }
  }

  lemma BoundaryAfter(offset: nat, head: nat, b: Pos)
    requires head == if Rem(offset, b) == 0 then 0 else b - Rem(offset, b)
    ensures Rem(offset + head, b) == 0
  {
    DivModRebuild(offset, b);
    if head > 0 {
      MulDistribute(offset / b, 1, b);
      DivModUnique(offset + head, b, offset / b + 1, 0);
    }
  }

  lemma WholePart(n: nat, b: Pos)
    ensures Rem(n, b) <= n && Rem(n - Rem(n, b), b) == 0
  {
    DivModRebuild(n, b);
    DivModUnique(n - n % b, b, n / b, 0);
  }

  /** The request can be cut so that no part wraps; fails only for 64 KiB blocks near 4 GiB. */
  predicate Steady(word: nat, offset: nat, bytes: nat, b: Pos, fs: Pos) {
    CutExact(offset, b) || NoWrap(word, Rem(offset, fs), bytes, fs)
  }

  /** A steady request has no part that wraps, and one that is not wraps in its head. */
  lemma PartsSteady(word: nat, offset: nat, bytes: nat, b: Pos, fs: Pos, i: nat)
    requires BlockSize(b) && BlockSize(fs) && fs <= b && bytes < TWO_32 && i < 3
    ensures b <= 65536
    ensures var p := Parts(offset, bytes, b);
            if Steady(word, offset, bytes, b, fs)
            then NoWrap(word, Rem(offset + PartStart(p, i), fs), p[i], fs)
            else p[0] == bytes && !NoWrap(word, Rem(offset, fs), bytes, fs)
  {
    hide AlignUp, Rem, BlockSize, Parts;
    BlockSizeFacts(b);
    BlockSizeFacts(fs);
    PartsCover(offset, bytes, b);
    var p := Parts(offset, bytes, b);
    var rem := Rem(offset + PartStart(p, i), fs);
    if CutExact(offset, b) {
      SpanFacts(rem, p[i], fs);
      if i == 1 && p[1] > 0 {
        SmallerDivides(fs, b);
        RemOfRem(offset + p[0], fs, b);
        RemOfRem(p[1], fs, b);
        ZeroRem(fs);
        AlignedSpan(p[1], fs);
      }
    } else if i > 0 {
      NothingLeft(word, rem, fs);
    }
  }

  lemma ZeroRem(b: Pos)
    ensures Rem(0, b) == 0
  {
    DivModUnique(0, b, 0, 0);
  }

  lemma AlignedSpan(bytes: nat, b: Pos)
    requires Rem(bytes, b) == 0
    ensures Span(0, bytes, b) == bytes
  {
    AlignFacts(bytes, b);
  }

  /** What `NoWrap` asks of the bytes: in 32 bits the span must stay below 4 GiB, in 64 bits it may end there. */
  lemma NoWrapIff(word: nat, rem: nat, bytes: nat, b: Pos)
    requires Round(rem, bytes, b) && Word(word)
    ensures NoWrap(word, rem, bytes, b)
       <==> rem + bytes <= if word == TWO_64 && rem != 0 then TWO_32 else TWO_32 - b
  {
    hide AlignUp, BlockSize;
    SpanFacts(rem, bytes, b);
  }

  /** Block sizes below 64 KiB are always steady. */
  lemma SteadyBlocks(word: nat, offset: nat, bytes: nat, b: Pos, fs: Pos)
    requires b < 65536
    ensures Steady(word, offset, bytes, b, fs)
  {
  }

  /** So is every request of at most 2^32 - 131072 bytes. */
  lemma SteadyBytes(word: nat, offset: nat, bytes: nat, b: Pos, fs: Pos)
    requires Word(word) && BlockSize(fs) && bytes <= TWO_32 - 131072
    ensures Steady(word, offset, bytes, b, fs)
  {
    hide BlockSize, NoWrap;
    BlockSizeFacts(fs);
    NoWrapIff(word, Rem(offset, fs), bytes, fs);
  }

  /** And, with 64-bit sizes, every request that ends below 4 GiB. */
  lemma SteadyBelow(offset: nat, bytes: nat, b: Pos, fs: Pos)
    requires BlockSize(b) && BlockSize(fs) && fs <= b && offset + bytes < TWO_32
    ensures Steady(TWO_64, offset, bytes, b, fs)
  {
    hide BlockSize, NoWrap;
    if !CutExact(offset, b) {
      BlockSizeFacts(fs);
      NoWrapIff(TWO_64, Rem(offset, fs), bytes, fs);
      if Rem(offset, fs) == 0 {
        SmallerDivides(fs, b);
        BlockAhead(offset, b, fs);
      } else {
        RemAtMost(offset, fs);
      }
    }
  }

  lemma RemAtMost(x: nat, b: Pos)
    ensures Rem(x, b) <= x
  {
    DivModRebuild(x, b);
    MulMonotone(0, x / b, b);
  }

  /** An offset at a block but not at a larger one is a block at least. */
  lemma BlockAhead(offset: nat, b: Pos, fs: Pos)
    requires Rem(offset, fs) == 0 && Rem(offset, b) != 0
    ensures fs <= offset
  {
    if offset < fs {
      DivModUnique(offset, fs, 0, offset);
      ZeroRem(b);
    }
  }

  /** With 32-bit sizes, a request that ends below 4 GiB and is not steady wants no blocks at all. */
  lemma UnsteadyWantsNone(word: Pos, offset: nat, bytes: nat, b: Pos, fs: Pos)
    requires BlockSize(b) && BlockSize(fs) && fs <= b && Word(word) && offset + bytes < TWO_32
    requires !Steady(word, offset, bytes, b, fs)
    ensures word == TWO_32 && Wanted(word, Rem(offset, fs), bytes, fs) == 0
  {
    hide BlockSize, NoWrap, Wanted, AlignUp;
    BlockSizeFacts(fs);
    if word == TWO_64 { SteadyBelow(offset, bytes, b, fs); }
    var rem := Rem(offset, fs);
    NoWrapIff(word, rem, bytes, fs);
    RemAtMost(offset, fs);
    SpanFacts(rem, bytes, fs);
    WantedFacts(word, rem, bytes, fs);
    NoBlocks(Wanted(word, rem, bytes, fs), fs);
  }

  lemma NoBlocks(n: nat, b: Pos)
    requires Times(n, b) == 0
    ensures n == 0
  {
    if n > 0 { OneBlockAtLeast(n, b); }
  }

  /**
   All of a FAT file of 2^32 - 1 bytes in 64 KiB clusters but its first byte, with 32-bit sizes: no blocks are wanted.
   A file past 4 GiB on a disk with 64 KiB blocks, with 64-bit sizes: the second round takes no byte.
   */
  lemma StuckExample()
    ensures !Steady(TWO_32, 1, TWO_32 - 2, 65536, 65536) && Wanted(TWO_32, 1, TWO_32 - 2, 65536) == 0
    ensures !Steady(TWO_64, 65535, TWO_32 - 1, 65536, 2048)
    ensures Span(2047, TWO_32 - 1, 2048) == TWO_32 + 2048 && Taken(TWO_32 + 2048, 2047, TWO_32 - 1) == 1
    ensures Span(0, TWO_32 - 2, 2048) == TWO_32 && Taken(TWO_32, 0, TWO_32 - 2) == 0
  {
    assert Rem(65535, 65536) == 65535 && Rem(65535, 2048) == 2047;
    assert Rem(1, 65536) == 1 && Rem(TWO_32 - 1, TWO_32) == TWO_32 - 1;
  }
}
