/**
 The attribute array handed to a kernel: sizing, the retry loop around its allocation and the
 writers of loader/boot_protocol/ultra.c, and the scan a kernel makes over it
 (tests/kernel/kernel.c).
 */
module AttributeArray {
  import opened Arith
  import opened Buffers

  // ----- Attributes in memory -----

  /** Two 32-bit words: type and size. */
  const HEADER: nat := 8
  const MAP_ENTRY: nat := 24

  /** An attribute of `size` bytes in all; what its content leaves of them is zero. */
  datatype Attr = Attr(kind: nat, content: Bytes, size: nat) {
    ghost predicate Valid() {
      kind < TWO_32 && HEADER + |content| <= size < TWO_32
    }
  }

  function Zeros(n: nat): (z: Bytes)
    ensures |z| == n
  {
    seq(n, _ => 0)
  }

  /** A 32-bit word, lowest byte first. */
  function Word(v: nat): (b: Bytes)
    ensures |b| == 4
  {
    [v % 256, v / 256 % 256, v / 65536 % 256, v / 16777216 % 256]
  }

  function WordAt(b: Bytes, at: nat): nat
    requires at + 4 <= |b|
  {
    b[at] + 256 * b[at + 1] + 65536 * b[at + 2] + 16777216 * b[at + 3]
  }

  lemma WordRoundTrip(v: nat, b: Bytes, at: nat)
    requires v < TWO_32 && at + 4 <= |b| && b[at..at + 4] == Word(v)
    ensures WordAt(b, at) == v
  {
    var w := Word(v);
    assert b[at] == w[0] && b[at + 1] == w[1] && b[at + 2] == w[2] && b[at + 3] == w[3];
    var h, k := v / 256, v / 65536;
    assert h / 256 == k && k / 256 == v / 16777216;
  }

  function Encode(a: Attr): (b: Bytes)
    requires HEADER + |a.content| <= a.size
    ensures |b| == a.size
  {
    Word(a.kind) + Word(a.size) + a.content + Zeros(a.size - HEADER - |a.content|)
  }

  ghost predicate AllValid(attrs: seq<Attr>) {
    forall i: nat :: i < |attrs| ==> attrs[i].Valid()
  }

  /** The attributes one after the other. */
  ghost function Image(attrs: seq<Attr>): Bytes
    requires AllValid(attrs)
  {
    if attrs == [] then [] else Image(attrs[..|attrs| - 1]) + Encode(attrs[|attrs| - 1])
  }

  lemma ImageSnoc(attrs: seq<Attr>, a: Attr)
    requires AllValid(attrs) && a.Valid()
    ensures AllValid(attrs + [a]) && Image(attrs + [a]) == Image(attrs) + Encode(a)
  {
    assert (attrs + [a])[..|attrs|] == attrs;
  }

  /** Where attribute `i` starts. */
  ghost function Offset(attrs: seq<Attr>, i: nat): nat
    requires AllValid(attrs) && i <= |attrs|
  {
    |Image(attrs[..i])|
  }

  lemma {:induction false} ImageAt(attrs: seq<Attr>, i: nat)
    requires AllValid(attrs) && i < |attrs|
    ensures Offset(attrs, i) + attrs[i].size == Offset(attrs, i + 1) <= |Image(attrs)|
    ensures Image(attrs)[Offset(attrs, i)..Offset(attrs, i + 1)] == Encode(attrs[i])
    decreases |attrs|
  {
    hide Encode, Image;
    var last := |attrs| - 1;
    var before, e := attrs[..last], Encode(attrs[last]);
    assert attrs[..i + 1] == attrs[..i] + [attrs[i]] && attrs == before + [attrs[last]];
    ImageSnoc(attrs[..i], attrs[i]);
    ImageSnoc(before, attrs[last]);
    JoinedSlices(Image(before), e);
    if i < last {
      ImageAt(before, i);
      assert before[..i] == attrs[..i] && before[..i + 1] == attrs[..i + 1];
      JoinedPrefix(Image(before), e, Offset(attrs, i), Offset(attrs, i + 1));
    }
  }

  lemma JoinedSlices(a: Bytes, b: Bytes)
    ensures (a + b)[|a|..|a| + |b|] == b
  {
  }

  lemma JoinedPrefix(a: Bytes, b: Bytes, lo: nat, hi: nat)
    requires lo <= hi <= |a|
    ensures (a + b)[lo..hi] == a[lo..hi]
  {
  }

  // ----- The scan -----

  /** A kernel's scan: `count` steps, each by the size the header gives. It sees the attributes, in order. */
  method Scan(mem: array<nat>, start: nat, count: nat, ghost attrs: seq<Attr>) returns (seen: seq<(nat, Bytes)>)
    requires AllValid(attrs) && count == |attrs|
    requires start + |Image(attrs)| <= mem.Length && mem[start..start + |Image(attrs)|] == Image(attrs)
    ensures |seen| == |attrs|
    ensures forall i: nat :: i < |attrs| ==> seen[i] == (attrs[i].kind, Encode(attrs[i]))
  {
    hide Encode, Image;
    seen := [];
    var cursor := start;
    NoOffset(attrs);
    for i := 0 to count
      invariant |seen| == i && cursor == start + Offset(attrs, i)
      invariant forall k: nat :: k < i ==> seen[k] == (attrs[k].kind, Encode(attrs[k]))
    {
      ImageAt(attrs, i);
      AttributeAt(mem[..], start, attrs, i);
      var kind, size := WordAt(mem[..], cursor), WordAt(mem[..], cursor + 4);
      seen := seen + [(kind, mem[cursor..cursor + size])];
      cursor := cursor + size;
    }
  }

  lemma NoOffset(attrs: seq<Attr>)
    requires AllValid(attrs)
    ensures Offset(attrs, 0) == 0
  {
    assert attrs[..0] == [];
  }

  lemma AttributeAt(mem: Bytes, start: nat, attrs: seq<Attr>, i: nat)
    requires AllValid(attrs) && i < |attrs|
    requires start + |Image(attrs)| <= |mem| && mem[start..start + |Image(attrs)|] == Image(attrs)
    ensures var at := start + Offset(attrs, i);
            && at + HEADER <= at + attrs[i].size <= |mem|
            && mem[at..at + attrs[i].size] == Encode(attrs[i])
            && WordAt(mem, at) == attrs[i].kind && WordAt(mem, at + 4) == attrs[i].size
  {
    hide Image, Encode;
    var at, n := start + Offset(attrs, i), attrs[i].size;
    ImageAt(attrs, i);
    SubSlice(mem, start, |Image(attrs)|, Offset(attrs, i), n);
    HeaderWords(attrs[i]);
    SubSlice(mem, at, n, 0, 4);
    SubSlice(mem, at, n, 4, 4);
    WordRoundTrip(attrs[i].kind, mem, at);
    WordRoundTrip(attrs[i].size, mem, at + 4);
  }

  lemma HeaderWords(a: Attr)
    requires a.Valid()
    ensures Encode(a)[0..0 + 4] == Word(a.kind) && Encode(a)[4..4 + 4] == Word(a.size)
  {
  }

  // ----- What is written -----

  datatype AttributeKind =
    | PlatformInfo | KernelInfo | ModuleInfo | CommandLineText
    | FramebufferInfo | ApmInfo | MemoryMapEntries | UefiInfo

  datatype Module = Module(fixed: Bytes, description: Bytes)

  /**
   `attribute_array_spec`, with the fields of each structure after its header as bytes, and the
   type numbers the protocol gives the attributes.
   */
  datatype Input = Input(types: AttributeKind -> nat, context: nat, platform: Bytes, kernel: Bytes,
                         modules: seq<Module>, cmdline: Option<Bytes>,
                         framebuffer: Option<Bytes>, apm: Option<Bytes>, mapFixed: Bytes, uefi: Option<(Bytes, nat)>) {
    /** Structures are multiples of 8 bytes. */
    ghost predicate Aligned() {
      && context % 8 == 0 && |platform| % 8 == 0 && |kernel| % 8 == 0 && |mapFixed| % 8 == 0
      && (forall i: nat :: i < |modules| ==> |modules[i].fixed| % 8 == 0)
      && (framebuffer.Some? ==> |framebuffer.value| % 8 == 0) && (apm.Some? ==> |apm.value| % 8 == 0)
    }
  }

  /** `module_attr_size`. */
  function ModuleSize(m: Module): (n: nat)
    ensures HEADER + |ModuleContent(m)| <= n
  {
    AlignUpBound(HEADER + |ModuleContent(m)|);
    AlignUp(HEADER + |m.fixed| + if m.description == [] then 0 else |m.description| + 1, 8)
  }

  function ModuleContent(m: Module): Bytes {
    m.fixed + if m.description == [] then [] else m.description + [0]
  }

  lemma AlignUpBound(n: nat)
    ensures n <= AlignUp(n, 8) < n + 8 && AlignUp(n, 8) % 8 == 0
  {
  }

  function ModuleAttr(t: nat, m: Module): Attr {
    Attr(t, ModuleContent(m), ModuleSize(m))
  }

  function Fixed(kind: nat, fields: Bytes): Attr {
    Attr(kind, fields, HEADER + |fields|)
  }

  function Optional(kind: nat, fields: Option<Bytes>): seq<Attr> {
    if fields.Some? then [Fixed(kind, fields.value)] else []
  }

  function CommandLineSize(text: Bytes): nat {
    AlignUp(HEADER + |text| + 1, 8)
  }

  function CommandLine(t: nat, text: Option<Bytes>): seq<Attr> {
    if text.Some? then [Attr(t, text.value + [0], CommandLineSize(text.value))] else []
  }

  function MemoryMap(t: nat, fixed: Bytes, entries: Bytes): Attr {
    Fixed(t, fixed + entries)
  }

  function Uefi(t: nat, uefi: Option<(Bytes, nat)>, raw: Bytes): seq<Attr> {
    if uefi.Some? then [Attr(t, uefi.value.0 + raw, AlignUp(HEADER + |uefi.value.0| + |raw|, 8))] else []
  }

  function ModuleAttrs(t: nat, ms: seq<Module>): seq<Attr> {
    seq(|ms|, i requires 0 <= i < |ms| => ModuleAttr(t, ms[i]))
  }

  /** All but the last two, which depend on the final memory maps. */
  function Early(in_: Input): seq<Attr> {
    var t := in_.types;
    [Fixed(t(PlatformInfo), in_.platform), Fixed(t(KernelInfo), in_.kernel)] + ModuleAttrs(t(ModuleInfo), in_.modules)
    + CommandLine(t(CommandLineText), in_.cmdline) + Optional(t(FramebufferInfo), in_.framebuffer)
    + Optional(t(ApmInfo), in_.apm)
  }

  /** The attributes of a boot, in order. */
  function Attributes(in_: Input, entries: Bytes, raw: Bytes): seq<Attr> {
    Early(in_)
    + [MemoryMap(in_.types(MemoryMapEntries), in_.mapFixed, entries)]
    + Uefi(in_.types(UefiInfo), in_.uefi, raw)
  }

  function TotalSize(attrs: seq<Attr>): nat {
    if attrs == [] then 0 else TotalSize(attrs[..|attrs| - 1]) + attrs[|attrs| - 1].size
  }

  lemma {:induction false} TotalConcat(a: seq<Attr>, b: seq<Attr>)
    ensures TotalSize(a + b) == TotalSize(a) + TotalSize(b)
    decreases |b|
  {
    if b == [] {
      assert a + b == a;
    } else {
      var k := |b| - 1;
      TotalConcat(a, b[..k]);
      assert (a + b)[..|a| + k] == a + b[..k];
    }
  }

  // ----- Sizing -----

  function UefiRoom(uefi: Option<(Bytes, nat)>): nat {
    if uefi.Some? then AlignUp(HEADER + |uefi.value.0| + uefi.value.1, 8) else 0
  }

  /** Everything but the memory map's entries. */
  function FixedBytes(in_: Input): nat {
    in_.context + TotalSize(Early(in_)) + HEADER + |in_.mapFixed| + UefiRoom(in_.uefi)
  }

  lemma SingleSize(a: Attr)
    ensures TotalSize([a]) == a.size
  {
    assert [a][..0] == [];
  }

  lemma OptionalSize(t: nat, fields: Option<Bytes>)
    ensures TotalSize(Optional(t, fields)) == if fields.Some? then HEADER + |fields.value| else 0
  {
    if fields.Some? { SingleSize(Fixed(t, fields.value)); }
  }

  lemma EarlySize(in_: Input)
    ensures TotalSize(Early(in_)) == (HEADER + |in_.platform|) + (HEADER + |in_.kernel|)
         + TotalSize(ModuleAttrs(in_.types(ModuleInfo), in_.modules))
         + (if in_.cmdline.Some? then CommandLineSize(in_.cmdline.value) else 0)
         + (if in_.framebuffer.Some? then HEADER + |in_.framebuffer.value| else 0)
         + (if in_.apm.Some? then HEADER + |in_.apm.value| else 0)
  {
    hide TotalSize, ModuleAttrs, Optional, CommandLine;
    var t := in_.types;
    var p, k := Fixed(t(PlatformInfo), in_.platform), Fixed(t(KernelInfo), in_.kernel);
    var m, c := ModuleAttrs(t(ModuleInfo), in_.modules), CommandLine(t(CommandLineText), in_.cmdline);
    var f, a := Optional(t(FramebufferInfo), in_.framebuffer), Optional(t(ApmInfo), in_.apm);
    SingleSize(p);
    SingleSize(k);
    assert [p, k] == [p] + [k];
    TotalConcat([p], [k]);
    TotalConcat([p, k], m);
    TotalConcat([p, k] + m, c);
    TotalConcat([p, k] + m + c, f);
    TotalConcat([p, k] + m + c + f, a);
    CommandLineTotal(t(CommandLineText), in_.cmdline);
    OptionalSize(t(FramebufferInfo), in_.framebuffer);
    OptionalSize(t(ApmInfo), in_.apm);
  }

  lemma CommandLineTotal(t: nat, text: Option<Bytes>)
    ensures TotalSize(CommandLine(t, text)) == if text.Some? then CommandLineSize(text.value) else 0
  {
    if text.Some? { SingleSize(CommandLine(t, text)[0]); }
  }

  /** The first part of `build_attribute_array`. */
  method BytesNeeded(in_: Input) returns (n: nat)
    ensures n == FixedBytes(in_)
  {
    hide TotalSize, ModuleAttrs, Early, ModuleSize, CommandLineSize, UefiRoom;
    EarlySize(in_);
    n := in_.context + (HEADER + |in_.platform|) + (HEADER + |in_.kernel|);
    ghost var before := n;
    NoModules(in_.types(ModuleInfo), in_.modules);
    for i := 0 to |in_.modules|
      invariant n == before + TotalSize(ModuleAttrs(in_.types(ModuleInfo), in_.modules[..i]))
    {
      OneMore(in_.types(ModuleInfo), in_.modules, i);
      n := n + ModuleSize(in_.modules[i]);
    }
    assert in_.modules[..|in_.modules|] == in_.modules;
    if in_.cmdline.Some? {
      n := n + CommandLineSize(in_.cmdline.value);
    }
    if in_.framebuffer.Some? {
      n := n + HEADER + |in_.framebuffer.value|;
    }
    if in_.apm.Some? {
      n := n + HEADER + |in_.apm.value|;
    }
    n := n + UefiRoom(in_.uefi) + HEADER + |in_.mapFixed|;
  }

  lemma NoModules(t: nat, ms: seq<Module>)
    ensures ModuleAttrs(t, ms[..0]) == [] && TotalSize(ModuleAttrs(t, ms[..0])) == 0
  {
  }

  lemma OneMore(t: nat, ms: seq<Module>, i: nat)
    requires i < |ms|
    ensures ModuleAttrs(t, ms[..i + 1]) == ModuleAttrs(t, ms[..i]) + [ModuleAttr(t, ms[i])]
    ensures TotalSize(ModuleAttrs(t, ms[..i + 1])) == TotalSize(ModuleAttrs(t, ms[..i])) + ModuleSize(ms[i])
  {
    hide TotalSize, ModuleSize, ModuleContent;
    assert ModuleAttrs(t, ms[..i + 1]) == ModuleAttrs(t, ms[..i]) + [ModuleAttr(t, ms[i])];
    TotalConcat(ModuleAttrs(t, ms[..i]), [ModuleAttr(t, ms[i])]);
    SingleSize(ModuleAttr(t, ms[i]));
  }

  // ----- The allocation loop -----

  const ENTRIES_PER_PAGE: nat := 170

  /** Pages of the first attempt, for a map of `count` entries and two to spare. */
  function FirstPages(fixed: nat, count: nat): nat {
    AlignUp(fixed + (count + 2) * MAP_ENTRY, PAGE_SIZE) / PAGE_SIZE
  }

  /** Map entries that attempt `k` has room for. */
  function Room(fixed: nat, count: nat, k: nat): nat
    requires fixed + (count + 2) * MAP_ENTRY <= FirstPages(fixed, count) * PAGE_SIZE
  {
    count + 2
    + (FirstPages(fixed, count) * PAGE_SIZE - fixed - (count + 2) * MAP_ENTRY) / MAP_ENTRY
    + k * ENTRIES_PER_PAGE
  }

  lemma FirstPagesHold(fixed: nat, count: nat)
    ensures fixed + (count + 2) * MAP_ENTRY <= FirstPages(fixed, count) * PAGE_SIZE
    ensures AlignUp(fixed + (count + 2) * MAP_ENTRY, PAGE_SIZE) == FirstPages(fixed, count) * PAGE_SIZE
  {
  }

  /**
   The first attempt takes the fewest pages that hold the fixed part and two entries more than there are, and has room
   for as many entries as those pages hold; every further attempt adds a page and 170 entries.
   */
  lemma FirstAttempt(fixed: nat, count: nat, k: nat)
    ensures fixed + (count + 2) * 24 <= FirstPages(fixed, count) * 4096 < fixed + (count + 2) * 24 + 4096
    ensures Room(fixed, count, 0) == (FirstPages(fixed, count) * 4096 - fixed) / 24
    ensures Room(fixed, count, k) == Room(fixed, count, 0) + 170 * k
  {
    FirstPagesHold(fixed, count);
    AlignFacts(fixed + (count + 2) * MAP_ENTRY, PAGE_SIZE);
    var spare := FirstPages(fixed, count) * PAGE_SIZE - fixed - (count + 2) * MAP_ENTRY;
    DivAddUnits(spare, count + 2, 24);
  }

  /** Every attempt has room for the fixed part and its entries. */
  lemma RoomFits(fixed: nat, count: nat, k: nat)
    ensures fixed + (count + 2) * MAP_ENTRY <= FirstPages(fixed, count) * PAGE_SIZE
    ensures fixed + Room(fixed, count, k) * MAP_ENTRY <= (FirstPages(fixed, count) + k) * PAGE_SIZE
  {
    FirstPagesHold(fixed, count);
  }

  /** Attempt `k` found the map grown past its room, but by less than a page of entries. */
  ghost predicate Retried(fixed: nat, count: nat, counts: seq<nat>, k: nat)
    requires fixed + (count + 2) * MAP_ENTRY <= FirstPages(fixed, count) * PAGE_SIZE && k < |counts|
  {
    Room(fixed, count, k) < counts[k] < Room(fixed, count, k + 1)
  }

  datatype Plan = Ready(pages: nat, entries: nat, attempt: nat) | GrewTooFast(attempt: nat) | StillGrowing

  /**
   The retry loop: `counts` are the sizes the memory map has after each allocation. It stops at the
   first attempt with room for the map, or at a growth of a page of entries or more.
   */
  method PlanPages(fixed: nat, count: nat, counts: seq<nat>) returns (p: Plan)
    ensures fixed + (count + 2) * MAP_ENTRY <= FirstPages(fixed, count) * PAGE_SIZE
    ensures match p
            case Ready(pages, entries, k) =>
              && k < |counts| && entries == counts[k] <= Room(fixed, count, k) && pages == FirstPages(fixed, count) + k
              && fixed + entries * MAP_ENTRY <= pages * PAGE_SIZE
              && forall j: nat :: j < k ==> Retried(fixed, count, counts, j)
            case GrewTooFast(k) =>
              k < |counts| && counts[k] >= Room(fixed, count, k + 1)
              && forall j: nat :: j < k ==> Retried(fixed, count, counts, j)
            case StillGrowing => forall j: nat :: j < |counts| ==> Retried(fixed, count, counts, j)
  {
    FirstPagesHold(fixed, count);
    var entries := count + 2;
    var needed := fixed + entries * MAP_ENTRY;
    var bytes := AlignUp(needed, PAGE_SIZE);
    entries := entries + (bytes - needed) / MAP_ENTRY;
    var pages := bytes / PAGE_SIZE;
    for k := 0 to |counts|
      invariant entries == Room(fixed, count, k) && pages == FirstPages(fixed, count) + k
      invariant forall j: nat :: j < k ==> Retried(fixed, count, counts, j)
    {
      if entries >= counts[k] {
        RoomFits(fixed, count, k);
        return Ready(pages, counts[k], k);
      }
      entries := entries + PAGE_SIZE / MAP_ENTRY;
      pages := pages + 1;
      if entries <= counts[k] {
        return GrewTooFast(k);
      }
    }
    p := StillGrowing;
  }

  // ----- Writing -----

  /** The allocated pages, the write cursor and the attribute count of the context at their start. */
  class Writer {
    const mem: array<nat>
    const start: nat
    var at: nat
    var count: nat
    ghost var done: seq<Attr>

    ghost predicate Valid()
      reads this, mem
    {
      && AllValid(done) && count == |done|
      && at == start + |Image(done)| <= mem.Length
      && mem[start..at] == Image(done)
      && mem[at..] == Zeros(mem.Length - at)
    }

    /** `memzero` of the pages and `write_context_header`. */
    constructor (pages: nat, context: nat)
      requires context <= pages * PAGE_SIZE
      ensures Valid() && done == [] && mem.Length == pages * PAGE_SIZE && at == start == context && fresh(mem)
    {
      mem := new nat[pages * PAGE_SIZE](_ => 0);
      start, at, count, done := context, context, 0, [];
    }

    /** One attribute: its header, its content, and the cursor moved by its size over zeros. */
    method Put(kind: nat, content: Bytes, size: nat)
      requires Valid() && Attr(kind, content, size).Valid() && at + size <= mem.Length
      modifies this`at, this`count, this`done, mem
      ensures Valid() && done == old(done) + [Attr(kind, content, size)] && at == old(at) + size
    {
      ghost var a := Attr(kind, content, size);
      ImageSnoc(done, a);
      ghost var before := mem[..];
      Store(at, Word(kind) + Word(size) + content);
      ghost var after := mem[..];
      hide Image, Word;
      PutImage(before, after, start, at, Word(kind) + Word(size) + content, size, Image(done));
      assert Word(kind) + Word(size) + content + Zeros(size - HEADER - |content|) == Encode(a);
      at := at + size;
      count := count + 1;
      done := done + [a];
    }

    method Store(pos: nat, bytes: Bytes)
      requires pos + |bytes| <= mem.Length
      modifies mem
      ensures mem[..] == old(mem[..pos]) + bytes + old(mem[pos + |bytes|..])
    {
      forall i | pos <= i < pos + |bytes| {
        mem[i] := bytes[i - pos];
      }
    }
  }

  lemma PutImage(before: Bytes, after: Bytes, start: nat, at: nat, bytes: Bytes, size: nat, image: Bytes)
    requires start <= at && at + size <= |before| && |bytes| <= size
    requires before[start..at] == image && before[at..] == Zeros(|before| - at)
    requires after == before[..at] + bytes + before[at + |bytes|..]
    ensures |after| == |before|
    ensures after[start..at + size] == image + (bytes + Zeros(size - |bytes|))
    ensures after[at + size..] == Zeros(|after| - (at + size))
  {
    var n, z := |bytes|, before[at..];
    assert before[at + n..] == z[n..];
    assert z[n..] == Zeros(|before| - at - n);
    assert after == before[..at] + bytes + Zeros(|before| - at - n);
    assert before[..at] == before[..start] + image;
    assert Zeros(|before| - at - n) == Zeros(size - n) + Zeros(|before| - at - size);
    assert after == before[..start] + (image + (bytes + Zeros(size - n))) + Zeros(|before| - at - size);
  }

  ghost predicate Writable(in_: Input) {
    && (forall k: AttributeKind :: in_.types(k) < TWO_32)
    && FixedBytes(in_) < TWO_32
  }

  /** The writers in order. The sizes counted beforehand keep every write inside the allocation. */
  method WriteAll(w: Writer, in_: Input, entries: Bytes, raw: Bytes)
    requires w.Valid() && w.done == [] && w.at == w.start == in_.context && Writable(in_)
    requires FixedBytes(in_) + |entries| <= w.mem.Length && FixedBytes(in_) + |entries| < TWO_32
    requires in_.uefi.Some? ==> |raw| <= in_.uefi.value.1
    modifies w`at, w`count, w`done, w.mem
    ensures w.Valid() && w.done == Attributes(in_, entries, raw)
    ensures in_.uefi.None? || |raw| == in_.uefi.value.1 ==> w.at == FixedBytes(in_) + |entries|
  {
    hide Early, Image, TotalSize, Writer.Valid, AlignUp;
    WriteEarly(w, in_);
    var t := in_.types;
    w.Put(t(MemoryMapEntries), in_.mapFixed + entries, HEADER + |in_.mapFixed| + |entries|);
    if in_.uefi.Some? {
      var fixed := in_.uefi.value.0;
      UefiFits(fixed, |raw|, in_.uefi.value.1);
      w.Put(t(UefiInfo), fixed + raw, AlignUp(HEADER + |fixed| + |raw|, 8));
    }
  }

  lemma UefiFits(fixed: Bytes, raw: nat, capacity: nat)
    requires raw <= capacity
    ensures HEADER + |fixed| + raw <= AlignUp(HEADER + |fixed| + raw, 8) <= AlignUp(HEADER + |fixed| + capacity, 8)
  {
    AlignUpBound(HEADER + |fixed| + raw);
    AlignUpBound(HEADER + |fixed| + capacity);
  }

  method WriteEarly(w: Writer, in_: Input)
    requires w.Valid() && w.done == [] && w.at == w.start == in_.context && Writable(in_)
    requires FixedBytes(in_) <= w.mem.Length
    modifies w`at, w`count, w`done, w.mem
    ensures w.Valid() && w.done == Early(in_) && w.at == in_.context + TotalSize(Early(in_))
  {
    hide Writer.Valid, TotalSize, ModuleAttrs, Image, CommandLine, Optional, UefiRoom;
    var t := in_.types;
    EarlyRest(in_);
    w.Put(t(PlatformInfo), in_.platform, HEADER + |in_.platform|);
    w.Put(t(KernelInfo), in_.kernel, HEADER + |in_.kernel|);
    WriteModules(w, t(ModuleInfo), in_.modules);
    WriteOptional(w, in_);
  }

  lemma EarlyRest(in_: Input)
    ensures var t := in_.types;
            TotalSize(Early(in_))
            == 2 * HEADER + |in_.platform| + |in_.kernel|
               + TotalSize(ModuleAttrs(t(ModuleInfo), in_.modules))
               + TotalSize(CommandLine(t(CommandLineText), in_.cmdline))
               + TotalSize(Optional(t(FramebufferInfo), in_.framebuffer))
              + TotalSize(Optional(t(ApmInfo), in_.apm))
  {
    hide TotalSize, ModuleAttrs, Early, CommandLine, Optional;
    EarlySize(in_);
    CommandLineTotal(in_.types(CommandLineText), in_.cmdline);
    OptionalSize(in_.types(FramebufferInfo), in_.framebuffer);
    OptionalSize(in_.types(ApmInfo), in_.apm);
  }

  method WriteModules(w: Writer, t: nat, ms: seq<Module>)
    requires w.Valid() && t < TWO_32 && w.at + TotalSize(ModuleAttrs(t, ms)) <= w.mem.Length
    requires TotalSize(ModuleAttrs(t, ms)) < TWO_32
    modifies w`at, w`count, w`done, w.mem
    ensures w.Valid() && w.done == old(w.done) + ModuleAttrs(t, ms) && w.at == old(w.at) + TotalSize(ModuleAttrs(t, ms))
  {
    hide Writer.Valid, TotalSize, ModuleAttrs, Image, ModuleSize, ModuleContent;
    NoModules(t, ms);
    for i := 0 to |ms|
      invariant w.Valid() && w.done == old(w.done) + ModuleAttrs(t, ms[..i])
      invariant w.at == old(w.at) + TotalSize(ModuleAttrs(t, ms[..i]))
    {
      OneMore(t, ms, i);
      SoFar(t, ms, i + 1);
      w.Put(t, ModuleContent(ms[i]), ModuleSize(ms[i]));
    }
    assert ms[..|ms|] == ms;
  }

  lemma SoFar(t: nat, ms: seq<Module>, k: nat)
    requires k <= |ms|
    ensures TotalSize(ModuleAttrs(t, ms[..k])) <= TotalSize(ModuleAttrs(t, ms))
  {
    hide TotalSize;
    var all := ModuleAttrs(t, ms);
    assert all == all[..k] + all[k..] && all[..k] == ModuleAttrs(t, ms[..k]);
    TotalConcat(all[..k], all[k..]);
  }

  /** The command line, framebuffer and APM attributes, those that are present. */
  method WriteOptional(w: Writer, in_: Input)
    requires w.Valid() && Writable(in_)
    requires w.at + TotalSize(CommandLine(in_.types(CommandLineText), in_.cmdline))
                  + TotalSize(Optional(in_.types(FramebufferInfo), in_.framebuffer))
                  + TotalSize(Optional(in_.types(ApmInfo), in_.apm)) <= FixedBytes(in_) <= w.mem.Length
    modifies w`at, w`count, w`done, w.mem
    ensures w.Valid()
    ensures w.at == old(w.at) + TotalSize(CommandLine(in_.types(CommandLineText), in_.cmdline))
                    + TotalSize(Optional(in_.types(FramebufferInfo), in_.framebuffer))
                    + TotalSize(Optional(in_.types(ApmInfo), in_.apm))
    ensures w.done == old(w.done) + CommandLine(in_.types(CommandLineText), in_.cmdline)
                      + Optional(in_.types(FramebufferInfo), in_.framebuffer) + Optional(in_.types(ApmInfo), in_.apm)
  {
    hide TotalSize, Image, FixedBytes, Writer.Valid;
    var t := in_.types;
    CommandLineTotal(t(CommandLineText), in_.cmdline);
    OptionalSize(t(FramebufferInfo), in_.framebuffer);
    OptionalSize(t(ApmInfo), in_.apm);
    if in_.cmdline.Some? {
      AlignUpBound(HEADER + |in_.cmdline.value| + 1);
      w.Put(t(CommandLineText), in_.cmdline.value + [0], CommandLineSize(in_.cmdline.value));
    }
    if in_.framebuffer.Some? {
      w.Put(t(FramebufferInfo), in_.framebuffer.value, HEADER + |in_.framebuffer.value|);
    }
    if in_.apm.Some? {
      w.Put(t(ApmInfo), in_.apm.value, HEADER + |in_.apm.value|);
    }
  }

  /**
   `build_attribute_array`: whatever the memory map does between attempts, a finished array lies in
   its pages, and a scan of it sees the attributes of the boot. `mapOf` is the final memory map,
   given the room for it; a map that grew past its room after the last count gives no array.
   */
  method Build(in_: Input, count: nat, counts: seq<nat>, mapOf: nat -> Bytes, raw: Bytes) returns (p: Plan, w: Writer?)
    requires Writable(in_)
    requires forall k: nat :: k < |counts| ==> FixedBytes(in_) + counts[k] * MAP_ENTRY < TWO_32
    requires in_.uefi.Some? ==> |raw| <= in_.uefi.value.1
    ensures p.Ready? && |mapOf(p.entries)| <= p.entries * MAP_ENTRY <==> w != null
    ensures w != null ==> w.Valid() && fresh(w) && fresh(w.mem) && w.mem.Length == p.pages * PAGE_SIZE
                          && w.start == in_.context && w.done == Attributes(in_, mapOf(p.entries), raw)
    ensures w != null && (in_.uefi.None? || |raw| == in_.uefi.value.1) ==>
              w.at == FixedBytes(in_) + |mapOf(p.entries)|
  {
    hide FixedBytes, Attributes;
    var fixed := BytesNeeded(in_);
    p := PlanPages(fixed, count, counts);
    if !p.Ready? || |mapOf(p.entries)| > p.entries * MAP_ENTRY {
      return p, null;
    }
    ContextFits(in_);
    w := new Writer(p.pages, in_.context);
    WriteAll(w, in_, mapOf(p.entries), raw);
  }

  lemma ContextFits(in_: Input)
    ensures in_.context <= FixedBytes(in_)
  {
  }

  /** Built, then scanned by a kernel. */
  method BuildAndScan(in_: Input, count: nat, counts: seq<nat>, mapOf: nat -> Bytes, raw: Bytes)
    returns (p: Plan, seen: seq<(nat, Bytes)>)
    requires Writable(in_)
    requires forall k: nat :: k < |counts| ==> FixedBytes(in_) + counts[k] * MAP_ENTRY < TWO_32
    requires in_.uefi.Some? ==> |raw| <= in_.uefi.value.1
    ensures p.Ready? && |mapOf(p.entries)| <= p.entries * MAP_ENTRY ==>
                         var attrs := Attributes(in_, mapOf(p.entries), raw);
                         AllValid(attrs) && |seen| == |attrs|
                         && forall i: nat :: i < |attrs| ==> seen[i] == (attrs[i].kind, Encode(attrs[i]))
    ensures p.Ready? && |mapOf(p.entries)| <= p.entries * MAP_ENTRY ==> InBootOrder(in_, mapOf(p.entries), raw, seen)
  {
    hide FixedBytes, Attributes, Image, Encode, InBootOrder;
    var w;
    p, w := Build(in_, count, counts, mapOf, raw);
    seen := [];
    if w != null {
      seen := Scan(w.mem, w.start, w.count, w.done);
      SeenInOrder(in_, mapOf(p.entries), raw, seen);
    }
  }

  // ----- What a kernel sees -----

  /** One attribute as a kernel reads it: type and size in the header, then the content, then zeros up to the size. */
  ghost predicate Carries(a: (nat, Bytes), kind: nat, content: Bytes, size: nat) {
    && a.0 == kind && |a.1| == size && 8 + |content| <= size
    && WordAt(a.1, 0) == kind && WordAt(a.1, 4) == size
    && a.1[8..8 + |content|] == content
    && (forall i :: 8 + |content| <= i < size ==> a.1[i] == 0)
  }

  /** The same, of the smallest size that is a multiple of 8. */
  ghost predicate CarriesPadded(a: (nat, Bytes), kind: nat, content: Bytes) {
    |a.1| % 8 == 0 && |a.1| < 8 + |content| + 8 && Carries(a, kind, content, |a.1|)
  }

  function One<T>(x: Option<T>): nat {
    if x.Some? then 1 else 0
  }

  /**
   The attributes of a boot in the order a kernel meets them: platform, kernel, every module, then the command
   line, framebuffer and APM information if there are any, the memory map, and the UEFI map if there is one.
   */
  ghost predicate InBootOrder(in_: Input, entries: Bytes, raw: Bytes, seen: seq<(nat, Bytes)>) {
    var t := in_.types;
    var cmdline := 2 + |in_.modules|;
    var framebuffer := cmdline + One(in_.cmdline);
    var apm := framebuffer + One(in_.framebuffer);
    var memory := apm + One(in_.apm);
    && |seen| == memory + 1 + One(in_.uefi)
    && Carries(seen[0], t(PlatformInfo), in_.platform, 8 + |in_.platform|)
    && Carries(seen[1], t(KernelInfo), in_.kernel, 8 + |in_.kernel|)
    && (forall i: nat :: i < |in_.modules| ==> SeesModule(seen[2 + i], t(ModuleInfo), in_.modules[i]))
    && (in_.cmdline.Some? ==> CarriesPadded(seen[cmdline], t(CommandLineText), in_.cmdline.value + [0]))
    && (in_.framebuffer.Some? ==>
          Carries(seen[framebuffer], t(FramebufferInfo), in_.framebuffer.value, 8 + |in_.framebuffer.value|))
    && (in_.apm.Some? ==> Carries(seen[apm], t(ApmInfo), in_.apm.value, 8 + |in_.apm.value|))
    && Carries(seen[memory], t(MemoryMapEntries), in_.mapFixed + entries, 8 + |in_.mapFixed| + |entries|)
    && (in_.uefi.Some? ==> CarriesPadded(seen[memory + 1], t(UefiInfo), in_.uefi.value.0 + raw))
  }

  /** A module has a description with its terminator, or nothing after its fixed part. */
  ghost predicate SeesModule(a: (nat, Bytes), kind: nat, m: Module) {
    if m.description == [] then CarriesPadded(a, kind, m.fixed)
    else CarriesPadded(a, kind, m.fixed + m.description + [0])
  }

  lemma EncodeCarries(a: Attr)
    requires a.Valid()
    ensures Carries((a.kind, Encode(a)), a.kind, a.content, a.size)
  {
    hide Word, WordAt;
    HeaderWords(a);
    WordRoundTrip(a.kind, Encode(a), 0);
    WordRoundTrip(a.size, Encode(a), 4);
  }

  lemma ModuleSeen(t: nat, m: Module)
    requires ModuleAttr(t, m).Valid()
    ensures SeesModule((t, Encode(ModuleAttr(t, m))), t, m)
  {
    hide Encode, Carries, AlignUp;
    EncodeCarries(ModuleAttr(t, m));
    AlignUpBound(HEADER + |ModuleContent(m)|);
    assert m.fixed + (m.description + [0]) == m.fixed + m.description + [0];
    assert m.fixed + [] == m.fixed;
  }

  lemma PaddedSeen(kind: nat, content: Bytes)
    requires Attr(kind, content, AlignUp(HEADER + |content|, 8)).Valid()
    ensures var a := Attr(kind, content, AlignUp(HEADER + |content|, 8));
            CarriesPadded((kind, Encode(a)), kind, content)
  {
    hide Encode, Carries, AlignUp;
    EncodeCarries(Attr(kind, content, AlignUp(HEADER + |content|, 8)));
    AlignUpBound(HEADER + |content|);
  }

  /** Where each attribute of a boot is in the list. */
  lemma AttributeIndices(in_: Input, entries: Bytes, raw: Bytes)
    ensures var attrs, t := Attributes(in_, entries, raw), in_.types;
            var cmdline := 2 + |in_.modules|;
            var framebuffer := cmdline + One(in_.cmdline);
            var apm := framebuffer + One(in_.framebuffer);
            var memory := apm + One(in_.apm);
            && |attrs| == memory + 1 + One(in_.uefi)
            && attrs[0] == Fixed(t(PlatformInfo), in_.platform) && attrs[1] == Fixed(t(KernelInfo), in_.kernel)
            && (forall i: nat :: i < |in_.modules| ==> attrs[2 + i] == ModuleAttr(t(ModuleInfo), in_.modules[i]))
            && (in_.cmdline.Some? ==> [attrs[cmdline]] == CommandLine(t(CommandLineText), in_.cmdline))
            && (in_.framebuffer.Some? ==> attrs[framebuffer] == Fixed(t(FramebufferInfo), in_.framebuffer.value))
            && (in_.apm.Some? ==> attrs[apm] == Fixed(t(ApmInfo), in_.apm.value))
            && attrs[memory] == MemoryMap(t(MemoryMapEntries), in_.mapFixed, entries)
            && (in_.uefi.Some? ==> [attrs[memory + 1]] == Uefi(t(UefiInfo), in_.uefi, raw))
  {
    hide ModuleSize, ModuleContent, AlignUp;
  }

  /** A scan that sees the attributes sees them in this order. */
  lemma SeenInOrder(in_: Input, entries: Bytes, raw: Bytes, seen: seq<(nat, Bytes)>)
    requires var attrs := Attributes(in_, entries, raw);
             AllValid(attrs) && |seen| == |attrs|
             && forall i: nat :: i < |attrs| ==> seen[i] == (attrs[i].kind, Encode(attrs[i]))
    ensures InBootOrder(in_, entries, raw, seen)
  {
    hide Encode, Carries, Attributes, ModuleAttr, AlignUp, CarriesPadded, SeesModule;
    var attrs, t := Attributes(in_, entries, raw), in_.types;
    AttributeIndices(in_, entries, raw);
    forall i: nat | i < |attrs| ensures Carries(seen[i], attrs[i].kind, attrs[i].content, attrs[i].size) {
      EncodeCarries(attrs[i]);
    }
    forall i: nat | i < |in_.modules| ensures SeesModule(seen[2 + i], t(ModuleInfo), in_.modules[i]) {
      assert attrs[2 + i] == ModuleAttr(t(ModuleInfo), in_.modules[i]);
      ModuleSeen(t(ModuleInfo), in_.modules[i]);
      ModuleKind(t(ModuleInfo), in_.modules[i]);
    }
    if in_.cmdline.Some? { PaddedSeen(t(CommandLineText), in_.cmdline.value + [0]); }
    if in_.uefi.Some? { PaddedSeen(t(UefiInfo), in_.uefi.value.0 + raw); }
  }

  lemma ModuleKind(t: nat, m: Module)
    ensures ModuleAttr(t, m).kind == t
  {
  }

  // ----- Alignment -----

  ghost predicate EightBytes(attrs: seq<Attr>) {
    forall i: nat :: i < |attrs| ==> attrs[i].size % 8 == 0
  }

  lemma SizesAligned(in_: Input, entries: Bytes, raw: Bytes)
    requires in_.Aligned() && |entries| % MAP_ENTRY == 0
    ensures EightBytes(Attributes(in_, entries, raw))
  {
    hide ModuleAttrs, CommandLine, Optional, Uefi, EightBytes;
    var t := in_.types;
    var first := [Fixed(t(PlatformInfo), in_.platform), Fixed(t(KernelInfo), in_.kernel)];
    var m, c := ModuleAttrs(t(ModuleInfo), in_.modules), CommandLine(t(CommandLineText), in_.cmdline);
    var f, a := Optional(t(FramebufferInfo), in_.framebuffer), Optional(t(ApmInfo), in_.apm);
    var last, u := [MemoryMap(t(MemoryMapEntries), in_.mapFixed, entries)], Uefi(t(UefiInfo), in_.uefi, raw);
    PartsAligned(in_, entries, raw);
    JoinAligned(first, m);
    JoinAligned(first + m, c);
    JoinAligned(first + m + c, f);
    JoinAligned(first + m + c + f, a);
    JoinAligned(Early(in_), last);
    JoinAligned(Early(in_) + last, u);
  }

  lemma JoinAligned(a: seq<Attr>, b: seq<Attr>)
    requires EightBytes(a) && EightBytes(b)
    ensures EightBytes(a + b)
  {
  }

  lemma ModulesAligned(t: nat, ms: seq<Module>)
    ensures EightBytes(ModuleAttrs(t, ms))
  {
    hide AlignUp, ModuleContent;
    forall m: Module ensures ModuleSize(m) % 8 == 0 {
      AlignUpBound(HEADER + |m.fixed| + if m.description == [] then 0 else |m.description| + 1);
    }
  }

  lemma PartsAligned(in_: Input, entries: Bytes, raw: Bytes)
    requires in_.Aligned() && |entries| % MAP_ENTRY == 0
    ensures var t := in_.types;
            && EightBytes([Fixed(t(PlatformInfo), in_.platform), Fixed(t(KernelInfo), in_.kernel)])
            && EightBytes(ModuleAttrs(t(ModuleInfo), in_.modules))
            && EightBytes(CommandLine(t(CommandLineText), in_.cmdline))
            && EightBytes(Optional(t(FramebufferInfo), in_.framebuffer)) && EightBytes(Optional(t(ApmInfo), in_.apm))
            && EightBytes([MemoryMap(t(MemoryMapEntries), in_.mapFixed, entries)])
            && EightBytes(Uefi(t(UefiInfo), in_.uefi, raw))
  {
    hide AlignUp, ModuleAttrs;
    ModulesAligned(in_.types(ModuleInfo), in_.modules);
    if in_.cmdline.Some? { AlignUpBound(HEADER + |in_.cmdline.value| + 1); }
    if in_.uefi.Some? { AlignUpBound(HEADER + |in_.uefi.value.0| + |raw|); }
  }

  /** Every attribute starts on an 8-byte boundary, so that its header and fields are aligned. */
  lemma {:induction false} StartsAligned(attrs: seq<Attr>, i: nat)
    requires AllValid(attrs) && EightBytes(attrs) && i <= |attrs|
    ensures Offset(attrs, i) % 8 == 0
    decreases i
  {
    hide Encode;
    if i > 0 {
      StartsAligned(attrs, i - 1);
      assert attrs[..i] == attrs[..i - 1] + [attrs[i - 1]];
      ImageSnoc(attrs[..i - 1], attrs[i - 1]);
    }
  }
}
