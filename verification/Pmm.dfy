/** The physical frame allocator as the kernel runs it: a bitmap of words and two counters. */
module Pmm {
  import opened Bitmap
  import opened Frames

  const WORDS := 262144
  const CONVENTIONAL := 7

  /** A memory descriptor: type, physical start, number of pages. */
  datatype Descriptor = Descriptor(kind: nat, start: nat, pages: nat)

  /** A byte range that boot keeps for itself. */
  datatype Region = Region(base: nat, size: nat)

  datatype BootInfo = BootInfo(regions: seq<Descriptor>, initrd: Region, info: Region, mapBytes: Region,
                               framebuffer: Region, image: Region, stack: Region)

  // ---------- what initialization does ----------

  function CappedEnd(d: Descriptor): (e: nat)
    ensures e <= MAX_FRAMES * PAGE
  {
    var e := Mod64(d.start + d.pages * PAGE);
    if e > MAX_FRAMES * PAGE then MAX_FRAMES * PAGE else e
  }

  predicate Usable(d: Descriptor) {
    d.kind == CONVENTIONAL && d.pages != 0
  }

  function FramesIn(d: Descriptor): (n: nat)
    ensures n <= MAX_FRAMES
  {
    var s, e := RoundUp(d.start) / PAGE, CappedEnd(d) / PAGE;
    if s < e then e - s else 0
  }

  /** What a descriptor adds to the count of frames: a 64-bit difference, cut to pages. */
  function FramesCounted(d: Descriptor): (n: nat)
    ensures n < U64
  {
    Mod64(CappedEnd(d) - RoundUp(d.start)) / PAGE
  }

  function AddRegion(p: Pool, d: Descriptor): (q: Pool)
    requires p.free < U64 && p.total < U64
    ensures q.free < U64 && q.total < U64
  {
    if !Usable(d) then p
    else Pool(p.taken, Plus(p.total, FramesCounted(d)), Plus(p.free, FramesIn(d)))
  }

  function AddRegions(p: Pool, ds: seq<Descriptor>): (q: Pool)
    requires p.free < U64 && p.total < U64
    ensures q.free < U64 && q.total < U64 && q.taken == p.taken
  {
    if ds == [] then p else AddRegion(AddRegions(p, ds[..|ds| - 1]), ds[|ds| - 1])
  }

  /** The ranges reserved, in order; an initrd of size zero is skipped. */
  function Reserved(info: BootInfo): seq<Region> {
    (if info.initrd.size != 0 then [info.initrd] else [])
    + [info.info, info.mapBytes, info.framebuffer, info.image, info.stack]
  }

  function FirstFrame(r: Region): nat { r.base / PAGE }

  function EndFrame(r: Region): nat { Mod64(r.base + r.size + PAGE - 1) / PAGE }

  /** reserve_range() checks no bound: a range that is not empty must end below 64 GiB. */
  predicate Fits(r: Region) { EndFrame(r) <= MAX_FRAMES || EndFrame(r) <= FirstFrame(r) }

  /** That is exactly when its loop stays inside the bitmap. */
  lemma FitsBitmap(r: Region)
    ensures Fits(r) <==> forall f :: FirstFrame(r) <= f < EndFrame(r) ==> f / 64 < WORDS
  {
    if EndFrame(r) > MAX_FRAMES && EndFrame(r) > FirstFrame(r) {
      assert FirstFrame(r) <= EndFrame(r) - 1 < EndFrame(r) && (EndFrame(r) - 1) / 64 >= WORDS;
    }
  }

  /** A framebuffer just above 64 GiB makes it write behind the bitmap. */
  lemma HighFramebufferOverflows()
    ensures var r := Region(MAX_FRAMES * PAGE, PAGE); FirstFrame(r) == MAX_FRAMES < EndFrame(r) && FirstFrame(r) / 64 == WORDS && !Fits(r)
  {
  }

  predicate AllFit(rs: seq<Region>) {
    forall i :: 0 <= i < |rs| ==> Fits(rs[i])
  }

  function ReserveAll(p: Pool, rs: seq<Region>): (q: Pool)
    requires p.free < U64 && AllFit(rs)
    ensures q.free < U64 && q.total == p.total
  {
    if rs == [] then p
    else ReserveRangeP(ReserveAll(p, rs[..|rs| - 1]), FirstFrame(rs[|rs| - 1]), EndFrame(rs[|rs| - 1]))
  }

  const EMPTY := Pool({}, 0, 0)

  function InitP(info: BootInfo): (p: Pool)
    requires AllFit(Reserved(info))
    ensures p.free < U64
  {
    ReserveAll(AddRegions(EMPTY, info.regions), Reserved(info))
  }

  // ---------- the counter after initialization ----------

  /** A region that starts, rounded up, no later than it ends, capped at 64 GiB. */
  predicate WellPlaced(d: Descriptor) {
    Usable(d) ==> RoundUp(d.start) <= CappedEnd(d)
  }

  /** What descriptors beyond 64 GiB add to the bound without adding frames. */
  function Excess(ds: seq<Descriptor>): nat {
    if ds == [] then 0
    else
      var d := ds[|ds| - 1];
      Excess(ds[..|ds| - 1]) + (if WellPlaced(d) then 0 else FramesCounted(d))
  }

  lemma PlacedCount(d: Descriptor)
    requires Usable(d)
    ensures WellPlaced(d) ==> FramesCounted(d) == FramesIn(d)
    ensures !WellPlaced(d) ==> FramesIn(d) == 0 && FramesCounted(d) > 0
  {
    var s, e := RoundUp(d.start), CappedEnd(d);
    PageDifference(s / PAGE, e);
    if e < s {
      assert Mod64(e - s) == e - s + U64;
    } else {
      assert Mod64(e - s) == e - s;
    }
  }

  lemma PageDifference(k: nat, e: nat)
    ensures k * PAGE <= e ==> (e - k * PAGE) / PAGE == e / PAGE - k
    ensures e < k * PAGE ==> e / PAGE < k
  {
  }

  lemma {:induction false} RegionsCounted(ds: seq<Descriptor>)
    ensures var p := AddRegions(EMPTY, ds); p.total % U64 == (p.free + Excess(ds)) % U64
  {
    if ds != [] {
      var front, d := ds[..|ds| - 1], ds[|ds| - 1];
      RegionsCounted(front);
      if Usable(d) {
        PlacedCount(d);
        var p := AddRegions(EMPTY, front);
        AddModulo(p.total, p.free + Excess(front), FramesCounted(d));
        PlusModulo(p.total, FramesCounted(d));
        PlusModulo(p.free, FramesIn(d));
        AddModulo(Plus(p.free, FramesIn(d)), p.free + FramesIn(d), Excess(ds));
      }
    }
  }

  lemma AddModulo(a: nat, b: nat, c: nat)
    requires a % U64 == b % U64
    ensures (a + c) % U64 == (b + c) % U64
  {
  }

  lemma PlusModulo(a: nat, b: nat)
    requires a < U64 && b < U64
    ensures Plus(a, b) % U64 == (a + b) % U64
  {
  }

  /** Frames free and frames taken, as the 64-bit counter has them. */
  function Accounted(p: Pool): nat {
    (p.free + |p.taken|) % U64
  }

  /** The reservations keep the counter as exact, or as wrong, as they find it. */
  lemma {:induction false} ReserveAllCounted(p: Pool, rs: seq<Region>)
    requires p.free < U64 && p.total < U64 && InBitmap(p.taken) && AllFit(rs)
    ensures InBitmap(ReserveAll(p, rs).taken)
    ensures Accounted(ReserveAll(p, rs)) == Accounted(p)
  {
    if rs != [] {
      var front, r := rs[..|rs| - 1], rs[|rs| - 1];
      assert Fits(r);
      ReserveAllCounted(p, front);
      RangeModulo(ReserveAll(p, front), FirstFrame(r), EndFrame(r));
    }
  }

  lemma RangeModulo(p: Pool, start: nat, end: nat)
    requires p.free < U64 && InBitmap(p.taken) && (end <= MAX_FRAMES || end <= start)
    ensures var q := ReserveRangeP(p, start, end);
            InBitmap(q.taken) && Accounted(q) == Accounted(p)
  {
    NewInSize(p.taken, start, end);
    MinusModulo(p.free, NewIn(p.taken, start, end), |p.taken|);
  }

  lemma MinusModulo(a: nat, n: nat, t: nat)
    requires a < U64 && n <= U64
    ensures (Minus(a, n) + (t + n)) % U64 == (a + t) % U64
  {
  }

  /**
   * After initialization the counter is the number of frames not taken, modulo 2^64, exactly when
   * the descriptors beyond 64 GiB add up to nothing; in particular when there are none.
   */
  lemma InitCounted(info: BootInfo)
    requires AllFit(Reserved(info))
    ensures var p := InitP(info);
            && Wellformed(p) && InBitmap(p.taken)
            && (Counted(p) <==> Excess(info.regions) % U64 == 0)
            && ((forall i :: 0 <= i < |info.regions| ==> WellPlaced(info.regions[i])) ==> Counted(p))
  {
    CountedAfter(info.regions, Reserved(info));
    if forall i :: 0 <= i < |info.regions| ==> WellPlaced(info.regions[i]) {
      NoExcess(info.regions);
    }
  }

  lemma CountedAfter(ds: seq<Descriptor>, rs: seq<Region>)
    requires AllFit(rs)
    ensures var p := ReserveAll(AddRegions(EMPTY, ds), rs);
            Wellformed(p) && InBitmap(p.taken) && (Counted(p) <==> Excess(ds) % U64 == 0)
  {
    var p0 := AddRegions(EMPTY, ds);
    RegionsCounted(ds);
    ReserveAllCounted(p0, rs);
    var p := ReserveAll(p0, rs);
    InBitmapSize(p.taken, MAX_FRAMES);
    FinalCount(p, p0, Excess(ds));
  }

  lemma FinalCount(p: Pool, p0: Pool, excess: nat)
    requires Wellformed(p) && p.total == p0.total && p0.taken == {} && Accounted(p) == Accounted(p0)
    requires p0.total % U64 == (p0.free + excess) % U64
    ensures Counted(p) <==> excess % U64 == 0
  {
    CountedModulo(p);
    ExcessCancels(p.free + |p.taken|, p0.free, p.total, excess);
  }

  lemma ExcessCancels(sum: nat, free: nat, total: nat, excess: nat)
    requires sum % U64 == free % U64 && total % U64 == (free + excess) % U64
    ensures sum % U64 == total % U64 <==> excess % U64 == 0
  {
  }

  lemma {:induction false} NoExcess(ds: seq<Descriptor>)
    requires forall i :: 0 <= i < |ds| ==> WellPlaced(ds[i])
    ensures Excess(ds) == 0
  {
    if ds != [] {
      NoExcess(ds[..|ds| - 1]);
    }
  }

  /** One descriptor just above 64 GiB makes the bound enormous and the counter wrong. */
  lemma HighRegionBreaksCount()
    ensures var d := Descriptor(CONVENTIONAL, MAX_FRAMES * PAGE + PAGE, 1);
            !WellPlaced(d) && Excess([d]) == 0xF_FFFF_FFFF_FFFF && Excess([d]) % U64 != 0
  {
  }

  // ---------- what boot reserved ----------

  function BootFrames(rs: seq<Region>): set<nat> {
    if rs == [] then {} else BootFrames(rs[..|rs| - 1]) + Span(FirstFrame(rs[|rs| - 1]), EndFrame(rs[|rs| - 1]))
  }

  lemma {:induction false} ReserveAllTakes(p: Pool, rs: seq<Region>)
    requires p.free < U64 && AllFit(rs)
    ensures ReserveAll(p, rs).taken == p.taken + BootFrames(rs)
  {
    if rs != [] {
      ReserveAllTakes(p, rs[..|rs| - 1]);
    }
  }

  lemma {:induction false} BootFramesHas(rs: seq<Region>, i: nat)
    requires i < |rs|
    ensures Span(FirstFrame(rs[i]), EndFrame(rs[i])) <= BootFrames(rs)
  {
    if i < |rs| - 1 {
      BootFramesHas(rs[..|rs| - 1], i);
    }
  }

  /** Every byte of a reserved range lies in a reserved frame. */
  lemma ReservedBytesCovered(rs: seq<Region>, i: nat, b: nat)
    requires i < |rs| && rs[i].base <= b < rs[i].base + rs[i].size && rs[i].base + rs[i].size + PAGE - 1 < U64
    ensures b / PAGE in BootFrames(rs)
  {
  }

  /** Some byte of the range, or its start within the page when it is empty, lies in frame f. */
  predicate Touches(r: Region, f: nat) {
    f * PAGE < r.base + r.size && r.base < f * PAGE + PAGE
  }

  /** The range and the rest of its last page fit 64 bits. */
  predicate Unwrapped(r: Region) {
    r.base + r.size + PAGE - 1 < U64
  }

  /** Frame f holds something of the initrd, the boot record, the memory map, the framebuffer, the kernel image or the stack. */
  predicate BootTouches(info: BootInfo, f: nat) {
    || (info.initrd.size != 0 && Touches(info.initrd, f))
    || Touches(info.info, f)
    || Touches(info.mapBytes, f)
    || Touches(info.framebuffer, f)
    || Touches(info.image, f)
    || Touches(info.stack, f)
  }

  predicate BootUnwrapped(info: BootInfo) {
    && Unwrapped(info.initrd) && Unwrapped(info.info) && Unwrapped(info.mapBytes)
    && Unwrapped(info.framebuffer) && Unwrapped(info.image) && Unwrapped(info.stack)
  }

  lemma TouchesSpan(r: Region, f: nat)
    requires Unwrapped(r)
    ensures FirstFrame(r) <= f < EndFrame(r) <==> Touches(r, f)
  {
  }

  lemma {:induction false} BootFramesFrom(rs: seq<Region>, f: nat)
    requires forall r :: r in rs ==> Unwrapped(r)
    ensures f in BootFrames(rs) <==> exists r :: r in rs && Touches(r, f)
  {
    if rs != [] {
      var front, last := rs[..|rs| - 1], rs[|rs| - 1];
      assert rs == front + [last];
      BootFramesFrom(front, f);
      TouchesSpan(last, f);
    }
  }

  lemma ReservedMembers(info: BootInfo, r: Region)
    ensures r in Reserved(info) <==>
            || (r == info.initrd && r.size != 0)
            || r == info.info || r == info.mapBytes || r == info.framebuffer || r == info.image || r == info.stack
  {
    var rs := [info.info, info.mapBytes, info.framebuffer, info.image, info.stack];
    assert r in rs <==> r == info.info || r == info.mapBytes || r == info.framebuffer || r == info.image || r == info.stack by {
      assert rs[0] == info.info && rs[1] == info.mapBytes && rs[2] == info.framebuffer && rs[3] == info.image && rs[4] == info.stack;
    }
    assert r in Reserved(info) <==> (info.initrd.size != 0 && r == info.initrd) || r in rs;
  }

  /** After initialization, the frames taken are those that hold something of these six, and no others. */
  lemma InitTakes(info: BootInfo, f: nat)
    requires AllFit(Reserved(info)) && BootUnwrapped(info)
    ensures f in InitP(info).taken <==> BootTouches(info, f)
    ensures f in BootFrames(Reserved(info)) <==> BootTouches(info, f)
  {
    var rs := Reserved(info);
    ReserveAllTakes(AddRegions(EMPTY, info.regions), rs);
    forall r
      ensures r in rs <==> (r == info.initrd && r.size != 0) || r in {info.info, info.mapBytes, info.framebuffer, info.image, info.stack}
    {
      ReservedMembers(info, r);
    }
    BootFramesFrom(rs, f);
  }

  predicate Inside(r: Region, b: nat) {
    r.base <= b < r.base + r.size
  }

  /** Byte b belongs to what boot handed over. */
  predicate BootByte(info: BootInfo, b: nat) {
    || Inside(info.initrd, b) || Inside(info.info, b) || Inside(info.mapBytes, b)
    || Inside(info.framebuffer, b) || Inside(info.image, b) || Inside(info.stack, b)
  }

  lemma InsideTouches(r: Region, b: nat)
    requires Inside(r, b)
    ensures Touches(r, b / PAGE)
  {
  }

  lemma BootByteTouches(info: BootInfo, b: nat)
    requires BootByte(info, b)
    ensures BootTouches(info, b / PAGE)
  {
    if Inside(info.initrd, b) {
      InsideTouches(info.initrd, b);
    } else if Inside(info.info, b) {
      InsideTouches(info.info, b);
    } else if Inside(info.mapBytes, b) {
      InsideTouches(info.mapBytes, b);
    } else if Inside(info.framebuffer, b) {
      InsideTouches(info.framebuffer, b);
    } else if Inside(info.image, b) {
      InsideTouches(info.image, b);
    } else {
      InsideTouches(info.stack, b);
    }
  }

  /**
   * From initialization on, whatever a well-behaved client does, the frames it holds are distinct,
   * counted, and none of them contains a byte of the initrd, the boot record, the memory map, the
   * framebuffer, the kernel image or the bootstrap stack.
   */
  lemma BootToRun(info: BootInfo, ops: seq<Op>, b: nat)
    requires AllFit(Reserved(info)) && BootUnwrapped(info) && InitP(info).total <= MAX_FRAMES
    requires forall i :: 0 <= i < |info.regions| ==> WellPlaced(info.regions[i])
    requires AllAllowed(InitP(info), {}, ops)
    ensures var (p, held) := Run(InitP(info), {}, ops);
            && Safe(p, held, BootFrames(Reserved(info)))
            && (BootByte(info, b) ==> b / PAGE !in held)
  {
    InitCounted(info);
    ReserveAllTakes(AddRegions(EMPTY, info.regions), Reserved(info));
    RunSafe(InitP(info), {}, BootFrames(Reserved(info)), ops);
    if BootByte(info, b) {
      BootByteTouches(info, b);
      InitTakes(info, b / PAGE);
    }
  }

  // ---------- which memory is returned ----------

  /** The frames of a conventional descriptor. */
  function DescriptorFrames(d: Descriptor): set<nat> {
    if Usable(d) then Span(RoundUp(d.start) / PAGE, CappedEnd(d) / PAGE) else {}
  }

  /** They are the whole frames below 64 GiB of a conventional range. */
  lemma WholeFrames(d: Descriptor, f: nat)
    requires d.start + d.pages * PAGE + PAGE - 1 < U64
    ensures f in DescriptorFrames(d) <==>
            d.kind == CONVENTIONAL && d.start <= f * PAGE && f * PAGE + PAGE <= d.start + d.pages * PAGE && f < MAX_FRAMES
  {
    PageBounds(d.start);
  }

  /** The frames of the conventional descriptors. */
  function Conventional(ds: seq<Descriptor>): set<nat> {
    if ds == [] then {} else Conventional(ds[..|ds| - 1]) + DescriptorFrames(ds[|ds| - 1])
  }

  /**
   * A memory map without frame 1 still gets frame 1 returned by the first allocation: the bound
   * counts conventional frames, and the bits of all others start clear.
   */
  lemma UnmappedFrameReturned(info: BootInfo)
    requires AllFit(Reserved(info)) && InitP(info).total > 1
    requires 1 !in BootFrames(Reserved(info)) && 1 !in Conventional(info.regions)
    ensures AllocP(InitP(info), 1).0 == 1
  {
    ReserveAllTakes(AddRegions(EMPTY, info.regions), Reserved(info));
    SingleLowest(InitP(info));
  }

  /** The reserved ranges start at or above a frame. */
  lemma {:induction false} BootFramesAbove(rs: seq<Region>, k: nat)
    requires forall i :: 0 <= i < |rs| ==> k <= FirstFrame(rs[i])
    ensures forall f :: f in BootFrames(rs) ==> k <= f
  {
    if rs != [] {
      BootFramesAbove(rs[..|rs| - 1], k);
    }
  }

  /** One MiB of memory from 1 MiB on, as on a small PC, with everything boot keeps in its first page. */
  function LowMemory(): BootInfo {
    var r := Region(0x10_0000, PAGE);
    BootInfo([Descriptor(CONVENTIONAL, 0x10_0000, 256)], Region(0, 0), r, r, r, r, r)
  }

  /** There the first allocation returns frame 1, which the memory map does not have. */
  lemma LowMemoryExample()
    ensures AllFit(Reserved(LowMemory())) && AllocP(InitP(LowMemory()), 1).0 == 1 && 1 !in Conventional(LowMemory().regions)
  {
    LowMemoryMap(LowMemory().regions);
    BootFramesAbove(Reserved(LowMemory()), 256);
    UnmappedFrameReturned(LowMemory());
  }

  lemma LowMemoryMap(ds: seq<Descriptor>)
    requires ds == [Descriptor(CONVENTIONAL, 0x10_0000, 256)]
    ensures 1 !in Conventional(ds) && AddRegions(EMPTY, ds).total == 256
  {
    assert ds[..0] == [];
    assert RoundUp(0x10_0000) == 0x10_0000 && CappedEnd(ds[0]) == 0x20_0000;
    assert AddRegions(EMPTY, ds) == AddRegion(EMPTY, ds[0]);
  }

  // ---------- the bound, told from the memory map ----------

  /** Conventional descriptors that lie below 64 GiB and do not overlap, as the firmware's map promises. */
  ghost predicate ProperMap(ds: seq<Descriptor>) {
    && (forall i :: 0 <= i < |ds| ==> WellPlaced(ds[i]))
    && forall i, j :: 0 <= i < j < |ds| ==> DescriptorFrames(ds[i]) !! DescriptorFrames(ds[j])
  }

  lemma {:induction false} ConventionalFrom(ds: seq<Descriptor>, f: nat) returns (i: nat)
    requires f in Conventional(ds)
    ensures i < |ds| && f in DescriptorFrames(ds[i])
  {
    var n := |ds| - 1;
    if f in DescriptorFrames(ds[n]) {
      i := n;
    } else {
      i := ConventionalFrom(ds[..n], f);
    }
  }

  lemma {:induction false} ConventionalBelow(ds: seq<Descriptor>)
    ensures |Conventional(ds)| <= MAX_FRAMES && forall f :: f in Conventional(ds) ==> f < MAX_FRAMES
  {
    if ds != [] {
      ConventionalBelow(ds[..|ds| - 1]);
    }
    InBitmapSize(Conventional(ds), MAX_FRAMES);
  }

  lemma DescriptorCount(d: Descriptor)
    requires WellPlaced(d) && Usable(d)
    ensures FramesCounted(d) == |DescriptorFrames(d)|
  {
    PlacedCount(d);
    var s, e := RoundUp(d.start) / PAGE, CappedEnd(d) / PAGE;
    SpanSize(s, e);
  }

  /** On such a map the bound is the number of conventional frames. */
  lemma {:induction false} ProperMapBound(ds: seq<Descriptor>)
    requires ProperMap(ds)
    ensures AddRegions(EMPTY, ds).total == |Conventional(ds)| <= MAX_FRAMES
  {
    ConventionalBelow(ds);
    if ds != [] {
      var n := |ds| - 1;
      ProperMapBound(ds[..n]);
      forall f | f in Conventional(ds[..n])
        ensures f !in DescriptorFrames(ds[n])
      {
        var i := ConventionalFrom(ds[..n], f);
        assert DescriptorFrames(ds[i]) !! DescriptorFrames(ds[n]);
      }
      assert Conventional(ds) == Conventional(ds[..n]) + DescriptorFrames(ds[n]);
      if Usable(ds[n]) {
        DescriptorCount(ds[n]);
      }
    }
  }

  /**
   * After initialization from a proper map, only conventional frames are ever returned if and only if
   * every frame from 1 up to their number that boot did not reserve is conventional.
   */
  lemma OnlyMapReturned(info: BootInfo)
    requires AllFit(Reserved(info)) && ProperMap(info.regions)
    ensures var n, conventional, boot := |Conventional(info.regions)|, Conventional(info.regions), BootFrames(Reserved(info));
            (forall k :: Nth(InitP(info), k) != 0 ==> Nth(InitP(info), k) in conventional)
            <==> (forall f :: 1 <= f < n && f !in boot ==> f in conventional)
  {
    ProperMapBound(info.regions);
    ReserveAllTakes(AddRegions(EMPTY, info.regions), Reserved(info));
    OnlyConventionalReturned(InitP(info), Conventional(info.regions));
  }

  /** From a proper map on, no well-behaved client ever holds a byte that boot reserved. */
  lemma ProperBootToRun(info: BootInfo, ops: seq<Op>, b: nat)
    requires AllFit(Reserved(info)) && BootUnwrapped(info) && ProperMap(info.regions) && AllAllowed(InitP(info), {}, ops)
    ensures var (p, held) := Run(InitP(info), {}, ops);
            && Safe(p, held, BootFrames(Reserved(info)))
            && (BootByte(info, b) ==> b / PAGE !in held)
  {
    ProperMapBound(info.regions);
    BootToRun(info, ops, b);
  }

  // ---------- the allocator ----------

  class Allocator {
    const bitmap: array<bv64>
    var total: nat
    var free: nat

    ghost predicate Shape()
      reads this, bitmap
    {
      bitmap.Length == WORDS && total < U64 && free < U64
    }

    ghost function Contents(): Pool
      requires Shape()
      reads this, bitmap
    {
      Pool(Members(bitmap[..]), total, free)
    }

    constructor ()
      ensures Shape() && fresh(bitmap)
    {
      bitmap := new bv64[WORDS](_ => 0);
      total, free := 0, 0;
    }

    method SetBit(f: nat)
      requires bitmap.Length == WORDS && f < MAX_FRAMES
      modifies bitmap
      ensures Members(bitmap[..]) == old(Members(bitmap[..])) + {f}
    {
      UpdateMembers(bitmap[..], f);
      ghost var words := bitmap[..];
      bitmap[f / 64] := WithBit(bitmap[f / 64], Place(f));
      assert bitmap[..] == Set(words, f);
    }

    method ClearBit(f: nat)
      requires bitmap.Length == WORDS && f < MAX_FRAMES
      modifies bitmap
      ensures Members(bitmap[..]) == old(Members(bitmap[..])) - {f}
    {
      UpdateMembers(bitmap[..], f);
      ghost var words := bitmap[..];
      bitmap[f / 64] := WithoutBit(bitmap[f / 64], Place(f));
      assert bitmap[..] == Clear(words, f);
    }

    method TestBit(f: nat) returns (b: bool)
      requires bitmap.Length == WORDS && f < MAX_FRAMES
      ensures b <==> f in Members(bitmap[..])
    {
      b := Bit(bitmap[f / 64], Place(f));
      MembersHas(bitmap[..], f);
      assert bitmap[..][f / 64] == bitmap[f / 64];
    }

    /** The body of reserve_range()'s loop. */
    method ReserveOne(f: nat)
      requires Shape() && f < MAX_FRAMES
      modifies this`free, bitmap
      ensures Shape() && Contents() == ReserveOneP(old(Contents()), f)
    {
      ghost var p := Contents();
      var b := TestBit(f);
      if !b {
        SetBit(f);
        free := if free == 0 then U64 - 1 else free - 1;
      }
    }

    /** reserve_range() */
    method ReserveRange(start: nat, end: nat)
      requires Shape() && (end <= MAX_FRAMES || end <= start)
      modifies this`free, bitmap
      ensures Shape() && Contents() == ReserveRangeP(old(Contents()), start, end)
    {
      ghost var p := Contents();
      if start >= end {
        EmptyRange(p, start, end);
        return;
      }
      var f := start;
      while f < end
        invariant start <= f <= end && Shape() && Contents() == ReserveEach(p, start, f - start)
      {
        ReserveOne(f);
        f := f + 1;
      }
      ReserveEachRange(p, start, end - start);
    }

    method TakeFrame(f: nat)
      requires Shape() && f < MAX_FRAMES
      modifies this`free, bitmap
      ensures Shape() && Contents() == TakeRun(old(Contents()), f, 1)
    {
      SetBit(f);
      free := if free == 0 then U64 - 1 else free - 1;
      assert Span(f, f + 1) == {f};
    }

    /** pmm_alloc_frame(): the address of the lowest free frame above frame 0, or 0. */
    method AllocFrame() returns (address: nat)
      requires Shape() && total <= MAX_FRAMES
      modifies this`free, bitmap
      ensures Shape()
      ensures address == AllocP(old(Contents()), 1).0 * PAGE && Contents() == AllocP(old(Contents()), 1).1
    {
      ghost var p := Contents();
      var f := 1;
      while f < total
        invariant 1 <= f && Shape() && Contents() == p
        invariant FirstRun(p.taken, p.total, 1, 1) == FirstRun(p.taken, p.total, 1, f)
        decreases total - f
      {
        SingleRun(p.taken, p.total, f);
        var b := TestBit(f);
        if !b {
          TakeFrame(f);
          return f * PAGE;
        }
        f := f + 1;
      }
      address := 0;
    }

    /** Whether count frames from f on are all clear. */
    method TestRun(f: nat, count: nat) returns (ok: bool)
      requires Shape() && f + count <= total <= MAX_FRAMES
      ensures ok <==> IsRun(Contents().taken, total, f, count)
    {
      ok := true;
      var j := 0;
      while j < count
        invariant 0 <= j <= count
        invariant IsRun(Contents().taken, total, f, j)
      {
        var b := TestBit(f + j);
        if b {
          return false;
        }
        j := j + 1;
      }
    }

    /** Sets count bits from f on. */
    method SetRun(f: nat, count: nat)
      requires bitmap.Length == WORDS && f + count <= MAX_FRAMES
      modifies bitmap
      ensures Members(bitmap[..]) == old(Members(bitmap[..])) + Span(f, f + count)
    {
      ghost var taken := Members(bitmap[..]);
      var j := 0;
      SpanGrows(taken, f, 0);
      while j < count
        invariant 0 <= j <= count && Members(bitmap[..]) == taken + Span(f, f + j)
      {
        SetNext(f, j, taken);
        j := j + 1;
      }
    }

    method SetNext(f: nat, j: nat, ghost taken: set<nat>)
      requires bitmap.Length == WORDS && f + j < MAX_FRAMES && Members(bitmap[..]) == taken + Span(f, f + j)
      modifies bitmap
      ensures Members(bitmap[..]) == taken + Span(f, f + j + 1)
    {
      SetBit(f + j);
      SpanGrows(taken, f, j);
    }

    method TakeFrames(f: nat, count: nat)
      requires Shape() && f + count <= MAX_FRAMES
      modifies this`free, bitmap
      ensures Shape() && Contents() == TakeRun(old(Contents()), f, count)
    {
      SetRun(f, count);
      free := if free >= count then free - count else free + U64 - count;
    }

    /** pmm_alloc_frames(): the address of the lowest run of count free frames, or 0. */
    method AllocFrames(count: nat) returns (address: nat)
      requires Shape() && total <= MAX_FRAMES && count < 0x1_0000_0000
      modifies this`free, bitmap
      ensures Shape()
      ensures address == AllocP(old(Contents()), count).0 * PAGE && Contents() == AllocP(old(Contents()), count).1
    {
      ghost var p := Contents();
      if count == 0 {
        return 0;
      }
      var f := 1;
      while f + count <= total
        invariant 1 <= f && Shape() && Contents() == p
        invariant FirstRun(p.taken, p.total, count, 1) == FirstRun(p.taken, p.total, count, f)
        decreases total - f
      {
        var ok := TestRun(f, count);
        if ok {
          TakeFrames(f, count);
          return f * PAGE;
        }
        f := f + 1;
      }
      address := 0;
    }

    /** pmm_free_frame(): ignores addresses that are not the start of a taken frame within the bound. */
    method FreeFrame(address: nat)
      requires Shape() && total <= MAX_FRAMES
      modifies this`free, bitmap
      ensures Shape()
      ensures Contents() == if address % PAGE == 0 then FreeP(old(Contents()), address / PAGE) else old(Contents())
    {
      if address == 0 || address % PAGE != 0 {
        return;
      }
      var f := address / PAGE;
      if f < total {
        var b := TestBit(f);
        if b {
          ClearBit(f);
          free := if free == U64 - 1 then 0 else free + 1;
        }
      }
    }

    /** pmm_reserve(): the pages from the first boundary in the range to the first one behind it. */
    method Reserve(start: nat, size: nat) returns (rc: int)
      requires Shape()
      modifies this`free, bitmap
      ensures Shape() && (rc, Contents()) == ReserveP(old(Contents()), start, size)
    {
      if size == 0 {
        return -1;
      }
      var s := (start + PAGE - 1) % U64 / PAGE * PAGE;
      var e := (start + size + PAGE - 1) % U64 / PAGE * PAGE;
      if e > MAX_FRAMES * PAGE {
        return -1;
      }
      ReserveRange(s / PAGE, e / PAGE);
      rc := 0;
    }

    /** pmm_is_available(): whether a single allocation could still return this address. */
    method IsAvailable(address: nat) returns (available: bool)
      requires Shape() && total <= MAX_FRAMES
      ensures available <==> address % PAGE == 0 && address != 0 && IsRun(Contents().taken, total, address / PAGE, 1)
    {
      if address == 0 || address % PAGE != 0 {
        return false;
      }
      var f := address / PAGE;
      SingleRun(Contents().taken, total, f);
      if f >= total {
        return false;
      }
      var b := TestBit(f);
      available := !b;
    }

    /** pmm_init(): clears the bitmap, counts the conventional frames, reserves what boot keeps. */
    method Init(info: BootInfo)
      requires bitmap.Length == WORDS && AllFit(Reserved(info))
      modifies this, bitmap
      ensures Shape() && Contents() == InitP(info)
    {
      ClearAll();
      total, free := 0, 0;
      var i := 0;
      assert info.regions[..0] == [];
      while i < |info.regions|
        invariant 0 <= i <= |info.regions| && Shape()
        invariant Contents() == AddRegions(EMPTY, info.regions[..i])
      {
        assert info.regions[..i + 1][..i] == info.regions[..i];
        CountRegion(info.regions[i]);
        i := i + 1;
      }
      assert info.regions[..i] == info.regions;
      var rs := Reserved(info);
      ghost var p := Contents();
      i := 0;
      assert rs[..0] == [];
      while i < |rs|
        invariant 0 <= i <= |rs| && Shape() && p.free < U64 && AllFit(rs) && AllFit(rs[..i])
        invariant Contents() == ReserveAll(p, rs[..i])
      {
        assert Fits(rs[i]);
        assert rs[..i + 1][..i] == rs[..i];
        ReserveRange(rs[i].base / PAGE, (rs[i].base + rs[i].size + PAGE - 1) % U64 / PAGE);
        i := i + 1;
      }
      assert rs[..i] == rs;
    }

    method ClearAll()
      requires bitmap.Length == WORDS
      modifies bitmap
      ensures Members(bitmap[..]) == {}
    {
      var i := 0;
      while i < WORDS
        invariant 0 <= i <= WORDS
        invariant forall k :: 0 <= k < i ==> bitmap[k] == 0
      {
        bitmap[i] := 0;
        i := i + 1;
      }
      ZeroMembers(bitmap[..]);
    }

    /** The body of pmm_init()'s loop over descriptors; every bit is still clear. */
    method CountRegion(d: Descriptor)
      requires Shape() && Contents().taken == {}
      modifies this, bitmap
      ensures Shape() && Contents() == AddRegion(old(Contents()), d)
    {
      if d.kind != CONVENTIONAL || d.pages == 0 {
        return;
      }
      ghost var p := Contents();
      var s, e := RoundUp(d.start), CappedEnd(d);
      var f := s / PAGE;
      while f < e / PAGE
        invariant s / PAGE <= f && Shape() && Members(bitmap[..]) == {} && total == p.total
        invariant f <= e / PAGE || f == s / PAGE
        invariant free == Plus(p.free, f - s / PAGE)
        decreases e / PAGE - f
      {
        var b := TestBit(f);
        if !b {
          ClearBit(f);
          free := if free == U64 - 1 then 0 else free + 1;
        }
        f := f + 1;
      }
      var counted := (e - s) % U64 / PAGE;
      total := if total + counted < U64 then total + counted else total + counted - U64;
    }
  }

  lemma EmptyRange(p: Pool, start: nat, end: nat)
    requires p.free < U64 && end <= start
    ensures ReserveRangeP(p, start, end) == p
  {
  }

  function ReserveOneP(q: Pool, f: nat): Pool {
    if f in q.taken then q else Pool(q.taken + {f}, q.total, if q.free == 0 then U64 - 1 else q.free - 1)
  }

  /** Reserves the frames start, start+1, ... one by one. */
  function ReserveEach(p: Pool, start: nat, n: nat): Pool {
    if n == 0 then p else ReserveOneP(ReserveEach(p, start, n - 1), start + n - 1)
  }

  lemma {:induction false} ReserveEachRange(p: Pool, start: nat, n: nat)
    requires p.free < U64 && start + n <= MAX_FRAMES
    ensures ReserveEach(p, start, n) == ReserveRangeP(p, start, start + n)
  {
    if n == 0 {
      EmptyRange(p, start, start);
    } else {
      var f := start + n - 1;
      ReserveEachRange(p, start, n - 1);
      ReserveStep(p, start, f, start + n, ReserveEach(p, start, n - 1));
    }
  }

  lemma ReserveStep(p: Pool, start: nat, f: nat, next: nat, q: Pool)
    requires p.free < U64 && start <= f < MAX_FRAMES && next == f + 1 && q == ReserveRangeP(p, start, f)
    ensures ReserveOneP(q, f) == ReserveRangeP(p, start, next)
  {
  }
}
