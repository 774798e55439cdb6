/** The frame allocator's bookkeeping on sets: what each operation does, and what runs of them keep. */
module Frames {

  const PAGE := 4096
  const MAX_FRAMES := 0x100_0000
  const U64 := 0x1_0000_0000_0000_0000

  /** Frames taken, the bound on frame numbers, and the free counter. */
  datatype Pool = Pool(taken: set<nat>, total: nat, free: nat)

  function Mod64(x: int): (r: nat)
    ensures r < U64
  {
    x % U64
  }

  /** 64-bit addition and subtraction. */
  function Plus(a: nat, b: nat): nat { if a + b < U64 then a + b else a + b - U64 }

  function Minus(a: nat, b: nat): int { if a >= b then a - b else a - b + U64 }

  predicate AtLeast(f: nat, a: nat) { a <= f }

  /** The frames from a up to, not including, b. */
  function Span(a: nat, b: nat): (s: set<nat>)
    ensures forall f :: f in s <==> a <= f < b
  {
    set f: nat | f < b && AtLeast(f, a)
  }

  lemma {:induction false} SpanSize(a: nat, b: nat)
    requires a <= b
    ensures |Span(a, b)| == b - a
    decreases b
  {
    if a < b {
      SpanSize(a, b - 1);
      assert Span(a, b) == Span(a, b - 1) + {b - 1};
    } else {
      assert Span(a, b) == {};
    }
  }

  /** The counter tells how many of `total` frames are not taken, modulo 2^64. */
  predicate Counted(p: Pool) {
    p.free + |p.taken| == p.total || p.free + |p.taken| == p.total + U64
  }

  predicate Wellformed(p: Pool) {
    p.total < U64 && p.free < U64 && |p.taken| <= MAX_FRAMES
  }

  /** For a pool that fits the bitmap, this is the equation modulo 2^64. */
  lemma CountedModulo(p: Pool)
    requires Wellformed(p)
    ensures Counted(p) <==> (p.free + |p.taken|) % U64 == p.total % U64
  {
  }

  // ---------- the operations ----------

  /** How many frames of a range are not taken yet. */
  function NewIn(taken: set<nat>, start: nat, end: nat): (n: nat)
    ensures n <= if start <= end then end - start else 0
    decreases end, start
  {
    if end <= start then 0 else NewIn(taken, start, end - 1) + (if end - 1 in taken then 0 else 1)
  }

  /** reserve_range(): only frames not taken yet are counted. */
  function ReserveRangeP(p: Pool, start: nat, end: nat): (q: Pool)
    requires p.free < U64 && (end <= MAX_FRAMES || end <= start)
  {
    Pool(p.taken + Span(start, end), p.total, Minus(p.free, NewIn(p.taken, start, end)))
  }

  lemma SpanGrows(taken: set<nat>, f: nat, j: nat)
    ensures taken + Span(f, f + j) + {f + j} == taken + Span(f, f + j + 1)
    ensures taken + Span(f, f) == taken
  {
  }

  lemma SubsetSize(a: set<nat>, b: set<nat>)
    requires a <= b
    ensures |a| <= |b|
  {
    assert b == a + (b - a);
  }

  /** All frames have a bit in the bitmap. */
  ghost predicate InBitmap(taken: set<nat>) {
    forall f :: f in taken ==> f < MAX_FRAMES
  }

  lemma InBitmapSize(taken: set<nat>, bound: nat)
    requires forall f :: f in taken ==> f < bound
    ensures |taken| <= bound
  {
    SpanSize(0, bound);
    SubsetSize(taken, Span(0, bound));
  }

  /** n consecutive frames from f on are within the bound and not taken. */
  predicate IsRun(taken: set<nat>, total: nat, f: nat, n: nat) {
    f + n <= total && forall g :: f <= g < f + n ==> g !in taken
  }

  /** The first run of n frames at or after f, or 0. */
  function FirstRun(taken: set<nat>, total: nat, n: nat, f: nat): (r: nat)
    decreases total - f, |taken|
  {
    if f + n > total || n == 0 then 0
    else if IsRun(taken, total, f, n) then f
    else FirstRun(taken, total, n, f + 1)
  }

  function TakeRun(p: Pool, f: nat, n: nat): Pool
    requires p.free < U64 && n < U64
  {
    p.(taken := p.taken + Span(f, f + n), free := Minus(p.free, n))
  }

  /** pmm_alloc_frames(): the first frame of the run, or 0; pmm_alloc_frame() is the case of one frame. */
  function AllocP(p: Pool, n: nat): (r: (nat, Pool))
    requires p.free < U64 && n < U64
    ensures r.1.free < U64
  {
    var f := FirstRun(p.taken, p.total, n, 1);
    if f == 0 then (0, p) else (f, TakeRun(p, f, n))
  }

  /** pmm_free_frame() for the address of frame f */
  function FreeP(p: Pool, f: nat): (q: Pool)
    requires p.free < U64
    ensures q.free < U64
  {
    if f == 0 || f >= p.total || f !in p.taken then p
    else p.(taken := p.taken - {f}, free := Plus(p.free, 1))
  }

  /** The next page boundary of a 64-bit address. */
  function RoundUp(x: nat): nat {
    Mod64(x + PAGE - 1) / PAGE * PAGE
  }

  /** pmm_reserve() */
  function ReserveP(p: Pool, start: nat, size: nat): (r: (int, Pool))
    requires p.free < U64
    ensures r.1.free < U64
  {
    var s, e := RoundUp(start), RoundUp(start + size);
    if size == 0 || e > MAX_FRAMES * PAGE then (-1, p) else (0, ReserveRangeP(p, s / PAGE, e / PAGE))
  }

  lemma PageBounds(x: nat)
    requires x + PAGE - 1 < U64
    ensures RoundUp(x) / PAGE == if x % PAGE == 0 then x / PAGE else x / PAGE + 1
  {
  }

  /**
   * pmm_reserve() rounds the start up: when it returns 0, every byte of the range is in a taken frame
   * if and only if its rounded end does not wrap 64 bits, and the start is a page boundary or lies in
   * a frame taken before.
   */
  lemma ReserveCovers(p: Pool, start: nat, size: nat)
    requires p.free < U64 && InBitmap(p.taken) && start < U64 && 0 < size < U64 && ReserveP(p, start, size).0 == 0
    ensures (forall b :: start <= b < start + size ==> b / PAGE in ReserveP(p, start, size).1.taken)
            <==> start + size + PAGE - 1 < U64 && (start % PAGE == 0 || start / PAGE in p.taken)
  {
    if start + size + PAGE - 1 < U64 {
      ReserveCoversFrames(p, start, size);
    } else {
      var last := start + size - 1;
      WrappedMisses(p, start, size, last);
      assert start <= last < start + size;
    }
  }

  /** A range whose rounded end wraps reaches beyond any frame the bitmap has. */
  lemma WrappedMisses(p: Pool, start: nat, size: nat, last: nat)
    requires p.free < U64 && InBitmap(p.taken) && start < U64 && 0 < size < U64 && ReserveP(p, start, size).0 == 0
    requires start + size + PAGE - 1 >= U64 && last == start + size - 1
    ensures last / PAGE !in ReserveP(p, start, size).1.taken
  {
    var s, e := RoundUp(start) / PAGE, RoundUp(start + size) / PAGE;
    assert ReserveP(p, start, size).1.taken == p.taken + Span(s, e);
    assert e <= MAX_FRAMES && last / PAGE >= MAX_FRAMES;
  }

  lemma ReserveCoversFrames(p: Pool, start: nat, size: nat)
    requires p.free < U64 && size > 0 && start + size + PAGE - 1 < U64 && ReserveP(p, start, size).0 == 0
    ensures (forall b :: start <= b < start + size ==> b / PAGE in ReserveP(p, start, size).1.taken)
            <==> start % PAGE == 0 || start / PAGE in p.taken
  {
    var taken := ReserveP(p, start, size).1.taken;
    var s, e := RoundUp(start) / PAGE, RoundUp(start + size) / PAGE;
    PageBounds(start);
    PageBounds(start + size);
    assert taken == p.taken + Span(s, e);
    if start % PAGE == 0 || start / PAGE in p.taken {
      forall b | start <= b < start + size
        ensures b / PAGE in taken
      {
        assert start / PAGE <= b / PAGE < e;
      }
    } else {
      assert start / PAGE !in taken;
    }
  }

  // ---------- allocation is lowest-first and complete ----------

  /** The run found is the lowest one, and none is found only when there is none. */
  lemma {:induction false} FirstRunLowest(taken: set<nat>, total: nat, n: nat, f: nat)
    requires f > 0
    ensures var r := FirstRun(taken, total, n, f);
            && (r != 0 ==> f <= r && n > 0 && IsRun(taken, total, r, n) && forall g :: f <= g < r ==> !IsRun(taken, total, g, n))
            && (r == 0 <==> n == 0 || forall g :: f <= g ==> !IsRun(taken, total, g, n))
    decreases total - f
  {
    if f + n <= total && n > 0 && !IsRun(taken, total, f, n) {
      FirstRunLowest(taken, total, n, f + 1);
    }
  }

  /** pmm_alloc_frames(n) returns the lowest run above frame 0, and 0 exactly when n is 0 or there is none. */
  lemma AllocLowest(p: Pool, n: nat)
    requires p.free < U64 && n < U64
    ensures var f := AllocP(p, n).0;
            && (f == 0 <==> n == 0 || forall g :: 1 <= g ==> !IsRun(p.taken, p.total, g, n))
            && (f != 0 ==>
                  && 1 <= f && IsRun(p.taken, p.total, f, n)
                  && (forall g :: 1 <= g < f ==> !IsRun(p.taken, p.total, g, n)))
  {
    FirstRunLowest(p.taken, p.total, n, 1);
  }

  /** What the operations do to each frame g. */
  lemma FramesAfter(p: Pool, n: nat, f: nat, start: nat, size: nat, g: nat)
    requires p.free < U64 && n < U64
    ensures var (r, q) := AllocP(p, n);
            && q.total == p.total && (r == 0 ==> q == p)
            && (g in q.taken <==> g in p.taken || (r != 0 && r <= g < r + n))
    ensures var q := FreeP(p, f);
            && q.total == p.total
            && (g in q.taken <==> g in p.taken && !(g == f && 0 < f < p.total))
            && (q.free == p.free <==> f !in p.taken || f == 0 || f >= p.total)
    ensures var (rc, q) := ReserveP(p, start, size);
            && q.total == p.total
            && (rc == 0 || rc == -1) && (rc == -1 <==> size == 0 || RoundUp(start + size) > MAX_FRAMES * PAGE)
            && (start + size + PAGE - 1 < U64 ==> (rc == -1 <==> size == 0 || start + size > MAX_FRAMES * PAGE))
            && (rc == -1 ==> q == p)
            && (rc == 0 && start + size + PAGE - 1 < U64 ==>
                  (g in q.taken <==> g in p.taken || (start <= g * PAGE < start + size)))
  {
    if start + size + PAGE - 1 < U64 {
      PageBounds(start);
      PageBounds(start + size);
    }
  }

  // ---------- the counter ----------

  lemma AddRun(taken: set<nat>, total: nat, f: nat, n: nat)
    requires IsRun(taken, total, f, n)
    ensures |taken + Span(f, f + n)| == |taken| + n
  {
    SpanSize(f, f + n);
    assert taken !! Span(f, f + n);
  }

  lemma AddedSize(s: set<nat>, x: nat)
    ensures |s + {x}| == |s| + if x in s then 0 else 1
  {
    if x in s {
      assert s + {x} == s;
    }
  }

  lemma SpanLess(taken: set<nat>, start: nat, f: nat, next: nat)
    requires start <= f && next == f + 1
    ensures taken + Span(start, next) == taken + Span(start, f) + {f}
    ensures f in taken + Span(start, f) <==> f in taken
  {
  }

  lemma EmptySpan(taken: set<nat>, start: nat, end: nat)
    requires end <= start
    ensures taken + Span(start, end) == taken && NewIn(taken, start, end) == 0
  {
  }

  lemma NewInStep(taken: set<nat>, start: nat, end: nat, was: set<nat>, now: set<nat>)
    requires start < end && |was| == |taken| + NewIn(taken, start, end - 1)
    requires now == was + {end - 1} && (end - 1 in was <==> end - 1 in taken)
    ensures |now| == |taken| + NewIn(taken, start, end)
  {
    AddedSize(was, end - 1);
  }

  lemma NewInGrows(taken: set<nat>, start: nat, end: nat)
    requires start < end && |taken + Span(start, end - 1)| == |taken| + NewIn(taken, start, end - 1)
    ensures |taken + Span(start, end)| == |taken| + NewIn(taken, start, end)
  {
    SpanLess(taken, start, end - 1, end);
    NewInStep(taken, start, end, taken + Span(start, end - 1), taken + Span(start, end));
  }

  /** Counting one by one what a range adds gives the size of the union. */
  lemma {:induction false} NewInSize(taken: set<nat>, start: nat, end: nat)
    ensures |taken + Span(start, end)| == |taken| + NewIn(taken, start, end)
    decreases end
  {
    if start < end {
      NewInSize(taken, start, end - 1);
      NewInGrows(taken, start, end);
    } else {
      EmptySpan(taken, start, end);
    }
  }

  lemma TakeCounted(p: Pool, f: nat, n: nat)
    requires Wellformed(p) && p.total <= MAX_FRAMES && Counted(p) && n < U64 && IsRun(p.taken, p.total, f, n)
    ensures Counted(TakeRun(p, f, n))
  {
    AddRun(p.taken, p.total, f, n);
  }

  lemma AllocCounted(p: Pool, n: nat)
    requires Wellformed(p) && p.total <= MAX_FRAMES && Counted(p) && n < U64
    ensures Counted(AllocP(p, n).1)
  {
    FirstRunLowest(p.taken, p.total, n, 1);
    if AllocP(p, n).0 != 0 {
      TakeCounted(p, AllocP(p, n).0, n);
    }
  }

  lemma FreeCounted(p: Pool, f: nat)
    requires Wellformed(p) && Counted(p)
    ensures Counted(FreeP(p, f))
  {
  }

  lemma RangeCounted(p: Pool, start: nat, end: nat)
    requires Wellformed(p) && Counted(p) && (end <= MAX_FRAMES || end <= start)
    ensures Counted(ReserveRangeP(p, start, end))
  {
    NewInSize(p.taken, start, end);
  }

  /** Every operation keeps the counter exact; overlapping reservations are counted once. */
  lemma OperationsCounted(p: Pool, n: nat, f: nat, start: nat, end: nat)
    requires Wellformed(p) && p.total <= MAX_FRAMES && Counted(p) && n < U64
    ensures Counted(AllocP(p, n).1) && Counted(FreeP(p, f)) && Counted(ReserveP(p, start, end).1)
  {
    AllocCounted(p, n);
    FreeCounted(p, f);
    if RoundUp(start + end) <= MAX_FRAMES * PAGE {
      RangeCounted(p, RoundUp(start) / PAGE, RoundUp(start + end) / PAGE);
    }
  }

  // ---------- freeing undoes allocating ----------

  /** Frees the frames f, f+1, ... up to f+n. */
  function FreeEach(p: Pool, f: nat, n: nat): (q: Pool)
    requires p.free < U64
    ensures q.free < U64
  {
    if n == 0 then p else FreeP(FreeEach(p, f, n - 1), f + n - 1)
  }

  lemma {:induction false} FreeEachRemoves(p: Pool, f: nat, n: nat)
    requires p.free < U64 && n < U64 && 1 <= f && f + n <= p.total && Span(f, f + n) <= p.taken
    ensures FreeEach(p, f, n) == p.(taken := p.taken - Span(f, f + n), free := Plus(p.free, n))
  {
    if n > 0 {
      SpanStep(p.taken, f, n);
      FreeEachRemoves(p, f, n - 1);
      FreeOne(FreeEach(p, f, n - 1), f + n - 1);
    } else {
      assert p.taken - Span(f, f) == p.taken;
    }
  }

  lemma SpanStep(taken: set<nat>, f: nat, n: nat)
    requires n > 0 && Span(f, f + n) <= taken
    ensures Span(f, f + n - 1) <= taken && f + n - 1 in taken - Span(f, f + n - 1)
    ensures taken - Span(f, f + n - 1) - {f + n - 1} == taken - Span(f, f + n)
  {
  }

  lemma FreeOne(p: Pool, f: nat)
    requires p.free < U64 && 1 <= f < p.total && f in p.taken
    ensures FreeP(p, f) == p.(taken := p.taken - {f}, free := Plus(p.free, 1))
  {
  }

  lemma FreeUndoesTake(p: Pool, f: nat, n: nat)
    requires p.free < U64 && n < U64 && 1 <= f && IsRun(p.taken, p.total, f, n)
    ensures FreeEach(TakeRun(p, f, n), f, n) == p
  {
    FreeEachRemoves(TakeRun(p, f, n), f, n);
    assert p.taken + Span(f, f + n) - Span(f, f + n) == p.taken;
  }

  /** Freeing every frame of an allocation restores the pool, counter included. */
  lemma FreeUndoesAlloc(p: Pool, n: nat)
    requires p.free < U64 && n < U64 && AllocP(p, n).0 != 0
    ensures FreeEach(AllocP(p, n).1, AllocP(p, n).0, n) == p
  {
    FirstRunLowest(p.taken, p.total, n, 1);
    FreeUndoesTake(p, AllocP(p, n).0, n);
  }

  // ---------- runs of a well-behaved client ----------

  datatype Op = Alloc(n: nat) | Free(frame: nat) | Reserve(start: nat, size: nat)

  /** A 32-bit count; and the client frees only frames it holds. */
  predicate Allowed(held: set<nat>, op: Op) {
    (op.Free? ==> op.frame in held) && (op.Alloc? ==> op.n < 0x1_0000_0000)
  }

  function StepPool(p: Pool, op: Op): (q: Pool)
    requires p.free < U64 && (op.Alloc? ==> op.n < U64)
    ensures q.free < U64
  {
    match op
    case Alloc(n) => AllocP(p, n).1
    case Free(f) => FreeP(p, f)
    case Reserve(start, size) => ReserveP(p, start, size).1
  }

  /** The frames an operation hands out. */
  function Granted(p: Pool, op: Op): set<nat>
    requires p.free < U64 && (op.Alloc? ==> op.n < U64)
  {
    match op
    case Alloc(n) => var f := AllocP(p, n).0; if f == 0 then {} else Span(f, f + n)
    case _ => {}
  }

  function StepHeld(p: Pool, held: set<nat>, op: Op): set<nat>
    requires p.free < U64 && (op.Alloc? ==> op.n < U64)
  {
    if op.Free? then held - {op.frame} else held + Granted(p, op)
  }

  /** What the client holds is taken, within the bound, and apart from what was reserved at boot. */
  ghost predicate Safe(p: Pool, held: set<nat>, boot: set<nat>) {
    && p.total <= MAX_FRAMES && p.free < U64 && Counted(p) && InBitmap(p.taken)
    && held <= p.taken && boot <= p.taken && held !! boot
    && forall f :: f in held ==> 1 <= f < p.total
  }

  lemma TakeSafe(p: Pool, held: set<nat>, boot: set<nat>, f: nat, n: nat)
    requires Safe(p, held, boot) && n < U64 && 1 <= f && IsRun(p.taken, p.total, f, n)
    ensures Safe(TakeRun(p, f, n), held + Span(f, f + n), boot) && Span(f, f + n) !! p.taken
  {
    InBitmapSize(p.taken, MAX_FRAMES);
    TakeCounted(p, f, n);
  }

  lemma AllocSafe(p: Pool, held: set<nat>, boot: set<nat>, n: nat)
    requires Safe(p, held, boot) && n < U64
    ensures var got := Granted(p, Alloc(n));
            && Safe(AllocP(p, n).1, held + got, boot)
            && got !! p.taken
  {
    var f := AllocP(p, n).0;
    FirstRunLowest(p.taken, p.total, n, 1);
    if f != 0 {
      TakeSafe(p, held, boot, f, n);
    } else {
      assert held + {} == held;
    }
  }

  lemma GrantedSize(p: Pool, n: nat)
    requires p.free < U64 && n < U64 && AllocP(p, n).0 != 0
    ensures |Granted(p, Alloc(n))| == n
  {
    SpanSize(AllocP(p, n).0, AllocP(p, n).0 + n);
  }

  lemma FreeSafe(p: Pool, held: set<nat>, boot: set<nat>, f: nat)
    requires Safe(p, held, boot) && f in held
    ensures Safe(FreeP(p, f), held - {f}, boot)
  {
  }

  lemma ReserveSafe(p: Pool, held: set<nat>, boot: set<nat>, start: nat, size: nat)
    requires Safe(p, held, boot)
    ensures Safe(ReserveP(p, start, size).1, held, boot)
  {
    InBitmapSize(p.taken, MAX_FRAMES);
    var s, e := RoundUp(start), RoundUp(start + size);
    if e <= MAX_FRAMES * PAGE {
      RangeCounted(p, s / PAGE, e / PAGE);
    }
  }

  /** Frames are never handed out twice, and never from what was reserved at boot. */
  lemma StepSafe(p: Pool, held: set<nat>, boot: set<nat>, op: Op)
    requires Safe(p, held, boot) && Allowed(held, op)
    ensures Safe(StepPool(p, op), StepHeld(p, held, op), boot)
    ensures Granted(p, op) !! held && Granted(p, op) !! boot
    ensures op.Alloc? && AllocP(p, op.n).0 != 0 ==> |Granted(p, op)| == op.n
  {
    match op {
      case Alloc(n) =>
        AllocSafe(p, held, boot, n);
        if AllocP(p, n).0 != 0 {
          GrantedSize(p, n);
        }
      case Free(f) => FreeSafe(p, held, boot, f);
      case Reserve(start, size) => ReserveSafe(p, held, boot, start, size); assert held + {} == held;
    }
  }

  ghost predicate AllAllowed(p: Pool, held: set<nat>, ops: seq<Op>)
    requires p.free < U64
    decreases |ops|
  {
    ops == [] || (Allowed(held, ops[0]) && AllAllowed(StepPool(p, ops[0]), StepHeld(p, held, ops[0]), ops[1..]))
  }

  ghost function Run(p: Pool, held: set<nat>, ops: seq<Op>): (r: (Pool, set<nat>))
    requires p.free < U64 && AllAllowed(p, held, ops)
    ensures r.0.free < U64
    decreases |ops|
  {
    if ops == [] then (p, held) else Run(StepPool(p, ops[0]), StepHeld(p, held, ops[0]), ops[1..])
  }

  /** Over every run of a client that frees only what it holds. */
  lemma {:induction false} RunSafe(p: Pool, held: set<nat>, boot: set<nat>, ops: seq<Op>)
    requires Safe(p, held, boot) && AllAllowed(p, held, ops)
    ensures Safe(Run(p, held, ops).0, Run(p, held, ops).1, boot)
    decreases |ops|
  {
    if ops != [] {
      StepSafe(p, held, boot, ops[0]);
      RunSafe(StepPool(p, ops[0]), StepHeld(p, held, ops[0]), boot, ops[1..]);
    }
  }

  // ---------- which frames can be returned ----------

  /** The pool after k single allocations. */
  function AllocTimes(p: Pool, k: nat): (q: Pool)
    requires p.free < U64
    ensures q.free < U64
  {
    if k == 0 then p else AllocP(AllocTimes(p, k - 1), 1).1
  }

  /** What the next single allocation after k of them returns. */
  function Nth(p: Pool, k: nat): nat
    requires p.free < U64
  {
    AllocP(AllocTimes(p, k), 1).0
  }

  lemma SingleRun(taken: set<nat>, total: nat, f: nat)
    ensures IsRun(taken, total, f, 1) <==> f < total && f !in taken
  {
  }

  /** A single allocation returns the lowest frame that is not taken. */
  lemma SingleLowest(p: Pool)
    requires p.free < U64
    ensures var r := AllocP(p, 1).0;
            && (r == 0 <==> forall g :: 1 <= g < p.total ==> g in p.taken)
            && (r != 0 ==> 1 <= r < p.total && r !in p.taken && forall g :: 1 <= g < r ==> g in p.taken)
            && AllocP(p, 1).1.taken == (if r == 0 then p.taken else p.taken + {r})
            && AllocP(p, 1).1.total == p.total
  {
    AllocLowest(p, 1);
    var r := AllocP(p, 1).0;
    forall g | 1 <= g < p.total
      ensures IsRun(p.taken, p.total, g, 1) <==> g !in p.taken
    {
      SingleRun(p.taken, p.total, g);
    }
    assert Span(r, r + 1) == {r};
  }

  /** The next frame a single allocation returns lies above the one before. */
  lemma NextIsHigher(p: Pool, f: nat)
    requires p.free < U64 && 1 <= f < p.total && f !in p.taken && AllocP(p, 1).0 != f
    ensures var q := AllocP(p, 1).1;
            && f !in q.taken && q.total == p.total
            && AllocP(p, 1).0 < AllocP(q, 1).0 <= f
  {
    SingleLowest(p);
    SingleLowest(AllocP(p, 1).1);
  }

  /** Single allocations come in ascending order, and every free frame below the bound gets its turn. */
  lemma {:induction false} EveryFreeFrameIsReturned(p: Pool, f: nat, next: nat) returns (k: nat)
    requires p.free < U64 && 1 <= f < p.total && f !in p.taken && next == AllocP(p, 1).0 <= f
    ensures Nth(p, k) == f
    decreases f - next
  {
    NthShift(p);
    if next == f {
      k := 0;
    } else {
      NextIsHigher(p, f);
      var q := AllocP(p, 1).1;
      var j := EveryFreeFrameIsReturned(q, f, AllocP(q, 1).0);
      k := j + 1;
    }
  }

  lemma NthShift(p: Pool)
    requires p.free < U64
    ensures Nth(p, 0) == AllocP(p, 1).0
    ensures forall k: nat :: Nth(AllocP(p, 1).1, k) == Nth(p, k + 1)
  {
    forall k: nat
      ensures Nth(AllocP(p, 1).1, k) == Nth(p, k + 1)
    {
      AllocShift(p, k);
    }
  }

  lemma {:induction false} AllocShift(p: Pool, k: nat)
    requires p.free < U64
    ensures AllocTimes(AllocP(p, 1).1, k) == AllocTimes(p, k + 1)
  {
    if k > 0 {
      AllocShift(p, k - 1);
    } else {
      assert AllocTimes(p, 0) == p;
    }
  }

  lemma {:induction false} AllocTimesGrows(p: Pool, k: nat)
    requires p.free < U64
    ensures AllocTimes(p, k).total == p.total && p.taken <= AllocTimes(p, k).taken
  {
    if k > 0 {
      AllocTimesGrows(p, k - 1);
      SingleLowest(AllocTimes(p, k - 1));
    }
  }

  /**
   * The allocator hands out only conventional memory exactly when every frame from 1 up to the
   * bound that boot did not reserve is conventional: it looks at numbers below the count of
   * frames, not at where the frames are.
   */
  lemma OnlyConventionalReturned(p: Pool, conventional: set<nat>)
    requires p.free < U64
    ensures (forall k :: Nth(p, k) != 0 ==> Nth(p, k) in conventional)
            <==> (forall f :: 1 <= f < p.total && f !in p.taken ==> f in conventional)
  {
    if forall k :: Nth(p, k) != 0 ==> Nth(p, k) in conventional {
      forall f | 1 <= f < p.total && f !in p.taken
        ensures f in conventional
      {
        SingleLowest(p);
        var k := EveryFreeFrameIsReturned(p, f, AllocP(p, 1).0);
        assert Nth(p, k) == f;
      }
    }
    if forall f :: 1 <= f < p.total && f !in p.taken ==> f in conventional {
      forall k | Nth(p, k) != 0
        ensures Nth(p, k) in conventional
      {
        AllocTimesGrows(p, k);
        SingleLowest(AllocTimes(p, k));
      }
    }
  }
}
