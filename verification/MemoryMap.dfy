/** The boot loader's last calls into firmware: a memory map in a buffer that grows until the map fits. */
module MemoryMap {
  import opened Paths
  import opened Frames
  import opened Pmm

  const ERROR_BIT := 0x8000_0000_0000_0000
  const BUFFER_TOO_SMALL := ERROR_BIT + 5
  const OUT_OF_RESOURCES := ERROR_BIT + 12
  const INVALID_PARAMETER := ERROR_BIT + 2
  const SUCCESS := 0

  predicate Failed(status: nat) { status >= ERROR_BIT }

  /** Pool addresses in use, with the size of each allocation; address zero stands for no buffer. */
  type Pools = map<nat, nat>

  /** One call into the firmware and its answer: a request for the map, or for a buffer. */
  datatype Exchange =
    | MapAsked(size: nat, status: nat, required: nat, descSize: nat)
    | PoolAsked(size: nat, status: nat, buffer: nat)

  /** The firmware services that the loader calls.  What they answer is up to the firmware. */
  class Firmware {
    var live: Pools
    /** Identifies the current memory map: every allocation and release may change it. */
    var key: nat
    /** Every request so far, with its answer. */
    ghost var log: seq<Exchange>

    constructor ()
      ensures live == map[] && log == []
    {
      live, key, log := map[], 0, [];
    }

    /** Writes at most `size` bytes into the buffer. On success the map fits and the key is the current one. */
    method GetMemoryMap(size: nat, buffer: nat) returns (status: nat, required: nat, mapKey: nat, descSize: nat)
      requires size < U64
      requires buffer != 0 ==> buffer in live && size <= live[buffer]
      modifies `log
      ensures required < U64 && log == old(log) + [MapAsked(size, status, required, descSize)]
      ensures !Failed(status) ==> required <= size && mapKey == key
    {
      status, required, mapKey, descSize := *, *, *, *;
      if required >= U64 {
        required := 0;
      }
      if !Failed(status) {
        mapKey := key;
        if required > size {
          required := size;
        }
      }
      log := log + [MapAsked(size, status, required, descSize)];
    }

    method AllocatePool(size: nat) returns (status: nat, buffer: nat)
      requires size < U64
      modifies `live, `key, `log
      ensures log == old(log) + [PoolAsked(size, status, buffer)]
      ensures Failed(status) ==> live == old(live)
      ensures !Failed(status) && buffer == 0 ==> live == old(live)
      ensures !Failed(status) && buffer != 0 ==> buffer !in old(live) && live == old(live)[buffer := size]
    {
      key, status, buffer := *, *, *;
      if !Failed(status) && buffer != 0 {
        if buffer in live {
          status := OUT_OF_RESOURCES;
        } else {
          live := live[buffer := size];
        }
      }
      log := log + [PoolAsked(size, status, buffer)];
    }

    /** Only a live buffer can be freed: no buffer is freed twice. */
    method FreePool(buffer: nat)
      requires buffer in live
      modifies `live, `key
      ensures live == old(live) - {buffer}
    {
      live := live - {buffer};
      key := *;
    }
  }

  // ---------- how the buffer grows ----------

  /** Half of the base on top of it, and at least two bytes more. */
  predicate Grows(a: nat, b: nat) {
    b > a + a / 2 && b >= a + 2
  }

  predicate AllGrow(s: seq<nat>) {
    && (forall k :: 0 <= k < |s| ==> s[k] < U64)
    && (forall k :: 0 < k < |s| ==> Grows(s[k - 1], s[k]))
  }

  function Pow2(n: nat): (p: nat)
    ensures p > 0
  {
    if n == 0 then 1 else 2 * Pow2(n - 1)
  }

  lemma GrowsTwice(a: nat, b: nat, c: nat)
    requires Grows(a, b) && Grows(b, c)
    ensures c >= 2 * a + 2 && c >= 4
  {
  }

  lemma {:induction false} GrowsFast(s: seq<nat>, k: nat)
    requires AllGrow(s) && 2 * k + 2 < |s|
    ensures s[2 * k + 2] >= 2 * Pow2(k) + 2
  {
    GrowsTwice(s[2 * k], s[2 * k + 1], s[2 * k + 2]);
    if k > 0 {
      GrowsFast(s, k - 1);
    }
  }

  lemma Pow2At64()
    ensures 2 * Pow2(63) == U64
  {
    assert Pow2(8) == 256;
    Pow2Adds(8, 8);
    Pow2Adds(16, 16);
    Pow2Adds(32, 16);
    Pow2Adds(48, 8);
    Pow2Adds(56, 7);
    assert Pow2(7) == 128;
  }

  lemma {:induction false} Pow2Adds(a: nat, b: nat)
    ensures Pow2(a + b) == Pow2(a) * Pow2(b)
  {
    if b > 0 {
      Pow2Adds(a, b - 1);
    }
  }

  /** However the firmware answers, sizes that grow this way stay below 64 bits for at most 128 requests. */
  lemma FewRequests(s: seq<nat>)
    requires AllGrow(s)
    ensures |s| <= 128
  {
    if |s| > 128 {
      GrowsFast(s, 63);
      Pow2At64();
      assert false;
    }
  }

  // ---------- what the loader and the firmware say to each other ----------

  /** The next size: half as much again and one byte more, for what is there or is required. */
  function Larger(capacity: nat, required: nat): (size: nat)
    ensures Grows(capacity, size) && required < size
    ensures required <= capacity ==> size <= capacity + capacity / 2 + 2
    ensures required > capacity ==> size <= required + required / 2 + 2
  {
    var base := if required > capacity then required else capacity;
    base + (if base / 2 == 0 then 1 else base / 2) + 1
  }

  /**
   * A conversation about the map, from a capacity and a buffer on, and the status it ends with.  The
   * loader asks again with a larger buffer exactly as long as the map did not fit and a larger buffer
   * is to be had.
   */
  predicate Talk(capacity: nat, buffer: nat, talk: seq<Exchange>, status: nat)
    decreases |talk|
  {
    && talk != [] && talk[0].MapAsked? && talk[0].size == capacity
    && var answer := talk[0];
       if answer.status == BUFFER_TOO_SMALL then
         var size := Larger(capacity, answer.required);
         if size >= U64 then |talk| == 1 && status == OUT_OF_RESOURCES
         else
           && |talk| > 1 && talk[1].PoolAsked? && talk[1].size == size
           && if Failed(talk[1].status) then |talk| == 2 && status == talk[1].status
              else Talk(size, talk[1].buffer, talk[2..], status)
       else
         && |talk| == 1
         && status == if Failed(answer.status) then answer.status
                      else if buffer == 0 || answer.descSize == 0 then INVALID_PARAMETER
                      else SUCCESS
  }

  /** The sizes offered in the requests for the map. */
  function Sizes(talk: seq<Exchange>): seq<nat> {
    if talk == [] then []
    else (if talk[0].MapAsked? then [talk[0].size] else []) + Sizes(talk[1..])
  }

  /** The sizes offered grow, so that a conversation is short whatever the firmware answers. */
  lemma {:induction false} TalkGrows(capacity: nat, buffer: nat, talk: seq<Exchange>, status: nat)
    requires Talk(capacity, buffer, talk, status) && capacity < U64
    ensures var sizes := Sizes(talk); AllGrow(sizes) && 0 < |sizes| <= 128 && sizes[0] == capacity
    decreases |talk|
  {
    SizesFirst(talk);
    if |talk| > 2 {
      var next, rest := talk[1].size, talk[2..];
      TalkGrows(next, talk[1].buffer, rest, status);
      GrowsFirst(capacity, Sizes(rest));
    }
    FewRequests(Sizes(talk));
  }

  lemma GrowsFirst(size: nat, sizes: seq<nat>)
    requires size < U64 && AllGrow(sizes) && sizes != [] && Grows(size, sizes[0])
    ensures AllGrow([size] + sizes)
  {
  }

  lemma SizesFirst(talk: seq<Exchange>)
    requires talk != [] && talk[0].MapAsked? && (|talk| > 1 ==> talk[1].PoolAsked?)
    ensures Sizes(talk) == [talk[0].size] + (if |talk| > 2 then Sizes(talk[2..]) else [])
  {
    if |talk| > 1 {
      assert talk[1..][1..] == talk[2..];
    }
  }

  /** Why a conversation ended without a map. */
  datatype Cause = Overflow | NoMemory | NoMap | NoBuffer

  /** The buffer offered with the last request for the map. */
  function Held(buffer: nat, talk: seq<Exchange>): nat
    decreases |talk|
  {
    if |talk| > 2 && talk[1].PoolAsked? then Held(talk[1].buffer, talk[2..]) else buffer
  }

  /** The last answer, and the buffer offered, account for the error: there are no other errors. */
  predicate Explains(cause: Cause, held: nat, last: Exchange, status: nat) {
    match cause
    case Overflow => last.MapAsked? && last.status == BUFFER_TOO_SMALL && status == OUT_OF_RESOURCES && Larger(last.size, last.required) >= U64
    case NoMemory => last.PoolAsked? && Failed(last.status) && status == last.status
    case NoMap => last.MapAsked? && Failed(last.status) && last.status != BUFFER_TOO_SMALL && status == last.status
    case NoBuffer => last.MapAsked? && !Failed(last.status) && (held == 0 || last.descSize == 0) && status == INVALID_PARAMETER
  }

  /**
   * An error has one of four causes: the larger size does not fit 64 bits, the larger buffer was
   * asked for and refused, the firmware has no map, or it answered without a buffer or a descriptor
   * size.  Otherwise the loader has the map.
   */
  lemma {:induction false} ErrorExplained(capacity: nat, buffer: nat, talk: seq<Exchange>, status: nat) returns (cause: Cause)
    requires Talk(capacity, buffer, talk, status)
    ensures var held, last := Held(buffer, talk), talk[|talk| - 1];
            && (status == SUCCESS <==> last.MapAsked? && !Failed(last.status) && held != 0 && last.descSize != 0)
            && (status != SUCCESS ==> Failed(status) && Explains(cause, held, last, status))
    decreases |talk|
  {
    cause := NoBuffer;
    if |talk| > 2 {
      var rest := talk[2..];
      cause := ErrorExplained(talk[1].size, talk[1].buffer, rest, status);
      assert rest[|rest| - 1] == talk[|talk| - 1];
    } else if |talk| == 2 {
      cause := NoMemory;
    } else if talk[0].status == BUFFER_TOO_SMALL {
      cause := Overflow;
    } else if Failed(talk[0].status) {
      cause := NoMap;
    }
  }

  /**
   * A firmware that always has a map, never larger than a bound, says what it requires, and has the
   * memory that is asked for.
   */
  predicate Cooperates(e: Exchange, bound: nat) {
    match e
    case MapAsked(size, status, required, descSize) =>
      if status == BUFFER_TOO_SMALL then size < bound && required <= bound else !Failed(status) && size > 0 && descSize != 0
    case PoolAsked(_, status, buffer) => !Failed(status) && buffer != 0
  }

  /** With such a firmware the loader gets the map, whenever buffers for the bound have a size at all. */
  lemma {:induction false} MapObtained(capacity: nat, buffer: nat, talk: seq<Exchange>, status: nat, bound: nat)
    requires Talk(capacity, buffer, talk, status) && (capacity > 0 ==> buffer != 0) && bound + bound / 2 + 2 < U64
    requires forall e :: e in talk ==> Cooperates(e, bound)
    ensures status == SUCCESS
    decreases |talk|
  {
    assert talk[0] in talk;
    if talk[0].status == BUFFER_TOO_SMALL {
      assert Larger(capacity, talk[0].required) < U64;
      assert talk[1] in talk;
      assert forall e :: e in talk[2..] ==> e in talk;
      MapObtained(talk[1].size, talk[1].buffer, talk[2..], status, bound);
    }
  }

  /** The map did not fit, and a larger buffer has been had. */
  predicate Round(capacity: nat, more: seq<Exchange>) {
    && |more| == 2 && more[0].MapAsked? && more[0].size == capacity && more[0].status == BUFFER_TOO_SMALL
    && more[1].PoolAsked? && more[1].size == Larger(capacity, more[0].required) < U64 && !Failed(more[1].status)
  }

  /** A conversation of such rounds, which has come to a new capacity and buffer. */
  predicate SoFar(capacity: nat, buffer: nat, talk: seq<Exchange>, c: nat, b: nat)
    decreases |talk|
  {
    if talk == [] then c == capacity && b == buffer
    else |talk| >= 2 && Round(capacity, talk[..2]) && SoFar(talk[1].size, talk[1].buffer, talk[2..], c, b)
  }

  /** Whatever ends a conversation from there ends the whole one. */
  lemma {:induction false} TalkEnds(capacity: nat, buffer: nat, talk: seq<Exchange>, c: nat, b: nat, more: seq<Exchange>, status: nat)
    requires SoFar(capacity, buffer, talk, c, b) && Talk(c, b, more, status)
    ensures Talk(capacity, buffer, talk + more, status) && more != [] && (talk + more)[|talk + more| - 1] == more[|more| - 1]
    decreases |talk|
  {
    if talk == [] {
      assert talk + more == more;
    } else {
      TalkEnds(talk[1].size, talk[1].buffer, talk[2..], c, b, more, status);
      assert (talk + more)[2..] == talk[2..] + more;
      assert talk[..2][0] == talk[0] && talk[..2][1] == talk[1];
    }
  }

  lemma Longer(log: seq<Exchange>, talk: seq<Exchange>, more: seq<Exchange>)
    ensures log + talk + more == log + (talk + more)
  {
  }

  lemma TalkDone(capacity: nat, buffer: nat, talk: seq<Exchange>, c: nat, b: nat, more: seq<Exchange>, status: nat)
    requires SoFar(capacity, buffer, talk, c, b) && Talk(c, b, more, status) && capacity < U64
    ensures var all := talk + more;
            && Talk(capacity, buffer, all, status) && |Sizes(all)| <= 128 && AllGrow(Sizes(all))
            && more != [] && all[|all| - 1] == more[|more| - 1]
  {
    TalkEnds(capacity, buffer, talk, c, b, more, status);
    TalkGrows(capacity, buffer, talk + more, status);
  }

  lemma {:induction false} TalkGoesOn(capacity: nat, buffer: nat, talk: seq<Exchange>, c: nat, b: nat, more: seq<Exchange>)
    requires SoFar(capacity, buffer, talk, c, b) && Round(c, more)
    ensures SoFar(capacity, buffer, talk + more, more[1].size, more[1].buffer)
    decreases |talk|
  {
    var all := talk + more;
    if talk == [] {
      assert all == more && more[..2] == more && more[2..] == [];
    } else {
      TalkGoesOn(talk[1].size, talk[1].buffer, talk[2..], c, b, more);
      assert all[2..] == talk[2..] + more && all[..2] == talk[..2];
    }
  }

  // ---------- the loader ----------

  class Loader {
    const firmware: Firmware
    var buffer: nat
    var capacity: nat
    var mapSize: nat
    var mapKey: nat
    var descSize: nat

    /** A buffer that is there is live, and as large as the loader thinks. */
    ghost predicate Valid()
      reads this, firmware
    {
      capacity < U64 && (buffer != 0 ==> buffer in firmware.live && firmware.live[buffer] == capacity)
    }

    /** Everything the firmware has handed out, but for the loader's own buffer. */
    ghost function Others(): Pools
      reads this, firmware
    {
      firmware.live - {buffer}
    }

    constructor (firmware: Firmware)
      ensures Valid() && this.firmware == firmware && buffer == 0 && capacity == 0
    {
      this.firmware := firmware;
      buffer, capacity, mapSize, mapKey, descSize := 0, 0, 0, 0, 0;
    }

    /** The way every failure ends: the buffer is given back. */
    method GiveUp()
      requires Valid() && 0 !in firmware.live
      modifies this, firmware
      ensures buffer == 0 && capacity == 0 && firmware.live == old(Others()) && firmware.log == old(firmware.log)
    {
      if buffer != 0 {
        firmware.FreePool(buffer);
      }
      buffer, capacity := 0, 0;
    }

    /**
     * Replaces the buffer by a larger one, or gives it back.  It fails only when the larger size does
     * not fit 64 bits, or when it was asked for and the firmware had no buffer of that size.
     */
    method Enlarge(required: nat) returns (status: nat, ghost talk: seq<Exchange>)
      requires Valid() && required < U64 && 0 !in firmware.live
      modifies this, firmware
      ensures Valid() && 0 !in firmware.live && firmware.log == old(firmware.log) + talk
      ensures var size := Larger(old(capacity), required);
              if size >= U64 then talk == [] && status == OUT_OF_RESOURCES
              else
                && |talk| == 1 && talk[0].PoolAsked? && talk[0].size == size && status == talk[0].status
                && (!Failed(status) ==> capacity == size && buffer == talk[0].buffer && Others() == old(Others()))
      ensures Failed(status) ==> buffer == 0 && capacity == 0 && firmware.live == old(Others())
    {
      talk := [];
      var base := if required > capacity then required else capacity;
      var increment := base / 2;
      if increment == 0 {
        increment := 1;
      }
      if base > U64 - 1 - increment - 1 {
        GiveUp();
        return OUT_OF_RESOURCES, [];
      }
      var larger;
      status, larger := firmware.AllocatePool(base + increment + 1);
      talk := [PoolAsked(base + increment + 1, status, larger)];
      if Failed(status) {
        GiveUp();
        return;
      }
      if buffer != 0 {
        firmware.FreePool(buffer);
      }
      buffer, capacity := larger, base + increment + 1;
    }

    /** What holds after a conversation: the map is there, or nothing of the loader's is. */
    ghost predicate Concluded(status: nat, answer: Exchange)
      reads this, firmware
    {
      && (status == SUCCESS || Failed(status))
      && (Failed(status) ==> buffer == 0 && capacity == 0)
      && (status == SUCCESS ==>
            && answer.MapAsked? && answer.size == capacity && mapSize == answer.required <= capacity && descSize == answer.descSize != 0
            && buffer != 0 && mapKey == firmware.key)
    }

    /** One round: the map, an error, or a larger buffer to ask again with. */
    method Ask() returns (done: bool, status: nat, ghost more: seq<Exchange>)
      requires Valid() && 0 !in firmware.live
      modifies this, firmware
      ensures Valid() && 0 !in firmware.live && Others() == old(Others()) && firmware.log == old(firmware.log) + more
      ensures done ==> Talk(old(capacity), old(buffer), more, status) && Concluded(status, more[|more| - 1])
      ensures !done ==>
                && Round(old(capacity), more) && capacity == more[1].size && buffer == more[1].buffer
    {
      var required;
      status, required, mapKey, descSize := firmware.GetMemoryMap(capacity, buffer);
      more := [MapAsked(capacity, status, required, descSize)];
      done := true;
      if status == BUFFER_TOO_SMALL {
        ghost var talk;
        status, talk := Enlarge(required);
        more := more + talk;
        done := Failed(status);
      } else if Failed(status) {
        GiveUp();
      } else if buffer == 0 || descSize == 0 {
        GiveUp();
        status := INVALID_PARAMETER;
      } else {
        mapSize := required;
        status := SUCCESS;
      }
    }

    /**
     * get_memory_map(): the conversation is the one described, with at most 128 requests for the map.
     * On success exactly the loader's buffer is live besides what was, it holds the map, and the key
     * is current; on any error no buffer of the loader is live.
     */
    method GetMap() returns (status: nat, ghost talk: seq<Exchange>)
      requires Valid() && 0 !in firmware.live
      modifies this, firmware
      ensures Valid() && 0 !in firmware.live && Others() == old(Others()) && firmware.log == old(firmware.log) + talk
      ensures Talk(old(capacity), old(buffer), talk, status) && |Sizes(talk)| <= 128 && AllGrow(Sizes(talk))
      ensures Concluded(status, talk[|talk| - 1])
    {
      talk := [];
      while true
        invariant Valid() && 0 !in firmware.live && Others() == old(Others())
        invariant firmware.log == old(firmware.log) + talk
        invariant SoFar(old(capacity), old(buffer), talk, capacity, buffer)
        decreases U64 - capacity
      {
        ghost var c, b := capacity, buffer;
        var done;
        ghost var more;
        done, status, more := Ask();
        Longer(old(firmware.log), talk, more);
        if done {
          TalkDone(old(capacity), old(buffer), talk, c, b, more, status);
          talk := talk + more;
          return;
        }
        TalkGoesOn(old(capacity), old(buffer), talk, c, b, more);
        talk := talk + more;
      }
    }
  }

  // ---------- the totals that go into the boot record ----------

  function AddSaturating(left: nat, right: nat): (sum: nat)
    requires left < U64 && right < U64
    ensures sum < U64
  {
    if right > U64 - 1 - left then U64 - 1 else left + right
  }

  function RegionSize(d: Descriptor): (n: nat)
    ensures n < U64
  {
    if d.pages > (U64 - 1) / PAGE then U64 - 1 else d.pages * PAGE
  }

  const LOADER_CODE := 1
  const LOADER_DATA := 2
  const BOOT_SERVICES_CODE := 3
  const BOOT_SERVICES_DATA := 4

  /** Conventional memory, and what boot services and the loader leave behind. */
  predicate Reusable(d: Descriptor) {
    d.kind in {CONVENTIONAL, BOOT_SERVICES_CODE, BOOT_SERVICES_DATA, LOADER_CODE, LOADER_DATA}
  }

  /** The exact size in bytes of the regions of some kinds, or of all regions, without a limit. */
  function Bytes(ds: seq<Descriptor>, kinds: Option<set<nat>>): nat {
    if ds == [] then 0
    else
      var d := ds[|ds| - 1];
      Bytes(ds[..|ds| - 1], kinds) + (if kinds.None? || d.kind in kinds.value then d.pages * PAGE else 0)
  }

  /** Regions are added up one by one, wherever they stand in the map. */
  lemma {:induction false} BytesAdd(a: seq<Descriptor>, b: seq<Descriptor>, kinds: Option<set<nat>>)
    ensures Bytes(a + b, kinds) == Bytes(a, kinds) + Bytes(b, kinds)
    ensures forall d :: Bytes([d], kinds) == if kinds.None? || d.kind in kinds.value then d.pages * PAGE else 0
    decreases |b|
  {
    forall d: Descriptor
      ensures Bytes([d], kinds) == if kinds.None? || d.kind in kinds.value then d.pages * PAGE else 0
    {
      assert [d][..0] == [];
    }
    if b == [] {
      assert a + b == a;
    } else {
      BytesAdd(a, b[..|b| - 1], kinds);
      assert (a + b)[..|a + b| - 1] == a + b[..|b| - 1];
    }
  }

  function Capped(n: nat): nat { if n < U64 then n else U64 - 1 }

  /** update_boot_info(): both totals are the exact sums, capped at the largest 64-bit number. */
  method Totals(ds: seq<Descriptor>) returns (total: nat, usable: nat)
    ensures total == Capped(Bytes(ds, None)) && usable <= total
    ensures usable == Capped(Bytes(ds, Some({CONVENTIONAL, BOOT_SERVICES_CODE, BOOT_SERVICES_DATA, LOADER_CODE, LOADER_DATA})))
  {
    total, usable := 0, 0;
    ghost var kinds := Some({CONVENTIONAL, BOOT_SERVICES_CODE, BOOT_SERVICES_DATA, LOADER_CODE, LOADER_DATA});
    var i := 0;
    while i < |ds|
      invariant 0 <= i <= |ds| && usable <= total
      invariant total == Capped(Bytes(ds[..i], None)) && usable == Capped(Bytes(ds[..i], kinds))
    {
      assert ds[..i + 1][..i] == ds[..i];
      SaturatingSum(Bytes(ds[..i], None), ds[i]);
      SaturatingSum(Bytes(ds[..i], kinds), ds[i]);
      total := AddSaturating(total, RegionSize(ds[i]));
      if Reusable(ds[i]) {
        usable := AddSaturating(usable, RegionSize(ds[i]));
      }
      i := i + 1;
    }
    assert ds[..i] == ds;
  }

  /** Capping early or late makes no difference. */
  lemma SaturatingSum(sum: nat, d: Descriptor)
    ensures AddSaturating(Capped(sum), RegionSize(d)) == Capped(sum + d.pages * PAGE)
  {
  }
}
