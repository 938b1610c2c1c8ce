/** The layout of reserved memory: addresses rounded up one after the other on the MCP750, sizes
    rounded up first and then added on FreeRTOS (the two CFE_PSP_SetupReservedMemoryMap). */
module MemoryLayout {
  import opened Bits

  /** `x` rounded up to a multiple of 2^k. */
  function RoundUp(x: nat, k: nat): (r: nat)
    ensures x <= r < x + Pow2(k)
    decreases k
  {
    if k == 0 then x else 2 * RoundUp((x + 1) / 2, k - 1)
  }

  lemma {:induction false} RoundUpIsMultiple(x: nat, k: nat)
    ensures RoundUp(x, k) % Pow2(k) == 0
    decreases k
  {
    if k > 0 {
      var half := RoundUp((x + 1) / 2, k - 1);
      RoundUpIsMultiple((x + 1) / 2, k - 1);
      assert (2 * half) / 2 == half;
      HalveMod(2 * half, Pow2(k - 1));
    }
  }

  /** `r` is the first multiple of 2^k at or after `x`. */
  predicate IsRounded(x: nat, r: nat, k: nat) {
    r % Pow2(k) == 0 && x <= r < x + Pow2(k)
  }

  /** There is only one multiple of 2^k in a half-open range of that length. */
  lemma RoundUpUnique(x: nat, k: nat, r: nat)
    requires IsRounded(x, r, k)
    ensures r == RoundUp(x, k)
  {
    var other := RoundUp(x, k);
    RoundUpIsMultiple(x, k);
    if r < other {
      ModDistinct(r, other, Pow2(k));
    } else if other < r {
      ModDistinct(other, r, Pow2(k));
    }
  }

  lemma MaskRoundsUp(x: nat, k: nat, width: nat)
    requires k <= width && x + Pow2(k) - 1 < Pow2(width)
    ensures Pow2(k) <= Pow2(width)
    ensures IsRounded(x, And(x + (Pow2(k) - 1), Complement(Pow2(k) - 1, width)), k)
  {
    var y := x + (Pow2(k) - 1);
    AndComplementMask(y, k, width);
    MultipleBelow(y, Pow2(k));
  }

  /** `(x + mask) & ~mask` in words of `width` bits. */
  method Align(x: nat, k: nat, width: nat) returns (r: nat)
    requires k <= width && x + Pow2(k) - 1 < Pow2(width)
    ensures IsRounded(x, r, k)
  {
    MaskRoundsUp(x, k, width);
    var mask := Pow2(k) - 1;
    r := And(x + mask, Complement(mask, width));
  }

  lemma RoundUpShift(base: nat, size: nat, k: nat)
    requires base % Pow2(k) == 0
    ensures RoundUp(base + size, k) == base + RoundUp(size, k)
  {
    var n := Pow2(k);
    var q := base / n;
    assert base == q * n;
    RoundUpIsMultiple(size, k);
    ModAddMultiple(RoundUp(size, k), n, q);
    assert IsRounded(base + size, base + RoundUp(size, k), k);
    RoundUpUnique(base + size, k, base + RoundUp(size, k));
  }

  // ---------------------------------------------------------------- the two rules

  /** The start of each block and, last, the end of the whole: each address is rounded up. */
  function AddThenRound(base: nat, sizes: seq<nat>, k: nat): (a: seq<nat>)
    ensures |a| == |sizes| + 1 && a[0] == base
    decreases |sizes|
  {
    if sizes == [] then [base] else [base] + AddThenRound(RoundUp(base + sizes[0], k), sizes[1..], k)
  }

  /** The same with each size rounded up before it is added. */
  function RoundThenAdd(base: nat, sizes: seq<nat>, k: nat): (a: seq<nat>)
    ensures |a| == |sizes| + 1 && a[0] == base
    decreases |sizes|
  {
    if sizes == [] then [base] else [base] + RoundThenAdd(base + RoundUp(sizes[0], k), sizes[1..], k)
  }

  /** Blocks follow each other: every block ends at or before the start of every later one. */
  ghost predicate Stacked(a: seq<nat>, sizes: seq<nat>) {
    && |a| == |sizes| + 1
    && forall i, j :: 0 <= i < j <= |sizes| ==> a[i] + sizes[i] <= a[j]
  }

  lemma StackedCons(base: nat, size: nat, a: seq<nat>, sizes: seq<nat>)
    requires Stacked(a, sizes) && base + size <= a[0]
    ensures Stacked([base] + a, [size] + sizes)
  {
    var a', s' := [base] + a, [size] + sizes;
    forall i, j | 0 <= i < j <= |s'|
      ensures a'[i] + s'[i] <= a'[j]
    {
      if i == 0 {
        if j > 1 {
          assert a[0] + sizes[0] <= a[j - 1];
        }
      } else {
        assert a[i - 1] + sizes[i - 1] <= a[j - 1];
      }
    }
  }

  /** For any base the MCP750's blocks are stacked, and every block but the first is aligned. */
  lemma {:induction false} AddThenRoundStacked(base: nat, sizes: seq<nat>, k: nat)
    ensures Stacked(AddThenRound(base, sizes, k), sizes)
    ensures forall i :: 1 <= i <= |sizes| ==> AddThenRound(base, sizes, k)[i] % Pow2(k) == 0
    decreases |sizes|
  {
    if sizes != [] {
      var next := RoundUp(base + sizes[0], k);
      AddThenRoundStacked(next, sizes[1..], k);
      RoundUpIsMultiple(base + sizes[0], k);
      StackedCons(base, sizes[0], AddThenRound(next, sizes[1..], k), sizes[1..]);
      assert [sizes[0]] + sizes[1..] == sizes;
    }
  }

  /** So are FreeRTOS's, for any base. */
  lemma {:induction false} RoundThenAddStacked(base: nat, sizes: seq<nat>, k: nat)
    ensures Stacked(RoundThenAdd(base, sizes, k), sizes)
    decreases |sizes|
  {
    if sizes != [] {
      var next := base + RoundUp(sizes[0], k);
      RoundThenAddStacked(next, sizes[1..], k);
      StackedCons(base, sizes[0], RoundThenAdd(next, sizes[1..], k), sizes[1..]);
      assert [sizes[0]] + sizes[1..] == sizes;
    }
  }

  lemma {:induction false} SameFromAligned(base: nat, sizes: seq<nat>, k: nat)
    requires base % Pow2(k) == 0
    ensures AddThenRound(base, sizes, k) == RoundThenAdd(base, sizes, k)
    decreases |sizes|
  {
    if sizes != [] {
      var next := RoundUp(base + sizes[0], k);
      RoundUpShift(base, sizes[0], k);
      assert next == base + RoundUp(sizes[0], k);
      RoundUpIsMultiple(base + sizes[0], k);
      SameFromAligned(next, sizes[1..], k);
    }
  }

  /** The two rules give the same layout exactly when the base is aligned. */
  lemma SameLayoutIffAligned(base: nat, sizes: seq<nat>, k: nat)
    requires sizes != []
    ensures AddThenRound(base, sizes, k) == RoundThenAdd(base, sizes, k) <==> base % Pow2(k) == 0
  {
    if base % Pow2(k) == 0 {
      SameFromAligned(base, sizes, k);
    } else if AddThenRound(base, sizes, k) == RoundThenAdd(base, sizes, k) {
      assert AddThenRound(base, sizes, k)[1] == RoundThenAdd(base, sizes, k)[1];
      AlignedFromShift(base, sizes[0], k);
    }
  }

  lemma AlignedFromShift(base: nat, size: nat, k: nat)
    requires RoundUp(base + size, k) == base + RoundUp(size, k)
    ensures base % Pow2(k) == 0
  {
    RoundUpIsMultiple(base + size, k);
    RoundUpIsMultiple(size, k);
    MultipleDifference(base, RoundUp(size, k), Pow2(k));
  }

  lemma MultipleDifference(x: nat, y: nat, n: nat)
    requires n > 0 && y % n == 0 && (x + y) % n == 0
    ensures x % n == 0
  {
    var q := y / n;
    assert y == q * n;
    ModAddMultiple(x, n, q);
  }

  // ---------------------------------------------------------------- the two setup functions

  datatype Sizes = Sizes(boot: nat, exceptions: nat, reset: nat, volatileDisk: nat, cds: nat, user: nat) {
    /** In the order in which both platforms place the blocks. */
    function InOrder(): seq<nat> {
      [boot, exceptions, reset, volatileDisk, cds, user]
    }

    function Total(): nat {
      boot + exceptions + reset + volatileDisk + cds + user
    }

    function Required(k: nat): nat {
      RoundUp(boot, k) + RoundUp(exceptions, k) + RoundUp(reset, k)
      + RoundUp(volatileDisk, k) + RoundUp(cds, k) + RoundUp(user, k)
    }
  }

  /** Six blocks laid out from `a0`, as the statements of a setup function compute the addresses. */
  datatype Chain = Chain(a0: nat, a1: nat, a2: nat, a3: nat, a4: nat, a5: nat, a6: nat) {
    function Addresses(): seq<nat> {
      [a0, a1, a2, a3, a4, a5, a6]
    }
  }

  predicate Rounds(c: Chain, s: Sizes, k: nat) {
    && IsRounded(c.a0 + s.boot, c.a1, k) && IsRounded(c.a1 + s.exceptions, c.a2, k)
    && IsRounded(c.a2 + s.reset, c.a3, k) && IsRounded(c.a3 + s.volatileDisk, c.a4, k)
    && IsRounded(c.a4 + s.cds, c.a5, k) && IsRounded(c.a5 + s.user, c.a6, k)
  }

  predicate Adds(c: Chain, s: Sizes, k: nat) {
    && c.a0 <= c.a1 <= c.a2 <= c.a3 <= c.a4 <= c.a5 <= c.a6
    && IsRounded(s.boot, c.a1 - c.a0, k) && IsRounded(s.exceptions, c.a2 - c.a1, k)
    && IsRounded(s.reset, c.a3 - c.a2, k) && IsRounded(s.volatileDisk, c.a4 - c.a3, k)
    && IsRounded(s.cds, c.a5 - c.a4, k) && IsRounded(s.user, c.a6 - c.a5, k)
  }

  lemma {:induction false} ChainRounds(a: seq<nat>, sizes: seq<nat>, k: nat)
    requires |a| == |sizes| + 1
    requires forall i :: 0 <= i < |sizes| ==> a[i + 1] == RoundUp(a[i] + sizes[i], k)
    ensures AddThenRound(a[0], sizes, k) == a
    decreases |sizes|
  {
    if sizes != [] {
      assert a[0 + 1] == RoundUp(a[0] + sizes[0], k);
      forall i | 0 <= i < |sizes| - 1
        ensures a[1..][i + 1] == RoundUp(a[1..][i] + sizes[1..][i], k)
      {
        assert a[(i + 1) + 1] == RoundUp(a[i + 1] + sizes[i + 1], k);
      }
      ChainRounds(a[1..], sizes[1..], k);
    }
  }

  lemma {:induction false} ChainAdds(a: seq<nat>, sizes: seq<nat>, k: nat)
    requires |a| == |sizes| + 1
    requires forall i :: 0 <= i < |sizes| ==> a[i + 1] == a[i] + RoundUp(sizes[i], k)
    ensures RoundThenAdd(a[0], sizes, k) == a
    decreases |sizes|
  {
    if sizes != [] {
      assert a[0 + 1] == a[0] + RoundUp(sizes[0], k);
      forall i | 0 <= i < |sizes| - 1
        ensures a[1..][i + 1] == a[1..][i] + RoundUp(sizes[1..][i], k)
      {
        assert a[(i + 1) + 1] == a[i + 1] + RoundUp(sizes[i + 1], k);
      }
      ChainAdds(a[1..], sizes[1..], k);
    }
  }

  lemma SixRounded(c: Chain, s: Sizes, k: nat)
    requires Rounds(c, s, k)
    ensures AddThenRound(c.a0, s.InOrder(), k) == c.Addresses()
  {
    var a, sizes := c.Addresses(), s.InOrder();
    forall i | 0 <= i < 6
      ensures a[i + 1] == RoundUp(a[i] + sizes[i], k)
    {
      RoundUpUnique(a[i] + sizes[i], k, a[i + 1]);
    }
    ChainRounds(a, sizes, k);
  }

  lemma AddedSizes(c: Chain, s: Sizes, k: nat)
    requires Adds(c, s, k)
    ensures c.a1 == c.a0 + RoundUp(s.boot, k) && c.a2 == c.a1 + RoundUp(s.exceptions, k)
    ensures c.a3 == c.a2 + RoundUp(s.reset, k) && c.a4 == c.a3 + RoundUp(s.volatileDisk, k)
    ensures c.a5 == c.a4 + RoundUp(s.cds, k) && c.a6 == c.a5 + RoundUp(s.user, k)
  {
    RoundUpUnique(s.boot, k, c.a1 - c.a0);
    RoundUpUnique(s.exceptions, k, c.a2 - c.a1);
    RoundUpUnique(s.reset, k, c.a3 - c.a2);
    RoundUpUnique(s.volatileDisk, k, c.a4 - c.a3);
    RoundUpUnique(s.cds, k, c.a5 - c.a4);
    RoundUpUnique(s.user, k, c.a6 - c.a5);
  }

  /** The end of FreeRTOS's layout is the required size away from its start. */
  lemma SixAdded(c: Chain, s: Sizes, k: nat)
    requires Adds(c, s, k)
    ensures RoundThenAdd(c.a0, s.InOrder(), k) == c.Addresses() && c.a6 == c.a0 + s.Required(k)
  {
    AddedSizes(c, s, k);
    ChainAdds(c.Addresses(), s.InOrder(), k);
  }

  function ChainOf(base: nat, s1: nat, s2: nat, s3: nat, s4: nat, s5: nat, s6: nat): Chain {
    Chain(base, base + s1, base + s1 + s2, base + s1 + s2 + s3, base + s1 + s2 + s3 + s4,
          base + s1 + s2 + s3 + s4 + s5, base + s1 + s2 + s3 + s4 + s5 + s6)
  }

  /** pc-linux: where the reset area starts in its shared memory segment, after the boot record and
      the exception log, and how long the segment is; blocks are aligned to whole pages. */
  method PlaceResetArea(fixedSize: nat, resetAreaSize: nat, k: nat, width: nat)
    returns (resetOffset: nat, totalSize: nat)
    requires k <= width && fixedSize + resetAreaSize + 2 * (Pow2(k) - 1) < Pow2(width)
    ensures [0, resetOffset, totalSize] == AddThenRound(0, [fixedSize, resetAreaSize], k)
  {
    totalSize := Align(fixedSize, k, width);
    resetOffset := totalSize;
    totalSize := Align(totalSize + resetAreaSize, k, width);
    RoundUpUnique(0 + fixedSize, k, resetOffset);
    RoundUpUnique(resetOffset + resetAreaSize, k, totalSize);
    ghost var a, sizes := [0, resetOffset, totalSize], [fixedSize, resetAreaSize];
    ChainRounds(a, sizes, k);
  }

  lemma ChainOfAdds(base: nat, s1: nat, s2: nat, s3: nat, s4: nat, s5: nat, s6: nat, s: Sizes, k: nat)
    requires IsRounded(s.boot, s1, k) && IsRounded(s.exceptions, s2, k) && IsRounded(s.reset, s3, k)
    requires IsRounded(s.volatileDisk, s4, k) && IsRounded(s.cds, s5, k) && IsRounded(s.user, s6, k)
    ensures Adds(ChainOf(base, s1, s2, s3, s4, s5, s6), s, k)
    ensures s1 + s2 + s3 + s4 + s5 + s6 == s.Required(k)
  {
    SixAdded(ChainOf(base, s1, s2, s3, s4, s5, s6), s, k);
  }

  /** FreeRTOS rounds the six sizes first. */
  method RoundSizes(s: Sizes, k: nat, width: nat, ghost base: nat)
    returns (boot: nat, exceptions: nat, reset: nat, disk: nat, cds: nat, user: nat)
    requires k <= width && s.Total() + (Pow2(k) - 1) < Pow2(width)
    ensures Adds(ChainOf(base, boot, exceptions, reset, disk, cds, user), s, k)
    ensures boot + exceptions + reset + disk + cds + user == s.Required(k)
  {
    boot := Align(s.boot, k, width);
    exceptions := Align(s.exceptions, k, width);
    reset := Align(s.reset, k, width);
    cds := Align(s.cds, k, width);
    disk := Align(s.volatileDisk, k, width);
    user := Align(s.user, k, width);
    ChainOfAdds(base, boot, exceptions, reset, disk, cds, user, s, k);
  }

  /** CFE_PSP_MemoryBlock_t. */
  datatype Block = Block(ptr: nat, size: nat)

  /** CFE_PSP_ReservedMemoryMap, and the whole block it lies in. */
  class ReservedMemoryMap {
    const k: nat
    const width: nat
    var bootPtr: nat
    var exceptionPtr: nat
    var resetMemory: Block
    var volatileDiskMemory: Block
    var cdsMemory: Block
    var userReservedMemory: Block
    var reservedBlock: Block

    constructor (k: nat, width: nat)
      ensures this.k == k && this.width == width
    {
      this.k, this.width := k, width;
      bootPtr, exceptionPtr := 0, 0;
      resetMemory, volatileDiskMemory, cdsMemory := Block(0, 0), Block(0, 0), Block(0, 0);
      userReservedMemory, reservedBlock := Block(0, 0), Block(0, 0);
    }

    /** The start of each block, and where the last one's space ends. */
    ghost function Placed(end: nat): Chain
      reads this
    {
      Chain(bootPtr, exceptionPtr, resetMemory.ptr, volatileDiskMemory.ptr, cdsMemory.ptr, userReservedMemory.ptr, end)
    }

    ghost predicate Records(s: Sizes)
      reads this
    {
      && resetMemory.size == s.reset && volatileDiskMemory.size == s.volatileDisk
      && cdsMemory.size == s.cds && userReservedMemory.size == s.user
    }

    /** MCP750, with no overflow of the address word. */
    method SetupOnMcp750(sysMemTop: nat, s: Sizes)
      requires k <= width && sysMemTop + s.Total() + 6 * (Pow2(k) - 1) < Pow2(width)
      modifies this
      ensures Rounds(Placed(reservedBlock.ptr + reservedBlock.size), s, k)
      ensures Records(s) && bootPtr == reservedBlock.ptr == sysMemTop
    {
      var endAddr := sysMemTop;
      bootPtr := endAddr;
      endAddr := Align(endAddr + s.boot, k, width);
      exceptionPtr := endAddr;
      endAddr := Align(endAddr + s.exceptions, k, width);
      resetMemory := Block(endAddr, s.reset);
      endAddr := Align(endAddr + resetMemory.size, k, width);
      volatileDiskMemory := Block(endAddr, s.volatileDisk);
      endAddr := Align(endAddr + volatileDiskMemory.size, k, width);
      cdsMemory := Block(endAddr, s.cds);
      endAddr := Align(endAddr + cdsMemory.size, k, width);
      userReservedMemory := Block(endAddr, s.user);
      endAddr := Align(endAddr + userReservedMemory.size, k, width);
      reservedBlock := Block(sysMemTop, endAddr - sysMemTop);
    }

    /** FreeRTOS: refused, with nothing assigned, when the required size, as an `unsigned int`,
        exceeds the array. */
    method SetupOnFreeRtos(reserved: nat, reservedSize: nat, s: Sizes) returns (ok: bool, ghost required: nat)
      requires k <= width && s.Total() + 6 * (Pow2(k) - 1) < Pow2(width)
      modifies this
      ensures required == s.Required(k)
      ensures ok <==> Wrap32(required) <= reservedSize
      ensures ok ==> Records(s) && bootPtr == reserved && Adds(Placed(reserved + required), s, k)
      ensures !ok ==> unchanged(this)
    {
      var bootSize, excSize, resetSize, volatileDiskSize, cdsSize, userReservedSize :=
        RoundSizes(s, k, width, reserved);
      var requiredSize := bootSize + excSize + resetSize + volatileDiskSize + cdsSize + userReservedSize;
      required := requiredSize;
      if Wrap32(requiredSize) > reservedSize {
        return false, required;
      }
      var address := reserved;
      bootPtr := address;
      address := address + bootSize;
      exceptionPtr := address;
      address := address + excSize;
      resetMemory := Block(address, s.reset);
      address := address + resetSize;
      volatileDiskMemory := Block(address, s.volatileDisk);
      address := address + volatileDiskSize;
      cdsMemory := Block(address, s.cds);
      address := address + cdsSize;
      userReservedMemory := Block(address, s.user);
      address := address + userReservedSize;
      ok := true;
    }
  }

  /** On the MCP750 the six blocks lie one after the other in the reserved block, aligned but for the
      first, whatever the base. */
  lemma BlocksOnMcp750(c: Chain, s: Sizes, k: nat)
    requires Rounds(c, s, k)
    ensures Stacked(c.Addresses(), s.InOrder())
    ensures forall i :: 1 <= i <= 6 ==> c.Addresses()[i] % Pow2(k) == 0
  {
    SixRounded(c, s, k);
    AddThenRoundStacked(c.a0, s.InOrder(), k);
  }

  /** On FreeRTOS they lie one after the other in the array when the check passes and the required
      size fits in an `unsigned int`, whatever the base. */
  lemma BlocksOnFreeRtos(c: Chain, s: Sizes, k: nat, reservedSize: uint32)
    requires Adds(c, s, k) && s.Required(k) < TWO32 && Wrap32(s.Required(k)) <= reservedSize
    ensures Stacked(c.Addresses(), s.InOrder())
    ensures c.a6 <= c.a0 + reservedSize
  {
    SixAdded(c, s, k);
    CheckPasses(s.Required(k), reservedSize);
    RoundThenAddStacked(c.a0, s.InOrder(), k);
  }

  lemma CheckPasses(required: nat, reservedSize: uint32)
    requires required < TWO32 && Wrap32(required) <= reservedSize
    ensures required <= reservedSize
  {
  }

  /** From the same aligned base both platforms place every block, and the end, at the same address. */
  lemma SameBlocks(mcp: Chain, rtos: Chain, s: Sizes, k: nat)
    requires Rounds(mcp, s, k) && Adds(rtos, s, k) && mcp.a0 == rtos.a0
    ensures mcp == rtos <==> mcp.a0 % Pow2(k) == 0
  {
    SixRounded(mcp, s, k);
    SixAdded(rtos, s, k);
    SameLayoutIffAligned(mcp.a0, s.InOrder(), k);
    SameChain(mcp, rtos);
  }

  lemma SameChain(c: Chain, d: Chain)
    ensures c.Addresses() == d.Addresses() <==> c == d
  {
    if c.Addresses() == d.Addresses() {
      assert c.Addresses()[0] == d.Addresses()[0] && c.Addresses()[1] == d.Addresses()[1];
      assert c.Addresses()[2] == d.Addresses()[2] && c.Addresses()[3] == d.Addresses()[3];
      assert c.Addresses()[4] == d.Addresses()[4] && c.Addresses()[5] == d.Addresses()[5];
      assert c.Addresses()[6] == d.Addresses()[6];
    }
  }

  /** FreeRTOS's check accepts exactly the layouts that fit, unless the required size does not fit in
      an `unsigned int` and wraps below the array's size. */
  lemma CheckExact(required: nat, reservedSize: uint32)
    ensures (Wrap32(required) <= reservedSize <==> required <= reservedSize) <==>
            !(required >= TWO32 && Wrap32(required) <= reservedSize)
  {
  }
}
