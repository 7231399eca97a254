/**
 * The block context of RVJIT, the retargetable JIT of the RVVM RISC-V
 * virtual machine: the growable buffer that collects the host code emitted
 * for one translation block, and the first-fit allocator of host registers
 * kept as a bitmask of free registers.
 */
module Rvjit {

  /** `regid_t`: a register id is one byte. */
  type RegId = bv8
  /** `size_t` of a 64-bit host: the width of `hreg_mask`. */
  type Mask = bv64
  type Byte = bv8

  newtype int32 = x: int | -0x8000_0000 <= x < 0x8000_0000

  /** The register id that means "no register allocated". */
  const RegIll: RegId := 0xFF
  /** Number of RISC-V guest registers; also the number of mask bits the first-fit scan visits. */
  const RegisterCount: RegId := 32
  /** Bits in a mask. */
  const MaskBits: RegId := 64
  /** Capacity added to the code buffer when an append does not fit. */
  const GrowStep: nat := 1024

  /** Terminators a block may end with. */
  const LinkageNone: Byte := 0
  const LinkageTail: Byte := 1
  const LinkageJmp: Byte := 2

  // ---------------------------------------------------------------------------
  // The free-register mask, bit by bit
  // ---------------------------------------------------------------------------

  /** Bit `i` of `m` is set: host register `i` is free. */
  predicate IsSet(m: Mask, i: RegId)
    requires i < MaskBits
  {
    (m >> i) & 1 == 1
  }

  /**
   * The mask that has exactly the bit of host register `h`: that bit is set
   * and the mask is a power of two.
   */
  function HregMask(h: RegId): (r: Mask)
    requires h < MaskBits
    ensures IsSet(r, h) && r & (r - 1) == 0
  {
    1 << h
  }

  /** Register `j`'s bit in a one-bit mask. */
  lemma OneBit(h: RegId, j: RegId)
    requires h < MaskBits && j < MaskBits
    ensures IsSet(HregMask(h), j) == (j == h)
  {
  }

  /** A one-bit mask marks register `h` and no other. */
  lemma HregMaskBits(h: RegId)
    requires h < MaskBits
    ensures forall j: RegId | j < MaskBits :: IsSet(HregMask(h), j) <==> j == h
  {
    forall j: RegId | j < MaskBits
      ensures IsSet(HregMask(h), j) <==> j == h
    {
      OneBit(h, j);
    }
  }

  /** Whether register `h` is free, tested with its one-bit mask as the scan does. */
  function HasHreg(m: Mask, h: RegId): (r: bool)
    requires h < MaskBits
    ensures r == IsSet(m, h)
  {
    m & HregMask(h) != 0
  }

  /** Register `j`'s bit once register `h` is cleared. */
  lemma ClearBit(m: Mask, h: RegId, j: RegId)
    requires h < MaskBits && j < MaskBits
    ensures IsSet(m & !HregMask(h), j) == (IsSet(m, j) && j != h)
  {
  }

  /** Register `j`'s bit once register `h` is set. */
  lemma SetBit(m: Mask, h: RegId, j: RegId)
    requires h < MaskBits && j < MaskBits
    ensures IsSet(m | HregMask(h), j) == (IsSet(m, j) || j == h)
  {
  }

  /** Clearing register `h`'s bit clears that bit and no other. */
  lemma ClearBits(m: Mask, h: RegId)
    requires h < MaskBits
    ensures forall j: RegId | j < MaskBits :: IsSet(m & !HregMask(h), j) == (IsSet(m, j) && j != h)
  {
    forall j: RegId | j < MaskBits
      ensures IsSet(m & !HregMask(h), j) == (IsSet(m, j) && j != h)
    {
      ClearBit(m, h, j);
    }
  }

  /** Setting register `h`'s bit sets that bit and no other. */
  lemma SetBits(m: Mask, h: RegId)
    requires h < MaskBits
    ensures forall j: RegId | j < MaskBits :: IsSet(m | HregMask(h), j) == (IsSet(m, j) || j == h)
  {
    forall j: RegId | j < MaskBits
      ensures IsSet(m | HregMask(h), j) == (IsSet(m, j) || j == h)
    {
      SetBit(m, h, j);
    }
  }

  /** `m` with register `h` taken out of the free set. */
  function Claimed(m: Mask, h: RegId): (r: Mask)
    requires h < MaskBits
    ensures !IsSet(r, h)
    ensures forall j: RegId | j < MaskBits && j != h :: IsSet(r, j) == IsSet(m, j)
  {
    ClearBits(m, h);
    m & !HregMask(h)
  }

  /** `m` with register `h` put back into the free set. */
  function Freed(m: Mask, h: RegId): (r: Mask)
    requires h < MaskBits
    ensures IsSet(r, h)
    ensures forall j: RegId | j < MaskBits && j != h :: IsSet(r, j) == IsSet(m, j)
  {
    SetBits(m, h);
    m | HregMask(h)
  }

  /** Claiming a free register and freeing it again gives back the mask. */
  lemma ClaimFreeRoundTrip(m: Mask, h: RegId)
    requires h < MaskBits && IsSet(m, h)
    ensures Freed(Claimed(m, h), h) == m
  {
  }

  /** Freeing a register twice is the same as freeing it once. */
  lemma FreeIdempotent(m: Mask, h: RegId)
    requires h < MaskBits
    ensures Freed(Freed(m, h), h) == Freed(m, h)
  {
  }

  /** Freeing a register that is already free changes nothing. */
  lemma FreeOfFreeIsNoop(m: Mask, h: RegId)
    requires h < MaskBits && IsSet(m, h)
    ensures Freed(m, h) == m
  {
  }

  // ---------------------------------------------------------------------------
  // The first-fit scan
  // ---------------------------------------------------------------------------

  /**
   * Reference definition of the first-fit scan: the lowest register id in
   * [from, RegisterCount) whose bit is set, or RegIll when there is none.
   */
  function FirstFreeFrom(m: Mask, from: RegId): (r: RegId)
    requires from <= RegisterCount
    ensures r == RegIll || (from <= r < RegisterCount && IsSet(m, r))
    decreases RegisterCount - from
  {
    if from == RegisterCount then RegIll
    else if IsSet(m, from) then from
    else FirstFreeFrom(m, from + 1)
  }

  /** The register the scan picks when it starts from register 0. */
  function FirstFree(m: Mask): (r: RegId)
  {
    FirstFreeFrom(m, 0)
  }

  /** No register between `from` and the scan's answer is free. */
  lemma {:induction false} FirstFreeFromIsLowest(m: Mask, from: RegId, j: RegId)
    requires from <= j < RegisterCount
    requires j < FirstFreeFrom(m, from)
    ensures !IsSet(m, j)
    decreases j - from
  {
    if j != from {
      FirstFreeFromIsLowest(m, from + 1, j);
    }
  }

  /**
   * The scan answers RegIll exactly when none of registers 0..31 is free,
   * and otherwise the lowest free one.
   */
  lemma FirstFreeSpec(m: Mask)
    ensures FirstFree(m) == RegIll <==> forall j: RegId | j < RegisterCount :: !IsSet(m, j)
    ensures FirstFree(m) != RegIll ==>
      FirstFree(m) < RegisterCount && IsSet(m, FirstFree(m)) &&
      forall j: RegId | j < FirstFree(m) :: !IsSet(m, j)
  {
    forall j: RegId | j < RegisterCount && j < FirstFree(m)
      ensures !IsSet(m, j)
    {
      FirstFreeFromIsLowest(m, 0, j);
    }
  }

  /** The scan looks only at registers below `from`'s bound: bits 32..63 never matter. */
  lemma {:induction false} FirstFreeFromIgnoresHighBits(m: Mask, m': Mask, from: RegId)
    requires from <= RegisterCount
    requires forall j: RegId | j < RegisterCount :: IsSet(m, j) == IsSet(m', j)
    ensures FirstFreeFrom(m, from) == FirstFreeFrom(m', from)
    decreases RegisterCount - from
  {
    if from < RegisterCount {
      FirstFreeFromIgnoresHighBits(m, m', from + 1);
    }
  }

  /** Two masks that agree on registers 0..31 make the scan pick the same register. */
  lemma FirstFreeIgnoresHighBits(m: Mask, m': Mask)
    requires forall j: RegId | j < RegisterCount :: IsSet(m, j) == IsSet(m', j)
    ensures FirstFree(m) == FirstFree(m')
  {
    FirstFreeFromIgnoresHighBits(m, m', 0);
  }

  /**
   * A mask whose only free register is number 40 still makes the scan give
   * up: a non-zero mask is not enough for the scan to find a register.
   */
  lemma HighOnlyMaskIsIll()
    ensures HregMask(40) != 0 && FirstFree(HregMask(40)) == RegIll
  {
    HregMaskBits(40);
    FirstFreeSpec(HregMask(40));
  }

  // ---------------------------------------------------------------------------
  // The code buffer's capacity rule
  // ---------------------------------------------------------------------------

  /**
   * The capacity of the code buffer after appending `n` bytes to `size`
   * bytes held in `space`: one grow step when they do not fit.
   */
  function GrownSpace(space: nat, size: nat, n: nat): (r: nat)
    ensures r == space || r == space + GrowStep
    ensures r == space <==> size + n <= space
    ensures size + n <= r <==> size + n <= space + GrowStep
  {
    if space < size + n then space + GrowStep else space
  }

  /**
   * One grow step does not always make room: 1025 bytes appended to an empty
   * buffer of capacity 0 leave it 1024 bytes large, one short of the copy.
   */
  lemma OneGrowStepCanFallShort()
    ensures GrownSpace(0, 0, 1025) == GrowStep && GrownSpace(0, 0, 1025) < 1025
  {
  }

  // ---------------------------------------------------------------------------
  // The block context
  // ---------------------------------------------------------------------------

  /** What the allocator knows of one guest register. */
  datatype RegInfo = RegInfo(lastUsed: nat, auipcOff: int32, hreg: RegId, flags: Byte)

  /** An outgoing link: guest physical target and offset of the site to patch. */
  datatype Link = Link(dest: nat, ptr: nat)

  class Block {
    /** Whether the host is a native 64-bit one (RVJIT_NATIVE_64BIT). */
    const native64: bool

    var links: seq<Link>
    /** The code buffer; `space` bytes are allocated, the first `size` are emitted code. */
    var code: array<Byte>
    var size: nat
    var space: nat
    /** Bitmask of free host registers. */
    var hregMask: Mask
    /** Bitmask of reclaimed ABI-clobbered host registers to restore. */
    var abireclaimMask: Mask
    var regs: seq<RegInfo>
    var virtPc: nat
    var physPc: nat
    var pcOff: int32
    var rv64: bool
    var linkage: Byte

    ghost predicate Valid()
      reads this
    {
      code.Length == space && size <= space && |regs| == RegisterCount as int
    }

    /** The host code emitted so far. */
    ghost function Contents(): seq<Byte>
      reads this, code
      requires Valid()
    {
      code[..size]
    }

    /**
     * A context with an empty code buffer of the given capacity, the given
     * free-register mask and every guest register unmapped.
     */
    constructor (native64: bool, capacity: nat, freeMask: Mask)
      ensures Valid() && fresh(code)
      ensures this.native64 == native64 && Contents() == [] && space == capacity
      ensures hregMask == freeMask
    {
      this.native64 := native64;
      links := [];
      code := new Byte[capacity];
      size := 0;
      space := capacity;
      hregMask := freeMask;
      abireclaimMask := 0;
      regs := seq(RegisterCount as int, _ => RegInfo(0, 0, RegIll, 0));
      virtPc := 0;
      physPc := 0;
      pcOff := 0;
      rv64 := false;
      linkage := LinkageNone;
    }

    /** Sets the guest bitness; a host that is not native 64-bit keeps it 32-bit. */
    method SetRv64(guest64: bool)
      modifies this`rv64
      ensures rv64 == (native64 && guest64)
    {
      if native64 {
        rv64 := guest64;
      } else {
        rv64 := false;
      }
    }

    /** Whether the block has some instructions emitted. */
    function Nonempty(): (r: bool)
      reads this, code
      requires Valid()
      ensures r <==> Contents() != []
    {
      size != 0
    }

    /**
     * Appends `inst` to the code buffer, growing it once by GrowStep when it
     * does not fit. The single grow step is enough only when the bytes fit
     * into the grown buffer, which callers must ensure.
     */
    method PutCode(inst: seq<Byte>)
      requires Valid()
      requires size + |inst| <= space + GrowStep
      modifies this`code, this`size, this`space, code
      ensures Valid()
      ensures code == old(code) || fresh(code)
      ensures space == GrownSpace(old(space), old(size), |inst|)
      ensures size == old(size) + |inst|
      ensures Contents() == old(Contents()) + inst
    {
      ghost var before := Contents();
      if space < size + |inst| {
        space := space + GrowStep;
        var grown := new Byte[space];
        forall i | 0 <= i < code.Length {
          grown[i] := code[i];
        }
        code := grown;
      }
      assert code[..size] == before;
      forall i | 0 <= i < |inst| {
        code[size + i] := inst[i];
      }
      assert code[..size] == before;
      assert code[size..size + |inst|] == inst;
      assert code[..size + |inst|] == code[..size] + code[size..size + |inst|];
      size := size + |inst|;
    }

    /** Marks host register `h` free again. */
    method FreeHreg(h: RegId)
      requires h < MaskBits
      modifies this`hregMask
      ensures hregMask == Freed(old(hregMask), h)
    {
      hregMask := hregMask | HregMask(h);
    }

    /**
     * Claims the lowest free host register among 0..31 and returns it, or
     * returns RegIll and leaves the mask alone when none of them is free.
     */
    method TryClaimHreg() returns (h: RegId)
      modifies this`hregMask
      ensures h == FirstFree(old(hregMask))
      ensures hregMask == if h == RegIll then old(hregMask) else Claimed(old(hregMask), h)
    {
      var i: RegId := 0;
      while i < RegisterCount
        invariant i <= RegisterCount
        invariant hregMask == old(hregMask)
        invariant FirstFreeFrom(hregMask, i) == FirstFree(hregMask)
        decreases RegisterCount - i
      {
        if HasHreg(hregMask, i) {
          hregMask := Claimed(hregMask, i);
          return i;
        }
        i := i + 1;
      }
      return RegIll;
    }

    /**
     * Frees a host register by evicting a guest register's mapping. Only
     * its declaration is part of this model, so all it promises is that the
     * block stays well formed; the register it returns is unconstrained.
     */
    method ReclaimHreg() returns (h: RegId)
      requires Valid()
      modifies this`regs, this`hregMask, this`abireclaimMask, this`code, this`size, this`space, code
      ensures Valid()
      ensures code == old(code) || fresh(code)
    {
      h := *;
    }

    /**
     * Claims a free host register, falling back to reclaiming one only when
     * the first-fit scan finds none free.
     */
    method ClaimHreg() returns (h: RegId)
      requires Valid()
      modifies this`regs, this`hregMask, this`abireclaimMask, this`code, this`size, this`space, code
      ensures Valid()
      ensures code == old(code) || fresh(code)
      ensures FirstFree(old(hregMask)) != RegIll ==>
        h == FirstFree(old(hregMask)) && hregMask == Claimed(old(hregMask), h) &&
        regs == old(regs) && abireclaimMask == old(abireclaimMask) &&
        code == old(code) && size == old(size) && space == old(space) && code[..] == old(code[..])
    {
      h := TryClaimHreg();
      if h == RegIll {
        h := ReclaimHreg();
      }
    }
  }
}
