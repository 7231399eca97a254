# RVJIT block context

A Dafny model of the block context of RVJIT, the retargetable JIT compiler
of the RVVM RISC-V virtual machine (`src/rvjit/rvjit.h`). The block context
(`rvjit_block_t`) is the state one translation block is assembled in. The
model covers the inline operations the header defines on it:

- the allocator of host registers, a 64-bit bitmask `hreg_mask` whose set bits
  are the free host registers: the one-bit mask of a register, the first-fit
  claim over registers 0..31, freeing, and claiming with a fall-back to
  reclaiming;
- the growable code buffer that collects emitted host code (`code`, `size`,
  `space`), with its single 1024-byte grow step;
- the two accessors `rvjit_block_nonempty` and `rvjit_set_rv64`.

Everything lives in one module, `Rvjit` (`rvjit.dfy`). The context is the
class `Rvjit.Block`, which has all fields of `rvjit_block_t` but `heap`; the code
buffer is an `array` of bytes that `PutCode` replaces when it grows. The
methods that change the context are proved against pure functions on the
mask (`Claimed`, `Freed`, `FirstFreeFrom`) and the ghost view
`Block.Contents()` of the emitted bytes, and the properties of those
functions are proved as lemmas. Masks are `bv64` (a `size_t` on a 64-bit
host) and register ids `bv8` (`regid_t`); the bit of register `i` is read
through `IsSet`, which is defined by shifting right, independently of the
`1 << h` that builds a one-bit mask.

The compile-time switch `RVJIT_NATIVE_64BIT` is the constant field
`Block.native64`, fixed when a context is created. The constructor is a
modelling device: it makes a context with an empty buffer of a given
capacity and a given free-register mask.

Two consequences of the code are worth stating:

- `rvjit_put_code` grows `space` by exactly 1024 bytes, and only once, so the
  bytes fit only when `size + n <= space + 1024`. `PutCode` requires that;
  `GrownSpace` states that this is exactly when the grown buffer holds them,
  and `OneGrowStepCanFallShort` exhibits an append the single step does not
  cover.
- The scan in `rvjit_try_claim_hreg` visits only bits 0..31 of the 64-bit
  mask, so a mask whose only set bits are among 32..63 also gives `REG_ILL`
  (`HighOnlyMaskIsIll`, `FirstFreeIgnoresHighBits`).

## Model

| member | source | states |
|---|---|---|
| `Rvjit.HregMask` | src/rvjit/rvjit.h:191-194 | the mask of register `h` has bit `h` set and is a power of two, so it has no other bit |
| `Rvjit.HregMaskBits` | src/rvjit/rvjit.h:191-194 | for every register `j` below 64, bit `j` of the mask of `h` is set exactly when `j == h` |
| `Rvjit.HasHreg` | src/rvjit/rvjit.h:215 | testing `mask & hreg_mask(h)` against zero answers exactly whether bit `h` is set |
| `Rvjit.Claimed` | src/rvjit/rvjit.h:216 | clearing register `h` leaves bit `h` clear and every other bit as it was |
| `Rvjit.Freed` | src/rvjit/rvjit.h:207-210 | freeing register `h` leaves bit `h` set and every other bit as it was |
| `Rvjit.ClaimFreeRoundTrip` | src/rvjit/rvjit.h:207-221 | claiming a free register and then freeing it gives back the original mask |
| `Rvjit.FreeIdempotent` | src/rvjit/rvjit.h:207-210 | freeing a register twice gives the same mask as freeing it once |
| `Rvjit.FreeOfFreeIsNoop` | src/rvjit/rvjit.h:207-210 | freeing a register that is already free leaves the mask unchanged |
| `Rvjit.FirstFreeFrom` | src/rvjit/rvjit.h:214-220 | the scan from `from` answers `REG_ILL` or a register in `[from, 32)` whose bit is set |
| `Rvjit.FirstFreeFromIsLowest` | src/rvjit/rvjit.h:214-218 | no register between the scan's start and its answer is free |
| `Rvjit.FirstFreeSpec` | src/rvjit/rvjit.h:212-221 | the scan answers `REG_ILL` if and only if registers 0..31 are all taken; otherwise it answers the lowest free register |
| `Rvjit.FirstFreeIgnoresHighBits` | src/rvjit/rvjit.h:214 | two masks that agree on bits 0..31 give the same answer: bits 32..63 are never looked at |
| `Rvjit.HighOnlyMaskIsIll` | src/rvjit/rvjit.h:214-220 | a non-zero mask whose only free register is 40 still gives `REG_ILL` |
| `Rvjit.GrownSpace` | src/rvjit/rvjit.h:198-201 | the capacity after an append is the old one plus 1024 exactly when the bytes did not fit, and it holds the bytes if and only if `size + n <= space + 1024` |
| `Rvjit.OneGrowStepCanFallShort` | src/rvjit/rvjit.h:198-202 | appending 1025 bytes to an empty buffer of capacity 0 grows it to 1024 bytes, fewer than the bytes copied |
| `Rvjit.Block.SetRv64` | src/rvjit/rvjit.h:151-159 | `rv64` becomes the argument on a native 64-bit host and `false` otherwise; no other field changes |
| `Rvjit.Block.Nonempty` | src/rvjit/rvjit.h:165-168 | true exactly when some code has been emitted into the block |
| `Rvjit.Block.PutCode` | src/rvjit/rvjit.h:196-204 | the emitted code becomes the old code followed by the new bytes, `size` grows by their count, capacity follows `GrownSpace`; requires `size + n <= space + 1024` and keeps `size <= space` |
| `Rvjit.Block.FreeHreg` | src/rvjit/rvjit.h:207-210 | the mask becomes `Freed` of the old mask; nothing else changes |
| `Rvjit.Block.TryClaimHreg` | src/rvjit/rvjit.h:212-221 | returns the first-fit answer on the old mask; when it is a register, exactly that bit is cleared, and when it is `REG_ILL` the mask is unchanged; nothing else changes |
| `Rvjit.Block.ReclaimHreg` | src/rvjit/rvjit.h:189 | returns some register id, keeps the block well formed and leaves `code` the old buffer or a fresh one; nothing more is known of it |
| `Rvjit.Block.ClaimHreg` | src/rvjit/rvjit.h:224-232 | when the first-fit scan finds a free register, returns it with exactly its bit cleared and no reclaim side effect on the descriptors or the code buffer; only otherwise may the block change as a reclaim allows, with `code` still the old buffer or a fresh one |

## Left out

- Host and ABI selection (`rvjit.h` lines 35-89): only `RVJIT_NATIVE_64BIT` is kept, as `Block.native64`.
- `rvjit_ctx_init`, `rvjit_ctx_free`, `rvjit_block_init`, `rvjit_block_finalize`, `rvjit_block_lookup`, `rvjit_init_memtracking`, `rvjit_mark_dirty_mem`, `rvjit_flush_cache`, `rvjit_emit_init`, `rvjit_emit_end`: only declared in this header; their bodies are not part of this model.
- `Rvjit.Block.ReclaimHreg`: `rvjit_reclaim_hreg` is only declared, so its result is unconstrained and its effect is limited by its frame (descriptors, both masks, the code buffer), by keeping the block well formed, and by `code` staying the old buffer or becoming a fresh one, as a spill through `rvjit_put_code` would; the LRU choice and the spill it performs are not modelled.
- `Rvjit.Block.ClaimHreg`: that `rvjit_claim_hreg` never returns `REG_ILL` depends on the body of `rvjit_reclaim_hreg`, which is not modelled, so it is not stated.
- `Rvjit.Block.PutCode`: appends with `size + n > space + 1024` are excluded by its requires, because `rvjit_put_code` (rvjit.h:198-202) grows the buffer only once and its `memcpy` then writes past the end of the reallocated buffer; that overrun is not modelled.
- The heap (`rvjit_heap_t`: hashmaps, executable memory, dirty-page bitmap) and the outgoing-link vector: foreign containers and raw executable memory; `links` is kept only as a field.
- `safe_realloc` and `memcpy` are modelled as allocating a larger array and copying bytes; allocation failure (which aborts in the source) is not modelled.
- `rvjit_func_t` (running generated code) is not modelled.
- Widths: `size` and `space` are unbounded naturals, so a `size_t` overflow of `size + n` is not modelled; masks are 64 bits wide, as `size_t` is on the 64-bit hosts, and the 32-bit-host mask width is not modelled.
- `Rvjit.Block.FreeHreg` requires a register below 64: shifting `1ULL` by 64 or more, as freeing `REG_ILL` would, is undefined in C.
