# NEMU: verified model

NEMU is an emulator of an IA-32 machine, with a small guest kernel, a guest game and test programs.
This project models its hardest parts in Dafny and proves what they promise, for every input, every
reachable state and every interleaving, and says exactly where the code departs from the promise.

- **Software floating point** (`Powers`, `Binary32`, `Rounding`, `Ieee754`, `FpuNormalize`, `FpuAdd`,
  `FpuAddLaws`, `FpuMul`, `FpuDiv`, `FpuDeviations`). Binary32 addition, subtraction, multiplication and
  division on raw bits, against an independent specification: magnitudes are integers in units of 2^-149
  (products in units of 2^-298, quotients as ratios), and rounding is the nearest float of IEEE 754-2008
  section 4.3.1, ties to even. Each operation conforms if and only if a condition on its operands holds.
- **Integer arithmetic** (`AluSpec`, `AluShiftSpec`, `Alu`, `AluChains`). Results and flags of add, adc, sub,
  sbb and the shifts, chains of any number of limbs on the processor's own state, and the meaning of the branch
  conditions.
- **Memory** (`Bytes`, `Cache`, `Paging`, `Isolation`). Physical memory as bytes behind a write-through cache
  that is proved transparent; the two-level walk as a function of those bytes (80386 Programmer's Reference
  Manual section 5.2); accesses that cross pages.
- **The kernel's page tables** (`KernelPaging`). `init_page`, `init_mm` and `create_video_mapping` run as
  stores on the emulated machine, first untranslated, then through the tables they built themselves.
- **Pooled lists** (`Lists`, `BreakpointSpec`, `Breakpoint`, `LinkList`, `Effect`, `MainLoop`). The debugger's
  breakpoints, which also patch guest memory, and the game's falling letters with its main loop. Pointers into a
  static pool are indices.
- **Interrupts** (`Pic`, `Idt`, `Segment`, `Interrupt`, `KernelInterrupts`). The latch and pin shared by device
  threads and processor as interleaved steps; gate and segment descriptors, entering a handler and returning from
  it (80386 Programmer's Reference Manual sections 5.1.3, 9.5 and 9.6.1); and the booted kernel, whose descriptor
  tables are stored through its own page tables and used through them.
- **Quick sort** (`QuickSort`), for any range of any array.

`dafny verify dfyconfig.toml` checks everything.

## Where the code departs from its promise

- Rounding up from the largest subnormal yields zero, because the test for a carry compares with 1 and the
  exponent stays 0 (`pa_nju/nemu/src/cpu/fpu.c:122`). Sums never get there; products and quotients do.
- A product whose effective exponents sum to 147 and whose significand is below 2^27 is never right: twice the
  exact product is rounded, or, where that rounding loses its carry, the result is zero.
- `internal_normalize` keeps the low eight bits of an exponent beyond 254 when no shift to the right is needed;
  the arithmetic routines never call it so.
- Division keeps no sticky bit of the remainder: the result is one place low exactly when the truncated
  quotient sits on a midpoint above an even float.
- NaNs other than 0x7fc00000 and 0xffc00000 are taken for numbers by multiplication and division, and by
  addition to an infinity.
- `alu_sal` fills with ones when the count exceeds the width of a negative operand; a left shift by 0 changes flags.
- The zero flag after a chain of `sbb` speaks of the top limb only: it is set exactly when the difference modulo
  B^n is below B^(n-1), so it decides equality exactly for equal numbers and for differences of B^(n-1) or more.
- `create_video_mapping` makes physical frame 0 the page table of the user's low 4 MB: only the screen is mapped
  there if and only if frame 0 held no other present entry before the call. An ELF image loaded at address 0, as on
  a machine without a disk, is one that does.
- With two breakpoints on one address, `delete_all_breakpoint` leaves the trap in memory; deleting the older
  one alone exposes the byte while the newer is live.
- A breakpoint set where memory shows a trap records the trap, and one under which the guest stores keeps the old
  byte. Nothing is wrong in memory yet, but a later deletion shows it: memory stays the guest's, traps apart, at
  every moment and under every continuation by the monitor, if and only if breakpoints are set only where memory
  shows the guest's byte and stores change no byte under a live one.
- An acknowledgement forgets every pending request, whichever was taken: nothing is lost if and only if the request
  taken is the only one latched when the latch is cleared.
- The assertion in `do_intr` cannot fail if and only if no device uses request number 223, and the latch names the
  highest request if and only if all numbers are below 223.

## Model
| member | source | states |
|---|---|---|
| Rounding.RoundIsNearest | pa_nju/nemu/src/cpu/fpu.c:110-157 | the specification function RoundNE meets the words of IEEE 754 section 4.3.1 against every finite float: nearest, even on a tie, infinity from the overflow bound |
| Rounding.NearestIsUnique | pa_nju/nemu/src/cpu/fpu.c:110-157 | no other pattern meets those words, so conforming to RoundNE is conforming to the standard |
| Rounding.RoundMono | pa_nju/nemu/src/cpu/fpu.c:110-157 | rounding never reorders two rational values |
| Rounding.MidpointRoundsToEven | pa_nju/nemu/src/cpu/fpu.c:134-152 | halfway between two neighbouring floats the one whose last bit is 0 is taken |
| Binary32.MagOfFields | pa_nju/nemu/src/cpu/fpu.c:190-212 | section 3.4: the value of an encoding from sign, exponent and fraction fields, subnormals included |
| Binary32.ValueOfBits | pa_nju/nemu/src/cpu/fpu.c:206-212 | the value of any finite 32-bit pattern from bit 31, bits 30 to 23 and bits 22 to 0 |
| Binary32.InfinityAt | pa_nju/nemu/src/cpu/fpu.c:42-49 | the pattern 0x7f800000 stands where 2^128 would be |
| FpuNormalize.JamOrder | pa_nju/nemu/src/cpu/fpu.c:24-40 | shifting right with a sticky bit keeps the order against, and equality with, every even multiple of the new unit, for any distance |
| FpuNormalize.GrsDecides | pa_nju/nemu/src/cpu/fpu.c:110-126 | guard, round and sticky bits of the jammed significand decide exactly the ties-to-even rounding of the original value |
| FpuNormalize.NormalizedIsRounding | pa_nju/nemu/src/cpu/fpu.c:13-164 | the computed pattern is the correct rounding if and only if the value does not lie in [2^-126 - 2^-150, 2^-126), where the carry out of the subnormals is lost |
| FpuNormalize.RoundOff | pa_nju/nemu/src/cpu/fpu.c:110-164 | dropping the three extra bits: nearest even, carry into the exponent, overflow to infinity, lost carry at exponent 0 |
| FpuNormalize.ShiftRight | pa_nju/nemu/src/cpu/fpu.c:24-40 | the right-shift loop ends with the jammed significand and the exponent counted up by the same number |
| FpuNormalize.ShiftLeft | pa_nju/nemu/src/cpu/fpu.c:79-89 | the left-shift loop ends with the leading bit in place or exponent 0, value unchanged |
| FpuNormalize.InternalNormalize | pa_nju/nemu/src/cpu/fpu.c:13-164 | for every exponent and every 64-bit significand: the rounding of sig * 2^(exp - 153), lost carry apart, unless a value of 2^128 or more comes with an exponent of 255 or more and a significand below 2^27; then the justified exponent is cut to eight bits; it terminates |
| FpuNormalize.WrappedIsWrong | pa_nju/nemu/src/cpu/fpu.c:160-163 | such a value must round to infinity, and does so exactly by a rounding carry or when the cut exponent is 255 with an empty fraction |
| Ieee754.FindCorner | pa_nju/nemu/src/cpu/fpu.c:183-190 | index of the first table rule for the operand pair, or the table's length |
| FpuAdd.AlignedSumBrackets | pa_nju/nemu/src/cpu/fpu.c:214-263 | the sum of the aligned significands is the exact sum, or has lost bits and is odd beside it: three extra bits suffice at any distance |
| FpuAdd.AlignedSumRounds | pa_nju/nemu/src/cpu/fpu.c:214-276 | rounding the aligned sum is rounding the exact sum |
| FpuAdd.ShiftSignificand | pa_nju/nemu/src/cpu/fpu.c:241-251 | the alignment loop computes the jammed significand |
| FpuAdd.AddSigned | pa_nju/nemu/src/cpu/fpu.c:253-273 | two's complement addition in 32 bits and the split into sign and magnitude |
| FpuAdd.AddFinite | pa_nju/nemu/src/cpu/fpu.c:200-276 | any two finite operands: the correctly rounded exact sum, +0 on total cancellation |
| FpuAdd.InternalFloatAdd | pa_nju/nemu/src/cpu/fpu.c:166-277 | for all 2^64 operand pairs the sum is what IEEE 754 asks for, if and only if the operands are not an infinity with a NaN outside the two the tables know; and bit by bit for NaNs, infinities and zeros: opposite infinities give 0xffc00000, a single known NaN is passed on, two give 0x7fc00000 if either is it, -0 comes only from -0 + -0 |
| FpuAdd.InternalFloatSub | pa_nju/nemu/src/cpu/fpu.c:279-308 | the same for a - b, known NaNs keeping their sign, equal infinities giving 0xffc00000 |
| FpuAddLaws.AdditionCommutes | pa_nju/nemu/src/cpu/fpu.c:166-277 | whatever conforming results of a + b and b + a are, for finite operands they are the same bit pattern |
| FpuAddLaws.SumMonotone | pa_nju/nemu/src/cpu/fpu.c:181-277 | the sum is monotone in an argument, across zero and up to the infinities |
| FpuAddLaws.DifferenceIsZero | pa_nju/nemu/src/cpu/fpu.c:291-308 | a difference of finite floats is zero exactly when they are equal, and then +0 |
| FpuAddLaws.NearbyDifferenceIsExact | pa_nju/nemu/src/cpu/fpu.c:291-308 | between half and twice each other, positive floats subtract without rounding error |
| FpuMul.UnambiguousProduct | pa_nju/nemu/src/cpu/fpu.c:322-400 | outside the ambiguous exponent the computed product rounds the exact one, carry loss apart |
| FpuMul.AmbiguousProduct | pa_nju/nemu/src/cpu/fpu.c:386-400 | exponent 0 meant literally but read as 1: the result is the rounding of twice the exact product, or zero where that loses its carry, and never the right one |
| FpuMul.FiniteProduct | pa_nju/nemu/src/cpu/fpu.c:322-400 | for finite nonzero operands the result is right if and only if the exponent is unambiguous and no carry is lost |
| FpuMul.InternalFloatMul | pa_nju/nemu/src/cpu/fpu.c:310-400 | for all operand pairs the product conforms if and only if none of the named deviations applies; on finite nonzero operands, deviating or not, it is the computed product of UnambiguousProduct and AmbiguousProduct; zero times infinity is 0xffc00000, known NaNs give a known NaN, 0x7fc00000 if either is it, and every other result is negative exactly for opposite signs |
| FpuDiv.FloorRoundsInRange | pa_nju/nemu/src/cpu/fpu.c:462-481 | the 64-bit quotient, floored, rounds like the exact one unless it sits on a midpoint above an even float with a remainder left |
| FpuDiv.JustifyLeft | pa_nju/nemu/src/cpu/fpu.c:462-467 | the loop sets bit 63 of the dividend and counts the shifts |
| FpuDiv.StripTwos | pa_nju/nemu/src/cpu/fpu.c:468-472 | the loop leaves the odd part of the divisor and counts the factors of two |
| FpuDiv.FiniteQuotient | pa_nju/nemu/src/cpu/fpu.c:417-482 | for finite nonzero operands the quotient is right if and only if no sticky bit and no carry is lost |
| FpuDiv.InternalFloatDiv | pa_nju/nemu/src/cpu/fpu.c:402-482 | for all operand pairs the quotient conforms if and only if none of the named deviations applies; on finite nonzero operands it is the computed quotient of FiniteQuotient; 0 / 0 and inf / inf are 0xffc00000, NaNs and signs as in a product; it terminates |
| FpuDeviations.StickyCostsOneUlp | pa_nju/nemu/src/cpu/fpu.c:462-481 | a division that loses its sticky bit returns the float just below the right one, the exact value lying within 2^-16 of a gap above the midpoint |
| FpuDeviations.DivisionErrorBound | pa_nju/nemu/src/cpu/fpu.c:402-482 | a finite result of internal_float_div is within 1/2 + 2^-16 units in the last place of the exact quotient, unless the carry is lost |
| FpuDeviations.DivisionCarryLost | pa_nju/nemu/src/cpu/fpu.c:402-482 | where the carry is lost the result is a zero of the right sign and the right result is 2^-126 |
| FpuDeviations.RepresentableQuotientIsExact | pa_nju/nemu/src/cpu/fpu.c:417-482 | a quotient that is a float is returned exactly |
| FpuDeviations.LostCarryProductIsZero | pa_nju/nemu/src/cpu/fpu.c:119-126 | a product that loses its carry comes out as zero instead of 2^-126 |
| FpuDeviations.LostCarryQuotientIsZero | pa_nju/nemu/src/cpu/fpu.c:119-126 | so does a quotient |
| FpuDeviations.CarryLostExample | pa_nju/nemu/src/cpu/fpu.c:119-126 | 0x00ffffff times 0.5 comes out as zero |
| FpuDeviations.QuotientCarryExample | pa_nju/nemu/src/cpu/fpu.c:119-126 | 0x00ffffff divided by 2 comes out as zero where 2^-126 is right |
| FpuDeviations.AmbiguousExponentExample | pa_nju/nemu/src/cpu/fpu.c:386-397 | 0x00000001 times 0x49000000 comes out as 0x00100000 where 0x00080000 is right |
| FpuDeviations.AmbiguousCarryExample | pa_nju/nemu/src/cpu/fpu.c:386-397 | 0x00000004 times 0x497fffff comes out as 0 where 0x00400000 is right |
| FpuDeviations.StickyLostExample | pa_nju/nemu/src/cpu/fpu.c:462-481 | 1 / (2 - 2^-23) comes out as 0x3f000000 where 0x3f000001 is right |
| FpuDeviations.UnknownNaNExample | pa_nju/nemu/src/cpu/fpu.c:166-198 | with the NaN 0x7fa00000, infinity plus it, 1 times it and 1 divided by it all deviate |
| AluSpec.SumFlags | pa_nju/nemu/src/cpu/alu.c:4-31 | carry and signed overflow of a wrapped sum, recovered from operands and result |
| AluSpec.DifferenceFlags | pa_nju/nemu/src/cpu/alu.c:33-67 | borrow and signed overflow of a wrapped difference |
| AluSpec.AddedMeans | pa_nju/nemu/src/cpu/alu.c:4-127 | the result and five flags of d + s + c from the operands: CF from 2^w on, ZF exactly for 0 and 2^w, SF the top bit, OF outside the signed range |
| AluSpec.SubtractedMeans | pa_nju/nemu/src/cpu/alu.c:33-156 | likewise of d - s - c: CF below 0, ZF exactly for 0 and -2^w |
| AluSpec.ParityFlips | pa_nju/nemu/src/cpu/alu.c:69-81 | zero has even parity, setting any of the low eight bits flips it, bits above do not matter |
| Alu.CpuState.SetCFAdc | pa_nju/nemu/src/cpu/alu.c:15-31 | given the wrapped sum, CF is set exactly if the sum of both operands and the old carry reaches 2^w |
| Alu.CpuState.SetCFSbb | pa_nju/nemu/src/cpu/alu.c:43-67 | given the wrapped difference, CF is set exactly if the first operand minus the second minus the old carry is negative |
| Alu.CpuState.SetPF | pa_nju/nemu/src/cpu/alu.c:69-81 | parity of the low eight bits, by the counting loop |
| Alu.CpuState.SetOFAdx | pa_nju/nemu/src/cpu/alu.c:101-127 | given the wrapped sum with carry in, OF is set exactly if the signed sum is out of range |
| Alu.CpuState.SetOFSux | pa_nju/nemu/src/cpu/alu.c:129-156 | given the wrapped difference with borrow in, OF is set exactly if the signed difference is out of range |
| Alu.CpuState.AluAdd | pa_nju/nemu/src/cpu/alu.c:164-189 | result and all five flags of an addition in 8, 16 or 32 bits, for every operand; ZF exactly for result 0 |
| Alu.CpuState.AluAdc | pa_nju/nemu/src/cpu/alu.c:191-211 | the same with the carry flag added |
| Alu.CpuState.AluSub | pa_nju/nemu/src/cpu/alu.c:217-249 | result and flags of a subtraction |
| Alu.CpuState.AluSbb | pa_nju/nemu/src/cpu/alu.c:251-273 | the same with the carry flag subtracted |
| AluShiftSpec.ShlResult | pa_nju/nemu/src/cpu/alu.c:709-779 | closed form of shifting left place by place, for every count but 0 and 32 at width 32: result, CF, ZF, SF, PF |
| AluShiftSpec.SarResult | pa_nju/nemu/src/cpu/alu.c:924-1000 | closed form of arithmetic shifting right place by place, for the same counts |
| Alu.CpuState.AluShl | pa_nju/nemu/src/cpu/alu.c:709-779 | every count but 0, and 32 at width 32, is that many one-bit shifts in result and flags; a count of 0 keeps the operand and sets CF to the bit above it |
| Alu.CpuState.AluSal | pa_nju/nemu/src/cpu/alu.c:783-868 | the same if and only if the count does not exceed the width of a negative operand; there every bit becomes one |
| Alu.CpuState.AluShr | pa_nju/nemu/src/cpu/alu.c:870-922 | every count but 0 and 32 at width 32 is that many one-bit shifts |
| Alu.CpuState.AluSar | pa_nju/nemu/src/cpu/alu.c:924-1000 | every count but 0 and 32 at width 32 is that many one-bit shifts, sign kept |
| AluChains.ConditionsCompare | pa_nju/nemu/include/cpu/instr_helper.h:176-225 | after comparing two operands e, ne, a, ae, b, be, g, ge, l, le mean what their names say |
| AluChains.AddChainIsSum | pa_nju/nemu/src/cpu/alu.c:164-211 | add then adc over any number of limbs is addition modulo 2^(w*n); the last CF is the carry out |
| AluChains.AddChainIsSignedSum | pa_nju/nemu/src/cpu/alu.c:101-127 | the last OF is signed overflow of the whole sum |
| AluChains.SubChainIsDifference | pa_nju/nemu/src/cpu/alu.c:217-273 | sub then sbb over any number of limbs is subtraction modulo 2^(w*n); the last CF decides the unsigned order |
| AluChains.SubChainIsSignedDifference | pa_nju/nemu/src/cpu/alu.c:129-156 | the last SF and OF decide the signed order of the whole numbers |
| AluChains.SubChainCompares | pa_nju/nemu/include/cpu/instr_helper.h:176-225 | b and ae decide the unsigned, l and ge the signed order after a multi-limb comparison |
| AluChains.ZeroFlagAfterChain | pa_nju/nemu/include/cpu/instr_helper.h:176-178 | after a chain of n limbs of base B, e holds exactly if the difference modulo B^n is below B^(n-1); it decides equality exactly for equal numbers and for differences of B^(n-1) or more |
| AluChains.LowLimbMissed | pa_nju/nemu/include/cpu/instr_helper.h:176-178 | 1 + B and B compare as equal, B and 1 + B do not |
| AluChains.ZeroFlagAfterSum | pa_nju/nemu/include/cpu/instr_helper.h:176-178 | after adding n limbs of base B, e holds exactly if the sum modulo B^n is below B^(n-1) |
| AluChains.AddLimbs | pa_nju/nemu/src/cpu/alu.c:164-211 | add and adc over limbs on the processor's state: the number, its carry in CF, and signed overflow in OF |
| AluChains.SubtractLimbs | pa_nju/nemu/src/cpu/alu.c:217-273 | sub and sbb over limbs on the processor's state: b and l decide the unsigned and the signed order of the numbers |
| Bytes.ReadStored | pa_nju/nemu/src/memory/memory.c:15-25 | what was stored is read back, truncated to the length |
| Cache.HitReads | pa_nju/nemu/src/memory/mmu/cache.c:75-168 | a line that caches an address answers for memory |
| Cache.FillKeepsCoherence | pa_nju/nemu/src/memory/mmu/cache.c:131-168 | loading a missing block keeps every valid line equal to memory and no block cached twice |
| Cache.HitWriteKeepsCoherence | pa_nju/nemu/src/memory/mmu/cache.c:170-212 | writing through on a hit keeps the cache coherent |
| Cache.MissWriteKeepsCoherence | pa_nju/nemu/src/memory/mmu/cache.c:170-212 | writing past the cache on a miss touches no cached block |
| Cache.PhysicalMemory.InitCache | pa_nju/nemu/src/memory/mmu/cache.c:19-33 | an empty cache is coherent with any memory |
| Cache.PhysicalMemory.CheckCache | pa_nju/nemu/src/memory/mmu/cache.c:38-53 | the line of the group that caches the address, or -1 when none does |
| Cache.PhysicalMemory.FindEmptyLine | pa_nju/nemu/src/memory/mmu/cache.c:58-72 | an invalid line of the group, or -1 when the group is full |
| Cache.PhysicalMemory.ReadMiss | pa_nju/nemu/src/memory/mmu/cache.c:131-162 | memory is read, and exactly one line of the group is replaced, a valid one only in a full group |
| Cache.PhysicalMemory.CacheRead | pa_nju/nemu/src/memory/mmu/cache.c:75-168 | in every coherent state the cached read returns what memory holds, blocks crossed or not |
| Cache.PhysicalMemory.CacheWrite | pa_nju/nemu/src/memory/mmu/cache.c:170-212 | memory changes by exactly the bytes written and the cache follows |
| Paging.WalkWithinPage | pa_nju/nemu/src/memory/mmu/page.c:5-40 | translation keeps offsets within a page |
| Paging.WalkOfEntries | pa_nju/nemu/src/memory/mmu/page.c:12-35 | for any flag bits: two entries naming a table and a frame lead to the frame exactly if both have bit 0 set |
| Paging.WalkDependsOn | pa_nju/nemu/src/memory/mmu/page.c:12-35 | a translation depends on the two entries it consults and on nothing else |
| Paging.CrossingArithmetic | pa_nju/nemu/src/memory/memory.c:92-96 | the emulator's test recognises exactly the accesses that touch two pages, and splits them at the boundary, at 2^32 too |
| Paging.ScatterAt | pa_nju/nemu/src/memory/memory.c:119-146 | bytes stored at distinct places: each place holds its byte, nothing else changes |
| Paging.ReadBack | pa_nju/nemu/src/memory/memory.c:87-146 | a gather after a scatter to distinct places gives the truncated data |
| Paging.WriteThenRead | pa_nju/nemu/src/memory/memory.c:87-146 | a linear write then read gives the truncated data and changes no other byte, if the bytes are translated apart and off the tables that translate them |
| Paging.Mmu.PageTranslate | pa_nju/nemu/src/memory/mmu/page.c:5-40 | the two reads through the cache compute the two-level walk over the bytes of memory |
| Paging.Mmu.LaddrRead | pa_nju/nemu/src/memory/memory.c:87-117 | a read of 1, 2 or 4 bytes is the little-endian combination of its separately translated bytes, page-crossing or not |
| Paging.Mmu.LaddrWrite | pa_nju/nemu/src/memory/memory.c:119-146 | a write puts each byte at its own translated place and changes nothing else |
| KernelPaging.KernelWalk | pa_nju/kernel/src/memory/kvm.c:12-40 | through the kernel's tables va means va below 128 MB, va - 0xC0000000 in the 128 MB above 0xC0000000, and nothing anywhere else |
| KernelPaging.KernelEntries | pa_nju/kernel/src/memory/kvm.c:24-35 | every entry of the kernel's directory and tables: the frame's address plus 7, or 0 |
| KernelPaging.UserWalk | pa_nju/kernel/src/memory/mm.c:29-34 | through a directory that shares the kernel's entries and has no others, only the upper range is mapped |
| KernelPaging.Kernel.InitPage | pa_nju/kernel/src/memory/kvm.c:12-46 | executed on the emulator, the nested loops leave tables through which every linear address means what KernelWalk says; no other byte changes |
| KernelPaging.Kernel.InitMm | pa_nju/kernel/src/memory/mm.c:25-37 | the user directory maps the upper range like the kernel and nothing else; the kernel's own tables stay; ucr3 names the directory |
| KernelPaging.Kernel.CreateVideoMapping | pa_nju/kernel/src/memory/vmem.c:11-43 | the user sees [0xa0000, 0xa0000 + 64000) at its own address; every other low address goes where the old frame 0, read as a page table, sends it, and nowhere if and only if frame 0 held no other present entry; every walk that does not consult the entries written stays as it was |
| KernelPaging.OnlyTheScreen | pa_nju/kernel/src/memory/vmem.c:28-32 | no low address outside the screen is mapped exactly if frame 0 holds no present entry outside the screen's |
| KernelPaging.ElfImageIsMapped | pa_nju/nemu/src/main.c:66-72 | with a 32-bit ELF image at physical address 0 the user's first page is mapped outside memory and the second to 0x10000 |
| KernelPaging.LowWalk | pa_nju/kernel/src/memory/vmem.c:28-32 | frame 0 becomes the page table of the low 4 MB, so whatever it holds there counts |
| KernelPaging.Kernel.SetUpAll | pa_nju/kernel/src/main.c:22-90 | the three set-ups in boot order: kernel map, user map above 4 MB, screen, and what frame 0 held before for every other low address |
| BreakpointSpec.MaskRestores | pa_nju/nemu/src/monitor/breakpoint.c:182-193 | masking shows the guest's memory, even with several breakpoints on one address |
| BreakpointSpec.ResumePatches | pa_nju/nemu/src/monitor/breakpoint.c:168-180 | resuming patches whatever memory has become |
| BreakpointSpec.RecordedAfter | pa_nju/nemu/src/monitor/breakpoint.c:168-193 | what the entries hold stays true after guest stores exactly if no byte under a breakpoint changed |
| BreakpointSpec.DeleteKeepsOverlay | pa_nju/nemu/src/monitor/breakpoint.c:86-112 | deleting an entry leaves the others patched if and only if it held a trap or had its address alone |
| BreakpointSpec.DeleteAllRestores | pa_nju/nemu/src/monitor/breakpoint.c:114-128 | deleting all entries, oldest first, gives the guest's memory back if and only if no byte other than a trap was recorded under two entries |
| BreakpointSpec.TrapLeftBehind | pa_nju/nemu/src/monitor/breakpoint.c:114-128 | two breakpoints on one address: the trap stays behind after deleting all |
| BreakpointSpec.OlderDeletedAlone | pa_nju/nemu/src/monitor/breakpoint.c:86-112 | two breakpoints on one address: deleting the older shows the guest's byte while the newer is still live |
| BreakpointSpec.StepSound | pa_nju/nemu/src/monitor/breakpoint.c:51-193 | from a state whose memory shows the guest's bytes, traps apart, and whose entries hold them, a command leads to such a state if and only if it sets no breakpoint where memory differs from the guest's and stores no new byte under one |
| BreakpointSpec.WrongByteShows | pa_nju/nemu/src/monitor/breakpoint.c:86-112 | if any entry holds a wrong byte, some sequence of deletions leaves a byte in memory that is neither the guest's nor a live trap |
| BreakpointSpec.SafeIsSound | pa_nju/nemu/src/monitor/breakpoint.c:86-193 | memory shows the guest's bytes under every continuation of deleting, masking, resuming and stopping if and only if it does so now and every entry holds the guest's byte |
| BreakpointSpec.SessionIsSafe | pa_nju/nemu/src/cpu/cpu.c:48-95 | throughout a session of setting, deleting, stops at traps, masking, resuming and guest stores memory is safe in that sense if and only if every command is clean when it comes |
| BreakpointSpec.SessionEnds | pa_nju/nemu/src/monitor/breakpoint.c:114-193 | after any such session deleting all and masking each give the guest's memory, its stores included, and resuming puts 0xF1 at exactly the live addresses |
| BreakpointSpec.SessionIsExact | pa_nju/nemu/src/monitor/breakpoint.c:51-193 | memory is the guest's with 0xF1 at exactly the live addresses throughout a session if and only if every command keeps it so: its condition is stated for each kind of command |
| BreakpointSpec.DistinctAddressesStayExact | pa_nju/nemu/src/monitor/breakpoint.c:51-180 | over any sequence of setting and deleting with distinct live addresses, with resuming and stores elsewhere in between, memory is the guest's with 0xF1 at exactly the live addresses, throughout |
| BreakpointSpec.SecondAtStop | pa_nju/nemu/src/cpu/cpu.c:77-88 | at a stop, where memory shows the guest's byte, a second breakpoint on the same address is sound |
| Breakpoint.PoolIsShared | pa_nju/nemu/src/monitor/breakpoint.c:13-49 | live and free list together hold each of the 32 entries exactly once; the free list is empty exactly when 32 are live |
| Breakpoint.ChainWithout | pa_nju/nemu/src/monitor/breakpoint.c:98-105 | leading a link past a node leaves a list of the others, in order |
| Breakpoint.Debugger.InitBpList | pa_nju/nemu/src/monitor/breakpoint.c:13-26 | all 32 entries are free and linked, in order |
| Breakpoint.Debugger.NewBP | pa_nju/nemu/src/monitor/breakpoint.c:28-36 | the head of the free list leaves it; its in_use flag cannot be set |
| Breakpoint.Debugger.FreeBP | pa_nju/nemu/src/monitor/breakpoint.c:38-49 | the entry heads the free list and its patch is undone; neither assertion can fail |
| Breakpoint.Debugger.SetBreakpoint | pa_nju/nemu/src/monitor/breakpoint.c:51-64 | the new entry heads the live list holding the byte it replaces; memory changes at its address only |
| Breakpoint.Debugger.SetWatchpoint | pa_nju/nemu/src/monitor/breakpoint.c:66-84 | an entry without a patch, or -1 when the expression fails |
| Breakpoint.Debugger.DeleteBreakpoint | pa_nju/nemu/src/monitor/breakpoint.c:86-112 | true exactly for a live number; that entry leaves, its patch is undone, and the overlay survives exactly under the condition of DeleteKeepsOverlay |
| Breakpoint.Debugger.DeleteAll | pa_nju/nemu/src/monitor/breakpoint.c:114-128 | everything is free; memory is restored exactly under the condition of DeleteAllRestores |
| Breakpoint.Debugger.FindBreakpoint | pa_nju/nemu/src/monitor/breakpoint.c:153-166 | the newest live breakpoint at the address, or null when there is none |
| Breakpoint.Debugger.MaskBreakpoints | pa_nju/nemu/src/monitor/breakpoint.c:182-193 | memory becomes the guest's |
| Breakpoint.Debugger.ResumeBreakpoints | pa_nju/nemu/src/monitor/breakpoint.c:168-180 | the traps return over what the guest left; entries that held the guest's bytes still do, and so are sound to delete, exactly if the guest left the bytes under breakpoints alone |
| Breakpoint.Debugger.StopAt | pa_nju/nemu/src/cpu/cpu.c:77-88 | at a stop the newest breakpoint of the address gives its byte back; null exactly if none is live there |
| Breakpoint.Debugger.Obey | pa_nju/nemu/src/monitor/breakpoint.c:13-193 | the methods, run over any list of commands, do to memory, entries and both lists what the session function says; a clean session leaves memory safe, one with distinct live addresses leaves the exact overlay |
| LinkList.PoolBound | pa_nju/game/include/adt/linklist.h:45-66 | at most SIZE entries are in use, and an allocation can fail only when all are |
| LinkList.InsertKeepsList | pa_nju/game/include/adt/linklist.h:77-86 | linking a new node between two neighbours keeps the list well formed in both directions |
| LinkList.RemoveKeepsList | pa_nju/game/include/adt/linklist.h:87-95 | unlinking a node leads its neighbours to each other |
| LinkList.FlyPool.New | pa_nju/game/include/adt/linklist.h:48-66 | a node not in use, never the sentinel; used nodes keep their contents; the pool is linked up on the first call only |
| LinkList.FlyPool.Insert | pa_nju/game/include/adt/linklist.h:77-86 | the two neighbours and the node are linked; nothing else changes |
| LinkList.FlyPool.Remove | pa_nju/game/include/adt/linklist.h:87-95 | the neighbours are linked; nothing else changes |
| LinkList.FlyPool.Free | pa_nju/game/include/adt/linklist.h:96-100 | the node heads the free list |
| Effect.StepConserves | pa_nju/game/src/typing/effect.c:53-73 | in a step every letter stays, is hit or is missed |
| Effect.HitsWereRising | pa_nju/game/src/typing/effect.c:53-73 | only letters that were shot become hits, and each of them once |
| Effect.UnshotLetterFate | pa_nju/game/src/typing/effect.c:53-73 | an unshot letter stays for 384 steps and is missed on step 385 |
| Effect.ShotLetterFate | pa_nju/game/src/typing/effect.c:53-73 | a shot letter, wherever in the list: after n steps it is at its place in the list at x - 3n while that is not negative, from then on it is one hit, and never a miss |
| Effect.FallingLetterFate | pa_nju/game/src/typing/effect.c:53-73 | a falling letter likewise at x + n/2, and one miss when that is below the screen |
| Effect.Game.CreateNewLetter | pa_nju/game/src/typing/effect.c:32-50 | a letter at the top heads the list; the key is released; created = live + hit + miss stays true |
| Effect.Game.UpdateLetterPos | pa_nju/game/src/typing/effect.c:53-73 | the list becomes the letters still on screen, in order, moved; hit and miss grow by those that left |
| Effect.Game.UpdateKeypress | pa_nju/game/src/typing/effect.c:76-103 | true exactly if a falling letter's key is down; then the lowest such letter, and no other, turns round |
| MainLoop.RoomForNext | pa_nju/game/src/typing/game.c:62-73 | letters come 33 ticks apart and none lives longer than 448 steps, so fewer than 14 are live when the next is due |
| MainLoop.HandleKeys | pa_nju/game/src/typing/game.c:55-57 | each key that is down with a letter of it falling turns round exactly one, the lowest, and is released; other letters and keys stay; interrupts are on and no such key is left |
| MainLoop.Tick | pa_nju/game/src/typing/game.c:62-73 | every 33rd tick a letter comes first, for which the allocation succeeds, and its key is released; then everything moves, hits and misses counted |
| MainLoop.OnePass | pa_nju/game/src/typing/game.c:42-99 | a pass of the main loop on letters, keys and score: nothing but key presses without a tick; else the shots of HandleKeys, then tick by tick |
| MainLoop.Play | pa_nju/game/src/typing/game.c:36-100 | for any passes of the main loop and any keys: the assertion in fly_new holds, at most 14 letters are on screen, and live, hit and missed ones add up to those due |
| Pic.RaiseKeepsPending | pa_nju/nemu/src/device/i8259_pic.c:24-30 | raising a request keeps the latch at the highest one pending |
| Pic.I8259.RaiseIntr | pa_nju/nemu/src/device/i8259_pic.c:16-37 | one more request is pending, the pin is up, the latch names the highest |
| Pic.I8259.DoIntr | pa_nju/nemu/src/cpu/cpu.c:143-154 | without interference the highest request is taken; the others are forgotten with it |
| Pic.StepKeepsInv | pa_nju/nemu/src/device/i8259_pic.c:16-52 | every step of every thread keeps mutual exclusion, latch, pin and the processor's knowledge in agreement |
| Pic.EveryRunIsSafe | pa_nju/nemu/src/cpu/cpu.c:143-154 | under any interleaving of any number of devices with any request numbers: one thread at a time inside, and with the mutex free the pin is up exactly when a request is pending |
| Pic.NothingTakenWithoutIF | pa_nju/nemu/src/cpu/cpu.c:143-154 | with IF clear whenever the processor looks, no run delivers anything |
| Pic.AssertionHolds | pa_nju/nemu/src/cpu/cpu.c:143-154 | for devices with the numbers R, the assertion in do_intr holds in every run if and only if 223 is not in R |
| Pic.LatchNamesHighest | pa_nju/nemu/src/device/i8259_pic.c:24-30 | the latch names the highest pending request in every run if and only if all of R are below 223 |
| Pic.AcknowledgementForgets | pa_nju/nemu/src/device/i8259_pic.c:39-52 | from any reachable query to its acknowledgement, whatever devices do in between: exactly the number queried is delivered, all pending requests go, and none is lost if and only if the one taken was the only one latched |
| Pic.LateRequestIsLost | pa_nju/nemu/src/device/i8259_pic.c:39-52 | a device that raises its request wholly between query and acknowledgement is never heard, whatever its number |
| Pic.RequestLostFromStart | pa_nju/nemu/src/device/i8259_pic.c:16-52 | a run from the initial state in which the second of two requests is lost |
| Pic.WrappedNumberBreaksAssertion | pa_nju/nemu/src/device/i8259_pic.c:24-29 | a run in which request number 223 is latched as 255 and fails the assertion |
| Idt.DecodeEncoded | pa_nju/nemu/include/cpu/intr.h:7-20 | the processor's bit fields read back what the kernel's wrote |
| Idt.SetIntr | pa_nju/kernel/src/irq/idt.c:11-21 | the descriptor of an interrupt gate; no other entry changes |
| Idt.SetTrap | pa_nju/kernel/src/irq/idt.c:24-34 | the descriptor of a trap gate |
| Idt.InitIdt | pa_nju/kernel/src/irq/idt.c:59-93 | each of the 256 entries is a present gate to its own handler in the kernel segment: interrupt gates for 32, 33, 34, 46, user privilege for 0x80; its two double words are given |
| Idt.GateFromWords | pa_nju/nemu/include/cpu/intr.h:7-20 | offset, selector, type, privilege and present bit of any two double words |
| Idt.HandlersByVector | pa_nju/kernel/src/irq/idt.c:62-89 | which entry point each vector has |
| Segment.DecodeSegEncoded | pa_nju/nemu/include/memory/mmu/segment.h:4-21 | the processor's bit fields of a segment descriptor read back what the kernel's wrote |
| Segment.InitSegment | pa_nju/kernel/src/memory/kvm.c:50-79 | the null descriptor and two segments that load_sreg accepts and that span all addresses from 0; their double words are 0x0000ffff with 0x00cf9a00 and 0x00cf9200 |
| Segment.LoadedFromWords | pa_nju/nemu/src/memory/mmu/segment.c:56-77 | what load_sreg accepts, and the base, limit and type it loads, from any two double words |
| Interrupt.Processor.LoadCs | pa_nju/nemu/src/memory/mmu/segment.c:35-79 | for a selector inside the table whose descriptor is mapped and accepted, the invisible part of CS becomes the descriptor's base, scaled limit and type |
| Isolation.WriteIsolated | pa_nju/nemu/src/memory/memory.c:119-146 | among linear addresses translated apart and off their own tables, a write shows at its range and nowhere else, changes no translation and no byte that none of them reaches |
| Interrupt.FramePushed | pa_nju/nemu/src/cpu/intr.c:14-21 | on isolated addresses the three pushes leave EIP, CS in two bytes and EFLAGS on the stack, do not disturb the gate and change no byte outside |
| Interrupt.TableEnters | pa_nju/nemu/src/cpu/intr.c:23-38 | with the kernel's table a vector enters its own handler at selector 8; bit 9 of EFLAGS goes off exactly for vectors 32, 33, 34 and 46, every other bit stays |
| Interrupt.MaskedBits | pa_nju/nemu/src/cpu/intr.c:28-31 | masking clears bit 9 of EFLAGS and leaves every other bit |
| Interrupt.FramePopped | pa_nju/nemu/src/cpu/instr/iret.c:6-38 | popping a frame, CS in four bytes of which two count, gives the saved registers |
| Interrupt.ApartIsEnough | pa_nju/nemu/src/cpu/intr.c:5-41 | if frame and gate are translated apart from each other and from their tables, the pushes succeed and the gate read is the one that was there before |
| Interrupt.Processor.RaiseIntr | pa_nju/nemu/src/cpu/intr.c:5-41 | for any stack, gate and segment that are mapped when reached and a segment that load_sreg accepts: memory is what the three pushes leave, the registers are entered through the gate that memory then shows, a gate of type 0xE clears bit 9 of EFLAGS and no gate another, and CS holds the segment that memory then shows |
| Interrupt.Processor.RaiseThroughTable | pa_nju/nemu/src/cpu/intr.c:5-41 | through a gate that serves the vector: its handler, selector 8, bit 9 of EFLAGS off exactly for 32, 33, 34 and 46, other bits as they were, and the old state on any isolated stack |
| Interrupt.Processor.RaiseSwIntr | pa_nju/nemu/src/cpu/intr.c:43-48 | the saved address is behind the two-byte instruction |
| Interrupt.Processor.Iret | pa_nju/nemu/src/cpu/instr/iret.c:6-38 | the three words on the stack become EIP, CS and EFLAGS |
| Interrupt.Processor.RaiseAndReturn | pa_nju/nemu/src/cpu/intr.c:5-41 | entering and returning restores ESP, and EIP, CS and EFLAGS too where frame and gate are apart |
| KernelInterrupts.KernelIsolated | pa_nju/kernel/src/memory/kvm.c:12-40 | under any directory with the kernel's upper half, kernel addresses off directory and tables are translated apart and off every entry consulted |
| KernelInterrupts.ImageServes | pa_nju/kernel/src/irq/idt.c:59-93 | a table stored in kernel memory is what the processor reads gate by gate |
| KernelInterrupts.SegmentImageServes | pa_nju/nemu/src/memory/mmu/segment.c:35-79 | with the kernel's segments stored, every assertion of load_sreg holds for selector 8, and the segment loaded is flat |
| KernelInterrupts.StoreTable | pa_nju/kernel/src/irq/idt.c:59-93 | the kernel's stores, translated by its own tables, put a descriptor table into memory and change no other byte |
| KernelInterrupts.TakeInterrupt | pa_nju/nemu/src/cpu/intr.c:5-41 | any vector on any stack, kernel's or user's, that is translated apart from the descriptor and page tables: its own handler in the flat code segment of selector 8, bit 9 of EFLAGS off exactly for 32, 33, 34 and 46, other bits as they were, the old state in the frame and nothing else changed in memory, and the next interrupt can be taken alike |
| KernelInterrupts.DoIntr | pa_nju/nemu/src/cpu/cpu.c:143-154 | from device to handler, without interference: with interrupts on the highest pending request is taken, and requests 0, 1, 2 and 14 enter irq0, irq1, irq2 and irq14 with interrupts off |
| KernelInterrupts.TakeAndReturn | pa_nju/nemu/src/cpu/instr/iret.c:6-38 | entering and returning restores all registers; only bytes that the frame's addresses reach change |
| KernelInterrupts.KernelStackApart | pa_nju/kernel/src/memory/kvm.c:12-40 | every kernel stack clear of the tables is apart in that sense |
| KernelInterrupts.OnlyTheFrame | pa_nju/nemu/src/cpu/intr.c:14-21 | on such a stack exactly the twelve bytes below the stack pointer may change |
| KernelInterrupts.Boot | pa_nju/kernel/src/main.c:22-90 | from a machine without paging: after page tables, segments, gate table, user directory, screen and the switch to the user's directory, every vector reaches the handler that init_idt gave it |
| KernelInterrupts.BootAndTake | pa_nju/kernel/src/main.c:22-90 | booting and then any vector on any kernel stack clear of the tables: the handler, its flat segment and the saved registers |
| QuickSort.HoleMoves | pa_nju/testcase/src/quick-sort.c:11-21 | moving an element into the hole keeps the multiset of the array with its hole filled by the pivot |
| QuickSort.Partition | pa_nju/testcase/src/quick-sort.c:7-24 | the pivot's final place, with no larger element before it and only larger ones behind; a rearrangement of the range |
| QuickSort.Sort | pa_nju/testcase/src/quick-sort.c:26-34 | any range of any array becomes sorted by rearranging it and touching nothing else; it terminates |

## Left out

- Memory-mapped devices: `paddr_read` and `paddr_write` are modelled for addresses that no device claims.
- The translation look-aside buffer, which the configuration does not enable.
- Segmentation other than loading CS in `raise_intr`: all accesses are through flat segments, as `segment_translate`
  asserts.
- A missing page stops the emulator; the methods require present entries and memory behind them.
- `memset` and `memcpy` of page tables are loops over double words; the library's own code is not part of this model.
- `mm_malloc`, whose source is not part of this model, and with it the user's pages outside the screen.
- Bitwise operations on disjoint fields are written as sums, shifts as multiplication and division by powers of two.
- The comparison instructions of the FPU, which use the host's floats, and the register stack around the arithmetic.
- Alu.CpuState.AluShl: a count of 32, or of 0, at width 32 shifts by 32 places, which the C language leaves undefined,
  and is excluded, as for AluSal; AluShr and AluSar exclude 32 at width 32 and 0, which shifts by -1 places.
- Multiplication, division and logic in `alu.c`, and the bodies of the instructions.
- Breakpoint.Debugger.SetWatchpoint: the expression's value is a parameter, because its evaluator is not implemented.
- Breakpoints patch a flat memory; the translation behind `vaddr_write` is the one of `Paging`.
- Effect.Game.CreateNewLetter: the random choices are parameters, and rows are reals; all rows are multiples of one
  half.
- KernelInterrupts.StoreTable: the stores of one descriptor's fields are gathered into its two double words.
- The kernel's own interrupt stubs and the chain of handlers behind them; the `int` instruction, which clears IF by
  itself.
- The rest of the game, the user interface, the devices, ELF loading and the file system.
